/**
 * Splitting and joining strings on a one-character separator, as Python's
 * `str.split(sep)` (with an explicit separator) and `sep.join(pieces)` do,
 * together with `str.find` and `str.rfind` for a single character.
 */
module Strings {

  /** Index of the first `c` in `s`, or `|s|` when `s` has none (`str.find`, with `|s|` for -1). */
  function IndexOf(s: string, c: char): (i: nat)
    ensures i <= |s|
  {
    if s == [] then 0
    else if s[0] == c then 0
    else 1 + IndexOf(s[1..], c)
  }

  /** `IndexOf` finds a `c` when there is one, and no `c` comes before it. */
  lemma {:induction false} IndexOfFirst(s: string, c: char)
    ensures IndexOf(s, c) < |s| ==> s[IndexOf(s, c)] == c
    ensures forall j :: 0 <= j < IndexOf(s, c) ==> s[j] != c
  {
    if s != [] && s[0] != c {
      IndexOfFirst(s[1..], c);
    }
  }

  /** Index of the last `c` in `s`, or -1 when `s` has none (`str.rfind`). */
  function LastIndexOf(s: string, c: char): (i: int)
    ensures -1 <= i < |s|
  {
    if s == [] then -1
    else if s[|s| - 1] == c then |s| - 1
    else LastIndexOf(s[..|s| - 1], c)
  }

  /** `LastIndexOf` finds a `c` when there is one, and no `c` comes after it. */
  lemma {:induction false} LastIndexOfLast(s: string, c: char)
    ensures 0 <= LastIndexOf(s, c) ==> s[LastIndexOf(s, c)] == c
    ensures forall j :: LastIndexOf(s, c) < j < |s| ==> s[j] != c
  {
    if s != [] && s[|s| - 1] != c {
      LastIndexOfLast(s[..|s| - 1], c);
    }
  }

  /**
   * `s.split(sep)`: the maximal runs between separators, in order. Every
   * separator ends one piece and starts the next, so the empty string gives
   * one empty piece and a trailing separator gives an empty last piece.
   */
  function Split(s: string, sep: char): (pieces: seq<string>)
    decreases |s|
  {
    var i := IndexOf(s, sep);
    if i == |s| then [s] else [s[..i]] + Split(s[i + 1..], sep)
  }

  /** `sep.join(pieces)`. */
  function Join(pieces: seq<string>, sep: char): string
  {
    if |pieces| == 0 then ""
    else if |pieces| == 1 then pieces[0]
    else pieces[0] + [sep] + Join(pieces[1..], sep)
  }

  /** In `x + [sep] + y` with no `sep` in `x`, the first separator is the one after `x`. */
  lemma IndexOfAfter(x: string, sep: char, y: string)
    requires sep !in x
    ensures IndexOf(x + [sep] + y, sep) == |x|
  {
    var s := x + [sep] + y;
    IndexOfFirst(s, sep);
    assert forall j :: 0 <= j < |x| ==> s[j] == x[j];
    assert s[|x|] == sep;
  }

  /** A string without the separator is a single piece. */
  lemma SplitWithout(s: string, sep: char)
    requires sep !in s
    ensures Split(s, sep) == [s]
  {
    IndexOfFirst(s, sep);
    assert forall j :: 0 <= j < |s| ==> s[j] in s;
  }

  /** Splitting never loses text: joining the pieces again gives back the input. */
  lemma {:induction false} SplitJoin(s: string, sep: char)
    ensures Join(Split(s, sep), sep) == s
    decreases |s|
  {
    var i := IndexOf(s, sep);
    IndexOfFirst(s, sep);
    if i < |s| {
      var rest := s[i + 1..];
      SplitJoin(rest, sep);
      SplitNonEmpty(rest, sep);
      var pieces := Split(s, sep);
      assert pieces == [s[..i]] + Split(rest, sep);
      assert pieces[1..] == Split(rest, sep);
      assert s == s[..i] + [sep] + rest;
    }
  }

  /** There is always at least one piece. */
  lemma SplitNonEmpty(s: string, sep: char)
    ensures |Split(s, sep)| >= 1
  {
  }

  /** No piece contains the separator. */
  lemma {:induction false} SplitNoSeparator(s: string, sep: char)
    ensures forall k :: 0 <= k < |Split(s, sep)| ==> sep !in Split(s, sep)[k]
    decreases |s|
  {
    var i := IndexOf(s, sep);
    IndexOfFirst(s, sep);
    if i < |s| {
      var rest := s[i + 1..];
      SplitNoSeparator(rest, sep);
      assert Split(s, sep) == [s[..i]] + Split(rest, sep);
    }
  }

  /** There is exactly one more piece than there are separators in the input. */
  lemma {:induction false} SplitCount(s: string, sep: char)
    ensures |Split(s, sep)| == multiset(s)[sep] + 1
    decreases |s|
  {
    var i := IndexOf(s, sep);
    IndexOfFirst(s, sep);
    if i == |s| {
      assert sep !in s;
      assert sep !in multiset(s);
    } else {
      var rest := s[i + 1..];
      SplitCount(rest, sep);
      assert s == s[..i] + [sep] + rest;
      assert sep !in s[..i];
      assert sep !in multiset(s[..i]);
      assert multiset(s) == multiset(s[..i]) + multiset([sep]) + multiset(rest);
    }
  }

  /** Joining pieces that do not contain the separator and splitting again gives back the pieces. */
  lemma {:induction false} JoinSplit(pieces: seq<string>, sep: char)
    requires |pieces| >= 1
    requires forall k :: 0 <= k < |pieces| ==> sep !in pieces[k]
    ensures Split(Join(pieces, sep), sep) == pieces
    decreases |pieces|
  {
    if |pieces| == 1 {
      SplitWithout(pieces[0], sep);
    } else {
      var x, rest := pieces[0], pieces[1..];
      var tail := Join(rest, sep);
      IndexOfAfter(x, sep, tail);
      JoinSplit(rest, sep);
      var s := x + [sep] + tail;
      assert s[..|x|] == x;
      assert s[|x| + 1..] == tail;
      assert pieces == [x] + rest;
    }
  }

  /** A trailing separator always produces an empty last piece. */
  lemma {:induction false} SplitTrailingSeparator(s: string, sep: char)
    ensures var pieces := Split(s + [sep], sep);
      |pieces| >= 2 && pieces[|pieces| - 1] == ""
    decreases |s|
  {
    var t := s + [sep];
    var i := IndexOf(t, sep);
    IndexOfFirst(t, sep);
    assert t[|s|] == sep;
    assert i <= |s|;
    var rest := t[i + 1..];
    assert Split(t, sep) == [t[..i]] + Split(rest, sep);
    if i == |s| {
      assert rest == [];
      assert Split(rest, sep) == [""];
    } else {
      assert rest == s[i + 1..] + [sep];
      SplitTrailingSeparator(s[i + 1..], sep);
    }
  }
}
