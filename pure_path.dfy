/**
 * The part of Python's POSIX `pathlib` that the transcription driver relies
 * on: building a path from a string, rendering it back with `str()`, the
 * `name`, `suffix`, `stem` and `parent` properties, the `/` operator and
 * `with_suffix`. A path is held as pathlib holds it once parsed: a root
 * ("", "/" or "//") and the list of its components.
 */
module PurePath {
  import opened Strings
  import opened Results

  datatype Path = Path(root: string, parts: seq<string>)

  /** The two ways `with_suffix` can refuse. */
  datatype PathError = InvalidSuffix(suffix: string) | EmptyName(path: Path)

  /** A component as parsing leaves it: not empty, not ".", and free of "/". */
  predicate IsComponent(c: string)
  {
    c != "" && c != "." && '/' !in c
  }

  /** What every parsed path satisfies. */
  predicate Valid(p: Path)
  {
    && (p.root == "" || p.root == "/" || p.root == "//")
    && forall k :: 0 <= k < |p.parts| ==> IsComponent(p.parts[k])
  }

  /** The number of slashes `s` starts with. */
  function LeadingSlashes(s: string): (n: nat)
    ensures n <= |s|
  {
    if s != [] && s[0] == '/' then 1 + LeadingSlashes(s[1..]) else 0
  }

  /** `LeadingSlashes` counts the whole run of slashes at the start and no more. */
  lemma {:induction false} LeadingSlashesRun(s: string)
    ensures forall j :: 0 <= j < LeadingSlashes(s) ==> s[j] == '/'
    ensures LeadingSlashes(s) < |s| ==> s[LeadingSlashes(s)] != '/'
  {
    if s != [] && s[0] == '/' {
      LeadingSlashesRun(s[1..]);
    }
  }

  /** The pieces of a split that parsing keeps: the empty and "." ones are dropped. */
  function Components(pieces: seq<string>): seq<string>
  {
    if pieces == [] then []
    else (if pieces[0] == "" || pieces[0] == "." then [] else [pieces[0]]) + Components(pieces[1..])
  }

  /** What parsing keeps is taken from the pieces and is neither empty nor ".". */
  lemma {:induction false} ComponentsFromPieces(pieces: seq<string>)
    ensures forall k :: 0 <= k < |Components(pieces)| ==>
      Components(pieces)[k] in pieces && Components(pieces)[k] != "" && Components(pieces)[k] != "."
  {
    if pieces != [] {
      ComponentsFromPieces(pieces[1..]);
      var cs := Components(pieces);
      var head := if pieces[0] == "" || pieces[0] == "." then [] else [pieces[0]];
      assert cs == head + Components(pieces[1..]);
      forall k | 0 <= k < |cs|
        ensures cs[k] in pieces
      {
        if k >= |head| {
          assert cs[k] == Components(pieces[1..])[k - |head|];
          assert cs[k] in pieces[1..];
        }
      }
    }
  }

  /**
   * `Path(s)`: exactly two leading slashes are kept as the root "//", one or
   * three and more collapse to "/"; the rest is split on "/" and empty and
   * "." components are dropped, so "" and "." both give the empty path.
   */
  function Parse(s: string): Path
  {
    var n := LeadingSlashes(s);
    var root := if n == 0 then "" else if n == 2 then "//" else "/";
    Path(root, Components(Split(s[n..], '/')))
  }

  /** `str(p)`: the root followed by the components joined with "/", or "." for the empty path. */
  function Str(p: Path): string
  {
    if p.root == "" && p.parts == [] then "." else p.root + Join(p.parts, '/')
  }

  /** `p.name`: the last component, or "" when there is none. */
  function Name(p: Path): string
  {
    if p.parts == [] then "" else p.parts[|p.parts| - 1]
  }

  /** `suffix` of a final component: from its last dot, unless that dot is its first or last character. */
  function Suffix(name: string): string
  {
    var i := LastIndexOf(name, '.');
    if 0 < i < |name| - 1 then name[i..] else ""
  }

  /** `stem` of a final component: what is left when its suffix is removed. */
  function Stem(name: string): string
  {
    var i := LastIndexOf(name, '.');
    if 0 < i < |name| - 1 then name[..i] else name
  }

  /** `p.parent`: the path without its last component; the empty path and a bare root are their own parents. */
  function Parent(p: Path): Path
  {
    if p.parts == [] then p else Path(p.root, p.parts[..|p.parts| - 1])
  }

  /** `base / child`: a child with a root replaces the base, otherwise its components are appended. */
  function JoinPath(base: Path, child: Path): Path
  {
    if child.root != "" then child else Path(base.root, base.parts + child.parts)
  }

  /**
   * `p.with_suffix(suffix)`: an invalid suffix or a path without a name
   * raises; otherwise the old suffix of the name is replaced by the new
   * one, or the new one is appended when the name has no suffix.
   */
  function WithSuffix(p: Path, suffix: string): Result<Path, PathError>
  {
    if '/' in suffix || (suffix != "" && suffix[0] != '.') || suffix == "." then
      Err(InvalidSuffix(suffix))
    else
      var name := Name(p);
      if name == "" then
        Err(EmptyName(p))
      else
        var oldSuffix := Suffix(name);
        var newName := if oldSuffix == "" then name + suffix else name[..|name| - |oldSuffix|] + suffix;
        Ok(Path(p.root, p.parts[..|p.parts| - 1] + [newName]))
  }

  /** Every parsed path is well formed. */
  lemma ParseValid(s: string)
    ensures Valid(Parse(s))
  {
    var n := LeadingSlashes(s);
    var pieces := Split(s[n..], '/');
    SplitNoSeparator(s[n..], '/');
    ComponentsFromPieces(pieces);
    var cs := Components(pieces);
    forall k | 0 <= k < |cs|
      ensures IsComponent(cs[k])
    {
      var m :| 0 <= m < |pieces| && pieces[m] == cs[k];
    }
  }

  /** Parsing keeps a list that holds only components. */
  lemma {:induction false} ComponentsKeep(pieces: seq<string>)
    requires forall k :: 0 <= k < |pieces| ==> IsComponent(pieces[k])
    ensures Components(pieces) == pieces
  {
    if pieces != [] {
      ComponentsKeep(pieces[1..]);
      assert pieces == [pieces[0]] + pieces[1..];
    }
  }

  /** A root followed by text that does not start with a slash has exactly the root's slashes. */
  lemma LeadingSlashesOf(root: string, rest: string)
    requires forall j :: 0 <= j < |root| ==> root[j] == '/'
    requires rest == [] || rest[0] != '/'
    ensures LeadingSlashes(root + rest) == |root|
  {
    var s := root + rest;
    LeadingSlashesRun(s);
    assert forall j :: 0 <= j < |root| ==> s[j] == '/';
    assert |root| < |s| ==> s[|root|] == rest[0];
  }

  /** The joined components start with the first component. */
  lemma JoinStartsWith(parts: seq<string>, sep: char)
    requires |parts| >= 1
    ensures |Join(parts, sep)| >= |parts[0]|
    ensures Join(parts, sep)[..|parts[0]|] == parts[0]
  {
  }

  /** Rendering a well-formed path and parsing the text gives back the same path. */
  lemma ParseStr(p: Path)
    requires Valid(p)
    ensures Parse(Str(p)) == p
  {
    if p.root == "" && p.parts == [] {
      assert Str(p) == ".";
      assert LeadingSlashes(".") == 0;
      SplitWithout(".", '/');
      assert Components(["."]) == [];
    } else {
      var text := Join(p.parts, '/');
      if p.parts != [] {
        JoinStartsWith(p.parts, '/');
        assert text[0] == p.parts[0][0];
        assert p.parts[0][0] in p.parts[0];
      }
      LeadingSlashesOf(p.root, text);
      assert Str(p)[|p.root|..] == text;
      if p.parts == [] {
        SplitWithout("", '/');
        assert Components([""]) == [];
        assert |p.root| == 1 ==> p.root == "/";
        assert |p.root| == 2 ==> p.root == "//";
      } else {
        JoinSplit(p.parts, '/');
        ComponentsKeep(p.parts);
      }
    }
  }

  /** A name parses to a relative path of that one component, or to the empty path when it is "". */
  lemma ParseName(c: string)
    requires c == "" || IsComponent(c)
    ensures Parse(c) == Path("", if c == "" then [] else [c])
  {
    if c != "" {
      assert c[0] in c;
      SplitWithout(c, '/');
      ComponentsKeep([c]);
    } else {
      SplitWithout("", '/');
    }
  }

  /** The stem and the suffix of a name are its two halves; a non-empty name has a non-empty stem. */
  lemma StemSuffix(name: string)
    ensures Stem(name) + Suffix(name) == name
    ensures name != "" ==> Stem(name) != ""
    ensures Suffix(name) == "" || Suffix(name)[0] == '.'
  {
    LastIndexOfLast(name, '.');
  }

  /** A non-empty stem followed by ".txt" has the suffix ".txt" and gives back that stem. */
  lemma TxtSuffix(stem: string)
    requires stem != ""
    ensures Suffix(stem + ".txt") == ".txt"
    ensures Stem(stem + ".txt") == stem
  {
    var t := stem + ".txt";
    LastIndexOfLast(t, '.');
    assert t[|stem|] == '.';
    assert t[|stem| + 1] == 't' && t[|stem| + 2] == 'x' && t[|stem| + 3] == 't';
    assert LastIndexOf(t, '.') == |stem|;
    assert t[|stem|..] == ".txt";
  }

  /**
   * Only the last extension is the suffix: a non-empty stem (which may hold
   * dots of its own) followed by "." and an extension without dots has that
   * extension as its suffix and gives back the stem.
   */
  lemma LastExtension(stem: string, ext: string)
    requires stem != "" && ext != ""
    requires '.' !in ext
    ensures Suffix(stem + "." + ext) == "." + ext
    ensures Stem(stem + "." + ext) == stem
  {
    var name := stem + "." + ext;
    LastIndexOfLast(name, '.');
    assert name[|stem|] == '.';
    assert forall j :: |stem| < j < |name| ==> name[j] == ext[j - |stem| - 1];
    assert forall j :: |stem| < j < |name| ==> name[j] in ext;
    assert name[..|stem|] == stem;
    assert name[|stem|..] == "." + ext;
  }

  /** ".txt" passes `with_suffix`'s checks on the suffix itself. */
  lemma TxtIsValidSuffix()
    ensures !('/' in ".txt" || (".txt" != "" && ".txt"[0] != '.') || ".txt" == ".")
  {
    var suffix := ".txt";
    assert forall j :: 0 <= j < |suffix| ==> suffix[j] != '/';
  }

  /** `with_suffix(".txt")` raises exactly when the path has no name, and then with that path. */
  lemma WithSuffixTxtFails(p: Path)
    ensures WithSuffix(p, ".txt").Ok? <==> Name(p) != ""
    ensures WithSuffix(p, ".txt").Err? ==> WithSuffix(p, ".txt").error == EmptyName(p)
  {
    TxtIsValidSuffix();
  }

  /**
   * On a path with a name, `with_suffix(".txt")` keeps the root and the
   * parent and gives the name the suffix ".txt" while keeping its stem, so
   * only the last extension is replaced and a name without one gets ".txt"
   * appended.
   */
  lemma WithSuffixTxt(p: Path)
    requires Name(p) != ""
    ensures WithSuffix(p, ".txt").Ok?
    ensures var q := WithSuffix(p, ".txt").value;
      && q.root == p.root
      && Parent(q) == Parent(p)
      && Name(q) == Stem(Name(p)) + ".txt"
      && Suffix(Name(q)) == ".txt"
      && Stem(Name(q)) == Stem(Name(p))
      && (Suffix(Name(p)) == "" ==> Name(q) == Name(p) + ".txt")
  {
    TxtIsValidSuffix();
    var name := Name(p);
    StemSuffix(name);
    var stem := Stem(name);
    assert name[..|name| - |Suffix(name)|] == stem;
    TxtSuffix(stem);
    var q := WithSuffix(p, ".txt").value;
    assert q == Path(p.root, p.parts[..|p.parts| - 1] + [stem + ".txt"]);
    assert q.parts[..|q.parts| - 1] == p.parts[..|p.parts| - 1];
  }

  /** `with_suffix(".txt")` turns a well-formed path with a name into a well-formed path. */
  lemma WithSuffixTxtValid(p: Path)
    requires Valid(p) && Name(p) != ""
    ensures WithSuffix(p, ".txt").Ok? && Valid(WithSuffix(p, ".txt").value)
  {
    WithSuffixTxt(p);
    var name := Name(p);
    var stem := Stem(name);
    StemSuffix(name);
    assert IsComponent(name);
    assert forall j :: 0 <= j < |stem| ==> stem[j] == name[j] && name[j] in name;
    var newName := stem + ".txt";
    assert forall j :: 0 <= j < |newName| ==> newName[j] != '/';
    assert IsComponent(newName);
    var q := WithSuffix(p, ".txt").value;
    assert q.parts == p.parts[..|p.parts| - 1] + [newName];
  }
}
