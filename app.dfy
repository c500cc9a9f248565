/**
 * The batch step of the "transcribe" button handler: the newline-joined
 * selection is split into input paths, every input gets a text file path,
 * the transcription of the input is written there, and one
 * (audio file, text file) row per input is collected in order.
 *
 * The speech-recognition call is the parameter `transcribe`, the outcome of
 * the output-directory test is the parameter `outputIsDir`, and every
 * `write_text` is recorded as a `Write` instead of touching a disk.
 */
module App {
  import opened Strings
  import opened PurePath
  import opened Results

  /** One row of the result table: the input as selected and the rendered save path. */
  datatype Row = Row(audio: string, text: string)

  /** One `write_text` call: the file written and the text written to it. */
  datatype Write = Write(path: Path, text: string)

  /** The job stopped at input `index` because its save path could not be formed. */
  datatype JobError = JobError(index: nat, cause: PathError)

  /** What a job returns (the rows, or the error it raised) and the files it wrote on the way. */
  datatype Job = Job(outcome: Result<seq<Row>, JobError>, writes: seq<Write>)

  /**
   * Where the text for one input goes: when the output-directory test holds,
   * the input's file name inside that directory, otherwise the input path
   * itself, in both cases with the suffix ".txt".
   */
  function SavePath(piece: string, outputDir: string, outputIsDir: bool): Result<Path, PathError>
  {
    if outputIsDir then
      WithSuffix(JoinPath(Parse(outputDir), Parse(Name(Parse(piece)))), ".txt")
    else
      WithSuffix(Parse(piece), ".txt")
  }

  /** The audio column of the result table. */
  function AudioColumn(rows: seq<Row>): (audio: seq<string>)
    ensures |audio| == |rows|
    ensures forall k :: 0 <= k < |rows| ==> audio[k] == rows[k].audio
  {
    if rows == [] then [] else [rows[0].audio] + AudioColumn(rows[1..])
  }

  /**
   * Forming a save path fails exactly when the input has no file name and
   * either the directory test fails or the output directory has no name
   * either (an empty output directory parses as ".").
   */
  lemma SavePathFails(piece: string, outputDir: string, outputIsDir: bool)
    ensures SavePath(piece, outputDir, outputIsDir).Err? <==>
      Name(Parse(piece)) == "" && (!outputIsDir || Name(Parse(outputDir)) == "")
  {
    var name := Name(Parse(piece));
    ParseValid(piece);
    ParseName(name);
    var joined := JoinPath(Parse(outputDir), Parse(name));
    assert Name(joined) == (if name == "" then Name(Parse(outputDir)) else name);
    WithSuffixTxtFails(joined);
    WithSuffixTxtFails(Parse(piece));
  }

  /**
   * With the directory test holding and an input that has a file name, the
   * save path lies directly in the output directory and its name is the
   * input's stem with ".txt": the input's own directories play no part.
   */
  lemma SavePathInOutputDir(piece: string, outputDir: string)
    requires Name(Parse(piece)) != ""
    ensures SavePath(piece, outputDir, true).Ok?
    ensures var save := SavePath(piece, outputDir, true).value;
      && Parent(save) == Parse(outputDir)
      && Name(save) == Stem(Name(Parse(piece))) + ".txt"
      && Stem(Name(save)) == Stem(Name(Parse(piece)))
      && Suffix(Name(save)) == ".txt"
  {
    var name := Name(Parse(piece));
    ParseValid(piece);
    ParseName(name);
    var joined := JoinPath(Parse(outputDir), Parse(name));
    assert joined == Path(Parse(outputDir).root, Parse(outputDir).parts + [name]);
    assert Parent(joined) == Parse(outputDir);
    WithSuffixTxt(joined);
  }

  /** Two inputs with the same file name get the same save path in the output directory. */
  lemma SavePathInOutputDirUsesNameOnly(piece1: string, piece2: string, outputDir: string)
    requires Name(Parse(piece1)) == Name(Parse(piece2))
    ensures SavePath(piece1, outputDir, true) == SavePath(piece2, outputDir, true)
  {
  }

  /**
   * With the directory test failing, an input with a file name is saved
   * beside itself: same root, same parent, name = its stem with ".txt".
   */
  lemma SavePathBesideInput(piece: string, outputDir: string)
    requires Name(Parse(piece)) != ""
    ensures SavePath(piece, outputDir, false).Ok?
    ensures var save := SavePath(piece, outputDir, false).value;
      && save.root == Parse(piece).root
      && Parent(save) == Parent(Parse(piece))
      && Name(save) == Stem(Name(Parse(piece))) + ".txt"
      && Stem(Name(save)) == Stem(Name(Parse(piece)))
      && Suffix(Name(save)) == ".txt"
  {
    WithSuffixTxt(Parse(piece));
  }

  /**
   * Whatever branch is taken, a formed save path ends in ".txt", is well
   * formed, and the text in the result row parses back to the very path
   * that was written.
   */
  lemma SavePathIsTextFile(piece: string, outputDir: string, outputIsDir: bool)
    requires SavePath(piece, outputDir, outputIsDir).Ok?
    ensures var save := SavePath(piece, outputDir, outputIsDir).value;
      && Suffix(Name(save)) == ".txt"
      && Valid(save)
      && Parse(Str(save)) == save
  {
    var name := Name(Parse(piece));
    ParseValid(piece);
    ParseValid(outputDir);
    ParseName(name);
    var joined := JoinPath(Parse(outputDir), Parse(name));
    assert Valid(joined);
    var input := if outputIsDir then joined else Parse(piece);
    WithSuffixTxtFails(input);
    WithSuffixTxt(input);
    WithSuffixTxtValid(input);
    ParseStr(SavePath(piece, outputDir, outputIsDir).value);
  }

  /**
   * An input without a file name (the empty piece, "/" or ".") in the
   * directory branch is not refused: the directory path itself gets the
   * suffix, so the text lands next to the output directory, not inside it.
   */
  lemma SavePathNamelessInOutputDir(piece: string, outputDir: string)
    requires Name(Parse(piece)) == ""
    ensures SavePath(piece, outputDir, true) == WithSuffix(Parse(outputDir), ".txt")
  {
    ParseName("");
    var dir := Parse(outputDir);
    assert dir.parts + [] == dir.parts;
    assert JoinPath(dir, Parse("")) == dir;
  }

  /**
   * A selection that ends with a newline has an empty last piece, and when
   * the directory test fails that piece stops the job: the empty path has no
   * name for `with_suffix`.
   */
  lemma TrailingNewlineFails(selection: string, outputDir: string)
    ensures var pieces := Split(selection + "\n", '\n');
      && |pieces| >= 2
      && pieces[|pieces| - 1] == ""
      && SavePath(pieces[|pieces| - 1], outputDir, false) == Err(EmptyName(Path("", [])))
  {
    SplitTrailingSeparator(selection, '\n');
    ParseName("");
    WithSuffixTxtFails(Path("", []));
  }

  /** The save-path rule for one output directory and one outcome of its directory test. */
  function Resolver(outputDir: string, outputIsDir: bool): string -> Result<Path, PathError>
  {
    piece => SavePath(piece, outputDir, outputIsDir)
  }

  /**
   * The job over the pieces of a selection, as a value, for any rule
   * `resolve` that gives each piece its save path: the pieces are taken in
   * order; each one's save path is formed, its text written there and a
   * row appended; the first piece whose save path cannot be formed ends the
   * job with that error, after the writes of the pieces before it.
   */
  function Run(pieces: seq<string>, resolve: string -> Result<Path, PathError>, transcribe: string -> string): Job
    decreases |pieces|
  {
    if pieces == [] then Job(Ok([]), [])
    else
      var n := |pieces| - 1;
      var before := Run(pieces[..n], resolve, transcribe);
      if before.outcome.Err? then before
      else match resolve(pieces[n])
        case Err(e) => Job(Err(JobError(n, e)), before.writes)
        case Ok(save) =>
          Job(Ok(before.outcome.value + [Row(pieces[n], Str(save))]),
              before.writes + [Write(save, transcribe(pieces[n]))])
  }

  /** Taking one more piece after a successful prefix either fails on it or adds its row and its write. */
  lemma RunOneMore(pieces: seq<string>, i: nat, resolve: string -> Result<Path, PathError>, transcribe: string -> string)
    requires i < |pieces|
    requires Run(pieces[..i], resolve, transcribe).outcome.Ok?
    ensures var before := Run(pieces[..i], resolve, transcribe);
      var save := resolve(pieces[i]);
      Run(pieces[..i + 1], resolve, transcribe) ==
        if save.Err? then Job(Err(JobError(i, save.error)), before.writes)
        else Job(Ok(before.outcome.value + [Row(pieces[i], Str(save.value))]),
                 before.writes + [Write(save.value, transcribe(pieces[i]))])
  {
    assert pieces[..i + 1][..i] == pieces[..i];
  }

  /** Once the job has raised, the pieces after the failing one change nothing. */
  lemma {:induction false} RunStopsAtError(pieces: seq<string>, m: nat, resolve: string -> Result<Path, PathError>, transcribe: string -> string)
    requires m <= |pieces|
    requires Run(pieces[..m], resolve, transcribe).outcome.Err?
    ensures Run(pieces, resolve, transcribe) == Run(pieces[..m], resolve, transcribe)
    decreases |pieces|
  {
    if m < |pieces| {
      var n := |pieces| - 1;
      assert pieces[..n][..m] == pieces[..m];
      RunStopsAtError(pieces[..n], m, resolve, transcribe);
    } else {
      assert pieces[..m] == pieces;
    }
  }

  /** The job succeeds exactly when every piece has a save path. */
  lemma {:induction false} RunSucceeds(pieces: seq<string>, resolve: string -> Result<Path, PathError>, transcribe: string -> string)
    ensures Run(pieces, resolve, transcribe).outcome.Ok? <==>
      forall k :: 0 <= k < |pieces| ==> resolve(pieces[k]).Ok?
    decreases |pieces|
  {
    if pieces != [] {
      var n := |pieces| - 1;
      var init := pieces[..n];
      RunSucceeds(init, resolve, transcribe);
      assert pieces[..n + 1] == pieces;
      assert forall k :: 0 <= k < n ==> init[k] == pieces[k];
      if Run(init, resolve, transcribe).outcome.Ok? {
        RunOneMore(pieces, n, resolve, transcribe);
      } else {
        RunStopsAtError(pieces, n, resolve, transcribe);
      }
    }
  }

  /** A job that succeeds has one row per piece, in order: the piece and its rendered save path. */
  lemma {:induction false} RunRows(pieces: seq<string>, resolve: string -> Result<Path, PathError>, transcribe: string -> string)
    requires Run(pieces, resolve, transcribe).outcome.Ok?
    ensures var rows := Run(pieces, resolve, transcribe).outcome.value;
      && |rows| == |pieces|
      && forall k :: 0 <= k < |pieces| ==>
           && resolve(pieces[k]).Ok?
           && rows[k] == Row(pieces[k], Str(resolve(pieces[k]).value))
    decreases |pieces|
  {
    if pieces != [] {
      var n := |pieces| - 1;
      var init := pieces[..n];
      assert pieces[..n + 1] == pieces;
      assert Run(init, resolve, transcribe).outcome.Ok?;
      RunRows(init, resolve, transcribe);
      RunOneMore(pieces, n, resolve, transcribe);
      assert forall k :: 0 <= k < n ==> init[k] == pieces[k];
    }
  }

  /**
   * A job that fails names the first piece without a save path: every
   * piece before it has one, and its error is that piece's error.
   */
  lemma {:induction false} RunError(pieces: seq<string>, resolve: string -> Result<Path, PathError>, transcribe: string -> string)
    requires Run(pieces, resolve, transcribe).outcome.Err?
    ensures var error := Run(pieces, resolve, transcribe).outcome.error;
      && error.index < |pieces|
      && resolve(pieces[error.index]) == Err(error.cause)
      && forall k :: 0 <= k < error.index ==> resolve(pieces[k]).Ok?
    decreases |pieces|
  {
    var n := |pieces| - 1;
    var init := pieces[..n];
    assert pieces[..n + 1] == pieces;
    assert forall k :: 0 <= k < n ==> init[k] == pieces[k];
    if Run(init, resolve, transcribe).outcome.Ok? {
      RunSucceeds(init, resolve, transcribe);
      RunOneMore(pieces, n, resolve, transcribe);
    } else {
      RunError(init, resolve, transcribe);
      RunStopsAtError(pieces, n, resolve, transcribe);
    }
  }

  /**
   * Every piece before the one that fails, or every piece when none does,
   * has its transcription written to its save path, in order, and nothing
   * else is written.
   */
  lemma {:induction false} RunWrites(pieces: seq<string>, resolve: string -> Result<Path, PathError>, transcribe: string -> string)
    ensures var job := Run(pieces, resolve, transcribe);
      && |job.writes| == (if job.outcome.Ok? then |pieces| else job.outcome.error.index)
      && forall k :: 0 <= k < |job.writes| ==>
           && k < |pieces|
           && resolve(pieces[k]).Ok?
           && job.writes[k] == Write(resolve(pieces[k]).value, transcribe(pieces[k]))
    decreases |pieces|
  {
    if pieces != [] {
      var n := |pieces| - 1;
      var init := pieces[..n];
      RunWrites(init, resolve, transcribe);
      assert pieces[..n + 1] == pieces;
      if Run(init, resolve, transcribe).outcome.Ok? {
        RunOneMore(pieces, n, resolve, transcribe);
      } else {
        RunError(init, resolve, transcribe);
        RunStopsAtError(pieces, n, resolve, transcribe);
      }
      var writes := Run(pieces, resolve, transcribe).writes;
      forall k | 0 <= k < |writes|
        ensures k < |pieces| && resolve(pieces[k]).Ok?
        ensures writes[k] == Write(resolve(pieces[k]).value, transcribe(pieces[k]))
      {
        if k < n {
          assert init[k] == pieces[k];
        }
      }
    }
  }

  /** On success the audio column, joined with newlines, is the selection the user made. */
  lemma AudioColumnIsSelection(filesPaths: string, resolve: string -> Result<Path, PathError>, transcribe: string -> string)
    requires Run(Split(filesPaths, '\n'), resolve, transcribe).outcome.Ok?
    ensures Join(AudioColumn(Run(Split(filesPaths, '\n'), resolve, transcribe).outcome.value), '\n') == filesPaths
  {
    var pieces := Split(filesPaths, '\n');
    RunRows(pieces, resolve, transcribe);
    assert AudioColumn(Run(pieces, resolve, transcribe).outcome.value) == pieces;
    SplitJoin(filesPaths, '\n');
  }

  /**
   * The job of a selection, stated with the save-path rule itself: it
   * succeeds exactly when every newline-separated piece has a save path,
   * and then row k pairs piece k with the text of its save path.
   */
  lemma SelectionRows(filesPaths: string, outputDir: string, outputIsDir: bool, transcribe: string -> string)
    ensures var pieces := Split(filesPaths, '\n');
      var job := Run(pieces, Resolver(outputDir, outputIsDir), transcribe);
      && (job.outcome.Ok? <==> forall k :: 0 <= k < |pieces| ==> SavePath(pieces[k], outputDir, outputIsDir).Ok?)
      && (job.outcome.Ok? ==>
            && |job.outcome.value| == |pieces|
            && forall k :: 0 <= k < |pieces| ==>
                 job.outcome.value[k] == Row(pieces[k], Str(SavePath(pieces[k], outputDir, outputIsDir).value)))
  {
    var pieces := Split(filesPaths, '\n');
    var resolve := Resolver(outputDir, outputIsDir);
    RunSucceeds(pieces, resolve, transcribe);
    if Run(pieces, resolve, transcribe).outcome.Ok? {
      RunRows(pieces, resolve, transcribe);
    }
  }

  /** One pass of the loop body: after a successful prefix, piece `i` either ends the job or extends it by its row and write. */
  lemma LoopStep(pieces: seq<string>, i: nat, outputDir: string, outputIsDir: bool, transcribe: string -> string,
                 results: seq<Row>, writes: seq<Write>)
    requires i < |pieces|
    requires Job(Ok(results), writes) == Run(pieces[..i], Resolver(outputDir, outputIsDir), transcribe)
    ensures var save := SavePath(pieces[i], outputDir, outputIsDir);
      && (save.Err? ==>
            Run(pieces, Resolver(outputDir, outputIsDir), transcribe) == Job(Err(JobError(i, save.error)), writes))
      && (save.Ok? ==>
            Run(pieces[..i + 1], Resolver(outputDir, outputIsDir), transcribe) ==
              Job(Ok(results + [Row(pieces[i], Str(save.value))]), writes + [Write(save.value, transcribe(pieces[i]))]))
  {
    var resolve := Resolver(outputDir, outputIsDir);
    RunOneMore(pieces, i, resolve, transcribe);
    assert resolve(pieces[i]) == SavePath(pieces[i], outputDir, outputIsDir);
    if resolve(pieces[i]).Err? {
      RunStopsAtError(pieces, i + 1, resolve, transcribe);
    }
  }

  /**
   * `on_transcribe`'s batch loop: the selection is split on newlines and the
   * pieces are visited in order; each is transcribed, its save path is
   * formed, the text is written there and a row is appended. The outcome
   * and the writes are those of `Run` over the pieces with the save-path
   * rule of this output directory.
   */
  method OnTranscribe(filesPaths: string, outputDir: string, outputIsDir: bool, transcribe: string -> string)
    returns (result: Result<seq<Row>, JobError>, writes: seq<Write>)
    ensures Job(result, writes) == Run(Split(filesPaths, '\n'), Resolver(outputDir, outputIsDir), transcribe)
  {
    var results: seq<Row> := [];
    writes := [];
    var pieces := Split(filesPaths, '\n');
    var i := 0;
    while i < |pieces|
      invariant 0 <= i <= |pieces|
      invariant Job(Ok(results), writes) == Run(pieces[..i], Resolver(outputDir, outputIsDir), transcribe)
    {
      var path := pieces[i];
      var text := transcribe(path);
      var savePath := SavePath(path, outputDir, outputIsDir);
      LoopStep(pieces, i, outputDir, outputIsDir, transcribe, results, writes);
      if savePath.Err? {
        return Err(JobError(i, savePath.error)), writes;
      }
      writes := writes + [Write(savePath.value, text)];
      results := results + [Row(path, Str(savePath.value))];
      i := i + 1;
    }
    assert pieces[..i] == pieces;
    result := Ok(results);
  }
}
