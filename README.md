# asr-app output-path planning, in Dafny

asr-app is a small desktop front end for the Whisper speech-recognition
library. The user picks audio files and, optionally, an output directory,
then presses "transcribe". The only logic the application computes itself is
in the button handler `on_transcribe`:

1. the newline-joined selection is split into input paths;
2. every input gets a text-file path, either inside the output directory or
   beside the input, always with the suffix `.txt`;
3. the transcription is written there and an (audio file, text file) row is
   appended to the result table, in selection order.

This project models that batch step and the parts of Python's POSIX
`pathlib` it relies on, and proves what the handler promises about it.

| file | module | models |
|---|---|---|
| `results.dfy` | `Results` | the value-or-exception outcome of an operation |
| `strings.dfy` | `Strings` | `str.split(sep)`, `sep.join`, `str.find`, `str.rfind` for one character |
| `pure_path.dfy` | `PurePath` | `Path(s)`, `str(p)`, `.name`, `.suffix`, `.stem`, `.parent`, `/`, `.with_suffix` |
| `app.dfy` | `App` | the save-path rule, the batch loop of `on_transcribe`, and their properties |

Paths follow POSIX `pathlib` as CPython 3.11 to 3.13 implements it. A path is
a root plus a list of components. The root is `""`, `"/"`, or `"//"`; `"//"`
is kept only when there are exactly two leading slashes. Empty components and
`.` components are dropped, so both `""` and `"."` parse to the empty path,
which renders as `.`. The suffix of a name starts at its last dot, unless that
dot is the name's first or last character.

The save-path rule (`App.SavePath`) takes three inputs: the piece, the
output-directory string, and the outcome of `Path(output_dir).is_dir()` as a
boolean. The model does not decide that outcome from the string. An empty
output directory becomes `Path('.')`, which is normally a directory, so the
directory branch then puts the text file in the working directory under the
bare file name.

The batch loop is the method `App.OnTranscribe`. Its postcondition equates
what it returns and what it writes with `App.Run`, a function over the pieces
that is generic in the per-piece rule. The lemmas about `Run` say what a job
means. `App.SelectionRows` restates the main one with the save-path rule
itself. `model.transcribe` is the parameter `transcribe`. Each `write_text`
call is recorded as a `Write(path, text)` in the order it happens.

## Model

| member | source | states |
|---|---|---|
| `App.OnTranscribe` | src/asr_app/app.py:31-49 | the loop, started from an empty row list and visiting the newline-split pieces in order, returns and writes exactly what `Run` gives for those pieces and the save-path rule; it stops at the first piece whose save path raises |
| `App.SelectionRows` | src/asr_app/app.py:31-46 | the job succeeds iff every newline-separated piece has a save path; then it has exactly one row per piece, and row k is (piece k, `str` of piece k's save path) |
| `App.RunSucceeds` | src/asr_app/app.py:34-46 | for any per-piece rule, the job succeeds exactly when every piece has a save path |
| `App.RunRows` | src/asr_app/app.py:31-46 | a successful job has one row per piece, in input order, row k being (piece k, rendered save path of piece k); nothing is dropped, merged or reordered |
| `App.RunError` | src/asr_app/app.py:34-43 | a failed job names the first piece whose save path raises, carries that piece's error, and every earlier piece had a save path |
| `App.RunWrites` | src/asr_app/app.py:37-45 | the files written are, in order, the save paths of the pieces before the failing one (all pieces when none fails), each with the transcription of its own piece, and nothing else |
| `App.RunStopsAtError` | src/asr_app/app.py:34-46 | once a piece raises, the pieces after it change neither the outcome nor the writes |
| `App.AudioColumnIsSelection` | src/asr_app/app.py:33-46 | on success the audio column joined with newlines is the selection string exactly |
| `App.SavePathFails` | src/asr_app/app.py:39-43 | forming a save path raises iff the piece has no file name and either the directory test fails or the output directory has no name either |
| `App.SavePathInOutputDir` | src/asr_app/app.py:39-41 | directory test holds and the piece has a name: the save path's parent is the parsed output directory, and its name is the piece's stem plus `.txt`, with suffix `.txt` |
| `App.SavePathInOutputDirUsesNameOnly` | src/asr_app/app.py:40 | in the directory branch two pieces with the same file name get the same save path: the input's own directories are discarded |
| `App.SavePathBesideInput` | src/asr_app/app.py:42-43 | directory test fails and the piece has a name: the save path keeps the piece's root and parent, its name is the piece's stem plus `.txt`, with suffix `.txt` |
| `App.SavePathIsTextFile` | src/asr_app/app.py:39-46 | in either branch a formed save path has suffix `.txt`, is well formed, and the text put in the row parses back to the very path written |
| `App.SavePathNamelessInOutputDir` | src/asr_app/app.py:39-41 | a piece without a file name in the directory branch is not refused: the output directory path itself gets `.txt`, so the text lands beside the directory |
| `App.TrailingNewlineFails` | src/asr_app/app.py:33-43 | a selection ending in a newline has an empty last piece, and without the directory branch that piece raises `EmptyName` for the empty path |
| `Strings.SplitJoin` | src/asr_app/app.py:33 | joining the pieces of `split('\n')` with newlines gives back the selection |
| `Strings.SplitNoSeparator` | src/asr_app/app.py:33 | no piece contains a newline |
| `Strings.SplitCount` | src/asr_app/app.py:33-34 | there is exactly one more piece than there are newlines, so empty pieces are kept |
| `Strings.JoinSplit` | src/asr_app/app.py:33 | paths without newlines, joined with newlines, split back into exactly those paths |
| `Strings.SplitTrailingSeparator` | src/asr_app/app.py:33 | a trailing newline yields an empty last piece |
| `PurePath.ParseValid` | src/asr_app/app.py:40 | every `Path(s)` has a valid root and components that are non-empty, not `.`, and free of `/` |
| `PurePath.ParseStr` | src/asr_app/app.py:46 | `Path(str(p)) == p` for every well-formed path |
| `PurePath.ParseName` | src/asr_app/app.py:40 | a file name parses to the one-component relative path, and the empty name to the empty path |
| `PurePath.StemSuffix` | src/asr_app/app.py:41-43 | a name is its stem followed by its suffix; a non-empty name has a non-empty stem; a suffix starts with `.` |
| `PurePath.TxtSuffix` | src/asr_app/app.py:41-43 | a non-empty stem plus `.txt` has suffix `.txt` and gives back that stem |
| `PurePath.LastExtension` | src/asr_app/app.py:41-43 | only the last extension is the suffix: `stem + "." + ext` with a dot-free `ext` has suffix `"." + ext` and stem `stem`, even when `stem` holds dots |
| `PurePath.TxtIsValidSuffix` | src/asr_app/app.py:41-43 | `.txt` passes the suffix checks of `with_suffix` |
| `PurePath.WithSuffixTxtFails` | src/asr_app/app.py:43 | `with_suffix(".txt")` raises iff the path has no name, and the error names that path |
| `PurePath.WithSuffixTxt` | src/asr_app/app.py:41-43 | on a named path, `with_suffix(".txt")` keeps root and parent, makes the suffix `.txt` and keeps the stem; a name without a suffix gets `.txt` appended |
| `PurePath.WithSuffixTxtValid` | src/asr_app/app.py:41-43 | `with_suffix(".txt")` keeps a well-formed named path well formed |

## Left out

- The Gradio layout, event wiring and `demo.queue().launch()` (app.py:52-108): UI plumbing with no logic of its own.
- `whisper.load_model` and `model.transcribe` (app.py:17, 37) call an external speech-recognition library. Transcription is the total function parameter `transcribe`. A transcription that raises, for example on a missing file, is not modelled. In the source such an error would stop the job before the save path of that piece is formed.
- Progress reporting is not modelled: the `gr.Progress` calls with fractional values, the `FileProgressListener` class, `create_progress_listener_handle` (its module is not part of this model) and `gr.Info` (app.py:16-29, 35-36). These only update the UI.
- `OnTranscribe`: `Path(output_dir).is_dir()` is a filesystem query that the source repeats on every iteration. The model takes one boolean for the whole job. This matches the source unless another process creates or removes the directory during the job. The loop itself cannot change the outcome, because it only writes files.
- `OnTranscribe`: `write_text` is recorded, not performed. A write that fails is not modelled: a missing parent directory, a save path that is a directory, or missing permissions.
- The `pd.DataFrame` built at app.py:48 and its Polish column titles: a library wrapper around the returned row list.
- `browse_audio_files_str` and `browse_dir`, which make the selection and output-directory strings: native file dialogs, and their module is not part of this model.
- `settings.py`: constant configuration loaded from the environment, with no logic.
- `transcribe.py`: a command-line wrapper around Whisper. Its only computation, `with_suffix(".txt")` at transcribe.py:14, is the same rule as the non-directory branch, which `PurePath.WithSuffixTxt` and `App.SavePathBesideInput` cover.
- `PurePath.WithSuffix` models the POSIX checks only, since POSIX `pathlib` has no alternative separator. Only the `.txt` case has lemmas. For other suffixes the model follows CPython 3.11's formula, which newer versions reject in a few corner cases, such as an empty suffix on a name like `..x`.
- Windows paths, drives, and byte-level filename encodings are not modelled. Strings are sequences of characters.
