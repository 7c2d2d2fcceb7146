# subtitler, modelled in Dafny

`main.py` turns videos into subtitled videos. For every video it extracts the audio
with ffmpeg, transcribes it with Whisper, writes a SubRip (`.srt`) file and a plain
text file from the transcript, and burns the subtitles into a new video named
`{stem} [subtitled].mp4`. A video whose output already exists is skipped. With no
argument the script works on the `assets/` directories under the working directory.
With one argument it works on that file alone and writes everything next to it.

This project models three parts of that script:

- `change_filename` and the part of POSIX `pathlib` it relies on (module `Paths`):
  - `name`, `parent`, `stem`, `suffix`;
  - the `/` operator;
  - `with_suffix`, including the `ValueError`s it raises.
- `write_subtitles` (module `Srt`):
  - `int()` truncation;
  - `str(timedelta(seconds=n))`, with its `"N day(s), "` form;
  - the `"0" + … + ",000"` timestamp and the cue block;
  - the file body, built by a loop that appends one block per segment.

  A SubRip timecode reader and a cue reader are the partners the writer is proved against.
- The `__main__` loop (module `Pipeline`):
  - the two configurations;
  - the output name and the skip rule;
  - the derived `.mp3`/`.srt`/`.txt` paths;
  - the five steps run for each video, in order.

  The loop is written both as a fold over the video list and as imperative methods
  proved equal to it.

Supporting modules:

- `Decimal` renders `str(int)` and `"%02d"` and parses them back.
- `Wrappers` holds `Option` and `Result`.
- `Sequences` holds a regrouping lemma.

The code puts a "0" in front of `timedelta`'s H:MM:SS, so below ten hours the
timestamp is the usual HH:MM:SS,000 (75.9 s gives `"00:01:15,000"`). Where the code's
output departs from common SubRip practice, the model follows the code:

- From ten hours to the end of the first day, the hour field has three digits
  (36000 s gives `"010:00:00,000"`).
- From one day on, the timestamp takes `timedelta`'s "N day(s), H:MM:SS" form:
  86400 s gives `"01 day, 0:00:00,000"`, 90000 s gives `"01 day, 1:00:00,000"`,
  172800 s gives `"02 days, 0:00:00,000"` and -1 s gives `"0-1 day, 23:59:59,000"`.
  None of these is a SubRip timecode. `Srt.StampReadsBack` proves that a timestamp reads
  back exactly when the time lies within one day.
- The output video is always `.mp4`. Its name is never built from the input's own
  extension.

The path rules (`suffix`, `stem`, and the `ValueError`s of `with_suffix`, including
the one for the suffix ".") are those of CPython 3.12's `pathlib`. Later releases
treat a lone trailing '.' differently.

## Model

| member | source | states |
|---|---|---|
| Decimal.Dec | main.py:73 | `str(n)` is the shortest numeral: "0" for zero, digits without a leading zero for n > 0, '-' and such digits below 0; one or two digits below 10 or 100 |
| Decimal.DecRoundTripInt | main.py:73 | the cue number written by `str(id + 1)` is a numeral that reads back as `id + 1`, for every integer |
| Decimal.Pad2 | main.py:71-72 | the `%02d` fields of `timedelta` are all digits, at least two wide, exactly two below 100 |
| Decimal.Pad2RoundTrip | main.py:71-72 | a `%02d` field reads back as its value |
| Paths.Path.Name | main.py:23 | the name of a valid path is a valid component, and empty exactly for a path without components |
| Paths.Path.Parent | main.py:114-117 | the parent keeps validity and absoluteness, and parent plus name is the path again |
| Paths.Path.Join | main.py:23 | `p / s` keeps validity; joining a plain component gives a path whose parent is `p` and whose name is `s` |
| Paths.Suffix | main.py:23 | the suffix is empty or a dot followed by a dot-free tail, shorter than the name, and a tail of it |
| Paths.Stem | main.py:23 | the stem of a non-empty name is non-empty, and stem followed by suffix is the name |
| Paths.StemOfDotted | main.py:23 | `s + "." + e`, with a dot-free non-empty `e`, has stem `s` and suffix `"." + e` |
| Paths.StemHasNoSlash | main.py:23 | the stem of a name without '/' has no '/' |
| Paths.WithSuffix | main.py:25 | `with_suffix` succeeds exactly when the suffix holds no '/', is not ".", is empty or starts with '.', and the path has a name; it then keeps the parent, names the result `stem + suffix` and keeps validity |
| Paths.Renamed | main.py:25 | the success case of `with_suffix` keeps the parent and gives the name `stem + suffix` |
| Paths.ChangeFilename | main.py:9-26 | `change_filename` never fails with a directory; without one it fails exactly when the extension is empty or holds '/', or the input has no name. Where the result lies and how it is named is stated by `Paths.ChangeFilenameIntoDirectory` and `Paths.ChangeFilenameInPlace` |
| Paths.ChangeFilenameIntoDirectory | main.py:22-24 | with a directory, the call always succeeds; the result lies in that directory, is named `stem.ext`, and is valid when the directory is |
| Paths.ChangeFilenameInPlace | main.py:24-25 | without a directory, the call succeeds exactly when the extension is non-empty and '/'-free and the input has a name; the result stays in the input's directory as `stem.ext`, and its own stem and suffix are the old stem and `.ext` |
| Paths.ParentDirectoryIsDefault | main.py:22-26 | passing the input's parent as the directory gives the same path as passing none |
| Paths.ChangeFilenameIdempotent | main.py:22-26 | for a dot-free extension, applying `change_filename` a second time with the same arguments changes nothing |
| Paths.DottedExtensionFirst | main.py:25 | `"a"` with extension `"tar.gz"` becomes `"a.tar.gz"` |
| Paths.DottedExtensionSecond | main.py:25 | applying that again gives `"a.tar.tar.gz"`, so idempotence needs a dot-free extension |
| Srt.Trunc | main.py:71-72 | `int(t)` truncates toward zero: within one unit of `t`, on the side of zero |
| Srt.Clock | main.py:71-72 | the clock part of `str(timedelta)` is at least seven characters long |
| Srt.TimedeltaStr | main.py:71-72 | `str(timedelta(seconds=n))` holds a space, that is, takes the "N day(s), " form, exactly when n lies outside one day; its text is stated by `Srt.StampWithinDay` and the timestamp examples |
| Srt.SecondsStamp | main.py:71-72 | a timestamp is at least twelve characters long, starts with '0' and ends with ",000" |
| Srt.Timestamp | main.py:71-72 | the same holds for the timestamp of a segment boundary |
| Srt.StampWithinDay | main.py:71-72 | within a day, the timestamp is "0", the hours, two-digit minutes and two-digit seconds, then ",000" |
| Srt.StampFixedWidth | main.py:71-72 | below ten hours, the timestamp is SubRip's fixed-width `HH:MM:SS,000`, twelve characters long |
| Srt.TimestampTruncates | main.py:71-72 | every time in [k, k + 1) gets the timestamp of k |
| Srt.StampReadsBackWithinDay | main.py:71-72 | within a day, the timestamp reads back as its seconds in milliseconds |
| Srt.StampUnreadableOutsideDay | main.py:71-72 | at one day or more, and for negative times, the timestamp is no SubRip timecode |
| Srt.StampReadsBack | main.py:71-72 | the timestamp reads back exactly when the time lies within one day, and then as those seconds with zero milliseconds |
| Srt.StampHoldsNoSeparator | main.py:71-74 | a timestamp within a day holds neither a line break nor a space |
| Srt.TimestampExampleMinute | main.py:71 | 75.9 s is written "00:01:15,000" |
| Srt.TimestampExampleHour | main.py:71 | 3661 s is written "01:01:01,000" |
| Srt.TimestampExampleTenHours | main.py:71 | 36000 s is written "010:00:00,000" |
| Srt.TimestampExampleDay | main.py:71 | 86400 s is written "01 day, 0:00:00,000" |
| Srt.TimestampExampleDayAndHour | main.py:71 | 90000 s is written "01 day, 1:00:00,000" |
| Srt.TimestampExampleTwoDays | main.py:71 | 172800 s is written "02 days, 0:00:00,000", with the plural |
| Srt.TimestampExampleNegative | main.py:71 | -1 s is written "0-1 day, 23:59:59,000", with floor division into days |
| Srt.Cue | main.py:73-75 | a cue block ends with a blank line |
| Srt.TimingReadsBack | main.py:74 | the `start --> end` line reads back as its two times |
| Srt.BlockReadsBack | main.py:73-75 | a block made of a numeral, two timecodes and a text reads back as those four parts |
| Srt.CueReadsBack | main.py:70-75 | a segment's block reads back as id + 1, the start and end cut to whole seconds, and the unchanged text, whenever both times lie within a day |
| Srt.Serialize | main.py:69-76 | the file body is empty exactly when there are no segments |
| Srt.SerializeAppend | main.py:70-76 | the body of two segment lists in sequence is the concatenation of their bodies |
| Srt.SerializeNext | main.py:70-76 | each turn of the loop appends exactly the block of the next segment |
| Srt.CueAt | main.py:70-76 | block k sits whole and unchanged between the blocks before it and the blocks after it |
| Srt.WriteSubtitles | main.py:69-76 | the loop that truncates the file and appends one block per segment leaves exactly the body of all segments, in order |
| Pipeline.SingleFileConfig | main.py:113-117 | in single-file mode, all four directories are the video's parent |
| Pipeline.BatchConfig | main.py:108-111 | in batch mode, the directories are `assets/audio`, `assets/subtitles`, `assets/text` and `assets/video_output` under the working directory |
| Pipeline.OutputFile | main.py:120 | the output path of a video; `Pipeline.OutputNaming` states its directory, name and ".mp4" suffix, and `Pipeline.OutputNamingExample` gives an instance |
| Pipeline.DerivePaths | main.py:124-126 | the three `change_filename` calls and the output path; `Pipeline.DerivedPathsPlacement`, `Pipeline.SingleFileSiblings` and `Pipeline.DerivedNeverOutput` state where they lie and that none is an output |
| Pipeline.Steps | main.py:128-133 | the five calls of a processed video, in order; `Pipeline.StepsOfNewVideo` states that they are appended to the log as they are |
| Pipeline.ProcessVideo | main.py:120-133 | a turn of the loop never removes a file, always leaves the video's output existing, and either changes nothing or adds five steps |
| Pipeline.RunFrom | main.py:119-133 | the loop never removes a file and adds at most five steps per video |
| Pipeline.RunAll | main.py:119-133 | the whole loop from an empty log; `Pipeline.ProcessVideos` is proved equal to it, and `Pipeline.RunFromCompletes`, `Pipeline.RunFromCreatesOnly`, `Pipeline.RerunDoesNothing` and `Pipeline.DistinctNewVideosAllRun` state what it does |
| Pipeline.ProcessOne | main.py:120-133 | the imperative loop body, with its `continue`, yields exactly the steps and files of one turn |
| Pipeline.ProcessVideos | main.py:119-133 | the imperative loop over the videos yields exactly the steps and files of the whole run |
| Pipeline.SkipIffOutputExists | main.py:120-122 | a video is skipped, with no step run and no file created, exactly when its output exists |
| Pipeline.StepsOfNewVideo | main.py:124-133 | a video that is not skipped keeps the earlier steps and appends the five steps in order; the subtitle file receives the SubRip body of the transcript's segments |
| Pipeline.OutputNaming | main.py:120 | the output lies in the output directory and is named `stem + " [subtitled].mp4"`; its suffix is ".mp4" and its stem is `stem + " [subtitled]"` |
| Pipeline.OutputNamingExample | main.py:120 | `/videos/movie.mkv` in single-file mode gives `/videos/movie [subtitled].mp4` |
| Pipeline.DerivedPathsPlacement | main.py:124-126 | the audio, subtitle and text files lie in their configured directories and are named `stem.mp3`, `stem.srt` and `stem.txt` |
| Pipeline.SingleFileSiblings | main.py:113-126 | in single-file mode, each derived file is the one `change_filename` gives without a directory, and the output is a sibling of the video |
| Pipeline.SameStemSkipped | main.py:120-122 | a later video with the same stem as an earlier one is skipped |
| Pipeline.RunFromAppend | main.py:119 | running over `xs` and then `ys` is running over `xs + ys` |
| Pipeline.RunFromCompletes | main.py:119-133 | after the loop, the output of every listed video exists |
| Pipeline.RunFromAllDone | main.py:119-122 | when every output already exists, the loop runs nothing and creates nothing |
| Pipeline.RerunDoesNothing | main.py:119-133 | a second run over the files the first run left runs no step |
| Pipeline.DerivedNeverOutput | main.py:120-126 | no audio, subtitle or text file is ever the output of any video |
| Pipeline.NotAnotherOutput | main.py:120-126 | the files of a video never include the output of a video with a different output |
| Pipeline.RunFromCreatesOnly | main.py:119-133 | the loop creates no file other than the derived files of the listed videos |
| Pipeline.OutputNotCreated | main.py:120-126 | an output that differs from the outputs of all listed videos is created by none of them |
| Pipeline.DistinctNewVideosAllRun | main.py:119-133 | valid videos with distinct outputs, none of which exists yet, are all processed, at five steps each |

## Left out

- `extract_audio` and `add_subtitles` (main.py:29-39, 91-101) run ffmpeg.
  - They become the steps `ExtractAudio` and `AddSubtitles` in the log.
  - Each is taken to create the file it is asked to create.
  - The bytes ffmpeg writes, its exit status and its failures are not modelled.
- `transcribe_audio` (main.py:42-56) runs the Whisper model. It becomes a function parameter from the audio path to a transcript.
- `write_text` (main.py:78-88) becomes the `WriteText` step, which carries the transcript's text. Writing a string to a file needs no further model.
- The log records the `write_subtitles` call with its segments. `Pipeline.WrittenFile` gives the SubRip body written to the subtitle path.
- The environment is replaced by values:
  - `sys.argv` by the choice between `SingleFileConfig` and `BatchConfig`;
  - `Path.resolve()` by the working directory passed to `BatchConfig`;
  - `glob("*.mp4")` by the list of videos, taken in the order given (glob's order is unspecified);
  - `output_file.exists()` by the set of existing paths.
- Srt.SecondsStamp: the OverflowError timedelta raises beyond 999999999 days, in either direction, is not modelled. The model writes a day-form string for every integer, and `Srt.StampReadsBack` covers those strings too.
- Python floats are modelled as exact reals. `int()` of NaN or infinity, which raises, is not modelled.
- The UTF-8 encoding of the output files is not modelled. Strings are sequences of characters.
- Paths.ParseParts: a path starting with exactly two slashes, which POSIX pathlib keeps as "//", is read as the root. `..` components are kept, as pathlib keeps them.
- Pipeline.RunFrom: bounds the steps by five per video and does not give the exact count. `Pipeline.DistinctNewVideosAllRun` gives the exact count when no output is shared or present.
