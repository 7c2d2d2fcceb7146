/**
 * The script's main loop: for each video, the output name
 * `{stem} [subtitled].mp4` in the output directory; a video whose output already exists
 * is skipped; otherwise its audio, subtitle and text paths are derived and the five steps
 * (extract audio, transcribe, write subtitles, write text, add subtitles) run in order.
 * The filesystem is reduced to the set of paths that exist; the external tools are
 * reduced to the steps they are asked to perform, and the speech model to a function
 * from an audio path to its transcript.
 */
module Pipeline {
  import opened Wrappers
  import opened Paths
  import Srt
  import opened Sequences

  /** The directories the loop writes into. */
  datatype Config = Config(audioDir: Path, subtitlesDir: Path, textDir: Path, outputDir: Path)

  /** Single-file mode: every derived file goes next to the video. */
  function SingleFileConfig(video: Path): (cfg: Config)
    ensures cfg.audioDir == cfg.subtitlesDir == cfg.textDir == cfg.outputDir == video.Parent()
  {
    var dir := video.Parent();
    Config(dir, dir, dir, dir)
  }

  /** Batch mode: the `assets` directories under the working directory `cwd`. */
  function BatchConfig(cwd: Path): (cfg: Config)
    ensures cfg.audioDir == Path(cwd.absolute, cwd.parts + ["assets", "audio"])
    ensures cfg.subtitlesDir == Path(cwd.absolute, cwd.parts + ["assets", "subtitles"])
    ensures cfg.textDir == Path(cwd.absolute, cwd.parts + ["assets", "text"])
    ensures cfg.outputDir == Path(cwd.absolute, cwd.parts + ["assets", "video_output"])
  {
    AssetDirectories();
    JoinTwo(cwd, "assets", "audio");
    JoinTwo(cwd, "assets", "subtitles");
    JoinTwo(cwd, "assets", "text");
    JoinTwo(cwd, "assets", "video_output");
    Config(cwd.Join("assets/audio"), cwd.Join("assets/subtitles"), cwd.Join("assets/text"),
           cwd.Join("assets/video_output"))
  }

  /** Proof helper: the batch-mode directory strings, split at their '/'. */
  lemma AssetDirectories()
    ensures "assets/audio" == "assets" + "/" + "audio"
    ensures "assets/subtitles" == "assets" + "/" + "subtitles"
    ensures "assets/text" == "assets" + "/" + "text"
    ensures "assets/video_output" == "assets" + "/" + "video_output"
    ensures ValidPart("assets") && ValidPart("audio") && ValidPart("subtitles")
    ensures ValidPart("text") && ValidPart("video_output")
  {
  }

  /** What the speech model returns: the full text and the time-aligned segments. */
  datatype Transcript = Transcript(text: string, segments: seq<Srt.Segment>)

  /** A step of the loop, with the paths it reads and writes. */
  datatype Action =
    | ExtractAudio(video: Path, audio: Path)
    | Transcribe(audio: Path)
    | WriteSubtitles(segments: seq<Srt.Segment>, path: Path)
    | WriteText(path: Path, text: string)
    | AddSubtitles(video: Path, subtitles: Path, output: Path)

  /**
   * The file a step writes itself and what it puts there: the SubRip body for the subtitle
   * file, the transcript for the text file. The files ffmpeg writes are not modelled.
   */
  function WrittenFile(a: Action): Option<(Path, string)>
  {
    match a
    case WriteSubtitles(segments, path) => Some((path, Srt.Serialize(segments)))
    case WriteText(path, text) => Some((path, text))
    case _ => None
  }

  /** The completion marker of a video: `output_path / f"{stem} [subtitled].mp4"`. */
  function OutputFile(cfg: Config, video: Path): Path
  {
    cfg.outputDir.Join(Stem(video.Name()) + " [subtitled].mp4")
  }

  /** The paths derived for one video. */
  datatype Derived = Derived(audio: Path, subtitles: Path, text: Path, output: Path)
  {
    /** The files the five steps create. */
    function Files(): set<Path>
    {
      {audio, subtitles, text, output}
    }
  }

  /** `change_filename` with "mp3", "srt" and "txt" into the configured directories, and the output path. */
  function DerivePaths(cfg: Config, video: Path): Derived
  {
    Derived(ChangeFilename(video, "mp3", Some(cfg.audioDir)).value,
            ChangeFilename(video, "srt", Some(cfg.subtitlesDir)).value,
            ChangeFilename(video, "txt", Some(cfg.textDir)).value,
            OutputFile(cfg, video))
  }

  /** The five steps run for a video that is not skipped, in the order the loop runs them. */
  function Steps(video: Path, paths: Derived, transcript: Transcript): seq<Action>
  {
    [ ExtractAudio(video, paths.audio),
      Transcribe(paths.audio),
      WriteSubtitles(transcript.segments, paths.subtitles),
      WriteText(paths.text, transcript.text),
      AddSubtitles(video, paths.subtitles, paths.output) ]
  }

  /** The steps run so far, and the paths that exist. */
  datatype Batch = Batch(log: seq<Action>, existing: set<Path>)

  /**
   * One turn of the loop. Each step is taken to create the file it is asked to create,
   * so afterwards the video's output exists; the turn adds five steps or none.
   */
  function ProcessVideo(b: Batch, cfg: Config, video: Path, transcribe: Path -> Transcript): (r: Batch)
    ensures b.existing <= r.existing && OutputFile(cfg, video) in r.existing
    ensures r == b || |r.log| == |b.log| + 5
  {
    if OutputFile(cfg, video) in b.existing then b
    else
      var paths := DerivePaths(cfg, video);
      Batch(b.log + Steps(video, paths, transcribe(paths.audio)),
            b.existing + paths.Files())
  }

  /**
   * The loop continued from `b` over `videos`, in the given order. What exists only
   * grows, and no video costs more than five steps.
   */
  function RunFrom(b: Batch, videos: seq<Path>, cfg: Config, transcribe: Path -> Transcript): (r: Batch)
    ensures b.existing <= r.existing
    ensures |r.log| <= |b.log| + 5 * |videos|
  {
    if videos == [] then b
    else ProcessVideo(RunFrom(b, videos[..|videos| - 1], cfg, transcribe), cfg, videos[|videos| - 1], transcribe)
  }

  /** The whole loop, starting with no steps taken and the files in `existing`. */
  function RunAll(videos: seq<Path>, cfg: Config, existing: set<Path>, transcribe: Path -> Transcript): Batch
  {
    RunFrom(Batch([], existing), videos, cfg, transcribe)
  }

  /**
   * One pass of the `__main__` loop body: return at once when the output exists (the
   * `continue`), otherwise derive the paths and run the five steps in order.
   */
  method ProcessOne(video: Path, cfg: Config, log: seq<Action>, files: set<Path>, transcribe: Path -> Transcript)
    returns (log': seq<Action>, files': set<Path>)
    ensures Batch(log', files') == ProcessVideo(Batch(log, files), cfg, video, transcribe)
  {
    var outputFile := OutputFile(cfg, video);
    if outputFile in files {
      return log, files;
    }
    var audioFile := ChangeFilename(video, "mp3", Some(cfg.audioDir)).value;
    var subtitleFile := ChangeFilename(video, "srt", Some(cfg.subtitlesDir)).value;
    var textFile := ChangeFilename(video, "txt", Some(cfg.textDir)).value;
    var result := transcribe(audioFile);
    assert Derived(audioFile, subtitleFile, textFile, outputFile) == DerivePaths(cfg, video);
    log' := log + [ExtractAudio(video, audioFile), Transcribe(audioFile),
                   WriteSubtitles(result.segments, subtitleFile), WriteText(textFile, result.text),
                   AddSubtitles(video, subtitleFile, outputFile)];
    files' := files + {audioFile, subtitleFile, textFile, outputFile};
  }

  /** The `__main__` loop over the videos, in order. */
  method ProcessVideos(videos: seq<Path>, cfg: Config, existing: set<Path>, transcribe: Path -> Transcript)
    returns (log: seq<Action>, files: set<Path>)
    ensures Batch(log, files) == RunAll(videos, cfg, existing, transcribe)
  {
    log, files := [], existing;
    for i := 0 to |videos|
      invariant Batch(log, files) == RunFrom(Batch([], existing), videos[..i], cfg, transcribe)
    {
      assert videos[..i + 1][..i] == videos[..i];
      log, files := ProcessOne(videos[i], cfg, log, files, transcribe);
    }
    assert videos[..|videos|] == videos;
  }

  /** A video is skipped, with nothing run and nothing created, exactly when its output exists. */
  lemma SkipIffOutputExists(b: Batch, cfg: Config, video: Path, transcribe: Path -> Transcript)
    ensures ProcessVideo(b, cfg, video, transcribe) == b <==> OutputFile(cfg, video) in b.existing
    ensures ProcessVideo(b, cfg, video, transcribe).log == b.log <==> OutputFile(cfg, video) in b.existing
  {
  }

  /**
   * A video that is not skipped runs its five steps: audio is extracted to the mp3 path
   * and transcribed, the subtitle file receives the SubRip text of the segments, the text
   * file the plain transcript, and the subtitled video is written to the output path.
   */
  lemma StepsOfNewVideo(b: Batch, cfg: Config, video: Path, transcribe: Path -> Transcript)
    requires OutputFile(cfg, video) !in b.existing
    ensures var r := ProcessVideo(b, cfg, video, transcribe);
            var p := DerivePaths(cfg, video);
            var t := transcribe(p.audio);
            r.log[..|b.log|] == b.log &&
            r.log[|b.log|..] == [ExtractAudio(video, p.audio), Transcribe(p.audio),
                                 WriteSubtitles(t.segments, p.subtitles),
                                 WriteText(p.text, t.text),
                                 AddSubtitles(video, p.subtitles, OutputFile(cfg, video))]
    ensures var r := ProcessVideo(b, cfg, video, transcribe);
            var p := DerivePaths(cfg, video);
            var t := transcribe(p.audio);
            WrittenFile(r.log[|b.log| + 2]) == Some((p.subtitles, Srt.Serialize(t.segments)))
  {
  }

  /**
   * The output is `{stem} [subtitled].mp4` in the output directory: its suffix is always
   * ".mp4", whatever the container of the input.
   */
  lemma OutputNaming(cfg: Config, video: Path)
    requires video.Valid()
    ensures OutputFile(cfg, video).Parent() == cfg.outputDir
    ensures OutputFile(cfg, video).Name() == Stem(video.Name()) + " [subtitled].mp4"
    ensures Suffix(OutputFile(cfg, video).Name()) == ".mp4"
    ensures Stem(OutputFile(cfg, video).Name()) == Stem(video.Name()) + " [subtitled]"
    ensures cfg.outputDir.Valid() ==> OutputFile(cfg, video).Valid()
  {
    var stem := Stem(video.Name());
    StemHasNoSlash(video.Name());
    SubtitledName(stem);
    JoinPart(cfg.outputDir, stem + " [subtitled].mp4");
    StemOfDotted(stem + " [subtitled]", "mp4");
  }

  /** The output name is a plain component, read as the stem plus " [subtitled]" and the suffix ".mp4". */
  lemma SubtitledName(stem: string)
    requires '/' !in stem
    ensures ValidPart(stem + " [subtitled].mp4")
    ensures stem + " [subtitled].mp4" == stem + " [subtitled]" + "." + "mp4"
    ensures "." + "mp4" == ".mp4"
  {
    assert '/' !in " [subtitled].mp4";
    PlainNameAppend(stem, " [subtitled].mp4");
  }

  lemma OutputNamingExample()
    ensures OutputFile(SingleFileConfig(Path(true, ["videos", "movie.mkv"])), Path(true, ["videos", "movie.mkv"]))
            == Path(true, ["videos", "movie [subtitled].mp4"])
  {
    var video := Path(true, ["videos", "movie.mkv"]);
    MovieNames();
    assert video.Name() == "movie.mkv";
    assert video.Parent() == Path(true, ["videos"]);
    SubtitledName("movie");
    JoinPart(Path(true, ["videos"]), "movie" + " [subtitled].mp4");
  }

  /** Proof helper: stem and output name of the example video. */
  lemma MovieNames()
    ensures Stem("movie.mkv") == "movie" && '/' !in "movie"
    ensures "movie" + " [subtitled].mp4" == "movie [subtitled].mp4"
  {
    MovieFile();
    StemOfDotted("movie", "mkv");
  }

  /** Proof helper: the literal pieces of the example video's name. */
  lemma MovieFile()
    ensures "movie.mkv" == "movie" + "." + "mkv"
    ensures '/' !in "movie"
    ensures "movie" + " [subtitled].mp4" == "movie [subtitled].mp4"
  {
  }

  /** Proof helper: the three extensions, plain and with the dot `change_filename` puts before them. */
  lemma Extensions()
    ensures "mp3" != "" && '/' !in "mp3" && "." + "mp3" == ".mp3"
    ensures "srt" != "" && '/' !in "srt" && "." + "srt" == ".srt"
    ensures "txt" != "" && '/' !in "txt" && "." + "txt" == ".txt"
  {
  }

  /** `change_filename` into a directory appends `stem.ext` to that directory. */
  lemma PlacedFile(d: Path, video: Path, ext: string, dotted: string)
    requires video.Valid() && ext != "" && '/' !in ext && dotted == "." + ext
    ensures ChangeFilename(video, ext, Some(d)) == Ok(Path(d.absolute, d.parts + [Stem(video.Name()) + dotted]))
  {
    ChangeFilenameIntoDirectory(video, ext, d);
    AppendAssoc(Stem(video.Name()), ".", ext);
  }

  /**
   * The audio, subtitle and text files sit in their configured directories and are named
   * after the video's stem with ".mp3", ".srt" and ".txt".
   */
  lemma DerivedPathsPlacement(cfg: Config, video: Path)
    requires video.Valid()
    ensures DerivePaths(cfg, video).audio.Parent() == cfg.audioDir
    ensures DerivePaths(cfg, video).audio.Name() == Stem(video.Name()) + ".mp3"
    ensures DerivePaths(cfg, video).subtitles.Parent() == cfg.subtitlesDir
    ensures DerivePaths(cfg, video).subtitles.Name() == Stem(video.Name()) + ".srt"
    ensures DerivePaths(cfg, video).text.Parent() == cfg.textDir
    ensures DerivePaths(cfg, video).text.Name() == Stem(video.Name()) + ".txt"
  {
    Extensions();
    PlacedFile(cfg.audioDir, video, "mp3", ".mp3");
    PlacedFile(cfg.subtitlesDir, video, "srt", ".srt");
    PlacedFile(cfg.textDir, video, "txt", ".txt");
  }

  /**
   * In single-file mode every derived file is a sibling of the video, the same file
   * `change_filename` gives with no directory at all.
   */
  lemma SingleFileSiblings(video: Path)
    requires video.Valid() && video.Name() != ""
    ensures ChangeFilename(video, "mp3", None) == Ok(DerivePaths(SingleFileConfig(video), video).audio)
    ensures ChangeFilename(video, "srt", None) == Ok(DerivePaths(SingleFileConfig(video), video).subtitles)
    ensures ChangeFilename(video, "txt", None) == Ok(DerivePaths(SingleFileConfig(video), video).text)
    ensures OutputFile(SingleFileConfig(video), video).Parent() == video.Parent()
  {
    Extensions();
    ParentDirectoryIsDefault(video, "mp3");
    ParentDirectoryIsDefault(video, "srt");
    ParentDirectoryIsDefault(video, "txt");
    OutputNaming(SingleFileConfig(video), video);
  }

  /** Two videos with the same stem share an output, so the later one is skipped. */
  lemma SameStemSkipped(b: Batch, cfg: Config, first: Path, second: Path, transcribe: Path -> Transcript)
    requires Stem(first.Name()) == Stem(second.Name())
    ensures var r := ProcessVideo(b, cfg, first, transcribe);
            ProcessVideo(r, cfg, second, transcribe) == r
  {
  }

  /** Running the loop over `xs` and then `ys` is running it over `xs + ys`. */
  lemma {:induction false} RunFromAppend(b: Batch, xs: seq<Path>, ys: seq<Path>, cfg: Config,
                                         transcribe: Path -> Transcript)
    ensures RunFrom(b, xs + ys, cfg, transcribe) == RunFrom(RunFrom(b, xs, cfg, transcribe), ys, cfg, transcribe)
    decreases |ys|
  {
    if ys == [] {
      assert xs + ys == xs;
    } else {
      var n := |ys| - 1;
      assert (xs + ys)[..|xs + ys| - 1] == xs + ys[..n];
      assert (xs + ys)[|xs + ys| - 1] == ys[n];
      var middle := RunFrom(b, xs + ys[..n], cfg, transcribe);
      assert RunFrom(b, xs + ys, cfg, transcribe) == ProcessVideo(middle, cfg, ys[n], transcribe);
      RunFromAppend(b, xs, ys[..n], cfg, transcribe);
      assert middle == RunFrom(RunFrom(b, xs, cfg, transcribe), ys[..n], cfg, transcribe);
    }
  }

  /** After the loop, the output of every video in the list exists. */
  lemma {:induction false} RunFromCompletes(b: Batch, videos: seq<Path>, cfg: Config,
                                            transcribe: Path -> Transcript)
    ensures forall i :: 0 <= i < |videos| ==> OutputFile(cfg, videos[i]) in RunFrom(b, videos, cfg, transcribe).existing
    decreases |videos|
  {
    if videos != [] {
      var n := |videos| - 1;
      var prefix := videos[..n];
      RunFromCompletes(b, prefix, cfg, transcribe);
      var before := RunFrom(b, prefix, cfg, transcribe);
      forall i | 0 <= i < n
        ensures OutputFile(cfg, videos[i]) in before.existing
      {
        assert prefix[i] == videos[i];
      }
      OutputsKept(before, cfg, videos, transcribe);
      assert RunFrom(b, videos, cfg, transcribe) == ProcessVideo(before, cfg, videos[n], transcribe);
    }
  }

  /** One turn keeps the outputs that exist and adds its own. */
  lemma OutputsKept(b: Batch, cfg: Config, videos: seq<Path>, transcribe: Path -> Transcript)
    requires videos != []
    requires forall i :: 0 <= i < |videos| - 1 ==> OutputFile(cfg, videos[i]) in b.existing
    ensures forall i :: 0 <= i < |videos| ==>
              OutputFile(cfg, videos[i]) in ProcessVideo(b, cfg, videos[|videos| - 1], transcribe).existing
  {
  }

  /** When every video's output already exists, the loop runs nothing and creates nothing. */
  lemma {:induction false} RunFromAllDone(b: Batch, videos: seq<Path>, cfg: Config,
                                          transcribe: Path -> Transcript)
    requires forall i :: 0 <= i < |videos| ==> OutputFile(cfg, videos[i]) in b.existing
    ensures RunFrom(b, videos, cfg, transcribe) == b
    decreases |videos|
  {
    if videos != [] {
      var n := |videos| - 1;
      var prefix := videos[..n];
      forall i | 0 <= i < n
        ensures OutputFile(cfg, prefix[i]) in b.existing
      {
        assert prefix[i] == videos[i];
      }
      RunFromAllDone(b, prefix, cfg, transcribe);
      assert RunFrom(b, videos, cfg, transcribe) == ProcessVideo(b, cfg, videos[n], transcribe);
    }
  }

  /** Running the batch a second time, over the files the first run left, runs nothing. */
  lemma RerunDoesNothing(videos: seq<Path>, cfg: Config, existing: set<Path>, transcribe: Path -> Transcript)
    ensures var first := RunAll(videos, cfg, existing, transcribe);
            RunAll(videos, cfg, first.existing, transcribe) == Batch([], first.existing)
  {
    var first := RunAll(videos, cfg, existing, transcribe);
    RunFromCompletes(Batch([], existing), videos, cfg, transcribe);
    RunFromAllDone(Batch([], first.existing), videos, cfg, transcribe);
  }

  /**
   * No audio, subtitle or text file is ever the output of a video: their names end in
   * "3" or "t", an output's name in "4".
   */
  lemma DerivedNeverOutput(cfg: Config, video: Path, other: Path)
    requires video.Valid() && other.Valid()
    ensures OutputFile(cfg, other) != DerivePaths(cfg, video).audio
    ensures OutputFile(cfg, other) != DerivePaths(cfg, video).subtitles
    ensures OutputFile(cfg, other) != DerivePaths(cfg, video).text
  {
    var stem, otherStem := Stem(video.Name()), Stem(other.Name());
    var out := cfg.outputDir;
    StemHasNoSlash(other.Name());
    SubtitledName(otherStem);
    JoinPart(out, otherStem + " [subtitled].mp4");
    Extensions();
    LastCharacters();
    PlacedFile(cfg.audioDir, video, "mp3", ".mp3");
    AppendedNamesDiffer(cfg.audioDir, out, stem, otherStem, ".mp3", " [subtitled].mp4");
    PlacedFile(cfg.subtitlesDir, video, "srt", ".srt");
    AppendedNamesDiffer(cfg.subtitlesDir, out, stem, otherStem, ".srt", " [subtitled].mp4");
    PlacedFile(cfg.textDir, video, "txt", ".txt");
    AppendedNamesDiffer(cfg.textDir, out, stem, otherStem, ".txt", " [subtitled].mp4");
    var p, o := DerivePaths(cfg, video), OutputFile(cfg, other);
    assert o == Path(out.absolute, out.parts + [otherStem + " [subtitled].mp4"]);
    assert p.audio == Path(cfg.audioDir.absolute, cfg.audioDir.parts + [stem + ".mp3"]);
    assert p.subtitles == Path(cfg.subtitlesDir.absolute, cfg.subtitlesDir.parts + [stem + ".srt"]);
    assert p.text == Path(cfg.textDir.absolute, cfg.textDir.parts + [stem + ".txt"]);
  }

  /** Paths whose last components end in different characters are different paths. */
  lemma AppendedNamesDiffer(d: Path, e: Path, s: string, t: string, x: string, y: string)
    requires x != [] && y != [] && x[|x| - 1] != y[|y| - 1]
    ensures Path(d.absolute, d.parts + [s + x]) != Path(e.absolute, e.parts + [t + y])
  {
    var a, b := s + x, t + y;
    assert a[|a| - 1] == x[|x| - 1] && b[|b| - 1] == y[|y| - 1];
    var p, q := d.parts + [a], e.parts + [b];
    assert p[|p| - 1] == a && q[|q| - 1] == b;
  }

  /** Proof helper: the last characters of the four fixed name endings. */
  lemma LastCharacters()
    ensures " [subtitled].mp4"[|" [subtitled].mp4"| - 1] == '4'
    ensures ".mp3"[3] == '3' && ".srt"[3] == 't' && ".txt"[3] == 't'
    ensures |".mp3"| == |".srt"| == |".txt"| == 4
  {
  }

  /** A video's files never include the output of a video with a different output. */
  lemma NotAnotherOutput(cfg: Config, video: Path, other: Path)
    requires video.Valid() && other.Valid()
    requires OutputFile(cfg, video) != OutputFile(cfg, other)
    ensures OutputFile(cfg, other) !in DerivePaths(cfg, video).Files()
  {
    DerivedNeverOutput(cfg, video, other);
    FilesMembership(DerivePaths(cfg, video), OutputFile(cfg, other));
  }

  /** Proof helper: membership in the four derived files, as a disjunction. */
  lemma FilesMembership(d: Derived, x: Path)
    ensures x in d.Files() <==> x == d.audio || x == d.subtitles || x == d.text || x == d.output
  {
  }

  /** Every file derived from the videos in the list. */
  function Created(cfg: Config, videos: seq<Path>): set<Path>
    decreases |videos|
  {
    if videos == [] then {}
    else Created(cfg, videos[..|videos| - 1]) + DerivePaths(cfg, videos[|videos| - 1]).Files()
  }

  /** The loop creates only the derived files of the videos in the list. */
  lemma {:induction false} RunFromCreatesOnly(b: Batch, videos: seq<Path>, cfg: Config,
                                              transcribe: Path -> Transcript)
    ensures RunFrom(b, videos, cfg, transcribe).existing <= b.existing + Created(cfg, videos)
    decreases |videos|
  {
    if videos != [] {
      var n := |videos| - 1;
      RunFromCreatesOnly(b, videos[..n], cfg, transcribe);
      RunFromLastStep(b, videos, cfg, transcribe);
    }
  }

  /** The last video of a run adds at most its own derived files. */
  lemma RunFromLastStep(b: Batch, videos: seq<Path>, cfg: Config, transcribe: Path -> Transcript)
    requires videos != []
    ensures RunFrom(b, videos, cfg, transcribe).existing
      <= RunFrom(b, videos[..|videos| - 1], cfg, transcribe).existing + DerivePaths(cfg, videos[|videos| - 1]).Files()
  {
  }

  /** A video whose output differs from those of all videos in the list is not created by them. */
  lemma {:induction false} OutputNotCreated(cfg: Config, videos: seq<Path>, video: Path)
    requires video.Valid() && forall i :: 0 <= i < |videos| ==> videos[i].Valid()
    requires forall i :: 0 <= i < |videos| ==> OutputFile(cfg, videos[i]) != OutputFile(cfg, video)
    ensures OutputFile(cfg, video) !in Created(cfg, videos)
    decreases |videos|
  {
    if videos != [] {
      var n := |videos| - 1;
      var prefix := videos[..n];
      OutputNotCreated(cfg, prefix, video);
      NotAnotherOutput(cfg, videos[n], video);
    }
  }

  /**
   * Videos with distinct outputs, none of which exists yet, are all processed: the log
   * grows by five steps per video.
   */
  lemma {:induction false} DistinctNewVideosAllRun(b: Batch, videos: seq<Path>, cfg: Config,
                                                  transcribe: Path -> Transcript)
    requires forall i :: 0 <= i < |videos| ==> videos[i].Valid()
    requires forall i, j :: 0 <= i < j < |videos| ==> OutputFile(cfg, videos[i]) != OutputFile(cfg, videos[j])
    requires forall i :: 0 <= i < |videos| ==> OutputFile(cfg, videos[i]) !in b.existing
    ensures |RunFrom(b, videos, cfg, transcribe).log| == |b.log| + 5 * |videos|
    decreases |videos|
  {
    if videos != [] {
      var n := |videos| - 1;
      var prefix := videos[..n];
      DistinctNewVideosAllRun(b, prefix, cfg, transcribe);
      RunFromCreatesOnly(b, prefix, cfg, transcribe);
      OutputNotCreated(cfg, prefix, videos[n]);
      RunFromLastRuns(b, videos, cfg, transcribe);
    }
  }

  /** When the last video's output does not exist yet, the last video costs five steps. */
  lemma RunFromLastRuns(b: Batch, videos: seq<Path>, cfg: Config, transcribe: Path -> Transcript)
    requires videos != []
    requires OutputFile(cfg, videos[|videos| - 1]) !in RunFrom(b, videos[..|videos| - 1], cfg, transcribe).existing
    ensures |RunFrom(b, videos, cfg, transcribe).log|
      == |RunFrom(b, videos[..|videos| - 1], cfg, transcribe).log| + 5
  {
  }
}
