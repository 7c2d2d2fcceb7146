/**
 * The part of Python's pathlib (POSIX flavour) that `change_filename` and the
 * batch loop use: parsed components, `name`, `parent`, the `/` operator,
 * `stem`, `suffix` and `with_suffix`, and `change_filename` itself.
 */
module Paths {
  import opened Wrappers
  import opened Sequences

  /** A component pathlib keeps after parsing: never empty, never ".", never holding '/'. */
  predicate ValidPart(s: string) {
    s != "" && s != "." && '/' !in s
  }

  /** A path: whether it starts at the root, and its components in order. */
  datatype Path = Path(absolute: bool, parts: seq<string>) {

    predicate Valid() {
      forall i :: 0 <= i < |parts| ==> ValidPart(parts[i])
    }

    /** `p.name`: the last component, or "" for the root or the current directory. */
    function Name(): (r: string)
      ensures Valid() && r != "" ==> ValidPart(r)
      ensures Valid() ==> (r == "" <==> parts == [])
    {
      if parts == [] then "" else parts[|parts| - 1]
    }

    /** `p.parent`: the path without its last component; the root and "." are their own parents. */
    function Parent(): (r: Path)
      ensures Valid() ==> r.Valid()
      ensures r.absolute == absolute
      ensures parts != [] ==> r.parts + [Name()] == parts
    {
      if parts == [] then this else Path(absolute, parts[..|parts| - 1])
    }

    /** `p / s`: `s` is parsed as a path; an absolute `s` replaces `p`, a relative one is appended. */
    function Join(s: string): (r: Path)
      ensures Valid() ==> r.Valid()
      ensures ValidPart(s) ==> r.Parent() == this && r.Name() == s
    {
      if s != [] && s[0] == '/' then Path(true, ParseParts(s)) else Path(absolute, parts + ParseParts(s))
    }
  }

  /** The fields of a string between its '/' separators, empty ones included. */
  function SplitOnSlash(s: string): (r: seq<string>)
    ensures |r| >= 1
    ensures forall i :: 0 <= i < |r| ==> '/' !in r[i]
    ensures '/' !in s ==> r == [s]
  {
    if s == [] then [[]]
    else
      var rest := SplitOnSlash(s[1..]);
      if s[0] == '/' then [[]] + rest
      else
        assert [s[0]] + s[1..] == s;
        [[s[0]] + rest[0]] + rest[1..]
  }

  /** Drops the empty and "." fields, as pathlib's parser does. */
  function DropTrivial(fields: seq<string>): (r: seq<string>)
    requires forall i :: 0 <= i < |fields| ==> '/' !in fields[i]
    ensures forall i :: 0 <= i < |r| ==> ValidPart(r[i])
  {
    if fields == [] then []
    else (if fields[0] == "" || fields[0] == "." then [] else [fields[0]]) + DropTrivial(fields[1..])
  }

  /** The components pathlib reads from a string. */
  function ParseParts(s: string): (r: seq<string>)
    ensures forall i :: 0 <= i < |r| ==> ValidPart(r[i])
    ensures ValidPart(s) ==> r == [s]
  {
    assert ValidPart(s) ==> DropTrivial([s]) == [s] + DropTrivial([]);
    DropTrivial(SplitOnSlash(s))
  }

  /** Splitting `a + "/" + rest` on '/' gives `a` and then the fields of `rest`. */
  lemma {:induction false} SplitAfterSlash(a: string, rest: string)
    requires '/' !in a
    ensures SplitOnSlash(a + "/" + rest) == [a] + SplitOnSlash(rest)
  {
    var s := a + "/" + rest;
    if a == [] {
      assert s == ['/'] + rest;
      assert s[1..] == rest;
    } else {
      assert s[0] == a[0] && s[1..] == a[1..] + "/" + rest;
      SplitAfterSlash(a[1..], rest);
      assert [a[0]] + a[1..] == a;
    }
  }

  /** `p / "a/b"` with two plain components appends both. */
  lemma JoinTwo(p: Path, a: string, b: string)
    requires ValidPart(a) && ValidPart(b)
    ensures p.Join(a + "/" + b) == Path(p.absolute, p.parts + [a, b])
  {
    SplitAfterSlash(a, b);
    assert DropTrivial([a, b]) == [a] + DropTrivial([b]);
    assert DropTrivial([b]) == [b] + DropTrivial([]);
    assert (a + "/" + b)[0] == a[0];
  }

  /** Joining a single plain component appends it. */
  lemma JoinPart(d: Path, s: string)
    requires ValidPart(s)
    ensures d.Join(s) == Path(d.absolute, d.parts + [s])
  {
  }

  /** A plain name followed by a plain, non-trivial tail is a plain name. */
  lemma PlainNameAppend(a: string, b: string)
    requires '/' !in a && '/' !in b && b != "" && b != "."
    ensures ValidPart(a + b)
  {
    forall i | 0 <= i < |a + b|
      ensures (a + b)[i] != '/'
    {
      if i < |a| {
        assert (a + b)[i] == a[i];
      } else {
        assert (a + b)[i] == b[i - |a|];
      }
    }
  }

  datatype PathError = InvalidSuffix(suffix: string) | EmptyName

  /** `str.rfind('.')`: the index of the last '.', or -1. */
  function LastDot(s: string): (i: int)
    ensures -1 <= i < |s|
    ensures i >= 0 ==> s[i] == '.'
    ensures forall j :: i < j < |s| ==> s[j] != '.'
  {
    if s == [] then -1
    else if s[|s| - 1] == '.' then |s| - 1
    else LastDot(s[..|s| - 1])
  }

  /** `p.suffix` of a name: from its last '.' on, provided that dot is neither first nor last. */
  function Suffix(name: string): (r: string)
    ensures r == "" || (|r| >= 2 && r[0] == '.' && '.' !in r[1..] && |r| < |name|)
    ensures r == name[|name| - |r|..]
  {
    var i := LastDot(name);
    if 0 < i < |name| - 1 then name[i..] else ""
  }

  /** `p.stem` of a name: the name without its suffix. */
  function Stem(name: string): (r: string)
    ensures name != "" ==> r != ""
    ensures r + Suffix(name) == name
  {
    var i := LastDot(name);
    if 0 < i < |name| - 1 then name[..i] else name
  }

  /** A dot-free, non-empty extension appended after a non-empty stem is read back as suffix. */
  lemma StemOfDotted(s: string, e: string)
    requires s != "" && e != "" && '.' !in e
    ensures Stem(s + "." + e) == s && Suffix(s + "." + e) == "." + e
  {
    var n := s + "." + e;
    var i := LastDot(n);
    assert n[|s|] == '.';
    forall j | |s| < j < |n|
      ensures n[j] != '.'
    {
      assert n[j] == e[j - |s| - 1];
    }
  }

  /** A stem is a prefix of its name, so it has no '/' when the name has none. */
  lemma StemHasNoSlash(name: string)
    requires '/' !in name
    ensures '/' !in Stem(name)
  {
    var r := Stem(name);
    assert name == r + Suffix(name);
    forall k | 0 <= k < |r|
      ensures r[k] != '/'
    {
      assert r[k] == name[k];
    }
  }

  /**
   * `p.with_suffix(suffix)`: a suffix holding '/', or neither empty nor starting with '.',
   * or equal to "." is refused; so is a path without a name. Otherwise the old suffix,
   * if any, is cut off and the new one appended.
   */
  function WithSuffix(p: Path, suffix: string): (r: Result<Path, PathError>)
    ensures r.Ok? <==> '/' !in suffix && suffix != "." && (suffix == "" || suffix[0] == '.') && p.Name() != ""
    ensures r.Ok? ==> r.value.Parent() == p.Parent() && r.value.Name() == Stem(p.Name()) + suffix
    ensures r.Ok? && p.Valid() && suffix != "" ==> r.value.Valid()
  {
    if '/' in suffix then Err(InvalidSuffix(suffix))
    else if (suffix != "" && suffix[0] != '.') || suffix == "." then Err(InvalidSuffix(suffix))
    else if p.Name() == "" then Err(EmptyName)
    else Ok(Renamed(p, suffix))
  }

  /** The successful case of `with_suffix`: the last component's suffix replaced. */
  function Renamed(p: Path, suffix: string): (r: Path)
    requires p.Name() != "" && '/' !in suffix
    ensures r.Parent() == p.Parent() && r.Name() == Stem(p.Name()) + suffix
    ensures p.Valid() && suffix != "" && suffix != "." ==> r.Valid()
  {
    var name := p.Name();
    var oldSuffix := Suffix(name);
    var newName := if oldSuffix == "" then name + suffix else name[..|name| - |oldSuffix|] + suffix;
    CutSuffix(name);
    RenamedValid(p, suffix);
    Path(p.absolute, p.parts[..|p.parts| - 1] + [newName])
  }

  /** Cutting the suffix off a name leaves its stem. */
  lemma CutSuffix(name: string)
    ensures (if Suffix(name) == "" then name else name[..|name| - |Suffix(name)|]) == Stem(name)
  {
    assert Stem(name) + Suffix(name) == name;
    assert name[..|Stem(name)|] == Stem(name);
  }

  /** The stem of a valid path's name with a plain suffix is a valid component. */
  lemma RenamedValid(p: Path, suffix: string)
    requires p.Name() != "" && '/' !in suffix
    ensures p.Valid() && suffix != "" && suffix != "." ==> ValidPart(Stem(p.Name()) + suffix)
  {
    if p.Valid() && suffix != "" && suffix != "." {
      assert ValidPart(p.parts[|p.parts| - 1]);
      StemHasNoSlash(p.Name());
      PlainNameAppend(Stem(p.Name()), suffix);
    }
  }

  /**
   * `change_filename(input_file, ext, path)`: with a directory, that directory joined with
   * `stem + "." + ext`; without one, `input_file.with_suffix("." + ext)`. A `Path` is never
   * falsy, so `if path` only tests whether a directory was passed.
   */
  function ChangeFilename(input: Path, ext: string, dir: Option<Path>): (r: Result<Path, PathError>)
    ensures dir.Some? ==> r.Ok?
    ensures dir.None? ==> (r.Ok? <==> ext != "" && '/' !in ext && input.Name() != "")
  {
    match dir
    case Some(d) => Ok(d.Join(Stem(input.Name()) + "." + ext))
    case None =>
      assert ("." + ext)[0] == '.' && ("." + ext)[1..] == ext;
      WithSuffix(input, "." + ext)
  }

  /** With a directory, the result lies in that directory and is named `stem.ext`. */
  lemma ChangeFilenameIntoDirectory(input: Path, ext: string, d: Path)
    requires input.Valid() && '/' !in ext && ext != ""
    ensures ChangeFilename(input, ext, Some(d)).Ok?
    ensures ChangeFilename(input, ext, Some(d)).value.Parent() == d
    ensures ChangeFilename(input, ext, Some(d)).value.Name() == Stem(input.Name()) + "." + ext
    ensures d.Valid() ==> ChangeFilename(input, ext, Some(d)).value.Valid()
    ensures ChangeFilename(input, ext, Some(d)) == Ok(Path(d.absolute, d.parts + [Stem(input.Name()) + "." + ext]))
  {
    StemHasNoSlash(input.Name());
    assert ValidPart(Stem(input.Name()) + "." + ext);
    JoinPart(d, Stem(input.Name()) + "." + ext);
  }

  /**
   * Without a directory the call fails exactly when `with_suffix` refuses (an empty or
   * '/'-holding extension, or an input without a name); otherwise the directory is kept
   * and the name becomes `stem.ext`, whose own stem and suffix are the old stem and `.ext`.
   */
  lemma ChangeFilenameInPlace(input: Path, ext: string)
    requires input.Valid()
    ensures ChangeFilename(input, ext, None).Ok? <==> ext != "" && '/' !in ext && input.Name() != ""
    ensures ChangeFilename(input, ext, None).Ok? ==>
      var r := ChangeFilename(input, ext, None).value;
      r.Valid() && r.Parent() == input.Parent() && r.Name() == Stem(input.Name()) + "." + ext
    ensures ChangeFilename(input, ext, None).Ok? && '.' !in ext ==>
      var r := ChangeFilename(input, ext, None).value;
      Stem(r.Name()) == Stem(input.Name()) && Suffix(r.Name()) == "." + ext
  {
    var r := ChangeFilename(input, ext, None);
    if r.Ok? && '.' !in ext {
      StemOfDotted(Stem(input.Name()), ext);
    }
  }

  /** Passing the input's own parent directory is the same as passing no directory. */
  lemma ParentDirectoryIsDefault(input: Path, ext: string)
    requires input.Valid() && input.Name() != "" && ext != "" && '/' !in ext
    ensures ChangeFilename(input, ext, Some(input.Parent())) == ChangeFilename(input, ext, None)
  {
    var name := Stem(input.Name()) + "." + ext;
    ChangeFilenameIntoDirectory(input, ext, input.Parent());
    var b := WithSuffix(input, "." + ext).value;
    AppendAssoc(Stem(input.Name()), ".", ext);
    assert b.Name() == name;
    assert b.parts == b.Parent().parts + [b.Name()];
  }

  /**
   * Applying `change_filename` a second time with the same extension and directory changes
   * nothing, for a named input and a non-empty extension without '.' or '/'.
   */
  lemma ChangeFilenameIdempotent(input: Path, ext: string, dir: Option<Path>)
    requires input.Valid() && input.Name() != "" && ext != "" && '.' !in ext && '/' !in ext
    ensures ChangeFilename(input, ext, dir).Ok?
    ensures ChangeFilename(ChangeFilename(input, ext, dir).value, ext, dir) == ChangeFilename(input, ext, dir)
  {
    var stem := Stem(input.Name());
    StemOfDotted(stem, ext);
    match dir
    case Some(d) =>
      ChangeFilenameIntoDirectory(input, ext, d);
    case None =>
      ChangeFilenameInPlace(input, ext);
      var r := ChangeFilename(input, ext, None).value;
      var r2 := ChangeFilename(r, ext, None).value;
      assert r.parts == r.Parent().parts + [r.Name()];
      assert r2.parts == r2.Parent().parts + [r2.Name()];
  }

  /** An extension holding '.' breaks idempotence: "a" becomes "a.tar.gz" ... */
  lemma DottedExtensionFirst()
    ensures ChangeFilename(Path(false, ["a"]), "tar.gz", None) == Ok(Path(false, ["a.tar.gz"]))
  {
    assert "a"[..0] == "";
    assert Stem("a") == "a";
    assert "." + "tar.gz" == ".tar.gz" && '/' !in ".tar.gz" && ".tar.gz"[0] == '.';
    var r := WithSuffix(Path(false, ["a"]), ".tar.gz");
    assert r.Ok?;
    assert r.value.Name() == "a" + ".tar.gz" == "a.tar.gz";
    assert r.value.Parent() == Path(false, []);
    assert r.value.parts == r.value.Parent().parts + [r.value.Name()];
  }

  /** ... and then "a.tar.tar.gz". */
  lemma DottedExtensionSecond()
    ensures ChangeFilename(Path(false, ["a.tar.gz"]), "tar.gz", None) == Ok(Path(false, ["a.tar.tar.gz"]))
  {
    var p := Path(false, ["a.tar.gz"]);
    TarNames();
    StemOfDotted("a.tar", "gz");
    assert Stem(p.Name()) == "a.tar";
    ChangeFilenameInPlace(p, "tar.gz");
    var r := ChangeFilename(p, "tar.gz", None).value;
    assert r.Name() == "a.tar.tar.gz";
    assert r.parts == r.Parent().parts + [r.Name()];
  }

  /** Proof helper: the literal names of the dotted-extension example, spelled out. */
  lemma TarNames()
    ensures "a.tar" + "." + "gz" == "a.tar.gz" && "a.tar" + "." + "tar.gz" == "a.tar.tar.gz"
    ensures "tar.gz" != "" && '/' !in "tar.gz"
  {
  }

}
