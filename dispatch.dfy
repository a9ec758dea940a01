/** What the transcoding job does with each directory `os.walk` reports: which files it
    skips, which it copies (cover art, already lossy audio) and which it hands to the
    encoder, where the results go, and which tags travel with each encoded file.
    Both the window's `transcode` and the script's `TranscodeDir` share this logic. */
module Dispatch {
  import opened PyStr
  import opened PosixPath
  import Tags

  /** Where the job puts what it produces: the directory cover art is copied to, and
      the directory the music library imports from. */
  datatype Destinations = Destinations(coverArt: string, itunesImport: string)

  /** The two directories both programs have built in. */
  const Configured: Destinations :=
    Destinations("/Users/guenther/Downloads/iTunes Cover Art",
                 "/Users/guenther/Music/iTunes/iTunes Media/Automatically Add to iTunes.localized")

  /** The tags copied from the lossless file to the encoded one, in the order they are read. */
  const TagNames: seq<string> := ["ARTIST", "TITLE", "TRACKNUMBER", "ALBUM", "DATE", "GENRE", "DISCNUMBER"]

  /** One step of `os.walk`: a directory and the names of the files directly in it. */
  datatype WalkEntry = WalkEntry(parent: string, fileNames: seq<string>)

  /** A change the job makes to the file system. Copying a cover and renaming it to the
      album's name is one effect; so is encoding into the temporary directory and moving
      the result to the import directory. */
  datatype Effect =
    | SaveCover(src: string, dest: string)
    | Import(src: string, dest: string)
    | MakeTempDir
    | Encode(src: string, dest: string, tags: seq<string>)
    | RemoveTempDir

  /** The input directory with one trailing `/` removed, as the job sanitizes it. */
  function StripTrailingSlash(dir: string): (r: string)
    ensures EndsWith(dir, "/") ==> r + "/" == dir
    ensures !EndsWith(dir, "/") ==> r == dir
  {
    if EndsWith(dir, "/") then dir[..|dir| - 1] else dir
  }

  /** The name a cover is saved under: the name of the sanitized input directory
      plus `.jpg`. */
  function CoverName(dir: string): (r: string)
    ensures EndsWith(r, ".jpg") && '/' !in r[..|r| - 4]
  {
    var r := Basename(dir) + ".jpg";
    assert r[..|r| - 4] == Basename(dir);
    r
  }

  /** A directory without a trailing `/` names its cover after its basename, and so
      does the same directory written with one, once sanitized. */
  lemma CoverNameOfDir(p: string)
    requires !EndsWith(p, "/")
    ensures CoverName(StripTrailingSlash(p)) == Basename(p) + ".jpg"
    ensures CoverName(StripTrailingSlash(p + "/")) == Basename(p) + ".jpg"
  {
    var q := p + "/";
    assert q[|q| - 1..] == "/" && q[..|q| - 1] == p;
    assert StripTrailingSlash(q) == p;
    assert StripTrailingSlash(p) == p;
  }

  /** A dragged album directory, with or without its trailing `/`, saves its cover art
      under the album directory's name. */
  lemma CoverNameOfAlbum(path: string, album: string)
    requires album != [] && '/' !in album
    ensures CoverName(StripTrailingSlash(path + "/" + album)) == album + ".jpg"
    ensures CoverName(StripTrailingSlash(path + "/" + album + "/")) == album + ".jpg"
  {
    var p := path + "/" + album;
    assert p == (path + "/") + album;
    BasenameAppend(path + "/", album);
    assert Basename(path + "/") == [];
    assert !EndsWith(p, "/") by {
      assert album[|album| - 1] in album;
      assert p[|p| - 1] == album[|album| - 1];
    }
    CoverNameOfDir(p);
  }

  /** Only one trailing `/` is removed, so a directory given with two saves its cover
      as plain `.jpg`. */
  lemma StripsOneSlash(dir: string)
    ensures StripTrailingSlash(dir + "//") == dir + "/"
    ensures CoverName(StripTrailingSlash(dir + "//")) == ".jpg"
  {
    var q := dir + "//";
    assert q[|q| - 1..] == "/" && q[..|q| - 1] == dir + "/";
  }

  datatype Bucket = Skip | CoverArt | Copy | Transcode

  /** Where one file name goes: hidden files are skipped, `folder.jpg` is cover art,
      `.mp3` and `.m4a` files are copied, `.flac` files are transcoded, the rest skipped. */
  function Classify(name: string): Bucket {
    var base := Basename(name);
    if StartsWith(base, ".") then Skip
    else if base == "folder.jpg" then CoverArt
    else if EndsWith(name, ".mp3") || EndsWith(name, ".m4a") then Copy
    else if EndsWith(name, ".flac") then Transcode
    else Skip
  }

  /** Each bucket by itself: the tests are ordered, yet no name passes two of them, so
      the bucket of a name does not depend on that order. */
  lemma ClassifyIff(name: string)
    ensures Classify(name) == CoverArt <==> Basename(name) == "folder.jpg"
    ensures Classify(name) == Copy <==> !StartsWith(Basename(name), ".") && (EndsWith(name, ".mp3") || EndsWith(name, ".m4a"))
    ensures Classify(name) == Transcode <==> !StartsWith(Basename(name), ".") && EndsWith(name, ".flac")
  {
    var base := Basename(name);
    if StartsWith(base, ".") {
      assert base[0] == '.';
    } else if base == "folder.jpg" {
      assert name[|name| - 1] == 'g';
    } else if EndsWith(name, ".mp3") || EndsWith(name, ".m4a") {
      assert name[|name| - 1] != 'c';
    }
  }

  /** `os.path.basename(name)[:-5] + '.mp3'`; Python's slice is empty when the name is
      shorter than five characters. */
  function OutputName(name: string): (r: string)
    ensures EndsWith(r, ".mp3") && '/' !in r
  {
    var base := Basename(name);
    var stem := if |base| >= 5 then base[..|base| - 5] else [];
    assert forall c :: c in stem ==> c in base;
    stem + ".mp3"
  }

  /** An encoded `.flac` file keeps its name and gets the `.mp3` extension. */
  lemma OutputNameOfFlac(stem: string)
    ensures OutputName(stem + ".flac") == Basename(stem) + ".mp3"
  {
    BasenameAppend(stem, ".flac");
    var base := Basename(stem) + ".flac";
    assert base[..|base| - 5] == Basename(stem);
  }

  /** What classifying the files of one directory produces: the copies made at once,
      and the files left to encode, in the order `os.walk` listed them. */
  datatype Plan = Plan(copies: seq<Effect>, toTranscode: seq<string>)

  /** The effects of copying one file, and the file if it is to be encoded. */
  function PlanFile(dests: Destinations, inputDir: string, parent: string, name: string): (p: Plan)
    ensures |p.copies| + |p.toTranscode| == if Classify(name) == Skip then 0 else 1
    ensures p.toTranscode == if Classify(name) == Transcode then [name] else []
  {
    match Classify(name)
    case Skip => Plan([], [])
    case CoverArt => Plan([SaveCover(Join(parent, name), Join(dests.coverArt, CoverName(inputDir)))], [])
    case Copy =>
      var src := Join(parent, name);
      Plan([Import(src, Join(dests.itunesImport, Basename(src)))], [])
    case Transcode => Plan([], [name])
  }

  function Then(p: Plan, q: Plan): Plan {
    Plan(p.copies + q.copies, p.toTranscode + q.toTranscode)
  }

  lemma ThenAssoc(p: Plan, q: Plan, r: Plan)
    ensures Then(Then(p, q), r) == Then(p, Then(q, r))
  {
    assert (p.copies + q.copies) + r.copies == p.copies + (q.copies + r.copies);
    assert (p.toTranscode + q.toTranscode) + r.toTranscode == p.toTranscode + (q.toTranscode + r.toTranscode);
  }

  /** The plan for the files of one directory, file by file. */
  function PlanOf(dests: Destinations, inputDir: string, parent: string, names: seq<string>): Plan {
    if names == [] then Plan([], [])
    else Then(PlanOf(dests, inputDir, parent, names[..|names| - 1]), PlanFile(dests, inputDir, parent, names[|names| - 1]))
  }

  /** One more file adds that file's plan at the end. */
  lemma PlanOfSnoc(dests: Destinations, inputDir: string, parent: string, names: seq<string>, x: string)
    ensures PlanOf(dests, inputDir, parent, names + [x]) == Then(PlanOf(dests, inputDir, parent, names), PlanFile(dests, inputDir, parent, x))
  {
    var s := names + [x];
    assert s[..|s| - 1] == names && s[|s| - 1] == x;
  }

  /** Classifying two lists of files one after the other is classifying their concatenation:
      every file lands in its own bucket, in the order listed. */
  lemma {:induction false} PlanOfConcat(dests: Destinations, inputDir: string, parent: string, a: seq<string>, b: seq<string>)
    ensures PlanOf(dests, inputDir, parent, a + b) == Then(PlanOf(dests, inputDir, parent, a), PlanOf(dests, inputDir, parent, b))
    decreases |b|
  {
    if b == [] {
      assert a + b == a;
      assert PlanOf(dests, inputDir, parent, b) == Plan([], []);
      assert PlanOf(dests, inputDir, parent, a).copies + [] == PlanOf(dests, inputDir, parent, a).copies;
      assert PlanOf(dests, inputDir, parent, a).toTranscode + [] == PlanOf(dests, inputDir, parent, a).toTranscode;
    } else {
      var init, x := b[..|b| - 1], b[|b| - 1];
      assert a + b == (a + init) + [x];
      assert b == init + [x];
      PlanOfSnoc(dests, inputDir, parent, a + init, x);
      PlanOfSnoc(dests, inputDir, parent, init, x);
      PlanOfConcat(dests, inputDir, parent, a, init);
      ThenAssoc(PlanOf(dests, inputDir, parent, a), PlanOf(dests, inputDir, parent, init), PlanFile(dests, inputDir, parent, x));
    }
  }

  /** The files left to encode are exactly the listed `.flac` files that are not hidden. */
  lemma {:induction false} ToTranscodeMembers(dests: Destinations, inputDir: string, parent: string, names: seq<string>)
    ensures forall x :: x in PlanOf(dests, inputDir, parent, names).toTranscode <==> x in names && Classify(x) == Transcode
  {
    if names != [] {
      var init := names[..|names| - 1];
      ToTranscodeMembers(dests, inputDir, parent, init);
      assert names == init + [names[|names| - 1]];
    }
  }

  /** The copy `shutil.copy(join(parent, x), import_dir)` makes: the file keeps its name. */
  function Imported(dests: Destinations, parent: string, x: string): Effect {
    Import(Join(parent, x), Join(dests.itunesImport, Basename(x)))
  }

  /** A file's plan imports the file under its own name exactly when it is a copy. */
  lemma PlanFileImport(dests: Destinations, inputDir: string, parent: string, name: string)
    ensures Classify(name) == Copy ==> PlanFile(dests, inputDir, parent, name).copies == [Imported(dests, parent, name)]
    ensures Classify(name) != Copy ==> forall e :: e in PlanFile(dests, inputDir, parent, name).copies ==> !e.Import?
  {
    if Classify(name) == Copy {
      CopyImportsUnderName(dests, inputDir, parent, name);
    } else {
      var b := Classify(name);
      assert PlanFile(dests, inputDir, parent, name).copies ==
             if b == CoverArt then [SaveCover(Join(parent, name), Join(dests.coverArt, CoverName(inputDir)))] else [];
    }
  }

  lemma CopyImportsUnderName(dests: Destinations, inputDir: string, parent: string, name: string)
    requires Classify(name) == Copy
    ensures PlanFile(dests, inputDir, parent, name).copies == [Imported(dests, parent, name)]
  {
    CopyEndsInName(name);
    BasenameOfJoinAny(parent, name);
  }

  /** A file copied as audio ends in its extension, not in `/`. */
  lemma CopyEndsInName(name: string)
    requires Classify(name) == Copy
    ensures name != [] && name[|name| - 1] != '/'
  {
    ClassifyIff(name);
    if EndsWith(name, ".mp3") {
      assert name[|name| - 1] == ".mp3"[3];
    } else {
      assert name[|name| - 1] == ".m4a"[3];
    }
  }

  /** What one file's plan copies: `folder.jpg` is saved as the album's cover; a visible
      `.mp3` or `.m4a` file is copied into the import directory under its own name;
      any other file is not copied. */
  lemma PlanFileCopies(dests: Destinations, inputDir: string, parent: string, name: string)
    ensures Basename(name) == "folder.jpg" ==>
              PlanFile(dests, inputDir, parent, name).copies ==
              [SaveCover(Join(parent, name), Join(dests.coverArt, CoverName(inputDir)))]
    ensures !StartsWith(Basename(name), ".") && (EndsWith(name, ".mp3") || EndsWith(name, ".m4a")) ==>
              PlanFile(dests, inputDir, parent, name).copies ==
              [Import(Join(parent, name), Join(dests.itunesImport, Basename(name)))]
    ensures Classify(name) == Skip || Classify(name) == Transcode ==>
              PlanFile(dests, inputDir, parent, name).copies == []
  {
    ClassifyIff(name);
    PlanFileImport(dests, inputDir, parent, name);
  }

  /** A directory's copies are the copies of its listed files, and no others. */
  lemma {:induction false} CopiesMembers(dests: Destinations, inputDir: string, parent: string, names: seq<string>)
    ensures forall e :: e in PlanOf(dests, inputDir, parent, names).copies <==>
              exists x :: x in names && e in PlanFile(dests, inputDir, parent, x).copies
  {
    if names != [] {
      var init, last := names[..|names| - 1], names[|names| - 1];
      CopiesMembers(dests, inputDir, parent, init);
      assert names == init + [last];
      var p, q := PlanOf(dests, inputDir, parent, init), PlanFile(dests, inputDir, parent, last);
      assert PlanOf(dests, inputDir, parent, names).copies == p.copies + q.copies;
      forall e | exists x :: x in names && e in PlanFile(dests, inputDir, parent, x).copies
        ensures e in p.copies + q.copies
      {
        var x :| x in names && e in PlanFile(dests, inputDir, parent, x).copies;
        if x != last {
          assert x in init;
        }
      }
    }
  }

  /** Every listed visible `.mp3` or `.m4a` file is imported under its own name. */
  lemma ImportsListed(dests: Destinations, inputDir: string, parent: string, names: seq<string>)
    ensures forall x :: x in names && Classify(x) == Copy ==>
              Imported(dests, parent, x) in PlanOf(dests, inputDir, parent, names).copies
  {
    CopiesMembers(dests, inputDir, parent, names);
    forall x | x in names && Classify(x) == Copy
      ensures Imported(dests, parent, x) in PlanOf(dests, inputDir, parent, names).copies
    {
      CopyImportsUnderName(dests, inputDir, parent, x);
      assert Imported(dests, parent, x) in PlanFile(dests, inputDir, parent, x).copies;
    }
  }

  /** Nothing else is imported: every import of a directory is one of its listed
      visible `.mp3` or `.m4a` files, under its own name. */
  lemma ImportsOnlyListed(dests: Destinations, inputDir: string, parent: string, names: seq<string>)
    ensures forall e :: e in PlanOf(dests, inputDir, parent, names).copies && e.Import? ==>
              exists x :: x in names && Classify(x) == Copy && e == Imported(dests, parent, x)
  {
    CopiesMembers(dests, inputDir, parent, names);
    forall e | e in PlanOf(dests, inputDir, parent, names).copies && e.Import?
      ensures exists x :: x in names && Classify(x) == Copy && e == Imported(dests, parent, x)
    {
      var x :| x in names && e in PlanFile(dests, inputDir, parent, x).copies;
      PlanFileImport(dests, inputDir, parent, x);
    }
  }

  /** A file's plan saves a cover, if any, under the input directory's name. */
  lemma PlanFileCover(dests: Destinations, inputDir: string, parent: string, name: string, dest: string)
    requires dest == Join(dests.coverArt, CoverName(inputDir))
    ensures forall e :: e in PlanFile(dests, inputDir, parent, name).copies && e.SaveCover? ==> e.dest == dest
  {
    match Classify(name)
    case Skip =>
    case CoverArt =>
    case Copy =>
    case Transcode =>
  }

  /** Every cover found is saved under the same name, the input directory's. */
  lemma {:induction false} CoversShareOneName(dests: Destinations, inputDir: string, parent: string, names: seq<string>)
    ensures forall e :: e in PlanOf(dests, inputDir, parent, names).copies && e.SaveCover? ==>
      e.dest == Join(dests.coverArt, CoverName(inputDir))
  {
    if names != [] {
      var init := names[..|names| - 1];
      var dest := Join(dests.coverArt, CoverName(inputDir));
      CoversShareOneName(dests, inputDir, parent, init);
      PlanFileCover(dests, inputDir, parent, names[|names| - 1], dest);
      var p, q := PlanOf(dests, inputDir, parent, init), PlanFile(dests, inputDir, parent, names[|names| - 1]);
      assert PlanOf(dests, inputDir, parent, names).copies == p.copies + q.copies;
    }
  }

  /** The classification loop of one directory. */
  method PlanDirectory(dests: Destinations, inputDir: string, parent: string, names: seq<string>) returns (copies: seq<Effect>, toTranscode: seq<string>)
    ensures Plan(copies, toTranscode) == PlanOf(dests, inputDir, parent, names)
  {
    copies, toTranscode := [], [];
    for i := 0 to |names|
      invariant Plan(copies, toTranscode) == PlanOf(dests, inputDir, parent, names[..i])
    {
      var name := names[i];
      assert names[..i + 1][..i] == names[..i];
      assert PlanOf(dests, inputDir, parent, names[..i + 1]) == Then(Plan(copies, toTranscode), PlanFile(dests, inputDir, parent, name));
      var base := Basename(name);
      if StartsWith(base, ".") {
        assert PlanFile(dests, inputDir, parent, name) == Plan([], []);
      } else if base == "folder.jpg" {
        copies := copies + [SaveCover(Join(parent, name), Join(dests.coverArt, CoverName(inputDir)))];
      } else if EndsWith(name, ".mp3") || EndsWith(name, ".m4a") {
        var src := Join(parent, name);
        copies := copies + [Import(src, Join(dests.itunesImport, Basename(src)))];
      } else if EndsWith(name, ".flac") {
        toTranscode := toTranscode + [name];
      } else {
        assert PlanFile(dests, inputDir, parent, name) == Plan([], []);
      }
    }
    assert names[..|names|] == names;
  }

  /** `get_tag` for a list of tag names: each value cleaned up by `transform_tag`; the
      first clean-up that raises ends the read. `metaflac(path, name)` is what
      `metaflac --show-tag=name` prints for the file. */
  function ReadTags(path: string, names: seq<string>, metaflac: (string, string) -> string): Result<seq<string>> {
    if names == [] then Ok([])
    else
      match Tags.TransformTag(metaflac(path, names[0]), names[0])
      case Raised => Raised
      case Ok(v) =>
        match ReadTags(path, names[1..], metaflac)
        case Raised => Raised
        case Ok(vs) => Ok([v] + vs)
  }

  /** Reading tags succeeds exactly when every tag's clean-up does, and then yields each
      cleaned-up value at its tag's position. */
  lemma {:induction false} ReadTagsIff(path: string, names: seq<string>, metaflac: (string, string) -> string)
    ensures ReadTags(path, names, metaflac).Ok? <==>
      forall i :: 0 <= i < |names| ==> Tags.TransformTag(metaflac(path, names[i]), names[i]).Ok?
    ensures ReadTags(path, names, metaflac).Ok? ==> |ReadTags(path, names, metaflac).value| == |names|
    ensures ReadTags(path, names, metaflac).Ok? ==> forall i :: 0 <= i < |names| ==>
      Tags.TransformTag(metaflac(path, names[i]), names[i]) == Ok(ReadTags(path, names, metaflac).value[i])
  {
    if names != [] {
      var tail := names[1..];
      ReadTagsIff(path, tail, metaflac);
      assert forall i :: 1 <= i < |names| ==> names[i] == tail[i - 1];
      var first := Tags.TransformTag(metaflac(path, names[0]), names[0]);
      var rest := ReadTags(path, tail, metaflac);
      if first.Ok? && rest.Ok? {
        var vs := [first.value] + rest.value;
        assert ReadTags(path, names, metaflac) == Ok(vs);
        forall i | 0 <= i < |names|
          ensures Tags.TransformTag(metaflac(path, names[i]), names[i]) == Ok(vs[i])
        {
          if i > 0 {
            assert Tags.TransformTag(metaflac(path, tail[i - 1]), tail[i - 1]) == Ok(rest.value[i - 1]);
          }
        }
      } else if first.Ok? {
        var j :| 0 <= j < |tail| && !Tags.TransformTag(metaflac(path, tail[j]), tail[j]).Ok?;
        assert names[j + 1] == tail[j];
      }
    }
  }

  /** A tag the file does not have prints nothing, and becomes the empty value. */
  lemma MissingTagIsEmpty(name: string)
    ensures Tags.TransformTag("", name) == Ok("")
  {
    assert Split("") == [];
    assert Tags.CapitalizeWords("") == "";
  }

  /** Encoding one file: its seven tags are read, then it is encoded into the import
      directory under its `.mp3` name. */
  function EncodeFile(dests: Destinations, parent: string, name: string, metaflac: (string, string) -> string): (r: Result<Effect>)
    ensures r.Ok? <==> ReadTags(Join(parent, name), TagNames, metaflac).Ok?
    ensures r.Ok? ==> r.value.Encode? && r.value.src == Join(parent, name)
    ensures r.Ok? ==> r.value.dest == Join(dests.itunesImport, OutputName(name))
    ensures r.Ok? ==> r.value.tags == ReadTags(Join(parent, name), TagNames, metaflac).value
  {
    var src := Join(parent, name);
    match ReadTags(src, TagNames, metaflac)
    case Raised => Raised
    case Ok(tags) => Ok(Encode(src, Join(dests.itunesImport, OutputName(name)), tags))
  }

  /** Encoding the files of one directory, as a function of the file name. */
  function Encoder(dests: Destinations, parent: string, metaflac: (string, string) -> string): string -> Result<Effect> {
    name => EncodeFile(dests, parent, name, metaflac)
  }

  /** `encode` yields nothing but encodes. */
  ghost predicate EncodesOnly(encode: string -> Result<Effect>) {
    forall name :: encode(name).Ok? ==> encode(name).value.Encode?
  }

  lemma EncoderEncodesOnly(dests: Destinations, parent: string, metaflac: (string, string) -> string)
    ensures EncodesOnly(Encoder(dests, parent, metaflac))
  {
  }
}
