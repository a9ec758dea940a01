/** The command-line script `TranscodeDir`: every directory of the walk is classified
    and its `.flac` files encoded, each directory with its own fresh list and its own
    temporary directory. An exception while reading tags ends the whole run. */
module TranscodeScript {
  import opened PyStr
  import opened Dispatch

  /** The effects of a run, in order, and whether an exception ended it. */
  datatype Trace = Trace(effects: seq<Effect>, raised: bool)

  /** `effects` happened first, then `t`. */
  function After(effects: seq<Effect>, t: Trace): Trace {
    Trace(effects + t.effects, t.raised)
  }

  /** Encoding the files left by classification, in order, with `encode`; the first file
      whose encoding raises ends the run. */
  function EncodeAll(files: seq<string>, encode: string -> Result<Effect>): Trace {
    if files == [] then Trace([], false)
    else
      match encode(files[0])
      case Raised => Trace([], true)
      case Ok(e) => After([e], EncodeAll(files[1..], encode))
  }

  /** A run of encodes ends normally exactly when every file can be encoded, and then it
      holds every file's encoding, in order. */
  lemma {:induction false} EncodeAllIff(files: seq<string>, encode: string -> Result<Effect>)
    ensures !EncodeAll(files, encode).raised <==> forall i :: 0 <= i < |files| ==> encode(files[i]).Ok?
    ensures !EncodeAll(files, encode).raised ==>
      |EncodeAll(files, encode).effects| == |files| &&
      forall i :: 0 <= i < |files| ==> encode(files[i]) == Ok(EncodeAll(files, encode).effects[i])
  {
    if files != [] {
      var tail := files[1..];
      var rest := EncodeAll(tail, encode);
      EncodeAllIff(tail, encode);
      assert forall i :: 1 <= i < |files| ==> files[i] == tail[i - 1];
      match encode(files[0])
      case Raised =>
      case Ok(e) =>
        assert EncodeAll(files, encode) == Trace([e] + rest.effects, rest.raised);
        if !rest.raised {
          forall i | 0 <= i < |files|
            ensures encode(files[i]) == Ok(([e] + rest.effects)[i])
          {
            if i > 0 {
              assert encode(tail[i - 1]) == Ok(rest.effects[i - 1]);
            }
          }
        } else {
          var j :| 0 <= j < |tail| && !encode(tail[j]).Ok?;
          assert files[j + 1] == tail[j];
        }
    }
  }

  /** An encoder that yields nothing but encodes, run over a directory's files, yields
      nothing but encodes. */
  lemma {:induction false} EncodeAllOnlyEncodes(files: seq<string>, encode: string -> Result<Effect>)
    requires EncodesOnly(encode)
    ensures forall e :: e in EncodeAll(files, encode).effects ==> e.Encode?
  {
    if files != [] {
      EncodeAllOnlyEncodes(files[1..], encode);
    }
  }

  /** The script's encoder for the files of directory `parent`. */
  function Encoders(dests: Destinations, metaflac: (string, string) -> string): string -> (string -> Result<Effect>) {
    parent => Encoder(dests, parent, metaflac)
  }

  /** The script's encoders yield nothing but encodes. */
  lemma EncodersEncodeOnly(dests: Destinations, metaflac: (string, string) -> string)
    ensures forall parent :: EncodesOnly(Encoders(dests, metaflac)(parent))
  {
    forall parent ensures EncodesOnly(Encoders(dests, metaflac)(parent)) {
      EncoderEncodesOnly(dests, parent, metaflac);
    }
  }

  /** One directory: copies, a temporary directory, the encodes, and the temporary
      directory removed again unless an encode raised. */
  function DirTrace(dests: Destinations, inputDir: string, entry: WalkEntry, encoderFor: string -> (string -> Result<Effect>)): Trace {
    var plan := PlanOf(dests, inputDir, entry.parent, entry.fileNames);
    var t := EncodeAll(plan.toTranscode, encoderFor(entry.parent));
    After(plan.copies + [MakeTempDir], After(t.effects, Trace(if t.raised then [] else [RemoveTempDir], t.raised)))
  }

  /** The directories of the walk, one after the other, until one raises. */
  function WalkTrace(dests: Destinations, inputDir: string, walk: seq<WalkEntry>, encoderFor: string -> (string -> Result<Effect>)): Trace {
    if walk == [] then Trace([], false)
    else
      var t := DirTrace(dests, inputDir, walk[0], encoderFor);
      if t.raised then t else After(t.effects, WalkTrace(dests, inputDir, walk[1..], encoderFor))
  }

  /** `TranscodeDir(input_dir)` for the directories `os.walk` yields. */
  function ScriptRun(dests: Destinations, inputDir: string, walk: seq<WalkEntry>, metaflac: (string, string) -> string): Trace {
    WalkTrace(dests, StripTrailingSlash(inputDir), walk, Encoders(dests, metaflac))
  }

  /** Walking two lists of directories one after the other is walking their
      concatenation: no directory's outcome depends on another's, except that an
      exception stops the run. */
  lemma {:induction false} WalkTraceConcat(dests: Destinations, inputDir: string, a: seq<WalkEntry>, b: seq<WalkEntry>, encoderFor: string -> (string -> Result<Effect>))
    ensures WalkTrace(dests, inputDir, a + b, encoderFor) ==
      var ta := WalkTrace(dests, inputDir, a, encoderFor);
      if ta.raised then ta else After(ta.effects, WalkTrace(dests, inputDir, b, encoderFor))
  {
    if a == [] {
      assert a + b == b;
    } else {
      assert (a + b)[0] == a[0];
      assert (a + b)[1..] == a[1..] + b;
      WalkTraceConcat(dests, inputDir, a[1..], b, encoderFor);
      var t := DirTrace(dests, inputDir, a[0], encoderFor);
      if !t.raised {
        var tb := WalkTrace(dests, inputDir, b, encoderFor);
        var ta' := WalkTrace(dests, inputDir, a[1..], encoderFor);
        if !ta'.raised {
          assert t.effects + (ta'.effects + tb.effects) == (t.effects + ta'.effects) + tb.effects;
        }
      }
    }
  }

  /** The copies of a directory create and remove no temporary directory. */
  lemma {:induction false} CopiesMakeNoTempDir(dests: Destinations, inputDir: string, parent: string, names: seq<string>)
    ensures forall e :: e in PlanOf(dests, inputDir, parent, names).copies ==> e.SaveCover? || e.Import?
  {
    if names != [] {
      CopiesMakeNoTempDir(dests, inputDir, parent, names[..|names| - 1]);
    }
  }

  /** Copies and encodes framed by one temporary directory hold exactly one of each. */
  lemma FramedTempDirs(copies: seq<Effect>, encoded: seq<Effect>)
    requires forall e :: e in copies ==> e.SaveCover? || e.Import?
    requires forall e :: e in encoded ==> e.Encode?
    ensures multiset(copies + [MakeTempDir] + encoded + [RemoveTempDir])[MakeTempDir] == 1
    ensures multiset(copies + [MakeTempDir] + encoded + [RemoveTempDir])[RemoveTempDir] == 1
  {
    assert MakeTempDir !in copies && RemoveTempDir !in copies;
    assert MakeTempDir !in encoded && RemoveTempDir !in encoded;
    var m := multiset(copies) + multiset(encoded);
    assert m[MakeTempDir] == 0 && m[RemoveTempDir] == 0;
    assert multiset(copies + [MakeTempDir] + encoded + [RemoveTempDir]) == m + multiset{MakeTempDir, RemoveTempDir};
  }

  /** A directory that ends normally creates and removes exactly one temporary directory. */
  lemma DirTempDirs(dests: Destinations, inputDir: string, entry: WalkEntry, encoderFor: string -> (string -> Result<Effect>))
    requires EncodesOnly(encoderFor(entry.parent))
    requires !DirTrace(dests, inputDir, entry, encoderFor).raised
    ensures multiset(DirTrace(dests, inputDir, entry, encoderFor).effects)[MakeTempDir] == 1
    ensures multiset(DirTrace(dests, inputDir, entry, encoderFor).effects)[RemoveTempDir] == 1
  {
    var plan := PlanOf(dests, inputDir, entry.parent, entry.fileNames);
    var t := EncodeAll(plan.toTranscode, encoderFor(entry.parent));
    CopiesMakeNoTempDir(dests, inputDir, entry.parent, entry.fileNames);
    EncodeAllOnlyEncodes(plan.toTranscode, encoderFor(entry.parent));
    DirTraceOf(dests, inputDir, entry, encoderFor, plan.copies, plan.toTranscode, t.effects, t.raised);
    FramedTempDirs(plan.copies, t.effects);
  }

  /** A run that ends normally creates one temporary directory per walked directory and
      removes every one of them. */
  lemma {:induction false} TempDirsBalanced(dests: Destinations, inputDir: string, walk: seq<WalkEntry>, encoderFor: string -> (string -> Result<Effect>))
    requires forall parent :: EncodesOnly(encoderFor(parent))
    requires !WalkTrace(dests, inputDir, walk, encoderFor).raised
    ensures multiset(WalkTrace(dests, inputDir, walk, encoderFor).effects)[MakeTempDir] == |walk|
    ensures multiset(WalkTrace(dests, inputDir, walk, encoderFor).effects)[RemoveTempDir] == |walk|
  {
    if walk != [] {
      var d := DirTrace(dests, inputDir, walk[0], encoderFor);
      var rest := WalkTrace(dests, inputDir, walk[1..], encoderFor);
      assert WalkTrace(dests, inputDir, walk, encoderFor).effects == d.effects + rest.effects;
      DirTempDirs(dests, inputDir, walk[0], encoderFor);
      TempDirsBalanced(dests, inputDir, walk[1..], encoderFor);
      assert multiset(d.effects + rest.effects) == multiset(d.effects) + multiset(rest.effects);
    }
  }

  /** The inner loop of the script: the files of one directory encoded one by one, until
      one raises. */
  method EncodeFiles(files: seq<string>, encode: string -> Result<Effect>)
    returns (encoded: seq<Effect>, raised: bool)
    ensures Trace(encoded, raised) == EncodeAll(files, encode)
  {
    encoded := [];
    for n := 0 to |files|
      invariant EncodeAll(files, encode) == After(encoded, EncodeAll(files[n..], encode))
    {
      assert files[n..][0] == files[n] && files[n..][1..] == files[n + 1..];
      var r := encode(files[n]);
      if r.Raised? {
        return encoded, true;
      }
      assert encoded + ([r.value] + EncodeAll(files[n + 1..], encode).effects) ==
        (encoded + [r.value]) + EncodeAll(files[n + 1..], encode).effects;
      encoded := encoded + [r.value];
    }
    assert files[|files|..] == [];
    assert encoded + [] == encoded;
    return encoded, false;
  }

  lemma DirTraceOf(dests: Destinations, dir: string, entry: WalkEntry, encoderFor: string -> (string -> Result<Effect>),
                   copies: seq<Effect>, toTranscode: seq<string>, encoded: seq<Effect>, failed: bool)
    requires Plan(copies, toTranscode) == PlanOf(dests, dir, entry.parent, entry.fileNames)
    requires Trace(encoded, failed) == EncodeAll(toTranscode, encoderFor(entry.parent))
    ensures DirTrace(dests, dir, entry, encoderFor) ==
      Trace(copies + [MakeTempDir] + encoded + (if failed then [] else [RemoveTempDir]), failed)
  {
    var tail := if failed then [] else [RemoveTempDir];
    assert (copies + [MakeTempDir]) + (encoded + tail) == copies + [MakeTempDir] + encoded + tail;
  }

  lemma WalkStep(dests: Destinations, dir: string, walk: seq<WalkEntry>, w: nat, encoderFor: string -> (string -> Result<Effect>))
    requires w < |walk|
    ensures WalkTrace(dests, dir, walk[w..], encoderFor) ==
      var t := DirTrace(dests, dir, walk[w], encoderFor);
      if t.raised then t else After(t.effects, WalkTrace(dests, dir, walk[w + 1..], encoderFor))
  {
    assert walk[w..][0] == walk[w] && walk[w..][1..] == walk[w + 1..];
  }

  /** One pass of the script's outer loop: the directory's file list classified afresh,
      then its `.flac` files encoded in a temporary directory. */
  method TranscodeOneDir(dests: Destinations, dir: string, entry: WalkEntry, encoderFor: string -> (string -> Result<Effect>))
    returns (effects: seq<Effect>, raised: bool)
    ensures Trace(effects, raised) == DirTrace(dests, dir, entry, encoderFor)
  {
    var copies, toTranscode := PlanDirectory(dests, dir, entry.parent, entry.fileNames);
    var encoded, failed := EncodeFiles(toTranscode, encoderFor(entry.parent));
    DirTraceOf(dests, dir, entry, encoderFor, copies, toTranscode, encoded, failed);
    if failed {
      return copies + [MakeTempDir] + encoded, true;
    }
    return copies + [MakeTempDir] + encoded + [RemoveTempDir], false;
  }

  /** `TranscodeDir(input_dir)`: every directory of the walk in turn. */
  method TranscodeDir(dests: Destinations, inputDir: string, walk: seq<WalkEntry>, encoderFor: string -> (string -> Result<Effect>))
    returns (effects: seq<Effect>, raised: bool)
    ensures Trace(effects, raised) == WalkTrace(dests, StripTrailingSlash(inputDir), walk, encoderFor)
  {
    var dir := StripTrailingSlash(inputDir);
    effects, raised := [], false;
    assert walk[0..] == walk;
    for w := 0 to |walk|
      invariant WalkTrace(dests, dir, walk, encoderFor) == After(effects, WalkTrace(dests, dir, walk[w..], encoderFor))
    {
      var here, failed := TranscodeOneDir(dests, dir, walk[w], encoderFor);
      WalkStep(dests, dir, walk, w, encoderFor);
      if failed {
        return effects + here, true;
      }
      ghost var rest := WalkTrace(dests, dir, walk[w + 1..], encoderFor);
      assert effects + (here + rest.effects) == (effects + here) + rest.effects;
      effects := effects + here;
    }
    assert WalkTrace(dests, dir, walk[|walk|..], encoderFor) == Trace([], false);
    assert effects + [] == effects;
  }

  /** The script's entry point: the current directory, with the destinations built in. */
  method TranscodeCurrentDir(cwd: string, walk: seq<WalkEntry>, metaflac: (string, string) -> string)
    returns (effects: seq<Effect>, raised: bool)
    ensures Trace(effects, raised) == ScriptRun(Configured, cwd, walk, metaflac)
  {
    effects, raised := TranscodeDir(Configured, cwd, walk, Encoders(Configured, metaflac));
  }
}
