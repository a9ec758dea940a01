/** The window program's worker, `DragDropWindow.transcode`. It differs from the script
    in three ways: before each file it takes one message off the GUI's queue and stops
    if that message is `'Cancel'`; it reports progress on the other queue; and it
    returns at the end of the first directory the walk yields. */
module Window {
  import opened PyStr
  import opened Dispatch
  import TranscodeScript

  /** What the worker puts on `queue_function_to_gui`: the number of files started out
      of the total (shown as a percentage), or `'100%'`, which tells the status thread
      to stop. */
  datatype Status = Progress(started: nat, total: nat) | Finished

  /** How the worker's call ended. */
  datatype Ending =
    | Completed      // the first directory was done and `'100%'` was put
    | Cancelled      // a `'Cancel'` message was taken before a file
    | Failed         // reading a file's tags raised
    | NothingWalked  // the walk yielded no directory

  /** The worker's effects, the statuses it put, the messages it left on the GUI's
      queue, and how it ended. */
  datatype Job = Job(effects: seq<Effect>, statuses: seq<Status>, pending: seq<string>, ending: Ending)

  /** `effects` and `statuses` happened first, then `j`. */
  function Prefixed(effects: seq<Effect>, statuses: seq<Status>, j: Job): Job {
    Job(effects + j.effects, statuses + j.statuses, j.pending, j.ending)
  }

  /** The encoding loop: `done` files of `total` are behind it, `pending` are the
      messages on the GUI's queue. */
  function EncodeWithCancel(files: seq<string>, done: nat, total: nat, pending: seq<string>,
                            encode: string -> Result<Effect>): Job
  {
    if files == [] then Job([], [], pending, Completed)
    else if pending != [] && pending[0] == "Cancel" then Job([], [], pending[1..], Cancelled)
    else
      var progress := Progress(done + 1, total);
      match encode(files[0])
      case Raised => Job([], [progress], Taken(pending), Failed)
      case Ok(e) => Prefixed([e], [progress], EncodeWithCancel(files[1..], done + 1, total, Taken(pending), encode))
  }

  /** The GUI's queue after one message is taken off it, if it holds any. */
  function Taken(pending: seq<string>): seq<string> {
    if pending == [] then [] else pending[1..]
  }

  lemma PrefixedAssoc(a: seq<Effect>, s: seq<Status>, b: seq<Effect>, t: seq<Status>, j: Job)
    ensures Prefixed(a, s, Prefixed(b, t, j)) == Prefixed(a + b, s + t, j)
  {
    assert a + (b + j.effects) == (a + b) + j.effects;
    assert s + (t + j.statuses) == (s + t) + j.statuses;
  }

  /** One pass of the encoding loop, at file `n`. */
  lemma EncodeWithCancelAt(files: seq<string>, n: nat, total: nat, pending: seq<string>, encode: string -> Result<Effect>)
    requires n < |files|
    ensures EncodeWithCancel(files[n..], n, total, pending, encode) ==
      if pending != [] && pending[0] == "Cancel" then Job([], [], pending[1..], Cancelled)
      else if encode(files[n]).Raised? then Job([], [Progress(n + 1, total)], Taken(pending), Failed)
      else Prefixed([encode(files[n]).value], [Progress(n + 1, total)],
                    EncodeWithCancel(files[n + 1..], n + 1, total, Taken(pending), encode))
  {
    assert files[n..][0] == files[n] && files[n..][1..] == files[n + 1..];
  }

  /** `transcode(input_dir)` for the directories `os.walk` yields and the messages
      waiting on the GUI's queue. */
  function TranscodeJob(dests: Destinations, inputDir: string, walk: seq<WalkEntry>, pending: seq<string>,
                        metaflac: (string, string) -> string): Job
  {
    if walk == [] then Job([], [], pending, NothingWalked)
    else
      var entry := walk[0];
      var plan := PlanOf(dests, StripTrailingSlash(inputDir), entry.parent, entry.fileNames);
      var j := EncodeWithCancel(plan.toTranscode, 0, |plan.toTranscode|, pending, Encoder(dests, entry.parent, metaflac));
      var completed := j.ending == Completed;
      Prefixed(plan.copies + [MakeTempDir], [],
        Prefixed(j.effects, j.statuses,
          Job(if completed then [RemoveTempDir] else [], if completed then [Finished] else [], j.pending, j.ending)))
  }

  function Min(a: nat, b: nat): nat {
    if a < b then a else b
  }

  /** The progress statuses `done + 1` to `done + n` of `total`: a reference sequence,
      not itself a claim about the worker; `EncodeWithCancelCompleted` proves that the
      worker's loop puts exactly these statuses. */
  function Progresses(done: nat, n: nat, total: nat): (ps: seq<Status>)
    ensures |ps| == n && forall i :: 0 <= i < n ==> ps[i] == Progress(done + i + 1, total)
  {
    seq(n, i requires 0 <= i < n => Progress(done + i + 1, total))
  }

  /** The encoding loop runs to its end exactly when no `'Cancel'` is among the messages
      it takes, one per file, and every file's tags can be read. */
  lemma {:induction false} EncodeWithCancelCompletes(files: seq<string>, done: nat, total: nat, pending: seq<string>,
                                                     encode: string -> Result<Effect>)
    ensures EncodeWithCancel(files, done, total, pending, encode).ending == Completed <==>
      "Cancel" !in pending[..Min(|pending|, |files|)] && forall i :: 0 <= i < |files| ==> encode(files[i]).Ok?
  {
    if files != [] {
      var rest := Taken(pending);
      var k := Min(|pending|, |files|);
      EncodeWithCancelCompletes(files[1..], done + 1, total, rest, encode);
      assert forall i :: 1 <= i < |files| ==> files[i] == files[1..][i - 1];
      if pending != [] {
        assert pending[..k] == [pending[0]] + rest[..Min(|rest|, |files| - 1)];
      } else {
        assert pending[..k] == [] && rest[..Min(|rest|, |files| - 1)] == [];
      }
      if encode(files[0]).Ok? && !(pending != [] && pending[0] == "Cancel") &&
         !(forall i :: 1 <= i < |files| ==> encode(files[i]).Ok?) {
        var i :| 1 <= i < |files| && !encode(files[i]).Ok?;
        assert !encode(files[1..][i - 1]).Ok?;
      }
    }
  }

  /** A loop that runs to its end has put one progress status per file, in order, has
      taken one message per file while there were any, and has encoded exactly what the
      script's loop encodes. */
  lemma {:induction false} EncodeWithCancelCompleted(files: seq<string>, done: nat, total: nat, pending: seq<string>,
                                                     encode: string -> Result<Effect>)
    requires EncodeWithCancel(files, done, total, pending, encode).ending == Completed
    ensures EncodeWithCancel(files, done, total, pending, encode).statuses == Progresses(done, |files|, total)
    ensures EncodeWithCancel(files, done, total, pending, encode).pending == pending[Min(|pending|, |files|)..]
    ensures EncodeWithCancel(files, done, total, pending, encode).effects == TranscodeScript.EncodeAll(files, encode).effects
    ensures !TranscodeScript.EncodeAll(files, encode).raised
  {
    if files != [] {
      var rest := Taken(pending);
      assert !(pending != [] && pending[0] == "Cancel");
      assert encode(files[0]).Ok?;
      var e := encode(files[0]).value;
      var j := EncodeWithCancel(files[1..], done + 1, total, rest, encode);
      assert EncodeWithCancel(files, done, total, pending, encode) == Prefixed([e], [Progress(done + 1, total)], j);
      EncodeWithCancelCompleted(files[1..], done + 1, total, rest, encode);
      assert TranscodeScript.EncodeAll(files, encode) == TranscodeScript.After([e], TranscodeScript.EncodeAll(files[1..], encode));
      assert [Progress(done + 1, total)] + Progresses(done + 1, |files| - 1, total) == Progresses(done, |files|, total);
      if pending != [] {
        assert rest[Min(|rest|, |files| - 1)..] == pending[Min(|pending|, |files|)..];
      }
    }
  }

  /** Until the loop has run to its end, only progress statuses are put. */
  lemma {:induction false} EncodeWithCancelShape(files: seq<string>, done: nat, total: nat, pending: seq<string>,
                                                 encode: string -> Result<Effect>)
    requires EncodesOnly(encode)
    ensures forall s :: s in EncodeWithCancel(files, done, total, pending, encode).statuses ==> s.Progress?
    ensures RemoveTempDir !in EncodeWithCancel(files, done, total, pending, encode).effects
    ensures EncodeWithCancel(files, done, total, pending, encode).ending != NothingWalked
  {
    if files != [] {
      var rest := Taken(pending);
      EncodeWithCancelShape(files[1..], done + 1, total, rest, encode);
    }
  }

  /** `'100%'` is put exactly when the worker ran to its end; and then the temporary
      directory was removed, while a cancelled or failed worker leaves it behind. */
  lemma FinishedIffCompleted(dests: Destinations, inputDir: string, walk: seq<WalkEntry>, pending: seq<string>,
                             metaflac: (string, string) -> string)
    ensures Finished in TranscodeJob(dests, inputDir, walk, pending, metaflac).statuses <==>
      TranscodeJob(dests, inputDir, walk, pending, metaflac).ending == Completed
    ensures walk != [] ==>
      (RemoveTempDir in TranscodeJob(dests, inputDir, walk, pending, metaflac).effects <==>
       TranscodeJob(dests, inputDir, walk, pending, metaflac).ending == Completed)
  {
    if walk != [] {
      var entry := walk[0];
      var plan := PlanOf(dests, StripTrailingSlash(inputDir), entry.parent, entry.fileNames);
      var encode := Encoder(dests, entry.parent, metaflac);
      var j := EncodeWithCancel(plan.toTranscode, 0, |plan.toTranscode|, pending, encode);
      EncoderEncodesOnly(dests, entry.parent, metaflac);
      EncodeWithCancelShape(plan.toTranscode, 0, |plan.toTranscode|, pending, encode);
      TranscodeScript.CopiesMakeNoTempDir(dests, StripTrailingSlash(inputDir), entry.parent, entry.fileNames);
      assert RemoveTempDir !in plan.copies + [MakeTempDir] + j.effects;
      assert Finished !in j.statuses;
    }
  }

  /** The worker runs to its end exactly when no `'Cancel'` is among the messages it
      takes, one before each `.flac` file, and every such file's tags can be read. */
  lemma CompletesIff(dests: Destinations, inputDir: string, walk: seq<WalkEntry>, pending: seq<string>,
                     metaflac: (string, string) -> string)
    requires walk != []
    ensures var files := PlanOf(dests, StripTrailingSlash(inputDir), walk[0].parent, walk[0].fileNames).toTranscode;
      TranscodeJob(dests, inputDir, walk, pending, metaflac).ending == Completed <==>
      "Cancel" !in pending[..Min(|pending|, |files|)] &&
      forall i :: 0 <= i < |files| ==> EncodeFile(dests, walk[0].parent, files[i], metaflac).Ok?
  {
    var files := PlanOf(dests, StripTrailingSlash(inputDir), walk[0].parent, walk[0].fileNames).toTranscode;
    var encode := Encoder(dests, walk[0].parent, metaflac);
    EncodeWithCancelCompletes(files, 0, |files|, pending, encode);
    assert forall i :: 0 <= i < |files| ==> encode(files[i]) == EncodeFile(dests, walk[0].parent, files[i], metaflac);
  }

  /** A worker that runs to its end puts one progress status per `.flac` file and then
      `'100%'`, takes one message per file while there are any, and does on the first
      directory exactly what the script does on it. */
  lemma CompletedRun(dests: Destinations, inputDir: string, walk: seq<WalkEntry>, pending: seq<string>,
                     metaflac: (string, string) -> string)
    requires walk != []
    requires TranscodeJob(dests, inputDir, walk, pending, metaflac).ending == Completed
    ensures var files := PlanOf(dests, StripTrailingSlash(inputDir), walk[0].parent, walk[0].fileNames).toTranscode;
      var job := TranscodeJob(dests, inputDir, walk, pending, metaflac);
      job.statuses == Progresses(0, |files|, |files|) + [Finished] &&
      job.pending == pending[Min(|pending|, |files|)..]
    ensures TranscodeJob(dests, inputDir, walk, pending, metaflac).effects ==
      TranscodeScript.ScriptRun(dests, inputDir, walk[..1], metaflac).effects
    ensures !TranscodeScript.ScriptRun(dests, inputDir, walk[..1], metaflac).raised
  {
    var dir := StripTrailingSlash(inputDir);
    var entry := walk[0];
    var plan := PlanOf(dests, dir, entry.parent, entry.fileNames);
    var encode := Encoder(dests, entry.parent, metaflac);
    EncodeWithCancelCompleted(plan.toTranscode, 0, |plan.toTranscode|, pending, encode);
    var encoders := TranscodeScript.Encoders(dests, metaflac);
    assert encoders(entry.parent) == encode;
    var d := TranscodeScript.DirTrace(dests, dir, entry, encoders);
    assert walk[..1][0] == entry && walk[..1][1..] == [];
    assert TranscodeScript.WalkTrace(dests, dir, walk[..1], encoders) == TranscodeScript.After(d.effects, TranscodeScript.Trace([], false));
    assert d.effects + [] == d.effects;
  }

  /** A `'Cancel'` waiting before the first `.flac` file stops the worker before it
      encodes anything or reports any progress; the copies are already made and the
      temporary directory stays. */
  lemma CancelledBeforeFirstFile(dests: Destinations, inputDir: string, walk: seq<WalkEntry>, pending: seq<string>,
                                 metaflac: (string, string) -> string)
    requires walk != [] && pending != [] && pending[0] == "Cancel"
    requires PlanOf(dests, StripTrailingSlash(inputDir), walk[0].parent, walk[0].fileNames).toTranscode != []
    ensures TranscodeJob(dests, inputDir, walk, pending, metaflac) ==
      Job(PlanOf(dests, StripTrailingSlash(inputDir), walk[0].parent, walk[0].fileNames).copies + [MakeTempDir],
          [], pending[1..], Cancelled)
  {
    var plan := PlanOf(dests, StripTrailingSlash(inputDir), walk[0].parent, walk[0].fileNames);
    assert plan.copies + [MakeTempDir] + [] + [] == plan.copies + [MakeTempDir];
  }

  /** Only the first directory the walk yields is processed: subdirectories are never
      reached. */
  lemma OnlyFirstDirectory(dests: Destinations, inputDir: string, walk: seq<WalkEntry>, pending: seq<string>,
                           metaflac: (string, string) -> string)
    requires walk != []
    ensures TranscodeJob(dests, inputDir, walk, pending, metaflac) == TranscodeJob(dests, inputDir, walk[..1], pending, metaflac)
  {
    assert walk[..1][0] == walk[0];
  }

  /** The worker's job from its parts: the first directory's plan and its encoding loop. */
  lemma TranscodeJobOf(dests: Destinations, inputDir: string, walk: seq<WalkEntry>, pending: seq<string>,
                       metaflac: (string, string) -> string, copies: seq<Effect>, toTranscode: seq<string>, j: Job)
    requires walk != []
    requires Plan(copies, toTranscode) == PlanOf(dests, StripTrailingSlash(inputDir), walk[0].parent, walk[0].fileNames)
    requires j == EncodeWithCancel(toTranscode, 0, |toTranscode|, pending, Encoder(dests, walk[0].parent, metaflac))
    ensures TranscodeJob(dests, inputDir, walk, pending, metaflac) ==
      if j.ending == Completed
      then Job(copies + [MakeTempDir] + j.effects + [RemoveTempDir], j.statuses + [Finished], j.pending, Completed)
      else Job(copies + [MakeTempDir] + j.effects, j.statuses, j.pending, j.ending)
  {
    var head := copies + [MakeTempDir];
    assert head + (j.effects + [RemoveTempDir]) == head + j.effects + [RemoveTempDir];
    assert head + (j.effects + []) == head + j.effects;
    assert [] + (j.statuses + [Finished]) == j.statuses + [Finished];
    assert [] + (j.statuses + []) == j.statuses;
  }

  /** The statuses the status thread shows from queue `q`: those before the first
      `'100%'`. */
  function Shown(q: seq<Status>): seq<Status> {
    if q == [] || q[0] == Finished then [] else [q[0]] + Shown(q[1..])
  }

  /** What the status thread leaves on queue `q`: what follows the first `'100%'`, or
      nothing when there is none. */
  function LeftAfterRefresh(q: seq<Status>): seq<Status> {
    if q == [] then [] else if q[0] == Finished then q[1..] else LeftAfterRefresh(q[1..])
  }

  /** The status thread splits the queue at its first `'100%'`: it shows what comes
      before, takes the `'100%'`, and leaves the rest; it never shows `'100%'`. */
  lemma {:induction false} RefreshSplits(q: seq<Status>)
    ensures Finished !in Shown(q)
    ensures Finished in q ==> q == Shown(q) + [Finished] + LeftAfterRefresh(q)
    ensures Finished !in q ==> Shown(q) == q && LeftAfterRefresh(q) == []
  {
    if q != [] && q[0] != Finished {
      RefreshSplits(q[1..]);
      assert q == [q[0]] + q[1..];
      if Finished in q {
        assert Finished in q[1..];
      }
    }
  }

  /** After a worker that ran to its end, the status thread shows one progress per
      `.flac` file and then stops; after any other ending it shows what was put and
      keeps waiting. */
  lemma StatusThreadStops(dests: Destinations, inputDir: string, walk: seq<WalkEntry>, pending: seq<string>,
                          metaflac: (string, string) -> string)
    ensures var job := TranscodeJob(dests, inputDir, walk, pending, metaflac);
      (job.ending == Completed ==> Finished in job.statuses && Shown(job.statuses) + [Finished] == job.statuses) &&
      (job.ending != Completed ==> Finished !in job.statuses && Shown(job.statuses) == job.statuses)
  {
    var job := TranscodeJob(dests, inputDir, walk, pending, metaflac);
    FinishedIffCompleted(dests, inputDir, walk, pending, metaflac);
    RefreshSplits(job.statuses);
    if job.ending == Completed {
      var entry := walk[0];
      var plan := PlanOf(dests, StripTrailingSlash(inputDir), entry.parent, entry.fileNames);
      var encode := Encoder(dests, entry.parent, metaflac);
      var j := EncodeWithCancel(plan.toTranscode, 0, |plan.toTranscode|, pending, encode);
      EncoderEncodesOnly(dests, entry.parent, metaflac);
      EncodeWithCancelShape(plan.toTranscode, 0, |plan.toTranscode|, pending, encode);
      assert job.statuses == j.statuses + [Finished];
      assert Finished !in j.statuses;
      ShownBeforeFinished(j.statuses);
    }
  }

  lemma {:induction false} ShownBeforeFinished(q: seq<Status>)
    requires Finished !in q
    ensures Shown(q + [Finished]) == q && LeftAfterRefresh(q + [Finished]) == []
  {
    if q != [] {
      assert (q + [Finished])[1..] == q[1..] + [Finished];
      ShownBeforeFinished(q[1..]);
      assert q == [q[0]] + q[1..];
    }
  }

  class DragDropWindow {
    /** Messages from the GUI to the worker, oldest first. */
    var queueGuiToFunction: seq<string>
    /** Statuses from the worker to the GUI, oldest first. */
    var queueFunctionToGui: seq<Status>
    /** Whether a transcode is running; closing the window asks for confirmation then. */
    var activeTranscode: bool

    constructor()
      ensures queueGuiToFunction == [] && queueFunctionToGui == [] && !activeTranscode
    {
      queueGuiToFunction := [];
      queueFunctionToGui := [];
      activeTranscode := false;
    }

    /** `closeEvent`: while a transcode runs the window stays open and, if the user
        confirms, a `'Cancel'` is put for the worker; otherwise the window closes. */
    method CloseEvent(confirmed: bool) returns (closes: bool)
      modifies this
      ensures closes == !old(activeTranscode)
      ensures queueGuiToFunction == old(queueGuiToFunction) + (if old(activeTranscode) && confirmed then ["Cancel"] else [])
      ensures queueFunctionToGui == old(queueFunctionToGui) && activeTranscode == old(activeTranscode)
    {
      if activeTranscode {
        if confirmed {
          queueGuiToFunction := queueGuiToFunction + ["Cancel"];
        } else {
          assert queueGuiToFunction + [] == queueGuiToFunction;
        }
        return false;
      }
      assert queueGuiToFunction + [] == queueGuiToFunction;
      return true;
    }

    /** `refresh_status` over the statuses already queued: each one is taken and shown
        until `'100%'` is taken, which ends the thread. With none left and no `'100%'`
        seen, `finished` is false: the thread goes on polling. */
    method RefreshStatus() returns (shown: seq<Status>, finished: bool)
      modifies this
      ensures shown == Shown(old(queueFunctionToGui))
      ensures finished == (Finished in old(queueFunctionToGui))
      ensures queueFunctionToGui == LeftAfterRefresh(old(queueFunctionToGui))
      ensures queueGuiToFunction == old(queueGuiToFunction) && activeTranscode == old(activeTranscode)
    {
      shown := [];
      while queueFunctionToGui != []
        invariant Shown(old(queueFunctionToGui)) == shown + Shown(queueFunctionToGui)
        invariant LeftAfterRefresh(old(queueFunctionToGui)) == LeftAfterRefresh(queueFunctionToGui)
        invariant (Finished in old(queueFunctionToGui)) == (Finished in queueFunctionToGui)
        invariant queueGuiToFunction == old(queueGuiToFunction) && activeTranscode == old(activeTranscode)
        decreases |queueFunctionToGui|
      {
        var status := queueFunctionToGui[0];
        ghost var q := queueFunctionToGui;
        queueFunctionToGui := queueFunctionToGui[1..];
        assert q == [status] + queueFunctionToGui;
        if status == Finished {
          assert shown + [] == shown;
          return shown, true;
        }
        assert shown + ([status] + Shown(queueFunctionToGui)) == (shown + [status]) + Shown(queueFunctionToGui);
        shown := shown + [status];
      }
      assert shown + [] == shown;
      return shown, false;
    }

    /** The encoding loop of `transcode`: before each file one message is taken off the
        GUI's queue, if there is one, and a `'Cancel'` ends the call. */
    method EncodeQueued(files: seq<string>, encode: string -> Result<Effect>)
      returns (encoded: seq<Effect>, ending: Ending)
      modifies this
      ensures var j := EncodeWithCancel(files, 0, |files|, old(queueGuiToFunction), encode);
        encoded == j.effects && ending == j.ending && queueGuiToFunction == j.pending &&
        queueFunctionToGui == old(queueFunctionToGui) + j.statuses
      ensures activeTranscode == old(activeTranscode)
    {
      ghost var full := EncodeWithCancel(files, 0, |files|, queueGuiToFunction, encode);
      ghost var sent: seq<Status> := [];
      encoded := [];
      var n := 0;
      while n < |files|
        invariant 0 <= n <= |files|
        invariant queueFunctionToGui == old(queueFunctionToGui) + sent
        invariant activeTranscode == old(activeTranscode)
        invariant full == Prefixed(encoded, sent, EncodeWithCancel(files[n..], n, |files|, queueGuiToFunction, encode))
      {
        ghost var before := queueGuiToFunction;
        EncodeWithCancelAt(files, n, |files|, before, encode);
        if queueGuiToFunction != [] {
          var message := queueGuiToFunction[0];
          queueGuiToFunction := queueGuiToFunction[1..];
          if message == "Cancel" {
            assert encoded + [] == encoded && sent + [] == sent;
            assert full == Job(encoded, sent, queueGuiToFunction, Cancelled);
            return encoded, Cancelled;
          }
        }
        var progress := Progress(n + 1, |files|);
        queueFunctionToGui := queueFunctionToGui + [progress];
        var r := encode(files[n]);
        assert queueFunctionToGui == old(queueFunctionToGui) + (sent + [progress]);
        if r.Raised? {
          assert encoded + [] == encoded;
          sent := sent + [progress];
          assert full == Job(encoded, sent, queueGuiToFunction, Failed);
          return encoded, Failed;
        }
        PrefixedAssoc(encoded, sent, [r.value], [progress], EncodeWithCancel(files[n + 1..], n + 1, |files|, queueGuiToFunction, encode));
        sent := sent + [progress];
        encoded := encoded + [r.value];
        n := n + 1;
      }
      assert files[n..] == [];
      assert encoded + [] == encoded && sent + [] == sent;
      assert full == Job(encoded, sent, queueGuiToFunction, Completed);
      ending := Completed;
    }

    /** `transcode(input_dir)`: the input directory sanitized, the first directory of the
        walk classified and its `.flac` files encoded, then `'100%'` put, unless the loop
        was cancelled or raised. */
    method Transcode(dests: Destinations, inputDir: string, walk: seq<WalkEntry>, metaflac: (string, string) -> string)
      returns (effects: seq<Effect>, ending: Ending)
      modifies this
      ensures var job := TranscodeJob(dests, inputDir, walk, old(queueGuiToFunction), metaflac);
        effects == job.effects && ending == job.ending && queueGuiToFunction == job.pending &&
        queueFunctionToGui == old(queueFunctionToGui) + job.statuses
      ensures activeTranscode == old(activeTranscode)
    {
      var dir := StripTrailingSlash(inputDir);
      if walk == [] {
        return [], NothingWalked;
      }
      // The loop over the walk returns at the end of its first pass.
      var entry := walk[0];
      var copies, toTranscode := PlanDirectory(dests, dir, entry.parent, entry.fileNames);
      ghost var j := EncodeWithCancel(toTranscode, 0, |toTranscode|, queueGuiToFunction, Encoder(dests, entry.parent, metaflac));
      TranscodeJobOf(dests, inputDir, walk, queueGuiToFunction, metaflac, copies, toTranscode, j);
      var encoded;
      encoded, ending := EncodeQueued(toTranscode, Encoder(dests, entry.parent, metaflac));
      if ending != Completed {
        return copies + [MakeTempDir] + encoded, ending;
      }
      effects := copies + [MakeTempDir] + encoded + [RemoveTempDir];
      queueFunctionToGui := queueFunctionToGui + [Finished];
    }

    /** `start_transcoding` with the worker thread joined: the flag is set while the
        worker runs and cleared once it has ended, however it ended. */
    method StartTranscoding(inputDir: string, walk: seq<WalkEntry>, metaflac: (string, string) -> string)
      returns (effects: seq<Effect>, ending: Ending)
      modifies this
      ensures var job := TranscodeJob(Configured, inputDir, walk, old(queueGuiToFunction), metaflac);
        effects == job.effects && ending == job.ending && queueGuiToFunction == job.pending &&
        queueFunctionToGui == old(queueFunctionToGui) + job.statuses
      ensures !activeTranscode
    {
      activeTranscode := true;
      effects, ending := Transcode(Configured, inputDir, walk, metaflac);
      activeTranscode := false;
    }
  }
}
