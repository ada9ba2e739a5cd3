// move, moveObj, multipartMoveObj and deleteObj of datamover/pkg/drivers/https/migration.go for one
// object, as the code runs them, with the movers of the other objects at work between any two calls.
// Everything that happens is one run of the interleaved model.
module MoveObject {
  import D = MigrationData
  import M = Multipart

  // ---------------------------------------------------------------- the others

  /** The events of one object in a run. */
  function Own(es: seq<D.Event>, i: nat): seq<D.Event> {
    if es == [] then []
    else
      var last := es[|es| - 1];
      Own(es[..|es| - 1], i) + if last.i == i then [last] else []
  }

  predicate Others(es: seq<D.Event>, i: nat) {
    forall n | 0 <= n < |es| :: es[n].i != i
  }

  lemma OwnNext(es: seq<D.Event>, e: D.Event, i: nat)
    ensures Own(es + [e], i) == Own(es, i) + if e.i == i then [e] else []
  {
    assert (es + [e])[..|es|] == es;
  }

  lemma {:induction false} OwnOfOthers(es: seq<D.Event>, fs: seq<D.Event>, i: nat)
    requires Others(fs, i)
    ensures Own(es + fs, i) == Own(es, i)
    decreases |fs|
  {
    if fs == [] {
      assert es + fs == es;
    } else {
      var n := |fs| - 1;
      OwnOfOthers(es, fs[..n], i);
      OwnNext(es + fs[..n], fs[n], i);
      assert es + fs[..n] + [fs[n]] == es + fs;
    }
  }

  /** The same bytes, or none, in both states. */
  predicate SameBlob(a: D.Address, s: D.State, t: D.State) {
    (a in s.blobs <==> a in t.blobs) && (a in s.blobs ==> s.blobs[a] == t.blobs[a])
  }

  /** What the movers of other objects leave alone. */
  predicate Untouched(j: D.Job, s: D.State, t: D.State, i: nat)
    requires i < |j.items| && i < |s.phase| && i < |t.phase|
  {
    && t.phase[i] == s.phase[i]
    && (D.Separate(j) ==> SameBlob(D.SrcAddr(j, i), s, t) && SameBlob(D.UploadAddr(j, i), s, t))
  }

  lemma OtherKeeps(j: D.Job, s: D.State, e: D.Event, i: nat)
    requires |s.phase| == |j.items| && i < |j.items| && D.Enabled(j, s, e) && e.i != i
    ensures Untouched(j, s, D.After(j, s, e), i)
  {
    if D.Separate(j) {
      D.Apart(j, i, e.i);
      assert D.SrcAddr(j, i) != D.UploadAddr(j, e.i) && D.UploadAddr(j, i) != D.SrcAddr(j, e.i);
    }
  }

  /** Other movers, however many steps they take, change neither the phase of an object nor, with
      separate keys, the bytes at its source and at the place it is uploaded to. */
  lemma {:induction false} OthersKeep(j: D.Job, s: D.State, es: seq<D.Event>, i: nat)
    requires |s.phase| == |j.items| && i < |j.items| && D.Possible(j, s, es) && Others(es, i)
    ensures Untouched(j, s, D.Final(j, s, es), i)
    decreases |es|
  {
    if es != [] {
      OtherKeeps(j, s, es[0], i);
      assert Others(es[1..], i);
      OthersKeep(j, D.After(j, s, es[0]), es[1..], i);
    }
  }

  lemma {:induction false} PlayAll(j: D.Job, s: D.State, es: seq<D.Event>, fs: seq<D.Event>)
    requires |s.phase| == |j.items| && D.Possible(j, s, es) && D.Possible(j, D.Final(j, s, es), fs)
    ensures D.Possible(j, s, es + fs) && D.Final(j, s, es + fs) == D.Final(j, D.Final(j, s, es), fs)
    decreases |fs|
  {
    if fs == [] {
      assert es + fs == es;
    } else {
      D.Play(j, s, es, fs[0]);
      PlayAll(j, s, es + [fs[0]], fs[1..]);
      assert es + [fs[0]] + fs[1..] == es + fs;
    }
  }

  // ---------------------------------------------------------------- the backends

  /** The backends of a job with all that has happened to them. */
  class Backends {
    const j: D.Job
    const start: D.State
    var s: D.State
    var trace: seq<D.Event>
    var schedule: seq<seq<D.Event>>    // what the other movers are going to do whenever they get a chance
    ghost var faulty: bool             // a download or an upload has failed

    ghost predicate Valid()
      reads this
    {
      |start.phase| == |j.items| && D.Possible(j, start, trace) && D.Final(j, start, trace) == s
    }

    /** Object `i` is in the given phase. */
    ghost predicate At(i: nat, phase: D.Phase)
      reads this
    {
      Valid() && i < |j.items| && s.phase[i] == phase
    }

    constructor (j: D.Job, start: D.State, schedule: seq<seq<D.Event>>)
      requires |start.phase| == |j.items|
      ensures Valid() && trace == [] && this.j == j && this.start == start && s == start && !faulty
    {
      this.j, this.start, this.schedule, s, trace, faulty := j, start, schedule, start, [], false;
    }

    method Do(e: D.Event)
      requires Valid() && D.Enabled(j, s, e)
      modifies this`s, this`trace
      ensures Valid() && s == D.After(j, old(s), e)
      ensures old(trace) <= trace && forall i :: Own(trace, i) == Own(old(trace), i) + if e.i == i then [e] else []
    {
      D.Play(j, start, trace, e);
      forall i ensures Own(trace + [e], i) == Own(trace, i) + if e.i == i then [e] else [] {
        OwnNext(trace, e, i);
      }
      s, trace := D.After(j, s, e), trace + [e];
    }

    /** The movers of other objects take any number of steps. */
    method Interfere(i: nat)
      requires Valid() && i < |j.items|
      modifies this`s, this`trace, this`schedule
      ensures Valid() && Untouched(j, old(s), s, i)
      ensures old(trace) <= trace && Own(trace, i) == Own(old(trace), i)
    {
      if schedule != [] {
        var others := schedule[0];
        schedule := schedule[1..];
        if D.Possible(j, s, others) && Others(others, i) {
          OthersKeep(j, s, others, i);
          PlayAll(j, start, trace, others);
          OwnOfOthers(trace, others, i);
          s, trace := D.Final(j, s, others), trace + others;
        }
      }
    }

    method DownloadObj(i: nat, a: D.Address) returns (ok: bool, buf: D.Bytes)
      requires At(i, D.Pending) && j.items[i].content != []
      requires a == D.ReaderAddr(j.items[i].src, j.items[i].key)
      modifies this
      ensures At(i, if ok then D.Fetched(buf) else D.Failed) && old(trace) <= trace
      ensures Own(trace, i) == Own(old(trace), i) + [if ok then D.Download(i) else D.Fail(i)]
      ensures faulty == (old(faulty) || !ok)
    {
      Interfere(i);
      ok := *;
      ok, buf := ok && a in s.blobs, [];
      if ok {
        buf := s.blobs[a];
      }
      Do(if ok then D.Download(i) else D.Fail(i));
      faulty := faulty || !ok;
    }

    /** A failed upload may leave something behind. */
    method UploadObj(i: nat, a: D.Address, buf: D.Bytes) returns (ok: bool)
      requires At(i, D.Fetched(buf)) && a == D.UploadAddr(j, i)
      modifies this
      ensures At(i, if ok then D.Copied else D.Failed) && old(trace) <= trace
      ensures ok ==> D.Has(s, a, buf) && Own(trace, i) == Own(old(trace), i) + [D.Upload(i)]
      ensures faulty == (old(faulty) || !ok)
    {
      Interfere(i);
      var dirty;
      ok, dirty := *, *;
      if ok {
        Do(D.Upload(i));
      } else if dirty {
        var junk: D.Bytes := *;
        Do(D.FailDirty(i, junk));
      } else {
        Do(D.Fail(i));
      }
      faulty := faulty || !ok;
    }

    method DeleteObj(i: nat, a: D.Address) returns (ok: bool)
      requires At(i, D.Copied) && !j.remainSource && a == D.ReaderAddr(j.items[i].src, j.items[i].key)
      modifies this`s, this`trace, this`schedule
      ensures At(i, D.Cleaned) && old(trace) <= trace
      ensures ok ==> a !in s.blobs
      ensures Own(trace, i) == Own(old(trace), i) + [if ok then D.Delete(i) else D.DeleteFails(i)]
    {
      Interfere(i);
      ok := *;
      Do(if ok then D.Delete(i) else D.DeleteFails(i));
    }
  }

  // ---------------------------------------------------------------- one object

  /** moveObj: an empty object succeeds at once; otherwise one download and one upload. */
  method MoveObj(b: Backends, i: nat) returns (ok: bool)
    requires b.At(i, D.Pending) && |b.j.items[i].content| <= b.j.partSize && !b.faulty
    modifies b
    ensures b.At(i, if ok then D.Copied else D.Failed) && old(b.trace) <= b.trace
    ensures ok <==> !b.faulty
    ensures ok && b.j.items[i].content == [] ==> Own(b.trace, i) == Own(old(b.trace), i) + [D.SkipEmpty(i)]
    ensures ok && b.j.items[i].content != [] ==> Own(b.trace, i) == Own(old(b.trace), i) + [D.Download(i), D.Upload(i)]
  {
    var it := b.j.items[i];
    if it.content == [] {
      b.Do(D.SkipEmpty(i));
      return true;
    }
    var downloadObjKey := if it.src.vir != "" then it.src.vir + "/" + it.key else it.key;
    var buf;
    ok, buf := b.DownloadObj(i, D.Address(it.src.bucket, downloadObjKey));
    if !ok {
      return false;
    }
    var uploadObjKey := if it.src.vir != "" then b.j.dest.vir + "/" + it.key else it.key;
    ok := b.UploadObj(i, D.Address(b.j.dest.bucket, uploadObjKey), buf);
  }

  /** The source of an object in a state, and the bytes to expect if there is none. */
  function SourceOf(j: D.Job, s: D.State, i: nat): D.Bytes
    requires i < |j.items|
  {
    var a := D.SrcAddr(j, i);
    if a in s.blobs then s.blobs[a] else j.items[i].content
  }

  lemma UntouchedTwice(j: D.Job, s: D.State, t: D.State, u: D.State, i: nat)
    requires i < |j.items| && i < |s.phase| && i < |t.phase| && i < |u.phase|
    requires Untouched(j, s, t, i) && Untouched(j, t, u, i)
    ensures Untouched(j, s, u, i)
  {}

  /** The object waits as it did in state `s` after the events `trace`; only others have been at work. */
  ghost predicate Waits(b: Backends, i: nat, s: D.State, trace: seq<D.Event>, faulty: bool)
    requires |s.phase| == |b.j.items|
    reads b
  {
    && b.At(i, D.Pending) && Untouched(b.j, s, b.s, i) && b.faulty == faulty
    && trace <= b.trace && Own(b.trace, i) == Own(trace, i)
  }

  lemma WaitsOn(b: Backends, i: nat, s: D.State, trace: seq<D.Event>, faulty: bool, content: D.Bytes)
    requires |s.phase| == |b.j.items| && Waits(b, i, s, trace, faulty) && D.Separate(b.j) && SourceOf(b.j, s, i) == content
    ensures SourceOf(b.j, b.s, i) == content
  {}

  /** One part: others are at work before it, but the source is as it was in state `s`. */
  method MoveRound(b: Backends, i: nat, src: D.Address, uploadKey: string, ghost rs: seq<M.Range>, partNumber: nat, start: int, end: int,
                   currPartSize: nat, buf: array<int>, up: M.MoveWorker, down: M.MoveWorker,
                   ghost content: D.Bytes, ghost s: D.State, ghost trace: seq<D.Event>)
    returns (outcome: M.Outcome)
    requires |s.phase| == |b.j.items| && Waits(b, i, s, trace, b.faulty)
    requires src == D.ReaderAddr(b.j.items[i].src, b.j.items[i].key)
    requires D.Separate(b.j) && SourceOf(b.j, s, i) == content
    requires up != down && 0 < partNumber <= |rs| && rs[partNumber - 1] == M.Range(start, end)
    requires 0 <= start <= end < |content| && buf.Length == currPartSize == end - start + 1
    requires M.Uploading(up, down, content, rs, partNumber - 1, uploadKey)
    modifies b, up, down, buf
    ensures Waits(b, i, s, trace, old(b.faulty)) && (outcome.Moved? ==> D.SrcAddr(b.j, i) in b.s.blobs)
    ensures up.objects == old(up.objects)
    ensures M.Tried(outcome, up, down, content, rs, partNumber, b.j.items[i].key, uploadKey)
  {
    b.Interfere(i);
    UntouchedTwice(b.j, s, old(b.s), b.s, i);
    WaitsOn(b, i, s, trace, b.faulty, content);
    var found := src in b.s.blobs;
    outcome := M.MovePart(found, if found then b.s.blobs[src] else b.j.items[i].content, b.j.items[i].key, uploadKey, rs,
                          partNumber, start, end, currPartSize, buf, up, down);
  }

  /** The loop over the parts of multipartMoveObj. */
  method MoveParts(b: Backends, i: nat, src: D.Address, uploadKey: string, partCount: nat, ghost rs: seq<M.Range>,
                   up: M.MoveWorker, down: M.MoveWorker, ghost content: D.Bytes)
    returns (outcome: M.Outcome)
    requires b.At(i, D.Pending) && D.Separate(b.j) && SourceOf(b.j, b.s, i) == content
    requires src == D.ReaderAddr(b.j.items[i].src, b.j.items[i].key)
    requires up != down && up.Unused() && down.Unused() && partCount == |rs| > 0
    requires b.j.partSize > 0 && |content| == |b.j.items[i].content| > 0 && rs == M.Ranges(|content|, b.j.partSize)
    modifies b, up, down
    ensures |old(b.s).phase| == |b.j.items| && Waits(b, i, old(b.s), old(b.trace), old(b.faulty))
    ensures up.objects == old(up.objects) && (outcome.Moved? ==> D.SrcAddr(b.j, i) in b.s.blobs)
    ensures M.Tried(outcome, up, down, content, rs, |rs|, b.j.items[i].key, uploadKey)
  {
    var size, partSize := |b.j.items[i].content|, b.j.partSize;
    var buf, currPartSize := new int[partSize], partSize;
    ghost var s, trace := b.s, b.trace;
    outcome := M.Moved;
    for k := 0 to partCount
      invariant |s.phase| == |b.j.items| && Waits(b, i, s, trace, old(b.faulty))
      invariant fresh(buf) && (k < partCount ==> buf.Length == currPartSize == partSize)
      invariant M.Uploading(up, down, content, rs, k, uploadKey) && up.objects == old(up.objects)
      invariant outcome.Moved? && (k > 0 ==> D.SrcAddr(b.j, i) in b.s.blobs)
    {
      var partNumber := k + 1;
      var offset := k * partSize;
      M.RoundRange(k, size, partSize);
      if k + 1 == partCount {
        currPartSize := size - offset;
        buf := new int[currPartSize];
      }
      outcome := MoveRound(b, i, src, uploadKey, rs, partNumber, offset, offset + currPartSize - 1,
                           currPartSize, buf, up, down, content, s, trace);
      if !outcome.Moved? {
        return;
      }
    }
  }

  /** The object is given up; the place it would be uploaded to is as it was in state `s`. */
  method GiveUp(b: Backends, i: nat, ghost s: D.State, ghost trace: seq<D.Event>)
    requires |s.phase| == |b.j.items| && Waits(b, i, s, trace, b.faulty) && D.Separate(b.j)
    modifies b
    ensures b.At(i, D.Failed) && trace <= b.trace && b.faulty == old(b.faulty)
    ensures SameBlob(D.UploadAddr(b.j, i), s, b.s)
  {
    b.Do(D.Fail(i));
  }

  /** The end of multipartMoveObj, once all parts are there: the upload is completed or aborted. */
  method Complete(b: Backends, i: nat, uploadKey: string, up: M.MoveWorker, ghost content: D.Bytes,
                  ghost s: D.State, ghost trace: seq<D.Event>)
    returns (completed: bool)
    requires |s.phase| == |b.j.items| && Waits(b, i, s, trace, b.faulty) && D.SrcAddr(b.j, i) in b.s.blobs
    requires D.Separate(b.j) && SourceOf(b.j, s, i) == content && b.j.items[i].content != []
    requires M.Assembled(up.parts) == content && up.fault.Moved? && up.aborted == []
    requires D.Address(b.j.dest.bucket, uploadKey) == D.UploadAddr(b.j, i)
    requires up.running == {uploadKey} && !up.refused
    modifies b, up
    ensures b.At(i, if completed then D.Copied else D.Failed) && trace <= b.trace && b.faulty == old(b.faulty)
    ensures up.fault == (if completed then M.Moved else M.CompleteFailed) && up.parts == old(up.parts)
    ensures completed ==> up.objects == old(up.objects)[uploadKey := content] && D.Has(b.s, D.UploadAddr(b.j, i), content)
    ensures completed ==> Own(b.trace, i) == Own(trace, i) + [D.Download(i), D.Upload(i)]
    ensures !completed ==> up.objects == old(up.objects) && SameBlob(D.UploadAddr(b.j, i), s, b.s)
    ensures up.aborted == if completed then [] else [b.j.items[i].key]
    ensures up.running == if !completed && (b.j.items[i].key != uploadKey || up.refused) then {uploadKey} else {}
  {
    WaitsOn(b, i, s, trace, b.faulty, content);
    b.Do(D.Download(i));
    b.Interfere(i);
    completed := up.CompleteMultipartUpload(uploadKey);
    if completed {
      assert b.s.phase[i] == D.Fetched(up.objects[uploadKey]);
      b.Do(D.Upload(i));
    } else {
      var _ := up.AbortMultipartUpload(b.j.items[i].key);
      b.Do(D.Fail(i));
    }
  }

  /** multipartMoveObj: all ranges and parts, then the completion; nothing is stored before it. */
  method MultipartMoveObj(b: Backends, i: nat, up: M.MoveWorker, down: M.MoveWorker) returns (outcome: M.Outcome)
    requires b.At(i, D.Pending) && D.Separate(b.j) && |b.j.items[i].content| > b.j.partSize > 0
    requires |SourceOf(b.j, b.s, i)| == |b.j.items[i].content|
    requires up != down && up.Unused() && down.Unused()
    modifies b, up, down
    ensures b.At(i, if outcome.Moved? then D.Copied else D.Failed) && old(b.trace) <= b.trace
    // the outcome is the failure of the one call that failed; without a failure the object is moved
    ensures M.FirstFault(outcome, up, down) && b.faulty == old(b.faulty)
    // success: every range was requested once, in order, and the destination holds the source bytes
    ensures outcome.Moved? ==> var content, uploadKey := SourceOf(b.j, old(b.s), i), D.StoredKey(b.j.dest, b.j.items[i].key);
      && M.PartsOf(up.parts, content, M.Ranges(|content|, b.j.partSize))
      && down.requested == M.Ranges(|content|, b.j.partSize)
      && up.objects == old(up.objects)[uploadKey := content]
      && D.Has(b.s, D.UploadAddr(b.j, i), content)
    ensures outcome.Moved? ==> Own(b.trace, i) == Own(old(b.trace), i) + [D.Download(i), D.Upload(i)]
    ensures outcome.Moved? ==> D.SrcAddr(b.j, i) in old(b.s).blobs
    ensures down.requested <= M.Ranges(|b.j.items[i].content|, b.j.partSize)
    // failure: the destination is untouched; uploads that have failed are aborted under the object key
    ensures !outcome.Moved? ==> up.objects == old(up.objects) && SameBlob(D.UploadAddr(b.j, i), old(b.s), b.s)
    ensures up.aborted == if outcome.UploadFailed? || outcome.CompleteFailed? then [b.j.items[i].key] else []
    // the upload is left behind exactly after a download of a later part has failed, and after a failed
    // part or completion if the destination is a virtual bucket or the abort is refused
    ensures D.StoredKey(b.j.dest, b.j.items[i].key) in up.running <==>
      !outcome.Moved? && M.Running(outcome, |down.requested|, b.j.dest.vir == "", up.refused)
  {
    var it := b.j.items[i];
    ghost var content, s, trace := SourceOf(b.j, b.s, i), b.s, b.trace;
    var downloadObjKey := if it.src.vir != "" then it.src.vir + "/" + it.key else it.key;
    var uploadObjKey := if b.j.dest.vir != "" then b.j.dest.vir + "/" + it.key else it.key;
    D.StoredKeyIsPlain(b.j.dest, it.key);
    var partCount, rs := M.CountParts(|it.content|, b.j.partSize);
    outcome := MoveParts(b, i, D.Address(it.src.bucket, downloadObjKey), uploadObjKey, partCount, rs, up, down, content);
    if !outcome.Moved? {
      GiveUp(b, i, s, trace);
      return;
    }
    M.AllThere(up, down, content, b.j.partSize, uploadObjKey);
    var completed := Complete(b, i, uploadObjKey, up, content, s, trace);
    if !completed {
      return M.CompleteFailed;
    }
  }

  /** move: the object is copied, its source is deleted after a success unless it is to be kept, and
      the size or -1 is reported; a failed deletion still counts as a success. */
  method Move(b: Backends, i: nat, located: bool, up: M.MoveWorker, down: M.MoveWorker)
    returns (capa: int, ghost phase: D.Phase)
    requires b.At(i, D.Pending) && b.j.partSize > 0 && !b.faulty
    requires |b.j.items[i].content| > b.j.partSize ==> D.Separate(b.j) && |SourceOf(b.j, b.s, i)| == |b.j.items[i].content|
    requires up != down && up.Unused() && down.Unused()
    modifies b, up, down
    ensures b.At(i, phase) && old(b.trace) <= b.trace
    ensures capa == if phase.Failed? then -1 else |b.j.items[i].content|
    ensures phase.Failed? || phase == if b.j.remainSource then D.Copied else D.Cleaned
    // the object fails exactly if its location or a call of a mover does
    ensures !located ==> phase.Failed? && Own(b.trace, i) == Own(old(b.trace), i) + [D.Fail(i)]
    ensures located && |b.j.items[i].content| <= b.j.partSize ==> (phase.Failed? <==> b.faulty)
    ensures located && |b.j.items[i].content| > b.j.partSize ==>
      (phase.Failed? <==> up.fault != M.Moved || down.fault != M.Moved)
  {
    var succeed := false;
    if !located {
      b.Do(D.Fail(i));
    } else if |b.j.items[i].content| <= b.j.partSize {
      succeed := MoveObj(b, i);
    } else {
      var outcome := MultipartMoveObj(b, i, up, down);
      succeed := outcome.Moved?;
    }
    phase := if succeed then D.Copied else D.Failed;
    if succeed && !b.j.remainSource {
      var it := b.j.items[i];
      var objKey := if it.src.vir != "" then it.src.vir + "/" + it.key else it.key;
      var _ := b.DeleteObj(i, D.Address(it.src.bucket, objKey));
      phase := D.Cleaned;
    }
    capa := if succeed then |b.j.items[i].content| else -1;
  }

  /** A reported success: in a job that keeps its keys apart a reader of the destination finds the
      object, whatever the other movers have done meanwhile. */
  lemma SuccessIsReadable(b: Backends, i: nat, phase: D.Phase)
    requires b.At(i, phase) && (phase.Copied? || phase.Cleaned?)
    requires D.Init(b.j, b.start) && D.Separate(b.j) && D.Agrees(b.j, i) && b.j.items[i].content != []
    ensures D.Has(b.s, D.DestAddr(b.j, i), b.j.items[i].content)
  {
    D.NoDataLoss(b.j, b.start, b.trace, i);
  }
}
