// multipartMoveObj of datamover/pkg/drivers/https/migration.go: ranges, parts and their assembly,
// against an abstract mover that may fail at any call.
module Multipart {

  type Bytes = seq<int>

  /** Ceiling of size / partSize, as computed from the quotient and the remainder. */
  function PartCount(size: nat, partSize: nat): nat
    requires partSize > 0
  {
    if size % partSize != 0 then size / partSize + 1 else size / partSize
  }

  datatype Range = Range(start: int, end: int)

  /** The k-th requested range, ends included. */
  function PartRange(k: nat, size: nat, partSize: nat): Range
    requires partSize > 0
  {
    Range(k * partSize, if k + 1 == PartCount(size, partSize) then size - 1 else (k + 1) * partSize - 1)
  }

  datatype Part = Part(number: int, offset: int, data: Bytes)

  function Assembled(parts: seq<Part>): Bytes {
    if parts == [] then [] else Assembled(parts[..|parts| - 1]) + parts[|parts| - 1].data
  }

  datatype Outcome = Moved | InitFailed | DownloadFailed | ShortRead | UploadFailed | CompleteFailed

  /** The storage side of a mover: completed objects, the parts of the upload, the uploads begun and not
      ended, the calls made and the failure of the last call that failed (`Moved` if there was none). */
  class MoveWorker {
    var objects: map<string, Bytes>
    var parts: seq<Part>
    var running: set<string>
    var requested: seq<Range>
    var aborted: seq<string>
    ghost var fault: Outcome
    ghost var refused: bool    // the end of a running upload was asked for and refused

    /** Nothing has been asked of this mover. */
    ghost predicate Unused()
      reads this
    {
      parts == [] && running == {} && requested == [] && aborted == [] && fault == Moved && !refused
    }

    constructor (objects: map<string, Bytes>)
      ensures this.objects == objects && Unused()
    {
      this.objects, parts, running, requested, aborted, fault, refused := objects, [], {}, [], [], Moved, false;
    }

    /** MultiPartDownloadInit */
    method InitDownload() returns (ok: bool)
      modifies this`fault
      ensures fault == if ok then old(fault) else InitFailed
    {
      ok := *;
      fault := if ok then fault else InitFailed;
    }

    /** MultiPartUploadInit: a success begins an upload under the key. */
    method InitUpload(key: string) returns (ok: bool)
      modifies this`running, this`fault
      ensures running == if ok then old(running) + {key} else old(running)
      ensures fault == if ok then old(fault) else InitFailed
    {
      ok := *;
      running := if ok then running + {key} else running;
      fault := if ok then fault else InitFailed;
    }

    /** A success that fills the buffer delivers the bytes of the range; `found` says whether the object
        is there. */
    method DownloadRange(found: bool, content: Bytes, buf: array<int>, start: int, end: int) returns (ok: bool, readSize: nat)
      requires 0 <= start <= end < |content| && buf.Length == end - start + 1
      modifies this`requested, this`fault, buf
      ensures fault == if !ok then DownloadFailed else if readSize != buf.Length then ShortRead else old(fault)
      ensures requested == old(requested) + [Range(start, end)]
      ensures ok ==> found
      ensures ok && readSize == buf.Length ==> buf[..] == content[start..end + 1]
    {
      requested := requested + [Range(start, end)];
      forall k | 0 <= k < buf.Length {
        buf[k] := content[start + k];
      }
      ok, readSize := *, *;
      ok := ok && found;
      fault := if !ok then DownloadFailed else if readSize != buf.Length then ShortRead else fault;
    }

    /** A success appends the part to the running upload. */
    method UploadPart(key: string, data: Bytes, number: int, offset: int) returns (ok: bool)
      modifies this`parts, this`fault
      ensures ok ==> key in running && parts == old(parts) + [Part(number, offset, data)]
      ensures !ok ==> parts == old(parts)
      ensures fault == if ok then old(fault) else UploadFailed
    {
      ok := *;
      ok := ok && key in running;
      fault := if ok then fault else UploadFailed;
      if ok {
        parts := parts + [Part(number, offset, data)];
      }
    }

    /** A success ends the upload and makes the assembled parts an object; a failure changes nothing. */
    method CompleteMultipartUpload(key: string) returns (ok: bool)
      modifies this`objects, this`running, this`fault
      ensures ok ==> key in old(running)
      ensures objects == if ok then old(objects)[key := Assembled(parts)] else old(objects)
      ensures running == if ok then old(running) - {key} else old(running)
      ensures fault == if ok then old(fault) else CompleteFailed
    {
      ok := *;
      ok := ok && key in running;
      fault := if ok then fault else CompleteFailed;
      if ok {
        objects, running := objects[key := Assembled(parts)], running - {key};
      }
    }

    /** Ends the upload under the key, if there is one and the service does as it is told. */
    method AbortMultipartUpload(key: string) returns (ok: bool)
      modifies this`running, this`aborted, this`refused
      ensures aborted == old(aborted) + [key] && (ok ==> key in old(running))
      ensures running == if ok then old(running) - {key} else old(running)
      ensures refused == (old(refused) || (key in old(running) && !ok))
    {
      ok := *;
      ok := ok && key in running;
      refused := refused || (key in running && !ok);
      aborted := aborted + [key];
      running := if ok then running - {key} else running;
    }
  }

  lemma PartCountBounds(size: nat, partSize: nat)
    requires partSize > 0 && size > 0
    ensures var n := PartCount(size, partSize);
      n > 0 && (n - 1) * partSize < size <= n * partSize
  {
    var q, r := size / partSize, size % partSize;
    assert size == q * partSize + r;
    if r == 0 {
      assert q > 0;
      assert (q - 1) * partSize == q * partSize - partSize;
    } else {
      assert (q + 1) * partSize == q * partSize + partSize;
    }
  }

  lemma Times(k: nat, n: nat, partSize: nat)
    requires k <= n
    ensures k * partSize <= n * partSize
    ensures (k + 1) * partSize == k * partSize + partSize
  {}

  /** The ranges cover [0, size) in order, without gap or overlap, and none exceeds the part size. */
  lemma RangesPartition(size: nat, partSize: nat, k: nat)
    requires partSize > 0 && size > 0 && k < PartCount(size, partSize)
    ensures PartRange(0, size, partSize).start == 0
    ensures PartRange(PartCount(size, partSize) - 1, size, partSize).end == size - 1
    ensures k > 0 ==> PartRange(k, size, partSize).start == PartRange(k - 1, size, partSize).end + 1
    ensures var r := PartRange(k, size, partSize); 0 <= r.start <= r.end < size && 1 <= r.end - r.start + 1 <= partSize
  {
    var n := PartCount(size, partSize);
    PartCountBounds(size, partSize);
    Times(k, n - 1, partSize);
    if k + 1 < n {
      Times(k + 1, n - 1, partSize);
    }
  }

  /** All requested ranges, in order. */
  function Ranges(size: nat, partSize: nat): (rs: seq<Range>)
    requires partSize > 0
    ensures |rs| == PartCount(size, partSize)
    ensures forall i | 0 <= i < |rs| :: rs[i] == PartRange(i, size, partSize)
  {
    seq(PartCount(size, partSize), (i: nat) => PartRange(i, size, partSize))
  }

  /** The parts hold the bytes of the ranges and are numbered from 1. */
  predicate PartsOf(parts: seq<Part>, content: Bytes, rs: seq<Range>) {
    && |parts| == |rs|
    && forall i | 0 <= i < |rs| ::
         && parts[i].number == i + 1 && parts[i].offset == rs[i].start
         && 0 <= rs[i].start <= rs[i].end < |content| && parts[i].data == content[rs[i].start..rs[i].end + 1]
  }

  lemma PartsSnoc(parts: seq<Part>, content: Bytes, rs: seq<Range>, k: nat, part: Part)
    requires k < |rs| && PartsOf(parts, content, rs[..k])
    requires part.number == k + 1 && part.offset == rs[k].start && 0 <= rs[k].start <= rs[k].end < |content|
    requires part.data == content[rs[k].start..rs[k].end + 1]
    ensures PartsOf(parts + [part], content, rs[..k + 1])
  {
    assert rs[..k + 1] == rs[..k] + [rs[k]];
  }

  /** Where range `k` ends: where range `k + 1` starts, or at the size. */
  function EndOf(k: nat, size: nat, partSize: nat): int
    requires partSize > 0
  {
    if k >= PartCount(size, partSize) then size else k * partSize
  }

  lemma RangeEnds(k: nat, size: nat, partSize: nat)
    requires partSize > 0 && size > 0 && k < PartCount(size, partSize)
    ensures EndOf(0, size, partSize) == 0
    ensures 0 <= EndOf(k, size, partSize) < EndOf(k + 1, size, partSize) <= size
    ensures PartRange(k, size, partSize) == Range(EndOf(k, size, partSize), EndOf(k + 1, size, partSize) - 1)
  {
    RangesPartition(size, partSize, k);
  }

  predicate Between(r: Range, ends: seq<int>, i: nat, size: nat)
    requires i + 1 < |ends|
  {
    0 <= ends[i] < ends[i + 1] <= size && r == Range(ends[i], ends[i + 1] - 1)
  }

  lemma {:induction false} AssembledPrefix(parts: seq<Part>, content: Bytes, rs: seq<Range>, ends: seq<int>, k: nat)
    requires k <= |rs| && |ends| == |rs| + 1 && ends[0] == 0
    requires forall i | 0 <= i < |rs| :: Between(rs[i], ends, i, |content|)
    requires PartsOf(parts, content, rs[..k])
    ensures 0 <= ends[k] <= |content| && Assembled(parts) == content[..ends[k]]
    decreases k
  {
    if k > 0 {
      assert rs[..k][..k - 1] == rs[..k - 1];
      AssembledPrefix(parts[..k - 1], content, rs, ends, k - 1);
      var r := rs[..k][k - 1];
      assert Between(rs[k - 1], ends, k - 1, |content|);
      assert parts[k - 1].data == content[r.start..r.end + 1];
      assert content[..r.start] + content[r.start..r.end + 1] == content[..r.end + 1];
    }
  }

  lemma AssembledAll(parts: seq<Part>, content: Bytes, partSize: nat)
    requires partSize > 0 && content != [] && PartsOf(parts, content, Ranges(|content|, partSize))
    ensures Assembled(parts) == content
  {
    var rs := Ranges(|content|, partSize);
    PartCountBounds(|content|, partSize);
    RangeEnds(0, |content|, partSize);
    var ends := seq(|rs| + 1, (i: nat) => EndOf(i, |content|, partSize));
    forall i | 0 <= i < |rs| ensures Between(rs[i], ends, i, |content|) {
      RangeEnds(i, |content|, partSize);
    }
    assert rs[..|rs|] == rs;
    AssembledPrefix(parts, content, rs, ends, |rs|);
    assert content[..|content|] == content;
  }

  /** The range the loop computes in round `i` is the i-th range and lies inside the object. */
  lemma RoundRange(i: nat, size: nat, partSize: nat)
    requires partSize > 0 && size > 0 && i < PartCount(size, partSize)
    ensures var offset, rs := i * partSize, Ranges(size, partSize);
      var currPartSize := if i + 1 == |rs| then size - offset else partSize;
      0 <= offset < offset + currPartSize <= size && rs[i] == Range(offset, offset + currPartSize - 1)
  {
    RangesPartition(size, partSize, i);
    Times(i, i, partSize);
  }

  /** The outcome is the failure of the only call that failed, if one did. */
  ghost predicate FirstFault(outcome: Outcome, up: MoveWorker, down: MoveWorker)
    reads up, down
  {
    && (up.fault.Moved? || down.fault.Moved?)
    && outcome == if down.fault.Moved? then up.fault else down.fault
  }

  /** Whether the upload is still running when the loop over the parts is left with this outcome after
      so many requests. It is aborted after a failed part only, and under the object key. */
  predicate Running(outcome: Outcome, requests: nat, sameKey: bool, refused: bool) {
    match outcome
    case Moved => true
    case InitFailed => false
    case DownloadFailed | ShortRead => requests > 1
    case UploadFailed | CompleteFailed => !sameKey || refused
  }

  /** The first `k` parts are there and nothing has failed. */
  ghost predicate Uploading(up: MoveWorker, down: MoveWorker, content: Bytes, rs: seq<Range>, k: nat, uploadKey: string)
    requires k <= |rs|
    reads up, down
  {
    && PartsOf(up.parts, content, rs[..k]) && down.requested == rs[..k]
    && up.aborted == [] && up.fault == down.fault == Moved && !up.refused
    && up.running == if k == 0 then {} else {uploadKey}
  }

  /** What is known once round `k` or an earlier one has left the loop, or round `k` has not. */
  ghost predicate Tried(outcome: Outcome, up: MoveWorker, down: MoveWorker, content: Bytes, rs: seq<Range>, k: nat,
                        objKey: string, uploadKey: string)
    requires k <= |rs|
    reads up, down
  {
    && FirstFault(outcome, up, down) && !outcome.CompleteFailed? && down.requested <= rs
    && (outcome.Moved? ==> Uploading(up, down, content, rs, k, uploadKey))
    && up.aborted == (if outcome.UploadFailed? then [objKey] else [])
    && up.running == if Running(outcome, |down.requested|, objKey == uploadKey, up.refused) then {uploadKey} else {}
  }

  /** One round of the loop: a range is downloaded into the buffer, which has its length, and uploaded
      as the next part. The movers are initialised in the first round. */
  method MovePart(found: bool, content: Bytes, objKey: string, uploadKey: string, ghost rs: seq<Range>,
                  partNumber: nat, start: int, end: int, currPartSize: nat, buf: array<int>, up: MoveWorker, down: MoveWorker)
    returns (outcome: Outcome)
    requires up != down && 0 < partNumber <= |rs| && rs[partNumber - 1] == Range(start, end)
    requires 0 <= start <= end < |content| && buf.Length == currPartSize == end - start + 1
    requires Uploading(up, down, content, rs, partNumber - 1, uploadKey)
    modifies up, down, buf
    ensures up.objects == old(up.objects) && (outcome.Moved? ==> found)
    ensures Tried(outcome, up, down, content, rs, partNumber, objKey, uploadKey)
  {
    if partNumber == 1 {
      var inited := down.InitDownload();
      if !inited {
        return InitFailed;
      }
    }
    assert rs[..partNumber] == rs[..partNumber - 1] + [rs[partNumber - 1]];
    var ok, readSize := down.DownloadRange(found, content, buf, start, end);
    if !ok {
      return DownloadFailed;
    }
    if readSize != currPartSize {
      return ShortRead;
    }
    if partNumber == 1 {
      var inited := up.InitUpload(uploadKey);
      if !inited {
        return InitFailed;
      }
    }
    PartsSnoc(up.parts, content, rs, partNumber - 1, Part(partNumber, start, buf[..]));
    var uploaded := up.UploadPart(uploadKey, buf[..], partNumber, start);
    if !uploaded {
      var _ := up.AbortMultipartUpload(objKey);
      return UploadFailed;
    }
    return Moved;
  }

  /** After the last round the parts hold the object, and only the upload is running. */
  lemma AllThere(up: MoveWorker, down: MoveWorker, content: Bytes, partSize: nat, uploadKey: string)
    requires partSize > 0 && content != []
    requires var rs := Ranges(|content|, partSize); Uploading(up, down, content, rs, |rs|, uploadKey)
    ensures PartsOf(up.parts, content, Ranges(|content|, partSize)) && down.requested == Ranges(|content|, partSize)
    ensures Assembled(up.parts) == content && up.running == {uploadKey}
  {
    var rs := Ranges(|content|, partSize);
    PartCountBounds(|content|, partSize);
    assert rs[..|rs|] == rs;
    AssembledAll(up.parts, content, partSize);
  }

  method CountParts(size: nat, partSize: nat) returns (partCount: nat, ghost rs: seq<Range>)
    requires partSize > 0 && size > 0
    ensures rs == Ranges(size, partSize) && |rs| == partCount > 0
  {
    partCount := size / partSize;
    if size % partSize != 0 {
      partCount := partCount + 1;
    }
    PartCountBounds(size, partSize);
    rs := Ranges(size, partSize);
  }
}
