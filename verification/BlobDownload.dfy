// DownloadObj of datamover/pkg/azure/blob/blobmover.go: the blob is read piece by piece into the
// rest of the caller's buffer.
module BlobDownload {

  type Bytes = seq<int>

  datatype Err = Nil | Eof | Other

  // ---------------------------------------------------------------- the reader's contract

  /** What io.Reader allows one read to answer, with `size` bytes read of a body of `length` bytes into
      a buffer of `room`: it may read nothing without an error only if there is no room left. */
  predicate MayAnswer(length: nat, room: nat, size: nat, n: nat, err: Err) {
    && size + n <= length && size + n <= room
    && (err.Eof? ==> size + n == length)
    && (err.Nil? ==> n > 0 || (size == room && size < length))
  }

  /** The reads answer these numbers of bytes, one after the other, without an error. */
  predicate Quiet(length: nat, room: nat, size: nat, ns: seq<nat>)
    decreases |ns|
  {
    ns == [] || (MayAnswer(length, room, size, ns[0], Nil) && Quiet(length, room, size + ns[0], ns[1..]))
  }

  /** If the rest of the blob fits, there are no more quiet reads than bytes. */
  lemma {:induction false} QuietIsShort(length: nat, room: nat, size: nat, ns: seq<nat>)
    requires size <= length <= room && Quiet(length, room, size, ns)
    ensures |ns| <= length - size
    decreases |ns|
  {
    if ns != [] {
      QuietIsShort(length, room, size + ns[0], ns[1..]);
    }
  }

  /** A full buffer: a read may answer nothing any number of times, and all stays as it was. */
  lemma {:induction false} FullStays(length: nat, room: nat, k: nat) returns (ns: seq<nat>)
    requires room < length
    ensures |ns| == k && Quiet(length, room, room, ns) && forall i | 0 <= i < k :: ns[i] == 0
  {
    if k == 0 {
      ns := [];
    } else {
      var rest := FullStays(length, room, k - 1);
      ns := [0] + rest;
    }
  }

  /** Some reader answers so many reads without an error. */
  ghost predicate MayBeQuiet(length: nat, room: nat, k: nat) {
    exists ns: seq<nat> | |ns| == k :: Quiet(length, room, 0, ns)
  }

  /** The loop of DownloadObj can be kept busy for any number of reads. */
  ghost predicate MayHang(length: nat, room: nat) {
    forall k: nat :: MayBeQuiet(length, room, k)
  }

  /** It can if and only if the blob does not fit into the buffer. */
  lemma HangsExactlyIf(length: nat, room: nat)
    ensures MayHang(length, room) <==> length > room
  {
    if length <= room {
      if MayBeQuiet(length, room, length + 1) {
        var ns: seq<nat> :| |ns| == length + 1 && Quiet(length, room, 0, ns);
        QuietIsShort(length, room, 0, ns);
      }
    } else {
      forall k: nat ensures MayBeQuiet(length, room, k) {
        var ns := FillAndStay(length, room, k);
      }
    }
  }

  lemma FillAndStay(length: nat, room: nat, k: nat) returns (ns: seq<nat>)
    requires room < length
    ensures |ns| == k && Quiet(length, room, 0, ns)
  {
    if room == 0 || k == 0 {
      ns := FullStays(length, room, k);
    } else {
      var rest := FullStays(length, room, k - 1);
      ns := [room] + rest;
      assert ns[1..] == rest;
    }
  }

  // ---------------------------------------------------------------- the buffer

  method CopyInto(buf: array<int>, from: nat, data: Bytes)
    requires from + |data| <= buf.Length
    modifies buf
    ensures buf[..] == old(buf[..from]) + data + old(buf[..])[from + |data|..]
  {
    forall k | 0 <= k < |data| {
      buf[from + k] := data[k];
    }
  }

  /** The body of a download: any reader that keeps to the contract. */
  class Body {
    const stream: Bytes
    var pos: nat
    ghost var broken: bool    // a read has failed

    constructor (stream: Bytes)
      ensures this.stream == stream && pos == 0 && !broken
    {
      this.stream, pos, broken := stream, 0, false;
    }

    /** Fills a prefix of `buf[from..]`. */
    method Read(buf: array<int>, from: nat) returns (n: nat, err: Err)
      requires from == pos <= |stream| && from <= buf.Length
      modifies this, buf
      ensures MayAnswer(|stream|, buf.Length, from, n, err) && pos == from + n
      ensures buf[..] == old(buf[..])[..from] + stream[from..pos] + old(buf[..])[from + n..]
      ensures broken == (old(broken) || err.Other?)
    {
      assert from + 0 <= buf.Length && pos + 0 <= |stream|;
      n :| 0 <= n && from + n <= buf.Length && pos + n <= |stream|;
      CopyInto(buf, from, stream[pos..pos + n]);
      pos := pos + n;
      var quiet, fails := *, *;
      if quiet && (n > 0 || (from == buf.Length && pos < |stream|)) {
        return n, Nil;
      }
      err := if pos == |stream| && !fails then Eof else Other;
      broken := broken || err.Other?;
    }
  }

  /** What has been read stands at the front of the buffer, the rest of the buffer is as before. */
  function Overlay(stream: Bytes, was: Bytes, size: nat): Bytes
    requires size <= |stream| && size <= |was|
  {
    stream[..size] + was[size..]
  }

  lemma OverlayStart(stream: Bytes, was: Bytes)
    ensures Overlay(stream, was, 0) == was
  {}

  lemma OverlayNext(stream: Bytes, was: Bytes, done: nat, n: nat)
    requires done + n <= |stream| && done + n <= |was|
    ensures var before := Overlay(stream, was, done);
      before[..done] + stream[done..done + n] + before[done + n..] == Overlay(stream, was, done + n)
  {
    var before := Overlay(stream, was, done);
    assert before[..done] == stream[..done] && before[done + n..] == was[done + n..];
    assert stream[..done] + stream[done..done + n] == stream[..done + n];
  }

  method ReadPiece(body: Body, buf: array<int>, done: nat, ghost was: Bytes) returns (size: nat, readErr: Err)
    requires body.pos == done <= |body.stream| && done <= buf.Length == |was|
    requires buf[..] == Overlay(body.stream, was, done)
    modifies body, buf
    ensures body.pos == size <= |body.stream| && done <= size <= buf.Length
    ensures MayAnswer(|body.stream|, buf.Length, done, size - done, readErr)
    ensures buf[..] == Overlay(body.stream, was, size)
    ensures body.broken == (old(body.broken) || readErr.Other?)
  {
    var n;
    n, readErr := body.Read(buf, done);
    OverlayNext(body.stream, was, done, n);
    size := done + n;
  }

  /** The loop over the body, followed for `patience` reads; without an error it is still running then.
      If the blob fits into the buffer, it has ended after one read more than there are bytes. */
  method ReadBody(body: Body, buf: array<int>, patience: nat) returns (size: nat, readErr: Err)
    requires body.pos == 0
    modifies body, buf
    ensures size <= |body.stream| && size <= buf.Length
    ensures buf[..] == Overlay(body.stream, old(buf[..]), size)
    ensures readErr.Eof? ==> size == |body.stream|
    ensures readErr.Nil? && patience > |body.stream| ==> size == buf.Length < |body.stream|
    ensures body.broken == (old(body.broken) || readErr.Other?)
  {
    ghost var was := buf[..];
    OverlayStart(body.stream, was);
    size, readErr := 0, Nil;
    var left := patience;
    while left > 0 && readErr.Nil?
      invariant left <= patience && body.pos == size <= |body.stream| && size <= buf.Length
      invariant buf[..] == Overlay(body.stream, was, size)
      invariant readErr.Eof? ==> size == |body.stream|
      invariant readErr.Nil? ==> patience - left <= size || size == buf.Length < |body.stream|
      invariant body.broken == (old(body.broken) || readErr.Other?)
    {
      size, readErr := ReadPiece(body, buf, size, was);
      left := left - 1;
    }
  }

  /** DownloadObj, followed for `patience` reads of the body: three attempts to reach the blob, whose answers
      are `connects`. A nil error means that the buffer starts with the whole blob; bytes behind `size`
      are never touched; `done` is false if the call is still reading. */
  method DownloadObj(body: Body, initOk: bool, connects: seq<bool>, buf: array<int>, patience: nat)
    returns (done: bool, size: nat, err: Err)
    requires |connects| == 3 && body.pos == 0 && !body.broken
    modifies body, buf
    ensures size <= |body.stream| && size <= buf.Length
    ensures buf[..] == Overlay(body.stream, old(buf[..]), size)
    // the call ends if the blob fits, or was not reached; otherwise it may be stuck at a full buffer
    ensures patience > |body.stream| && |body.stream| <= buf.Length ==> done
    ensures !initOk || true !in connects ==> done && size == 0 && body.pos == 0
    ensures !done && patience > |body.stream| ==> size == buf.Length < |body.stream|
    // its answer
    ensures done ==> err.Nil? || err.Other?
    ensures done && err.Nil? ==> size == |body.stream| && buf[..size] == body.stream
    ensures done ==> (err.Nil? <==> initOk && true in connects && !body.broken)
  {
    OverlayStart(body.stream, buf[..]);
    if !initOk {
      return true, 0, Other;
    }
    for tries := 0 to 3
      invariant buf[..] == old(buf[..]) && body.pos == 0 && !body.broken
      invariant true !in connects[..tries]
    {
      if connects[tries] {
        size, err := ReadBody(body, buf, patience);
        done := !err.Nil?;
        if err.Eof? {
          err := Nil;
        }
        return;
      }
    }
    return true, 0, Other;
  }
}
