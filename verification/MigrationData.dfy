// Where the bytes are while objects move: move, moveObj, multipartMoveObj and deleteObj of
// datamover/pkg/drivers/https/migration.go, interleaved over all objects of a job.
module MigrationData {

  type Bytes = seq<int>

  /** A connector location: the bucket on the backend and the virtual bucket, "" if there is none. */
  datatype Location = Location(bucket: string, vir: string)

  /** An object of the job, its source (after refreshSrcLocation) and its bytes when the job starts. */
  datatype Item = Item(key: string, src: Location, content: Bytes)

  datatype Address = Address(bucket: string, key: string)

  /** The key under which readers of a location, and the downloads and deletions, look for an object. */
  function StoredKey(l: Location, key: string): string {
    if l.vir != "" then l.vir + "/" + key else key
  }

  /** The key moveObj uploads to; it tests the virtual bucket of the source. */
  function DirectKey(src: Location, dest: Location, key: string): string {
    if src.vir != "" then dest.vir + "/" + key else key
  }

  /** Objects up to the part size go through moveObj, larger ones through multipartMoveObj. */
  function UploadKey(it: Item, dest: Location, partSize: nat): string {
    if |it.content| <= partSize then DirectKey(it.src, dest, it.key) else StoredKey(dest, it.key)
  }

  /** moveObj writes where readers look exactly if both sides or neither are virtual buckets. */
  lemma DirectKeyIsStored(src: Location, dest: Location, key: string)
    ensures DirectKey(src, dest, key) == StoredKey(dest, key) <==> (src.vir == "" <==> dest.vir == "")
  {
    var d, s := DirectKey(src, dest, key), StoredKey(dest, key);
    if src.vir != "" && dest.vir == "" {
      assert |d| == |key| + 1;
    }
    if src.vir == "" && dest.vir != "" {
      assert |s| == |dest.vir| + 1 + |key|;
    }
  }

  /** Objects of different virtual buckets or keys never share an address, unless the names hold a "/". */
  lemma ReaderAddrIsUnique(l: Location, m: Location, key: string, other: string)
    requires '/' !in l.vir && '/' !in m.vir && (l.vir == "" ==> '/' !in key) && (m.vir == "" ==> '/' !in other)
    ensures ReaderAddr(l, key) == ReaderAddr(m, other) <==> l == m && key == other
  {
    var a, b := StoredKey(l, key), StoredKey(m, other);
    if a == b {
      SlashAt(l, key);
      SlashAt(m, other);
      if l.vir != "" {
        assert a[..|l.vir|] == l.vir && b[..|m.vir|] == m.vir;
        assert a[|l.vir| + 1..] == key && b[|m.vir| + 1..] == other;
      }
    }
  }

  lemma SlashAt(l: Location, key: string)
    requires '/' !in l.vir && (l.vir == "" ==> '/' !in key)
    ensures l.vir == "" <==> '/' !in StoredKey(l, key)
    ensures l.vir != "" ==> StoredKey(l, key)[|l.vir|] == '/' && forall k | 0 <= k < |l.vir| :: StoredKey(l, key)[k] != '/'
  {
    if l.vir != "" {
      assert StoredKey(l, key)[|l.vir|] == '/';
    }
  }

  /** The stored key is the object key exactly if there is no virtual bucket. */
  lemma StoredKeyIsPlain(l: Location, key: string)
    ensures StoredKey(l, key) == key <==> l.vir == ""
  {
    assert l.vir != "" ==> |StoredKey(l, key)| > |key|;
  }

  /** Progress of one object. `Fetched` holds the downloaded bytes. */
  datatype Phase = Pending | Fetched(buf: Bytes) | Copied | Failed | Cleaned

  datatype State = State(blobs: map<Address, Bytes>, phase: seq<Phase>)

  datatype Event =
    | Download(i: nat)                         // DownloadObj or all DownloadRanges succeed
    | SkipEmpty(i: nat)                        // moveObj returns nil at once for size 0
    | Upload(i: nat)                           // UploadObj or CompleteMultipartUpload succeeds
    | Fail(i: nat)                             // an error before anything is stored
    | FailDirty(i: nat, junk: Bytes)           // a failed upload that leaves something behind
    | Delete(i: nat)                           // DeleteObj succeeds
    | DeleteFails(i: nat)

  datatype Job = Job(items: seq<Item>, dest: Location, partSize: nat, remainSource: bool)

  /** Where a reader of a location looks for an object, on either side. */
  function ReaderAddr(l: Location, key: string): Address {
    Address(l.bucket, StoredKey(l, key))
  }

  function SrcAddr(j: Job, i: nat): Address
    requires i < |j.items|
  {
    ReaderAddr(j.items[i].src, j.items[i].key)
  }

  function DestAddr(j: Job, i: nat): Address
    requires i < |j.items|
  {
    ReaderAddr(j.dest, j.items[i].key)
  }

  /** Where the upload goes. */
  function UploadAddr(j: Job, i: nat): Address
    requires i < |j.items|
  {
    Address(j.dest.bucket, UploadKey(j.items[i], j.dest, j.partSize))
  }

  predicate Has(s: State, a: Address, b: Bytes) {
    a in s.blobs && s.blobs[a] == b
  }

  /** The source copy may go after a successful copy, and only if the source is not kept. */
  predicate Enabled(j: Job, s: State, e: Event)
    requires |s.phase| == |j.items|
  {
    && e.i < |j.items|
    && match e
       case Download(i) => s.phase[i].Pending? && j.items[i].content != [] && SrcAddr(j, i) in s.blobs
       case SkipEmpty(i) => s.phase[i].Pending? && j.items[i].content == []
       case Upload(i) => s.phase[i].Fetched?
       case Fail(i) => s.phase[i].Pending? || s.phase[i].Fetched?
       case FailDirty(i, _) => s.phase[i].Fetched?
       case Delete(i) => s.phase[i].Copied? && !j.remainSource
       case DeleteFails(i) => s.phase[i].Copied? && !j.remainSource
  }

  function After(j: Job, s: State, e: Event): State
    requires |s.phase| == |j.items| && Enabled(j, s, e)
  {
    match e
    case Download(i) => s.(phase := s.phase[i := Fetched(s.blobs[SrcAddr(j, i)])])
    case SkipEmpty(i) => s.(phase := s.phase[i := Copied])
    case Upload(i) => State(s.blobs[UploadAddr(j, i) := s.phase[i].buf], s.phase[i := Copied])
    case Fail(i) => s.(phase := s.phase[i := Failed])
    case FailDirty(i, junk) => State(s.blobs[UploadAddr(j, i) := junk], s.phase[i := Failed])
    case Delete(i) => State(s.blobs - {SrcAddr(j, i)}, s.phase[i := Cleaned])
    case DeleteFails(i) => s.(phase := s.phase[i := Cleaned])
  }

  predicate Possible(j: Job, s: State, es: seq<Event>)
    requires |s.phase| == |j.items|
    decreases |es|
  {
    es == [] || (Enabled(j, s, es[0]) && Possible(j, After(j, s, es[0]), es[1..]))
  }

  function Final(j: Job, s: State, es: seq<Event>): (t: State)
    requires |s.phase| == |j.items| && Possible(j, s, es)
    ensures |t.phase| == |j.items|
    decreases |es|
  {
    if es == [] then s else Final(j, After(j, s, es[0]), es[1..])
  }

  predicate Init(j: Job, s: State) {
    && |s.phase| == |j.items|
    && (forall i | 0 <= i < |j.items| :: s.phase[i].Pending? && Has(s, SrcAddr(j, i), j.items[i].content))
  }

  /** Distinct source copies, distinct destination copies, and no overlap between the two sides. */
  predicate Separate(j: Job) {
    && (forall i, k | 0 <= i < k < |j.items| :: SrcAddr(j, i) != SrcAddr(j, k) && UploadAddr(j, i) != UploadAddr(j, k))
    && (forall i, k | 0 <= i < |j.items| && 0 <= k < |j.items| :: SrcAddr(j, i) != UploadAddr(j, k))
  }

  /** The object is uploaded where readers look: it is large, or both sides or neither are virtual. */
  predicate Agrees(j: Job, i: nat)
    requires i < |j.items|
  {
    |j.items[i].content| > j.partSize || (j.items[i].src.vir == "" <==> j.dest.vir == "")
  }

  lemma UploadsWhereRead(j: Job, i: nat)
    requires i < |j.items|
    ensures UploadAddr(j, i) == DestAddr(j, i) <==> Agrees(j, i)
  {
    DirectKeyIsStored(j.items[i].src, j.dest, j.items[i].key);
  }

  /** Per object: what its phase says about the two copies. */
  predicate Safe(j: Job, s: State, i: nat)
    requires |s.phase| == |j.items| && i < |j.items|
  {
    var c := j.items[i].content;
    match s.phase[i]
    case Fetched(buf) => Has(s, SrcAddr(j, i), c) && buf == c
    case Copied => Has(s, SrcAddr(j, i), c) && (c != [] ==> Has(s, UploadAddr(j, i), c))
    case Cleaned => (c != [] ==> Has(s, UploadAddr(j, i), c)) && !j.remainSource
    case _ => Has(s, SrcAddr(j, i), c)
  }

  predicate AllSafe(j: Job, s: State)
    requires |s.phase| == |j.items|
  {
    forall i | 0 <= i < |j.items| :: Safe(j, s, i)
  }

  lemma SafeStep(j: Job, s: State, e: Event)
    requires |s.phase| == |j.items| && Separate(j) && AllSafe(j, s) && Enabled(j, s, e)
    ensures AllSafe(j, After(j, s, e))
  {
    var t := After(j, s, e);
    forall i | 0 <= i < |j.items| ensures Safe(j, t, i) {
      assert Safe(j, s, i) && Safe(j, s, e.i);
      assert SrcAddr(j, i) != UploadAddr(j, e.i) && UploadAddr(j, i) != SrcAddr(j, e.i);
      if i != e.i {
        Apart(j, i, e.i);
        assert t.phase[i] == s.phase[i];
      }
    }
  }

  lemma Apart(j: Job, i: nat, k: nat)
    requires Separate(j) && i < |j.items| && k < |j.items| && i != k
    ensures SrcAddr(j, i) != SrcAddr(j, k) && UploadAddr(j, i) != UploadAddr(j, k)
  {
    if k < i {
      assert SrcAddr(j, k) != SrcAddr(j, i) && UploadAddr(j, k) != UploadAddr(j, i);
    }
  }

  lemma {:induction false} SafeRun(j: Job, s: State, es: seq<Event>)
    requires |s.phase| == |j.items| && Separate(j) && AllSafe(j, s) && Possible(j, s, es)
    ensures AllSafe(j, Final(j, s, es))
    decreases |es|
  {
    if es != [] {
      SafeStep(j, s, es[0]);
      SafeRun(j, After(j, s, es[0]), es[1..]);
    }
  }

  /** No data loss, whatever fails and however the movers interleave: the bytes of every non-empty
      object are at its source or where readers of the destination look. A missing source copy means
      that the copy has succeeded and the source was not to be kept. */
  lemma NoDataLoss(j: Job, s: State, es: seq<Event>, i: nat)
    requires Init(j, s) && Separate(j) && Possible(j, s, es) && i < |j.items| && Agrees(j, i)
    ensures var t, c := Final(j, s, es), j.items[i].content;
      && (c != [] ==> Has(t, SrcAddr(j, i), c) || Has(t, DestAddr(j, i), c))
      && (!Has(t, SrcAddr(j, i), c) ==> !j.remainSource && t.phase[i].Cleaned?)
      && (t.phase[i].Copied? || t.phase[i].Cleaned? ==> c != [] ==> Has(t, DestAddr(j, i), c))
      && (t.phase[i].Failed? ==> Has(t, SrcAddr(j, i), c))
  {
    assert AllSafe(j, s);
    SafeRun(j, s, es);
    UploadsWhereRead(j, i);
    assert Safe(j, Final(j, s, es), i);
  }

  // ---------------------------------------------------------------- exactly when nothing is lost

  /** In every reachable state object `i` is at its source or where readers of the destination look. */
  ghost predicate NeverLost(j: Job, s: State, i: nat)
    requires |s.phase| == |j.items| && i < |j.items|
  {
    forall es | Possible(j, s, es) ::
      var t, c := Final(j, s, es), j.items[i].content;
      Has(t, SrcAddr(j, i), c) || Has(t, DestAddr(j, i), c)
  }

  /** The objects that are never lost: all of them if the source is kept, else the non-empty ones
      that are large or whose two sides agree on being virtual buckets. The others are lost in the
      run in which nothing fails, unless the destination had them before. */
  lemma NeverLostExactlyIf(j: Job, s: State, i: nat)
    requires Init(j, s) && Separate(j) && i < |j.items|
    requires !Has(s, DestAddr(j, i), j.items[i].content)
    ensures NeverLost(j, s, i) <==> j.remainSource || (j.items[i].content != [] && Agrees(j, i))
  {
    if j.remainSource || (j.items[i].content != [] && Agrees(j, i)) {
      forall es | Possible(j, s, es)
        ensures var t, c := Final(j, s, es), j.items[i].content;
          Has(t, SrcAddr(j, i), c) || Has(t, DestAddr(j, i), c)
      {
        assert AllSafe(j, s);
        SafeRun(j, s, es);
        UploadsWhereRead(j, i);
        assert Safe(j, Final(j, s, es), i);
      }
    } else {
      var es;
      if j.items[i].content == [] {
        es := EmptyVanishes(j, s, i);
      } else {
        es := LostBetweenKinds(j, s, i);
      }
      assert Possible(j, s, es);
    }
  }

  lemma {:induction false} Play(j: Job, s: State, es: seq<Event>, e: Event)
    requires |s.phase| == |j.items| && Possible(j, s, es) && Enabled(j, Final(j, s, es), e)
    ensures Possible(j, s, es + [e]) && Final(j, s, es + [e]) == After(j, Final(j, s, es), e)
    decreases |es|
  {
    if es == [] {
      assert es + [e] == [e] && [e][1..] == [];
    } else {
      assert (es + [e])[0] == es[0] && (es + [e])[1..] == es[1..] + [e];
      Play(j, After(j, s, es[0]), es[1..], e);
    }
  }

  /** An object between buckets of different kinds: after a successful small copy and the deletion, a
      reader of the destination does not find it. */
  lemma LostBetweenKinds(j: Job, s: State, i: nat) returns (es: seq<Event>)
    requires Init(j, s) && Separate(j) && i < |j.items| && !j.remainSource
    requires j.items[i].content != [] && !Agrees(j, i) && !Has(s, DestAddr(j, i), j.items[i].content)
    ensures Possible(j, s, es)
    ensures SrcAddr(j, i) !in Final(j, s, es).blobs && !Has(Final(j, s, es), DestAddr(j, i), j.items[i].content)
  {
    UploadsWhereRead(j, i);
    es := [];
    Play(j, s, es, Download(i));
    es := es + [Download(i)];
    Play(j, s, es, Upload(i));
    es := es + [Upload(i)];
    Play(j, s, es, Delete(i));
    es := es + [Delete(i)];
  }

  /** An empty object counts as moved without a copy, and its source is deleted all the same. */
  lemma EmptyVanishes(j: Job, s: State, i: nat) returns (es: seq<Event>)
    requires Init(j, s) && i < |j.items| && !j.remainSource && j.items[i].content == []
    requires !Has(s, DestAddr(j, i), j.items[i].content)
    ensures Possible(j, s, es)
    ensures SrcAddr(j, i) !in Final(j, s, es).blobs && !Has(Final(j, s, es), DestAddr(j, i), j.items[i].content)
  {
    es := [];
    Play(j, s, es, SkipEmpty(i));
    es := es + [SkipEmpty(i)];
    Play(j, s, es, Delete(i));
    es := es + [Delete(i)];
  }
}
