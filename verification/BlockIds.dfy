// Block ids of the Azure mover (datamover/pkg/azure/blob/blobmover.go): an int64 as eight
// little-endian bytes in standard base64 (section 4 of RFC 4648).
module BlockIds {

  type Byte = x: int | 0 <= x < 256
  type Int64 = x: int | -0x8000_0000_0000_0000 <= x < 0x8000_0000_0000_0000

  // ---------------------------------------------------------------- base64

  /** Six-bit values, and 64 for the padding character. */
  type Code = v: int | 0 <= v <= 64

  const PAD: Code := 64

  /** The character of a code. */
  function Digit(v: Code): char {
    if v < 26 then ('A' as int + v) as char
    else if v < 52 then ('a' as int + v - 26) as char
    else if v < 62 then ('0' as int + v - 52) as char
    else if v == 62 then '+' else if v == 63 then '/' else '='
  }

  /** The code of a character, or -1. */
  function Value(c: char): (v: int)
    ensures -1 <= v <= 64
  {
    if 'A' <= c <= 'Z' then c as int - 'A' as int
    else if 'a' <= c <= 'z' then c as int - 'a' as int + 26
    else if '0' <= c <= '9' then c as int - '0' as int + 52
    else if c == '+' then 62
    else if c == '/' then 63
    else if c == '=' then 64
    else -1
  }

  lemma DigitValue(v: Code)
    ensures Value(Digit(v)) == v
  {}

  /** The characters are those of the standard alphabet, here by their numbers, and no other one has a code. */
  lemma DigitExactly(v: Code, c: char)
    ensures Digit(v) as int == if v < 26 then 65 + v else if v < 52 then 71 + v else if v < 62 then v - 4
      else if v == 62 then 43 else if v == 63 then 47 else 61
    ensures Value(c) == v <==> c == Digit(v)
  {}

  /** Groups of three bytes become four codes; one or two last bytes are padded. */
  function Codes(bs: seq<Byte>): seq<Code>
    decreases |bs|
  {
    if bs == [] then []
    else if |bs| == 1 then [bs[0] / 4, bs[0] % 4 * 16, PAD, PAD]
    else if |bs| == 2 then [bs[0] / 4, bs[0] % 4 * 16 + bs[1] / 16, bs[1] % 16 * 4, PAD]
    else
      [bs[0] / 4, bs[0] % 4 * 16 + bs[1] / 16, bs[1] % 16 * 4 + bs[2] / 64, bs[2] % 64] + Codes(bs[3..])
  }

  /** A byte, or 0 behind the end. */
  function ByteAt(bs: seq<Byte>, k: nat): Byte {
    if k < |bs| then bs[k] else 0
  }

  /** Every group of three bytes is written in four codes of six bits, from the highest bit down; a group
      that is not complete is filled with zeros, and codes of zeros alone are padding. */
  lemma {:induction false} CodesAreBits(bs: seq<Byte>, g: nat)
    requires 3 * g < |bs|
    ensures 4 * g + 4 <= |Codes(bs)|
    ensures var x, y, z := ByteAt(bs, 3 * g), ByteAt(bs, 3 * g + 1), ByteAt(bs, 3 * g + 2);
      && Codes(bs)[4 * g] == x / 4
      && Codes(bs)[4 * g + 1] == x % 4 * 16 + y / 16
      && Codes(bs)[4 * g + 2] == (if 3 * g + 1 < |bs| then y % 16 * 4 + z / 64 else PAD)
      && Codes(bs)[4 * g + 3] == (if 3 * g + 2 < |bs| then z % 64 else PAD)
    decreases g
  {
    if g > 0 {
      CodesAreBits(bs[3..], g - 1);
    }
  }

  /** EncodeToString */
  function Encode(bs: seq<Byte>): (s: string)
    ensures |s| == |Codes(bs)| && forall i | 0 <= i < |s| :: s[i] == Digit(Codes(bs)[i])
  {
    seq(|Codes(bs)|, i requires 0 <= i < |Codes(bs)| => Digit(Codes(bs)[i]))
  }

  datatype Decoded = Bytes(bs: seq<Byte>) | Corrupt

  predicate SixBit(v: int) {
    0 <= v < 64
  }

  /** The bytes of a code list; padding only at the very end. */
  function FromCodes(vs: seq<int>): Decoded
    decreases |vs|
  {
    if vs == [] then Bytes([])
    else if |vs| < 4 || !SixBit(vs[0]) || !SixBit(vs[1]) then Corrupt
    else
      var first := (vs[0] * 4 + vs[1] / 16) % 256;
      if |vs| == 4 && vs[2] == PAD && vs[3] == PAD then Bytes([first])
      else if !SixBit(vs[2]) then Corrupt
      else
        var second := (vs[1] % 16 * 16 + vs[2] / 4) % 256;
        if |vs| == 4 && vs[3] == PAD then Bytes([first, second])
        else if !SixBit(vs[3]) then Corrupt
        else
          var rest := FromCodes(vs[4..]);
          if rest.Corrupt? then Corrupt
          else Bytes([first, second, (vs[2] % 4 * 64 + vs[3]) % 256] + rest.bs)
  }

  function Values(s: string): (vs: seq<int>)
    ensures |vs| == |s| && forall i | 0 <= i < |s| :: vs[i] == Value(s[i])
  {
    seq(|s|, i requires 0 <= i < |s| => Value(s[i]))
  }

  /** DecodeString on text without line breaks. */
  function Decode(s: string): Decoded {
    FromCodes(Values(s))
  }

  lemma {:induction false} CodesLength(bs: seq<Byte>)
    ensures |Codes(bs)| == (|bs| + 2) / 3 * 4
    decreases |bs|
  {
    if |bs| >= 3 {
      CodesLength(bs[3..]);
    }
  }

  lemma Join3(x: Byte, y: Byte, z: Byte)
    ensures x / 4 * 4 + (x % 4 * 16 + y / 16) / 16 == x
    ensures (x % 4 * 16 + y / 16) % 16 * 16 + (y % 16 * 4 + z / 64) / 4 == y
    ensures (y % 16 * 4 + z / 64) % 4 * 64 + z % 64 == z
    ensures 0 <= x % 4 * 16 + y / 16 < 64 && 0 <= y % 16 * 4 + z / 64 < 64
  {}

  /** The codes of three bytes give the bytes back. */
  lemma Regroup(x: Byte, y: Byte, z: Byte, a: int, b: int, c: int, d: int)
    requires a == x / 4 && b == x % 4 * 16 + y / 16 && c == y % 16 * 4 + z / 64 && d == z % 64
    ensures SixBit(a) && SixBit(b) && SixBit(c) && SixBit(d)
    ensures (a * 4 + b / 16) % 256 == x && (b % 16 * 16 + c / 4) % 256 == y && (c % 4 * 64 + d) % 256 == z
  {
    Join3(x, y, z);
  }

  /** Four values in front of a list that decodes. */
  lemma FourCodes(vs: seq<int>, x: int, y: int, z: int, rest: seq<Byte>)
    requires |vs| >= 4 && FromCodes(vs[4..]) == Bytes(rest)
    requires SixBit(vs[0]) && SixBit(vs[1]) && SixBit(vs[2]) && SixBit(vs[3])
    requires x == (vs[0] * 4 + vs[1] / 16) % 256 && y == (vs[1] % 16 * 16 + vs[2] / 4) % 256
    requires z == (vs[2] % 4 * 64 + vs[3]) % 256
    ensures FromCodes(vs) == Bytes([x, y, z] + rest)
  {}

  lemma ThreeBytes(vs: seq<int>, x: Byte, y: Byte, z: Byte, rest: seq<Byte>)
    requires |vs| >= 4 && FromCodes(vs[4..]) == Bytes(rest)
    requires vs[0] == x / 4 && vs[1] == x % 4 * 16 + y / 16 && vs[2] == y % 16 * 4 + z / 64 && vs[3] == z % 64
    ensures FromCodes(vs) == Bytes([x, y, z] + rest)
  {
    Regroup(x, y, z, vs[0], vs[1], vs[2], vs[3]);
    FourCodes(vs, x, y, z, rest);
  }

  lemma CodesTail(bs: seq<Byte>)
    requires |bs| >= 3
    ensures |Codes(bs)| >= 4 && Codes(bs)[4..] == Codes(bs[3..])
    ensures Codes(bs)[0] == bs[0] / 4 && Codes(bs)[1] == bs[0] % 4 * 16 + bs[1] / 16
    ensures Codes(bs)[2] == bs[1] % 16 * 4 + bs[2] / 64 && Codes(bs)[3] == bs[2] % 64
  {}

  lemma ThreeCodes(a: int, b: int, c: int)
    requires SixBit(a) && SixBit(b) && SixBit(c)
    ensures FromCodes([a, b, c, PAD]) == Bytes([(a * 4 + b / 16) % 256, (b % 16 * 16 + c / 4) % 256])
  {}

  lemma TwoBytes(x: Byte, y: Byte)
    ensures FromCodes(Codes([x, y])) == Bytes([x, y])
  {
    Regroup(x, y, 0, x / 4, x % 4 * 16 + y / 16, y % 16 * 4, 0);
    ThreeCodes(x / 4, x % 4 * 16 + y / 16, y % 16 * 4);
  }

  lemma OneByte(x: Byte)
    ensures FromCodes(Codes([x])) == Bytes([x])
  {
    Join3(x, 0, 0);
  }

  lemma {:induction false} FromCodesCodes(bs: seq<Byte>)
    ensures FromCodes(Codes(bs)) == Bytes(bs)
    decreases |bs|
  {
    if |bs| == 1 {
      assert bs == [bs[0]];
      OneByte(bs[0]);
    } else if |bs| == 2 {
      assert bs == [bs[0], bs[1]];
      TwoBytes(bs[0], bs[1]);
    } else if |bs| >= 3 {
      FromCodesCodes(bs[3..]);
      CodesTail(bs);
      ThreeBytes(Codes(bs), bs[0], bs[1], bs[2], bs[3..]);
      FrontAndTail(bs);
    }
  }

  lemma FrontAndTail(bs: seq<Byte>)
    requires |bs| >= 3
    ensures [bs[0], bs[1], bs[2]] + bs[3..] == bs
  {}

  /** Decoding is the inverse of encoding, for every byte string. */
  lemma DecodeEncode(bs: seq<Byte>)
    ensures Decode(Encode(bs)) == Bytes(bs)
  {
    forall i | 0 <= i < |Codes(bs)| ensures Values(Encode(bs))[i] == Codes(bs)[i] {
      DigitValue(Codes(bs)[i]);
    }
    assert Values(Encode(bs)) == Codes(bs);
    FromCodesCodes(bs);
  }

  // ---------------------------------------------------------------- int64

  /** uint64(n) */
  function Unsigned(n: Int64): int {
    if n < 0 then n + 0x1_0000_0000_0000_0000 else n
  }

  /** int64(u) */
  function Signed(u: int): Int64
    requires 0 <= u < 0x1_0000_0000_0000_0000
  {
    if u >= 0x8000_0000_0000_0000 then u - 0x1_0000_0000_0000_0000 else u
  }

  /** The `k` low bytes of `u`, lowest first (binary.LittleEndian). */
  function LowBytes(u: int, k: nat): (bs: seq<Byte>)
    requires u >= 0
    ensures |bs| == k
  {
    if k == 0 then [] else [u % 256] + LowBytes(u / 256, k - 1)
  }

  function Number(bs: seq<Byte>): int {
    if bs == [] then 0 else bs[0] + 256 * Number(bs[1..])
  }

  function Power256(k: nat): int {
    if k == 0 then 1 else 256 * Power256(k - 1)
  }

  lemma {:induction false} NumberOfLowBytes(u: int, k: nat)
    requires 0 <= u < Power256(k)
    ensures Number(LowBytes(u, k)) == u
  {
    if k > 0 {
      NumberOfLowBytes(u / 256, k - 1);
      assert LowBytes(u, k)[1..] == LowBytes(u / 256, k - 1);
    }
  }

  lemma {:induction false} LowBytesAt(u: int, k: nat, i: nat)
    requires u >= 0 && i < k
    ensures LowBytes(u, k)[i] == Shifted(u, i) % 256
    decreases i
  {
    if i > 0 {
      LowBytesAt(u / 256, k - 1, i - 1);
    }
  }

  /** The number without its `i` lowest bytes. */
  function Shifted(u: int, i: nat): (r: int)
    requires u >= 0
    ensures 0 <= r <= u
  {
    if i == 0 then u else Shifted(u / 256, i - 1)
  }

  function Int64ToBase64(n: Int64): string {
    Encode(LowBytes(Unsigned(n), 8))
  }

  /** Base64ToInt64; reading fewer than eight bytes panics, and text that does not decode is not
      modelled beyond that. */
  function Base64ToInt64(s: string): (n: Int64)
    requires Decode(s).Bytes? && |Decode(s).bs| == 8
  {
    NumberRange(Decode(s).bs);
    Power8();
    Signed(Number(Decode(s).bs))
  }

  lemma {:induction false} NumberRange(bs: seq<Byte>)
    ensures 0 <= Number(bs) < Power256(|bs|)
  {
    if bs != [] {
      NumberRange(bs[1..]);
    }
  }

  lemma Power8()
    ensures Power256(8) == 0x1_0000_0000_0000_0000
  {
    assert Power256(4) == 0x1_0000_0000;
    assert Power256(8) == 256 * (256 * (256 * (256 * Power256(4))));
  }

  /** The codec round-trips for every int64 and its ids have twelve characters. */
  lemma IdRoundTrip(n: Int64)
    ensures var s := Int64ToBase64(n);
      |s| == 12 && Decode(s).Bytes? && |Decode(s).bs| == 8 && Base64ToInt64(s) == n
  {
    var bs := LowBytes(Unsigned(n), 8);
    Power8();
    DecodeEncode(bs);
    CodesLength(bs);
    NumberOfLowBytes(Unsigned(n), 8);
  }

  /** Bytes are the low bytes of their number. */
  lemma {:induction false} LowBytesOfNumber(bs: seq<Byte>)
    ensures Number(bs) >= 0 && LowBytes(Number(bs), |bs|) == bs
    decreases |bs|
  {
    if bs != [] {
      LowBytesOfNumber(bs[1..]);
      assert bs == [bs[0]] + bs[1..];
    }
  }

  lemma IdsAreDistinct(m: Int64, n: Int64)
    requires Int64ToBase64(m) == Int64ToBase64(n)
    ensures m == n
  {
    IdRoundTrip(m);
    IdRoundTrip(n);
  }

  // ---------------------------------------------------------------- block upload

  type Content = seq<int>

  function Ids(numbers: seq<Int64>): (ids: seq<string>)
    ensures |ids| == |numbers| && forall i | 0 <= i < |ids| :: ids[i] == Int64ToBase64(numbers[i])
  {
    seq(|numbers|, i requires 0 <= i < |numbers| => Int64ToBase64(numbers[i]))
  }

  /** The block under the id of each number is the part uploaded with it. */
  predicate Faithful(numbers: seq<Int64>, staged: map<string, Content>, uploaded: seq<Content>) {
    && |numbers| == |uploaded|
    && forall i | 0 <= i < |numbers| :: HoldsPart(staged, numbers[i], uploaded[i])
  }

  predicate HoldsPart(staged: map<string, Content>, n: Int64, part: Content) {
    Int64ToBase64(n) in staged && staged[Int64ToBase64(n)] == part
  }

  /** Staging a part keeps the earlier ones exactly if those of the same number are equal to it. */
  lemma StagingKeeps(numbers: seq<Int64>, staged: map<string, Content>, uploaded: seq<Content>, n: Int64, part: Content)
    requires |numbers| == |uploaded|
    ensures Faithful(numbers, staged[Int64ToBase64(n) := part], uploaded) <==> Compatible(numbers, staged, uploaded, n, part)
  {
    var staged1 := staged[Int64ToBase64(n) := part];
    forall i | 0 <= i < |numbers|
      ensures HoldsPart(staged1, numbers[i], uploaded[i]) <==>
        if numbers[i] == n then uploaded[i] == part else HoldsPart(staged, numbers[i], uploaded[i])
    {
      if Int64ToBase64(numbers[i]) == Int64ToBase64(n) {
        IdsAreDistinct(numbers[i], n);
      }
    }
  }

  /** Every part uploaded under the number is this one, the blocks of all others are there. */
  predicate Compatible(numbers: seq<Int64>, staged: map<string, Content>, uploaded: seq<Content>, n: Int64, part: Content)
    requires |numbers| == |uploaded|
  {
    forall i | 0 <= i < |numbers| ::
      if numbers[i] == n then uploaded[i] == part else HoldsPart(staged, numbers[i], uploaded[i])
  }

  lemma FaithfulSnoc(numbers: seq<Int64>, staged: map<string, Content>, uploaded: seq<Content>, n: Int64, part: Content)
    requires |numbers| == |uploaded| && HoldsPart(staged, n, part)
    ensures Faithful(numbers + [n], staged, uploaded + [part]) <==> Faithful(numbers, staged, uploaded)
  {
    var ns, us := numbers + [n], uploaded + [part];
    assert ns[|numbers|] == n && us[|numbers|] == part;
    assert forall i | 0 <= i < |numbers| :: ns[i] == numbers[i] && us[i] == uploaded[i];
  }

  function Concat(cs: seq<Content>): Content {
    if cs == [] then [] else Concat(cs[..|cs| - 1]) + cs[|cs| - 1]
  }

  /** The blocks of a list of ids. */
  function Blocks(ids: seq<string>, staged: map<string, Content>): (cs: seq<Content>)
    requires forall i | 0 <= i < |ids| :: ids[i] in staged
    ensures |cs| == |ids| && forall i | 0 <= i < |ids| :: cs[i] == staged[ids[i]]
  {
    seq(|ids|, i requires 0 <= i < |ids| => staged[ids[i]])
  }

  /** The blob: staged blocks by id, and the committed content. */
  class BlobMover {
    var completeParts: seq<string>
    var staged: map<string, Content>
    var committed: Content
    ghost var numbers: seq<Int64>       // the parts uploaded so far
    ghost var uploaded: seq<Content>
    ghost var errors: nat               // calls of the service that reported an error

    /** The ids of the uploaded parts are listed, and their blocks are there. */
    ghost predicate Valid()
      reads this
    {
      && completeParts == Ids(numbers) && |numbers| == |uploaded|
      && forall i | 0 <= i < |completeParts| :: completeParts[i] in staged
    }

    ghost predicate Keeps()
      reads this
    {
      Faithful(numbers, staged, uploaded)
    }

    constructor (staged: map<string, Content>, committed: Content)
      ensures Valid() && Keeps() && numbers == [] && this.staged == staged && this.committed == committed
    {
      completeParts, this.staged, this.committed, numbers, uploaded, errors := [], staged, committed, [], [], 0;
    }

    /** StageBlock; a call that reports an error may have staged the block all the same. */
    method StageBlock(id: string, buf: Content) returns (err: bool)
      modifies this`staged, this`errors
      ensures staged == old(staged)[id := buf] || (err && staged == old(staged))
      ensures errors == old(errors) + if err then 1 else 0
    {
      var stages;
      stages, err := *, *;
      if stages || !err {
        staged := staged[id := buf];
      }
      if err {
        errors := errors + 1;
      }
    }

    /** UploadPart: three attempts to stage, for any part number. */
    method UploadPart(partNumber: Int64, buf: Content) returns (ok: bool)
      requires Valid()
      modifies this
      ensures Valid() && committed == old(committed)
      ensures staged == old(staged)[Int64ToBase64(partNumber) := buf] || (!ok && staged == old(staged))
      ensures numbers == if ok then old(numbers) + [partNumber] else old(numbers)
      ensures uploaded == if ok then old(uploaded) + [buf] else old(uploaded)
      ensures if ok then errors < old(errors) + 3 else errors == old(errors) + 3
      // the blocks are those of the uploaded parts afterwards, exactly if all parts under this number agree
      ensures staged == old(staged)[Int64ToBase64(partNumber) := buf] ==>
        (Keeps() <==> Compatible(old(numbers), old(staged), old(uploaded), partNumber, buf))
      ensures old(Keeps()) && partNumber !in old(numbers) ==> Keeps()
    {
      var base64ID := Int64ToBase64(partNumber);
      StagingKeeps(numbers, staged, uploaded, partNumber, buf);
      FaithfulSnoc(numbers, staged[base64ID := buf], uploaded, partNumber, buf);
      var tries := 1;
      while tries <= 3
        invariant Valid() && committed == old(committed) && numbers == old(numbers) && uploaded == old(uploaded)
        invariant staged == old(staged) || staged == old(staged)[base64ID := buf]
        invariant 1 <= tries <= 4 && errors == old(errors) + tries - 1
      {
        var err := StageBlock(base64ID, buf);
        if !err {
          completeParts := completeParts + [base64ID];
          numbers, uploaded := numbers + [partNumber], uploaded + [buf];
          return true;
        }
        tries := tries + 1;
      }
      return false;
    }

    /** CompleteMultipartUpload: three attempts to commit the list. A commit makes the listed blocks the
        content of the blob, and these are the uploaded parts as long as none has been overwritten. */
    method CompleteMultipartUpload() returns (ok: bool)
      requires Valid()
      modifies this
      ensures Valid() && numbers == old(numbers) && uploaded == old(uploaded) && staged == old(staged)
      ensures committed == Concat(Blocks(completeParts, staged)) || (!ok && committed == old(committed))
      ensures ok && Keeps() ==> committed == Concat(uploaded)
      ensures if ok then errors < old(errors) + 3 else errors == old(errors) + 3
    {
      var tries := 1;
      while tries <= 3
        invariant Valid() && numbers == old(numbers) && uploaded == old(uploaded) && staged == old(staged)
        invariant committed == old(committed) || committed == Concat(Blocks(completeParts, staged))
        invariant 1 <= tries <= 4 && errors == old(errors) + tries - 1
      {
        var err := CommitBlockList();
        if !err {
          assert Keeps() ==> Blocks(completeParts, staged) == uploaded;
          return true;
        }
        tries := tries + 1;
      }
      return false;
    }

    /** CommitBlockList; a call that reports an error may have committed the list all the same. */
    method CommitBlockList() returns (err: bool)
      requires Valid()
      modifies this`committed, this`errors
      ensures committed == Concat(Blocks(completeParts, staged)) || (err && committed == old(committed))
      ensures errors == old(errors) + if err then 1 else 0
    {
      var commits;
      commits, err := *, *;
      if commits || !err {
        committed := ConcatBlocks();
      }
      if err {
        errors := errors + 1;
      }
    }

    /** What the service makes of the block list. */
    method ConcatBlocks() returns (all: Content)
      requires Valid()
      ensures all == Concat(Blocks(completeParts, staged))
    {
      ghost var blocks := Blocks(completeParts, staged);
      all := [];
      for i := 0 to |completeParts|
        invariant all == Concat(blocks[..i])
      {
        assert blocks[..i + 1][..i] == blocks[..i];
        all := all + staged[completeParts[i]];
      }
      assert blocks[..|blocks|] == blocks;
    }
  }
}
