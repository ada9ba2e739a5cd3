// strings.Join(segments, ",") and strings.HasSuffix: when comparing joined strings is
// comparing lists of segments.
module Segments {

  /** strings.HasSuffix */
  predicate HasSuffix(s: string, k: string) {
    |k| <= |s| && s[|s| - |k|..] == k
  }

  /** strings.Join(segments, ",") */
  function Joined(ss: seq<string>): string {
    if ss == [] then ""
    else if |ss| == 1 then ss[0]
    else Joined(ss[..|ss| - 1]) + "," + ss[|ss| - 1]
  }

  /** strings.Count(s, ",") */
  function Commas(s: string): nat {
    if s == "" then 0 else Commas(s[..|s| - 1]) + if s[|s| - 1] == ',' then 1 else 0
  }

  predicate ListSuffix<T(==)>(ts: seq<T>, ks: seq<T>) {
    |ks| <= |ts| && ts[|ts| - |ks|..] == ks
  }

  predicate CommaFree(ss: seq<string>) {
    forall i | 0 <= i < |ss| :: ',' !in ss[i]
  }

  /** No segment of `ks` is a proper suffix of one of `ss`. */
  predicate SuffixFree(ss: seq<string>, ks: seq<string>) {
    forall i, j | 0 <= i < |ss| && 0 <= j < |ks| && HasSuffix(ss[i], ks[j]) :: ss[i] == ks[j]
  }

  lemma {:induction false} CommasConcat(a: string, b: string)
    ensures Commas(a + b) == Commas(a) + Commas(b)
    decreases |b|
  {
    if b == "" {
      assert a + b == a;
    } else {
      assert (a + b)[..|a + b| - 1] == a + b[..|b| - 1];
      CommasConcat(a, b[..|b| - 1]);
    }
  }

  lemma {:induction false} NoCommas(s: string)
    requires ',' !in s
    ensures Commas(s) == 0
  {
    if s != "" {
      NoCommas(s[..|s| - 1]);
    }
  }

  lemma {:induction false} CommasOfJoined(ss: seq<string>)
    requires ss != [] && CommaFree(ss)
    ensures Commas(Joined(ss)) == |ss| - 1
  {
    if |ss| == 1 {
      NoCommas(ss[0]);
    } else {
      var init, last := ss[..|ss| - 1], ss[|ss| - 1];
      CommasOfJoined(init);
      CommasConcat(Joined(init) + ",", last);
      CommasConcat(Joined(init), ",");
      assert ","[..0] == "";
      NoCommas(last);
    }
  }

  lemma SuffixCommas(s: string, k: string)
    requires HasSuffix(s, k)
    ensures Commas(k) <= Commas(s)
  {
    CommasConcat(s[..|s| - |k|], k);
    assert s == s[..|s| - |k|] + k;
  }

  lemma SuffixConcat(a: string, x: string, b: string, y: string)
    requires |x| == |y|
    ensures HasSuffix(a + x, b + y) <==> x == y && HasSuffix(a, b)
  {
    var s, k := a + x, b + y;
    if HasSuffix(s, k) {
      var d := |s| - |k|;
      assert s[d..][|b|..] == k[|b|..] == y;
      assert s[d..][|b|..] == x;
      assert s[d..][..|b|] == k[..|b|] == b;
      assert s[d..][..|b|] == a[|a| - |b|..];
    }
    if x == y && HasSuffix(a, b) {
      assert s[|s| - |k|..] == a[|a| - |b|..] + x;
    }
  }

  lemma CommaThen(x: string)
    ensures Commas("," + x) == Commas(x) + 1
  {
    CommasConcat(",", x);
    assert ","[..0] == "";
  }

  /** The tail behind the last comma is as long in a suffix as in the whole. */
  lemma TailLength(a: string, x: string, b: string, y: string)
    requires ',' !in x && ',' !in y
    requires HasSuffix(a + "," + x, b + "," + y)
    ensures |x| == |y|
  {
    var s, k := a + "," + x, b + "," + y;
    NoCommas(x);
    NoCommas(y);
    if |x| < |y| {
      // y would end with "," + x
      var z := s[|s| - |x| - 1..];
      assert z == "," + x;
      assert k[|k| - |x| - 1..] == z;
      assert y[|y| - |x| - 1..] == z;
      CommaThen(x);
      SuffixCommas(y, z);
      assert false;
    } else if |x| > |y| {
      // x would end with "," + y
      var z := k[|k| - |y| - 1..];
      assert z == "," + y;
      assert s[|s| - |y| - 1..] == z;
      assert x[|x| - |y| - 1..] == z;
      CommaThen(y);
      SuffixCommas(x, z);
      assert false;
    }
  }

  /** A comma-free last segment is compared as a whole. */
  lemma LastSegment(a: string, x: string, b: string, y: string)
    requires ',' !in x && ',' !in y
    ensures HasSuffix(a + "," + x, b + "," + y) <==> x == y && HasSuffix(a, b)
  {
    if HasSuffix(a + "," + x, b + "," + y) {
      TailLength(a, x, b, y);
    }
    if |x| == |y| {
      SuffixConcat(a, "," + x, b, "," + y);
      assert a + "," + x == a + ("," + x) && b + "," + y == b + ("," + y);
      assert ("," + x)[1..] == x && ("," + y)[1..] == y;
    }
  }

  /** A comma-free suffix lies inside the last segment. */
  lemma ShortSuffix(a: string, x: string, y: string)
    requires ',' !in y
    ensures HasSuffix(a + "," + x, y) <==> HasSuffix(x, y)
  {
    var s := a + "," + x;
    if |y| <= |x| {
      assert s[|s| - |y|..] == x[|x| - |y|..];
    } else if HasSuffix(s, y) {
      var z := s[|s| - |x| - 1..];
      assert z == "," + x;
      assert y[|y| - |x| - 1..] == z;
      CommaThen(x);
      NoCommas(y);
      SuffixCommas(y, z);
      assert false;
    }
  }

  lemma ListSuffixSnoc<T>(ts: seq<T>, x: T, ks: seq<T>, y: T)
    ensures ListSuffix(ts + [x], ks + [y]) <==> x == y && ListSuffix(ts, ks)
  {
    var s, k := ts + [x], ks + [y];
    if |ks| <= |ts| {
      var d := |ts| - |ks|;
      assert s[d..] == ts[d..] + [x];
      if s[d..] == k {
        assert s[d..][..|ks|] == ts[d..] && k[..|ks|] == ks;
        assert s[d..][|ks|] == x && k[|ks|] == y;
      }
    }
  }

  /** Comparing the joined strings is comparing the lists. */
  lemma {:induction false} SuffixIsListSuffix(ss: seq<string>, ks: seq<string>)
    requires ks != [] && ss != []
    requires CommaFree(ss) && CommaFree(ks) && SuffixFree(ss, ks)
    ensures HasSuffix(Joined(ss), Joined(ks)) <==> ListSuffix(ss, ks)
    decreases |ks|
  {
    var x, y := ss[|ss| - 1], ks[|ks| - 1];
    var ss', ks' := ss[..|ss| - 1], ks[..|ks| - 1];
    assert ss == ss' + [x] && ks == ks' + [y];
    ListSuffixSnoc(ss', x, ks', y);
    if |ks| == 1 {
      if |ss| > 1 {
        ShortSuffix(Joined(ss'), x, y);
      }
      assert ListSuffix(ss', ks');
    } else if |ss| == 1 {
      NoSuffix(ss, ks);
    } else {
      LastSegment(Joined(ss'), x, Joined(ks'), y);
      SuffixIsListSuffix(ss', ks');
    }
  }

  lemma NoSuffix(ss: seq<string>, ks: seq<string>)
    requires 0 < |ss| < |ks| && CommaFree(ss) && CommaFree(ks)
    ensures !HasSuffix(Joined(ss), Joined(ks))
  {
    CommasOfJoined(ks);
    CommasOfJoined(ss);
    if HasSuffix(Joined(ss), Joined(ks)) {
      SuffixCommas(Joined(ss), Joined(ks));
    }
  }
}
