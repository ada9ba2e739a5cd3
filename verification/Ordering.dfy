// Byte-wise order of strings and sorting, as sort.Strings does it for query keys and header names.
module Ordering {

  /** Go strings are byte strings. */
  type Byte = c: char | c as int < 256
  type Text = seq<Byte>

  predicate LessEq(a: Text, b: Text)
    decreases |a|
  {
    a == [] || (b != [] && (a[0] < b[0] || (a[0] == b[0] && LessEq(a[1..], b[1..]))))
  }

  lemma {:induction false} Total(a: Text, b: Text)
    ensures LessEq(a, b) || LessEq(b, a)
    decreases |a|
  {
    if a != [] && b != [] {
      Total(a[1..], b[1..]);
    }
  }

  lemma {:induction false} AntiSymmetric(a: Text, b: Text)
    requires LessEq(a, b) && LessEq(b, a)
    ensures a == b
    decreases |a|
  {
    if a != [] && b != [] {
      AntiSymmetric(a[1..], b[1..]);
      assert a == [a[0]] + a[1..] && b == [b[0]] + b[1..];
    }
  }

  lemma {:induction false} Transitive(a: Text, b: Text, c: Text)
    requires LessEq(a, b) && LessEq(b, c)
    ensures LessEq(a, c)
    decreases |a|
  {
    if a != [] && a[0] == b[0] && b[0] == c[0] {
      Transitive(a[1..], b[1..], c[1..]);
    }
  }

  /** The order is the usual one: a prefix comes first, otherwise the first different byte decides. */
  lemma {:induction false} LessEqExactly(a: Text, b: Text)
    ensures LessEq(a, b) <==> a <= b || exists i | 0 <= i < |a| && i < |b| :: a[..i] == b[..i] && a[i] < b[i]
    decreases |a|
  {
    if a != [] && b != [] {
      LessEqExactly(a[1..], b[1..]);
      assert a == [a[0]] + a[1..] && b == [b[0]] + b[1..];
      if a[0] == b[0] {
        SameStart(a, b);
      } else if a[0] < b[0] {
        assert a[..0] == b[..0];
      }
    }
  }

  lemma SameStart(a: Text, b: Text)
    requires a != [] && b != [] && a[0] == b[0]
    ensures (exists i | 0 <= i < |a| && i < |b| :: a[..i] == b[..i] && a[i] < b[i]) <==>
      exists i | 0 <= i < |a[1..]| && i < |b[1..]| :: a[1..][..i] == b[1..][..i] && a[1..][i] < b[1..][i]
  {
    if i :| 0 <= i < |a| && i < |b| && a[..i] == b[..i] && a[i] < b[i] {
      assert a[1..][..i - 1] == a[..i][1..] && b[1..][..i - 1] == b[..i][1..];
      assert a[1..][i - 1] < b[1..][i - 1];
    }
    if i :| 0 <= i < |a[1..]| && i < |b[1..]| && a[1..][..i] == b[1..][..i] && a[1..][i] < b[1..][i] {
      assert a[..i + 1] == [a[0]] + a[1..][..i] && b[..i + 1] == [b[0]] + b[1..][..i];
      assert a[i + 1] < b[i + 1];
    }
  }

  /** Equal concatenations with second parts of equal length have equal parts. */
  lemma SameEnds(a: Text, b: Text, x: Text, y: Text)
    requires |x| == |y| && a + x == b + y
    ensures a == b && x == y
  {
    assert |a| == |b|;
    assert a == (a + x)[..|a|] == (b + y)[..|b|] == b;
    assert x == (a + x)[|a|..] == (b + y)[|b|..] == y;
  }

  predicate Sorted(ks: seq<Text>) {
    forall i, j | 0 <= i < j < |ks| :: LessEq(ks[i], ks[j])
  }

  predicate Distinct(ks: seq<Text>) {
    forall i, j | 0 <= i < j < |ks| :: ks[i] != ks[j]
  }

  lemma SameLength(a: seq<Text>, b: seq<Text>)
    requires multiset(a) == multiset(b)
    ensures |a| == |b|
  {
    assert |multiset(a)| == |a| && |multiset(b)| == |b|;
  }

  lemma SameLast(a: seq<Text>, b: seq<Text>)
    requires Sorted(a) && Sorted(b) && multiset(a) == multiset(b) && a != []
    ensures |a| == |b| && a[|a| - 1] == b[|b| - 1]
  {
    SameLength(a, b);
    var n := |a| - 1;
    var x, y := a[n], b[n];
    assert x in multiset(b) && y in multiset(a);
    var i :| 0 <= i < |b| && b[i] == x;
    var j :| 0 <= j < |a| && a[j] == y;
    LastIsGreatest(a, j);
    LastIsGreatest(b, i);
    AntiSymmetric(x, y);
  }

  lemma DropLast(a: seq<Text>)
    requires a != []
    ensures multiset(a[..|a| - 1]) == multiset(a) - multiset{a[|a| - 1]}
  {
    assert a == a[..|a| - 1] + [a[|a| - 1]];
  }

  lemma FrontsAgree(a: seq<Text>, b: seq<Text>)
    requires Sorted(a) && Sorted(b) && multiset(a) == multiset(b) && a != []
    ensures |a| == |b| && a[|a| - 1] == b[|b| - 1]
    ensures Sorted(a[..|a| - 1]) && Sorted(b[..|b| - 1])
    ensures multiset(a[..|a| - 1]) == multiset(b[..|b| - 1])
  {
    SameLast(a, b);
    DropLast(a);
    DropLast(b);
  }

  /** Two sorted lists of the same elements are equal; a sorted result hides the order it came from. */
  lemma {:induction false} SortedIsUnique(a: seq<Text>, b: seq<Text>)
    requires Sorted(a) && Sorted(b) && multiset(a) == multiset(b)
    ensures a == b
    decreases |a|
  {
    if a == [] {
      SameLength(a, b);
    } else {
      FrontsAgree(a, b);
      var n := |a| - 1;
      SortedIsUnique(a[..n], b[..n]);
      SameFrontAndLast(a, b, n);
    }
  }

  lemma SameFrontAndLast(a: seq<Text>, b: seq<Text>, n: nat)
    requires |a| == |b| == n + 1 && a[..n] == b[..n] && a[n] == b[n]
    ensures a == b
  {
    assert a == a[..n] + [a[n]] && b == b[..n] + [b[n]];
  }

  lemma LastIsGreatest(a: seq<Text>, i: nat)
    requires Sorted(a) && i < |a|
    ensures LessEq(a[i], a[|a| - 1])
  {
    Total(a[i], a[i]);
  }

  lemma SameElements(a: seq<Text>, b: seq<Text>)
    requires multiset(a) == multiset(b) && Distinct(b)
    ensures Distinct(a) && forall k :: k in a <==> k in b
  {
    assert forall k :: k in a <==> k in multiset(a);
    assert forall k :: k in b <==> k in multiset(b);
    forall i, j | 0 <= i < j < |a| ensures a[i] != a[j] {
      if a[i] == a[j] {
        Twice(a, i, j);
        AtMostOnce(b, a[i]);
      }
    }
  }

  lemma Twice(a: seq<Text>, i: nat, j: nat)
    requires i < j < |a| && a[i] == a[j]
    ensures multiset(a)[a[i]] >= 2
  {
    assert a == a[..j] + a[j..];
    assert a[i] in a[..j] && a[i] in a[j..];
    assert multiset(a) == multiset(a[..j]) + multiset(a[j..]);
    assert a[i] in multiset(a[..j]) && a[i] in multiset(a[j..]);
  }

  lemma {:induction false} AtMostOnce(b: seq<Text>, x: Text)
    requires Distinct(b)
    ensures multiset(b)[x] <= 1
    decreases |b|
  {
    if b != [] {
      var front := b[..|b| - 1];
      assert b == front + [b[|b| - 1]];
      AtMostOnce(front, x);
      if b[|b| - 1] == x {
        assert x !in front;
        assert x !in multiset(front);
      }
    }
  }

  lemma DistinctMultiset(a: seq<Text>, b: seq<Text>)
    requires Distinct(a) && Distinct(b) && forall k :: k in a <==> k in b
    ensures multiset(a) == multiset(b)
  {
    forall k: Text ensures multiset(a)[k] == multiset(b)[k] {
      AtMostOnce(a, k);
      AtMostOnce(b, k);
      assert k in a <==> k in multiset(a);
      assert k in b <==> k in multiset(b);
    }
  }

  /** The list with `f` applied to every element. */
  function Images(ks: seq<Text>, f: Text -> Text): (r: seq<Text>)
    ensures |r| == |ks| && forall i | 0 <= i < |ks| :: r[i] == f(ks[i])
  {
    seq(|ks|, i requires 0 <= i < |ks| => f(ks[i]))
  }

  lemma ImagesAppend(a: seq<Text>, x: Text, f: Text -> Text)
    ensures Images(a + [x], f) == Images(a, f) + [f(x)]
  {}

  /** The list without its element at `i`. */
  function Without(ks: seq<Text>, i: nat): seq<Text>
    requires i < |ks|
  {
    ks[..i] + ks[i + 1..]
  }

  lemma WithoutMultiset(ks: seq<Text>, i: nat)
    requires i < |ks|
    ensures multiset(ks) == multiset(Without(ks, i)) + multiset{ks[i]}
  {
    assert ks == ks[..i] + ([ks[i]] + ks[i + 1..]);
    assert multiset(ks) == multiset(ks[..i]) + (multiset{ks[i]} + multiset(ks[i + 1..]));
  }

  lemma ImagesWithout(ks: seq<Text>, i: nat, f: Text -> Text)
    requires i < |ks|
    ensures Images(Without(ks, i), f) == Without(Images(ks, f), i)
  {}

  /** A reordering of the arguments is a reordering of the images. */
  lemma {:induction false} ImagesPermute(a: seq<Text>, b: seq<Text>, f: Text -> Text)
    requires multiset(a) == multiset(b)
    ensures multiset(Images(a, f)) == multiset(Images(b, f))
    decreases |a|
  {
    SameLength(a, b);
    if a == [] {
      assert Images(a, f) == Images(b, f);
    } else {
      assert a[0] in multiset(b);
      var j :| 0 <= j < |b| && b[j] == a[0];
      PermuteStep(a, b, j, f);
      ImagesPermute(Without(a, 0), Without(b, j), f);
    }
  }

  lemma PermuteStep(a: seq<Text>, b: seq<Text>, j: nat, f: Text -> Text)
    requires multiset(a) == multiset(b) && a != [] && j < |b| && b[j] == a[0]
    ensures |Without(a, 0)| < |a| && multiset(Without(a, 0)) == multiset(Without(b, j))
    ensures multiset(Images(Without(a, 0), f)) == multiset(Images(Without(b, j), f)) ==>
      multiset(Images(a, f)) == multiset(Images(b, f))
  {
    WithoutMultiset(a, 0);
    WithoutMultiset(b, j);
    assert multiset(Without(a, 0)) == multiset(a) - multiset{a[0]};
    assert multiset(Without(b, j)) == multiset(b) - multiset{a[0]};
    ImagesWithout(a, 0, f);
    ImagesWithout(b, j, f);
    WithoutMultiset(Images(a, f), 0);
    WithoutMultiset(Images(b, f), j);
  }

  /** Insertion into a sorted list. */
  method Insert(ks: seq<Text>, x: Text) returns (r: seq<Text>)
    requires Sorted(ks)
    ensures Sorted(r) && multiset(r) == multiset(ks) + multiset{x}
  {
    var i := |ks|;
    while i > 0 && !LessEq(ks[i - 1], x)
      invariant 0 <= i <= |ks|
      invariant forall j | i <= j < |ks| :: LessEq(x, ks[j])
    {
      Total(ks[i - 1], x);
      i := i - 1;
    }
    r := ks[..i] + [x] + ks[i..];
    assert ks == ks[..i] + ks[i..];
    forall j | 0 <= j < i ensures LessEq(ks[j], x) {
      if j < i - 1 {
        Transitive(ks[j], ks[i - 1], x);
      }
    }
  }

  /** sort.Strings */
  method Sort(ks: seq<Text>) returns (r: seq<Text>)
    ensures Sorted(r) && multiset(r) == multiset(ks)
  {
    r := [];
    for i := 0 to |ks|
      invariant Sorted(r) && multiset(r) == multiset(ks[..i])
    {
      assert ks[..i + 1] == ks[..i] + [ks[i]];
      r := Insert(r, ks[i]);
    }
    assert ks[..|ks|] == ks;
  }
}
