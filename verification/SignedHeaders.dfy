// getSignedHeaders and getV4StringToSign of api/pkg/utils/obs/auth.go: the signed form of a header
// map must not depend on the random order in which the map is walked.
module SignedHeaders {
  import opened Ordering
  import Q = QueryStrings

  type Headers = map<Text, seq<Text>>

  /** `order` walks the map: every key once. */
  predicate Walks(order: seq<Text>, headers: Headers) {
    && Distinct(order)
    && (forall i | 0 <= i < |order| :: order[i] in headers)
    && (forall k | k in headers :: k in order)
  }

  /** Empty names are skipped. */
  function Filled(names: seq<Text>): seq<Text> {
    if names == [] then []
    else
      var last := names[|names| - 1];
      Filled(names[..|names| - 1]) + if last != [] then [last] else []
  }

  /** The header names in the order of the walk; `norm` trims and lower-cases. */
  function Names(order: seq<Text>, norm: Text -> Text): seq<Text> {
    Filled(Images(order, norm))
  }

  /** The map under the normalised names; a later header overwrites an earlier one of the same name. */
  function Renamed(order: seq<Text>, headers: Headers, norm: Text -> Text): Headers
    requires forall i | 0 <= i < |order| :: order[i] in headers
  {
    if order == [] then map[]
    else
      var last := order[|order| - 1];
      var front := Renamed(order[..|order| - 1], headers, norm);
      if norm(last) != [] then front[norm(last) := headers[last]] else front
  }

  /** No two headers have the same name after normalisation. */
  predicate ClashFree(headers: Headers, norm: Text -> Text) {
    forall a, b | a in headers && b in headers :: norm(a) == norm(b) != [] ==> a == b
  }

  /** Headers with the same name after normalisation have the same values. */
  predicate ClashesAgree(headers: Headers, norm: Text -> Text) {
    forall a, b | a in headers && b in headers :: norm(a) == norm(b) != [] ==> headers[a] == headers[b]
  }

  lemma {:induction false} FilledMultiset(names: seq<Text>)
    ensures multiset(Filled(names)) == multiset(names)[[] := 0]
    decreases |names|
  {
    if names != [] {
      FilledMultiset(names[..|names| - 1]);
      assert names == names[..|names| - 1] + [names[|names| - 1]];
    }
  }

  lemma WalksPermute(o1: seq<Text>, o2: seq<Text>, headers: Headers)
    requires Walks(o1, headers) && Walks(o2, headers)
    ensures multiset(o1) == multiset(o2)
  {
    assert forall k | k in o1 :: exists i | 0 <= i < |o1| :: o1[i] == k;
    assert forall k | k in o2 :: exists i | 0 <= i < |o2| :: o2[i] == k;
    DistinctMultiset(o1, o2);
  }

  /** The signed names never depend on the walk. */
  lemma SignedNamesAgree(o1: seq<Text>, o2: seq<Text>, headers: Headers, norm: Text -> Text)
    requires Walks(o1, headers) && Walks(o2, headers)
    ensures multiset(Names(o1, norm)) == multiset(Names(o2, norm))
  {
    WalksPermute(o1, o2, headers);
    ImagesPermute(o1, o2, norm);
    FilledMultiset(Images(o1, norm));
    FilledMultiset(Images(o2, norm));
  }

  lemma {:induction false} NamesMembers(order: seq<Text>, norm: Text -> Text, x: Text)
    ensures x in Names(order, norm) <==> x != [] && exists i | 0 <= i < |order| :: norm(order[i]) == x
  {
    FilledMultiset(Images(order, norm));
    assert x in Names(order, norm) <==> x in multiset(Names(order, norm));
    assert x in Images(order, norm) <==> x in multiset(Images(order, norm));
    if i :| 0 <= i < |order| && norm(order[i]) == x {
      assert Images(order, norm)[i] == x;
    }
  }

  lemma {:induction false} NamesDistinct(order: seq<Text>, headers: Headers, norm: Text -> Text)
    requires ClashFree(headers, norm) && Distinct(order) && forall i | 0 <= i < |order| :: order[i] in headers
    ensures Distinct(Names(order, norm))
    decreases |order|
  {
    if order != [] {
      var front, last := order[..|order| - 1], order[|order| - 1];
      NamesDistinct(front, headers, norm);
      NamesMembers(front, norm, norm(last));
      assert Images(order, norm)[..|front|] == Images(front, norm);
      assert forall i | 0 <= i < |front| :: front[i] == order[i] && front[i] != last;
      assert norm(last) == [] || norm(last) !in Names(front, norm);
    }
  }

  lemma ClashRepeats(order: seq<Text>, headers: Headers, norm: Text -> Text, a: Text, b: Text)
    requires Walks(order, headers) && a in headers && b in headers && a != b && norm(a) == norm(b) != []
    ensures multiset(Names(order, norm))[norm(a)] >= 2
  {
    var images := Images(order, norm);
    var i :| 0 <= i < |order| && order[i] == a;
    var j :| 0 <= j < |order| && order[j] == b;
    assert images[i] == images[j] == norm(a);
    Twice(images, if i < j then i else j, if i < j then j else i);
    FilledMultiset(images);
  }

  /** Each name is signed once exactly when no two headers clash. */
  lemma NamesOnce(order: seq<Text>, headers: Headers, norm: Text -> Text)
    requires Walks(order, headers)
    ensures Distinct(Names(order, norm)) <==> ClashFree(headers, norm)
  {
    if ClashFree(headers, norm) {
      NamesDistinct(order, headers, norm);
    } else {
      var a, b :| a in headers && b in headers && norm(a) == norm(b) != [] && a != b;
      ClashRepeats(order, headers, norm, a, b);
      if Distinct(Names(order, norm)) {
        AtMostOnce(Names(order, norm), norm(a));
      }
    }
  }

  lemma {:induction false} RenamedMembers(order: seq<Text>, headers: Headers, norm: Text -> Text)
    requires forall i | 0 <= i < |order| :: order[i] in headers
    ensures forall x | x in Renamed(order, headers, norm) ::
      x != [] && exists i | 0 <= i < |order| :: norm(order[i]) == x && Renamed(order, headers, norm)[x] == headers[order[i]]
    ensures forall i | 0 <= i < |order| && norm(order[i]) != [] :: norm(order[i]) in Renamed(order, headers, norm)
    decreases |order|
  {
    if order != [] {
      var front, last := order[..|order| - 1], order[|order| - 1];
      RenamedMembers(front, headers, norm);
      var r, f := Renamed(order, headers, norm), Renamed(front, headers, norm);
      forall x | x in r
        ensures x != [] && exists i | 0 <= i < |order| :: norm(order[i]) == x && r[x] == headers[order[i]]
      {
        if x == norm(last) {
          assert norm(order[|front|]) == x && r[x] == headers[order[|front|]];
        } else {
          assert x in f;
          var i :| 0 <= i < |front| && norm(front[i]) == x && f[x] == headers[front[i]];
          assert norm(order[i]) == x && r[x] == headers[order[i]];
        }
      }
      forall i | 0 <= i < |order| && norm(order[i]) != [] ensures norm(order[i]) in r {
        if i < |front| {
          assert front[i] == order[i];
        }
      }
    }
  }

  lemma RenamedBelow(o1: seq<Text>, o2: seq<Text>, headers: Headers, norm: Text -> Text, x: Text)
    requires Walks(o1, headers) && Walks(o2, headers) && ClashesAgree(headers, norm)
    requires x in Renamed(o1, headers, norm)
    ensures x in Renamed(o2, headers, norm) && Renamed(o2, headers, norm)[x] == Renamed(o1, headers, norm)[x]
  {
    RenamedMembers(o1, headers, norm);
    RenamedMembers(o2, headers, norm);
    var i :| 0 <= i < |o1| && norm(o1[i]) == x && Renamed(o1, headers, norm)[x] == headers[o1[i]];
    assert o1[i] in o2;
    var j :| 0 <= j < |o2| && o2[j] == o1[i];
    assert norm(o2[j]) == x;
    var k :| 0 <= k < |o2| && norm(o2[k]) == x && Renamed(o2, headers, norm)[x] == headers[o2[k]];
    assert o2[k] in headers && o1[i] in headers;
  }

  /** If clashing headers agree, every walk leads to the same map. */
  lemma WalksAgree(o1: seq<Text>, o2: seq<Text>, headers: Headers, norm: Text -> Text)
    requires Walks(o1, headers) && Walks(o2, headers) && ClashesAgree(headers, norm)
    ensures Renamed(o1, headers, norm) == Renamed(o2, headers, norm)
  {
    forall x | x in Renamed(o1, headers, norm)
      ensures x in Renamed(o2, headers, norm) && Renamed(o2, headers, norm)[x] == Renamed(o1, headers, norm)[x]
    {
      RenamedBelow(o1, o2, headers, norm, x);
    }
    forall x | x in Renamed(o2, headers, norm) ensures x in Renamed(o1, headers, norm) {
      RenamedBelow(o2, o1, headers, norm, x);
    }
  }

  lemma MovedLast(order: seq<Text>, i: nat)
    requires i < |order|
    ensures multiset(Without(order, i) + [order[i]]) == multiset(order)
  {
    WithoutMultiset(order, i);
  }

  /** A walk that ends with the given header; the others come in the same order as before. */
  lemma Restart(order: seq<Text>, headers: Headers, a: Text) returns (i: nat, o: seq<Text>)
    requires Walks(order, headers) && a in headers
    ensures i < |order| && order[i] == a && o == Without(order, i) + [a] && Walks(o, headers)
  {
    i :| 0 <= i < |order| && order[i] == a;
    o := Without(order, i) + [a];
    MovedLast(order, i);
    SameElements(o, order);
    assert forall j | 0 <= j < |o| :: o[j] in order;
  }

  /** If they disagree, two walks lead to different maps: the order decides which header is signed. */
  lemma ClashDependsOnOrder(order: seq<Text>, headers: Headers, norm: Text -> Text) returns (o1: seq<Text>, o2: seq<Text>)
    requires Walks(order, headers) && !ClashesAgree(headers, norm)
    ensures Walks(o1, headers) && Walks(o2, headers)
    ensures Renamed(o1, headers, norm) != Renamed(o2, headers, norm)
  {
    var a, b :| a in headers && b in headers && norm(a) == norm(b) != [] && headers[a] != headers[b];
    var i, k;
    i, o1 := Restart(order, headers, a);
    k, o2 := Restart(order, headers, b);
    assert o1[|o1| - 1] == a && o2[|o2| - 1] == b;
    assert Renamed(o1, headers, norm)[norm(a)] == headers[a];
    assert Renamed(o2, headers, norm)[norm(a)] == headers[b];
  }

  /** getSignedHeaders; `order` is the walk that happened. Headers without a name are deleted from the
      caller's map. */
  method GetSignedHeaders(headers: Headers, norm: Text -> Text)
    returns (signed: seq<Text>, renamed: Headers, remaining: Headers, ghost order: seq<Text>)
    ensures Signs(signed, order, headers, norm)
    ensures renamed == Renamed(order, headers, norm)
    ensures remaining == Named(headers, {}, norm)
    // the names are those of the headers; a header of the name provides its values; nothing else is kept
    ensures forall x :: x in signed <==> x != [] && exists k | k in headers :: norm(k) == x
    ensures forall x :: x in renamed <==> x in signed
    ensures forall x | x in renamed :: exists k | k in headers :: norm(k) == x && renamed[x] == headers[k]
    ensures forall k :: k in remaining <==> k in headers && norm(k) != []
  {
    var names: seq<Text> := [];
    renamed, remaining, order := map[], headers, [];
    var left := headers.Keys;
    while left != {}
      invariant left <= headers.Keys
      invariant Distinct(order) && forall i | 0 <= i < |order| :: order[i] in headers && order[i] !in left
      invariant forall k | k in headers && k !in left :: k in order
      invariant names == Names(order, norm) && renamed == Renamed(order, headers, norm)
      invariant remaining == Named(headers, left, norm)
    {
      var key :| key in left;
      WalkNext(order, key, headers, norm);
      NamedNext(headers, left, norm, key);
      var name := norm(key);
      if name != [] {
        names := names + [name];
        renamed := renamed[name := headers[key]];
      } else {
        remaining := remaining - {key};
      }
      left := left - {key};
      order := order + [key];
    }
    signed := Sort(names);
    SignedMembers(signed, order, headers, norm);
  }

  lemma SignedMembers(signed: seq<Text>, order: seq<Text>, headers: Headers, norm: Text -> Text)
    requires Signs(signed, order, headers, norm)
    ensures forall x :: x in signed <==> x != [] && exists k | k in headers :: norm(k) == x
    ensures var renamed := Renamed(order, headers, norm);
      && (forall x :: x in renamed <==> x in signed)
      && forall x | x in renamed :: exists k | k in headers :: norm(k) == x && renamed[x] == headers[k]
  {
    RenamedMembers(order, headers, norm);
    forall x: Text ensures x in signed <==> x != [] && exists k | k in headers :: norm(k) == x {
      NamesMembers(order, norm, x);
      assert x in signed <==> x in multiset(signed) <==> x in multiset(Names(order, norm)) <==> x in Names(order, norm);
      if k :| k in headers && norm(k) == x {
        var i :| 0 <= i < |order| && order[i] == k;
        assert norm(order[i]) == x;
      }
    }
    var renamed := Renamed(order, headers, norm);
    forall x | x in renamed ensures x in signed && exists k | k in headers :: norm(k) == x && renamed[x] == headers[k] {
      var i :| 0 <= i < |order| && norm(order[i]) == x && renamed[x] == headers[order[i]];
      assert order[i] in headers;
    }
    forall x | x in signed ensures x in renamed {
      var k :| k in headers && norm(k) == x;
      var i :| 0 <= i < |order| && order[i] == k;
      assert norm(order[i]) in renamed;
    }
  }

  /** The headers that have a name, or are still among `left`. */
  function Named(headers: Headers, left: set<Text>, norm: Text -> Text): Headers {
    map k | k in headers && (k in left || norm(k) != []) :: headers[k]
  }

  lemma NamedNext(headers: Headers, left: set<Text>, norm: Text -> Text, key: Text)
    requires key in left && key in headers
    ensures var r := Named(headers, left, norm);
      Named(headers, left - {key}, norm) == if norm(key) != [] then r else r - {key}
  {}

  lemma WalkNext(order: seq<Text>, key: Text, headers: Headers, norm: Text -> Text)
    requires key in headers && forall i | 0 <= i < |order| :: order[i] in headers
    ensures Names(order + [key], norm) == Names(order, norm) + if norm(key) != [] then [norm(key)] else []
    ensures var r := Renamed(order, headers, norm);
      Renamed(order + [key], headers, norm) == if norm(key) != [] then r[norm(key) := headers[key]] else r
  {
    ImagesAppend(order, key, norm);
    assert (Images(order, norm) + [norm(key)])[..|order|] == Images(order, norm);
    assert (order + [key])[..|order|] == order;
  }

  /** The header part of the canonical request: one line per value, in the order of `signed`. */
  function HeaderLines(signed: seq<Text>, headers: Headers): Text {
    if signed == [] then []
    else
      var name := signed[|signed| - 1];
      HeaderLines(signed[..|signed| - 1], headers) + ValueLines(name, if name in headers then headers[name] else [])
  }

  function ValueLines(name: Text, values: seq<Text>): Text {
    if values == [] then []
    else ValueLines(name, values[..|values| - 1]) + name + [':'] + values[|values| - 1] + ['\n']
  }

  /** strings.Join(signed, ";") */
  function NameList(signed: seq<Text>): Text {
    if signed == [] then [] else if |signed| == 1 then signed[0]
    else NameList(signed[..|signed| - 1]) + [';'] + signed[|signed| - 1]
  }

  /** The canonical request of getV4StringToSign around the fixed parts. */
  function CanonicalRequest(before: Text, payload: Text, signed: seq<Text>, headers: Headers): Text {
    before + HeaderLines(signed, headers) + ['\n'] + NameList(signed) + ['\n'] + payload
  }

  /** The loops of getV4StringToSign, up to the hash. The request can be read back row by row. */
  method BuildCanonicalRequest(httpMethod: Text, canonicalizedUrl: Text, queryUrl: Text, payload: Text,
                               signed: seq<Text>, headers: Headers)
    returns (r: Text)
    ensures r == CanonicalRequest(Ended([httpMethod, canonicalizedUrl, queryUrl]), payload, signed, headers)
    ensures Plain(httpMethod) && Plain(canonicalizedUrl) && Plain(queryUrl) && Plain(payload) && Legible(signed, headers) ==>
      ReadsAs(r, httpMethod, canonicalizedUrl, queryUrl, payload, signed, headers)
  {
    var lines: Text := [];
    for i := 0 to |signed|
      invariant lines == HeaderLines(signed[..i], headers)
    {
      assert signed[..i + 1][..i] == signed[..i];
      lines := AppendValues(lines, signed[i], if signed[i] in headers then headers[signed[i]] else []);
    }
    assert signed[..|signed|] == signed;
    var before := httpMethod + ['\n'] + canonicalizedUrl + ['\n'] + queryUrl + ['\n'];
    EndedThree(httpMethod, canonicalizedUrl, queryUrl);
    r := before + lines + ['\n'] + NameList(signed) + ['\n'] + payload;
    if Plain(httpMethod) && Plain(canonicalizedUrl) && Plain(queryUrl) && Plain(payload) && Legible(signed, headers) {
      ReadBack(httpMethod, canonicalizedUrl, queryUrl, payload, signed, headers);
    }
  }

  method AppendValues(lines: Text, name: Text, values: seq<Text>) returns (r: Text)
    ensures r == lines + ValueLines(name, values)
  {
    r := lines;
    for j := 0 to |values|
      invariant r == lines + ValueLines(name, values[..j])
    {
      assert values[..j + 1][..j] == values[..j];
      ghost var was := r;
      r := r + name + [':'] + values[j] + ['\n'];
      assert r == lines + (ValueLines(name, values[..j]) + name + [':'] + values[j] + ['\n']);
    }
    assert values[..|values|] == values;
  }

  // ---------------------------------------------------------------- reading the request back

  /** Text of one row. */
  predicate Plain(t: Text) {
    '\n' !in t
  }

  /** No name holds a separator of its row or of the list of names, no value a new line. */
  predicate Legible(signed: seq<Text>, headers: Headers) {
    && (forall i | 0 <= i < |signed| :: Plain(signed[i]) && ':' !in signed[i] && ';' !in signed[i])
    && (forall k, j | k in headers && 0 <= j < |headers[k]| :: Plain(headers[k][j]))
  }

  /** The signed headers: every value of every signed name, with the name, in order. */
  function Pairs(signed: seq<Text>, headers: Headers): seq<(Text, Text)> {
    if signed == [] then []
    else
      var name := signed[|signed| - 1];
      Pairs(signed[..|signed| - 1], headers) + Paired(name, if name in headers then headers[name] else [])
  }

  function Paired(name: Text, values: seq<Text>): seq<(Text, Text)> {
    seq(|values|, j requires 0 <= j < |values| => (name, values[j]))
  }

  /** The length of the longest prefix without the separator. */
  function FirstAt(t: Text, sep: Byte): (n: nat)
    ensures n <= |t| && (n < |t| ==> t[n] == sep)
    decreases |t|
  {
    if t == [] || t[0] == sep then 0 else 1 + FirstAt(t[1..], sep)
  }

  /** A header line, read up to its first ":" and from there on. */
  function ReadLine(t: Text): (Text, Text) {
    var n := FirstAt(t, ':');
    (t[..n], if n < |t| then t[n + 1..] else [])
  }

  /** The rows of a request are the three fixed ones, a line for every signed header, an empty row, the
      names and the payload. */
  predicate ReadsAs(r: Text, httpMethod: Text, canonicalizedUrl: Text, queryUrl: Text, payload: Text,
                    signed: seq<Text>, headers: Headers)
  {
    var rows, ps := Q.Split(r, '\n'), Pairs(signed, headers);
    && |rows| == |ps| + 6
    && rows[0] == httpMethod && rows[1] == canonicalizedUrl && rows[2] == queryUrl
    && (forall k | 0 <= k < |ps| :: ReadLine(rows[3 + k]) == ps[k])
    && rows[|ps| + 3] == [] && rows[|ps| + 5] == payload
    && Q.Split(rows[|ps| + 4], ';') == if signed == [] then [[]] else signed
  }

  /** Every row with a new line behind it. */
  function Ended(rows: seq<Text>): Text {
    if rows == [] then [] else Ended(rows[..|rows| - 1]) + rows[|rows| - 1] + ['\n']
  }

  lemma EndedSnoc(rows: seq<Text>, row: Text)
    ensures Ended(rows + [row]) == Ended(rows) + row + ['\n']
  {
    assert (rows + [row])[..|rows|] == rows;
  }

  lemma EndedThree(a: Text, b: Text, c: Text)
    ensures Ended([a, b, c]) == a + ['\n'] + b + ['\n'] + c + ['\n']
  {
    EndedSnoc([], a);
    EndedSnoc([a], b);
    EndedSnoc([a, b], c);
    assert [] + [a] == [a] && [a] + [b] == [a, b] && [a, b] + [c] == [a, b, c];
  }

  lemma {:induction false} EndedConcat(u: seq<Text>, w: seq<Text>)
    ensures Ended(u + w) == Ended(u) + Ended(w)
    decreases |w|
  {
    if w == [] {
      assert u + w == u;
    } else {
      var n := |w| - 1;
      EndedConcat(u, w[..n]);
      EndedSnoc(u + w[..n], w[n]);
      Reassociate(Ended(u), Ended(w[..n]), w[n], ['\n']);
      assert u + w[..n] + [w[n]] == u + w;
    }
  }

  /** Splitting at new lines gives the rows back, and those of what follows. */
  lemma {:induction false} EndedSplits(rows: seq<Text>, tail: Text)
    requires forall i | 0 <= i < |rows| :: Plain(rows[i])
    ensures Q.Split(Ended(rows) + tail, '\n') == rows + Q.Split(tail, '\n')
    decreases |rows|
  {
    if rows == [] {
      assert Ended(rows) + tail == tail;
    } else {
      var n := |rows| - 1;
      EndedSplits(rows[..n], rows[n] + ['\n'] + tail);
      Q.SplitFirst(rows[n], '\n', tail);
      Reassociate(Ended(rows[..n]), rows[n], ['\n'], tail);
      assert rows == rows[..n] + [rows[n]];
    }
  }

  lemma Reassociate(a: Text, b: Text, c: Text, d: Text)
    ensures a + b + c + d == a + (b + c + d)
  {}

  function Line(p: (Text, Text)): Text {
    p.0 + [':'] + p.1
  }

  function Lines(ps: seq<(Text, Text)>): (rows: seq<Text>)
    ensures |rows| == |ps| && forall k | 0 <= k < |rows| :: rows[k] == Line(ps[k])
  {
    seq(|ps|, k requires 0 <= k < |ps| => Line(ps[k]))
  }

  lemma {:induction false} ValueLinesAreRows(name: Text, values: seq<Text>)
    ensures ValueLines(name, values) == Ended(Lines(Paired(name, values)))
    decreases |values|
  {
    if values != [] {
      var n := |values| - 1;
      ValueLinesAreRows(name, values[..n]);
      EndedSnoc(Lines(Paired(name, values[..n])), Line((name, values[n])));
      assert Lines(Paired(name, values)) == Lines(Paired(name, values[..n])) + [Line((name, values[n]))];
    }
  }

  lemma {:induction false} HeaderLinesAreRows(signed: seq<Text>, headers: Headers)
    ensures HeaderLines(signed, headers) == Ended(Lines(Pairs(signed, headers)))
    decreases |signed|
  {
    if signed != [] {
      var n := |signed| - 1;
      var values := if signed[n] in headers then headers[signed[n]] else [];
      HeaderLinesAreRows(signed[..n], headers);
      ValueLinesAreRows(signed[n], values);
      EndedConcat(Lines(Pairs(signed[..n], headers)), Lines(Paired(signed[n], values)));
      assert Lines(Pairs(signed, headers)) == Lines(Pairs(signed[..n], headers)) + Lines(Paired(signed[n], values));
    }
  }

  lemma {:induction false} LineReads(name: Text, value: Text)
    requires ':' !in name
    ensures ReadLine(Line((name, value))) == (name, value)
    decreases |name|
  {
    var t := Line((name, value));
    if name != [] {
      LineReads(name[1..], value);
      assert t[1..] == Line((name[1..], value));
      assert name == [name[0]] + name[1..];
      assert FirstAt(t, ':') == |name|;
    }
    assert t[..|name|] == name && t[|name| + 1..] == value;
  }

  /** Every line is one row and is read as its pair. */
  predicate Readable(ps: seq<(Text, Text)>) {
    forall k | 0 <= k < |ps| :: Plain(Line(ps[k])) && ReadLine(Line(ps[k])) == ps[k]
  }

  lemma PairedReads(name: Text, values: seq<Text>)
    requires Plain(name) && ':' !in name && forall j | 0 <= j < |values| :: Plain(values[j])
    ensures Readable(Paired(name, values))
  {
    forall j | 0 <= j < |values|
      ensures Plain(Line((name, values[j]))) && ReadLine(Line((name, values[j]))) == (name, values[j])
    {
      LineReads(name, values[j]);
    }
  }

  lemma {:induction false} PairsRead(signed: seq<Text>, headers: Headers)
    requires Legible(signed, headers)
    ensures Readable(Pairs(signed, headers))
    decreases |signed|
  {
    if signed != [] {
      var n := |signed| - 1;
      PairsRead(signed[..n], headers);
      PairedReads(signed[n], if signed[n] in headers then headers[signed[n]] else []);
    }
  }

  lemma {:induction false} NameListIsGlue(signed: seq<Text>)
    ensures NameList(signed) == Q.Glue(signed, ';')
    decreases |signed|
  {
    if |signed| > 1 {
      NameListIsGlue(signed[..|signed| - 1]);
    }
  }

  lemma {:induction false} NamesArePlain(signed: seq<Text>)
    requires forall i | 0 <= i < |signed| :: Plain(signed[i])
    ensures Plain(NameList(signed))
    decreases |signed|
  {
    if |signed| > 1 {
      NamesArePlain(signed[..|signed| - 1]);
    }
  }

  lemma NamesSplit(signed: seq<Text>)
    requires forall i | 0 <= i < |signed| :: ';' !in signed[i]
    ensures Q.Split(NameList(signed), ';') == if signed == [] then [[]] else signed
  {
    NameListIsGlue(signed);
    if signed == [] {
      var e: Text := [];
      assert Q.Split(e, ';') == [e];
    } else {
      Q.SplitGlue(signed, ';');
    }
  }

  /** The request is its rows, the last one without a new line. */
  lemma RequestIsRows(fixed: seq<Text>, payload: Text, signed: seq<Text>, headers: Headers)
    ensures CanonicalRequest(Ended(fixed), payload, signed, headers)
         == Ended(fixed + Lines(Pairs(signed, headers)) + [[]] + [NameList(signed)]) + payload
  {
    var rows := Lines(Pairs(signed, headers));
    HeaderLinesAreRows(signed, headers);
    EndedConcat(fixed, rows);
    EndedSnoc(fixed + rows, []);
    EndedSnoc(fixed + rows + [[]], NameList(signed));
    assert Ended(fixed + rows) + [] == Ended(fixed + rows);
  }

  lemma ReadBack(httpMethod: Text, canonicalizedUrl: Text, queryUrl: Text, payload: Text, signed: seq<Text>, headers: Headers)
    requires Plain(httpMethod) && Plain(canonicalizedUrl) && Plain(queryUrl) && Plain(payload) && Legible(signed, headers)
    ensures ReadsAs(CanonicalRequest(Ended([httpMethod, canonicalizedUrl, queryUrl]), payload, signed, headers),
                    httpMethod, canonicalizedUrl, queryUrl, payload, signed, headers)
  {
    var fixed, ps := [httpMethod, canonicalizedUrl, queryUrl], Pairs(signed, headers);
    PairsRead(signed, headers);
    NamesArePlain(signed);
    NamesSplit(signed);
    RequestIsRows(fixed, payload, signed, headers);
    RowsSplit(fixed, Lines(ps), NameList(signed), payload);
    RowsAt(httpMethod, canonicalizedUrl, queryUrl, Lines(ps), NameList(signed), payload);
  }

  lemma RowsAt(a: Text, b: Text, c: Text, lines: seq<Text>, names: Text, payload: Text)
    ensures var rows, n := [a, b, c] + lines + [[]] + [names] + [payload], |lines|;
      && |rows| == n + 6 && rows[0] == a && rows[1] == b && rows[2] == c
      && (forall k | 0 <= k < n :: rows[3 + k] == lines[k])
      && rows[n + 3] == [] && rows[n + 4] == names && rows[n + 5] == payload
  {}

  lemma RowsSplit(fixed: seq<Text>, lines: seq<Text>, names: Text, payload: Text)
    requires |fixed| == 3 && Plain(names) && Plain(payload)
    requires (forall i | 0 <= i < |fixed| :: Plain(fixed[i])) && (forall i | 0 <= i < |lines| :: Plain(lines[i]))
    ensures Q.Split(Ended(fixed + lines + [[]] + [names]) + payload, '\n') == fixed + lines + [[]] + [names] + [payload]
  {
    Q.SplitAlone(payload, '\n');
    EndedSplits(fixed + lines + [[]] + [names], payload);
  }

  // ---------------------------------------------------------------- what the request depends on

  /** The lines of one name. */
  function LinesFor(name: Text, headers: Headers): Text {
    ValueLines(name, if name in headers then headers[name] else [])
  }

  /** Headers with the same name after normalisation have the same lines. */
  predicate LinesAgree(headers: Headers, norm: Text -> Text) {
    forall a, b | a in headers && b in headers ::
      norm(a) == norm(b) != [] ==> ValueLines(norm(a), headers[a]) == ValueLines(norm(a), headers[b])
  }

  /** The outcome of getSignedHeaders for one walk. */
  predicate Signs(signed: seq<Text>, order: seq<Text>, headers: Headers, norm: Text -> Text) {
    Walks(order, headers) && Sorted(signed) && multiset(signed) == multiset(Names(order, norm))
  }

  function Request(before: Text, payload: Text, signed: seq<Text>, order: seq<Text>, headers: Headers, norm: Text -> Text): Text
    requires forall i | 0 <= i < |order| :: order[i] in headers
  {
    CanonicalRequest(before, payload, signed, Renamed(order, headers, norm))
  }

  lemma {:induction false} SameLines(signed: seq<Text>, h1: Headers, h2: Headers)
    requires forall i | 0 <= i < |signed| :: LinesFor(signed[i], h1) == LinesFor(signed[i], h2)
    ensures HeaderLines(signed, h1) == HeaderLines(signed, h2)
    decreases |signed|
  {
    if signed != [] {
      SameLines(signed[..|signed| - 1], h1, h2);
      assert LinesFor(signed[|signed| - 1], h1) == LinesFor(signed[|signed| - 1], h2);
    }
  }

  /** Only the lines of `x` differ. */
  predicate DifferIn(signed: seq<Text>, h1: Headers, h2: Headers, x: Text) {
    forall i | 0 <= i < |signed| && signed[i] != x :: LinesFor(signed[i], h1) == LinesFor(signed[i], h2)
  }

  lemma DifferInFront(signed: seq<Text>, h1: Headers, h2: Headers, x: Text)
    requires signed != [] && DifferIn(signed, h1, h2, x)
    ensures var n := |signed| - 1;
      && DifferIn(signed[..n], h1, h2, x)
      && (signed[n] == x || (LinesFor(signed[n], h1) == LinesFor(signed[n], h2) && (x in signed ==> x in signed[..n])))
  {
    assert forall i | 0 <= i < |signed| - 1 :: signed[..|signed| - 1][i] == signed[i];
  }

  /** The longer lines make the whole longer, in particular if they occur. */
  lemma {:induction false} LinesGrow(signed: seq<Text>, h1: Headers, h2: Headers, x: Text)
    requires DifferIn(signed, h1, h2, x) && |LinesFor(x, h1)| <= |LinesFor(x, h2)|
    ensures |HeaderLines(signed, h1)| <= |HeaderLines(signed, h2)|
    ensures |LinesFor(x, h1)| < |LinesFor(x, h2)| && x in signed ==>
      |HeaderLines(signed, h1)| < |HeaderLines(signed, h2)|
    decreases |signed|
  {
    if signed != [] {
      DifferInFront(signed, h1, h2, x);
      LinesGrow(signed[..|signed| - 1], h1, h2, x);
    }
  }

  lemma {:induction false} LinesDiffer(signed: seq<Text>, h1: Headers, h2: Headers, x: Text)
    requires DifferIn(signed, h1, h2, x) && x in signed
    requires LinesFor(x, h1) != LinesFor(x, h2) && |LinesFor(x, h1)| == |LinesFor(x, h2)|
    ensures HeaderLines(signed, h1) != HeaderLines(signed, h2)
    decreases |signed|
  {
    var n := |signed| - 1;
    DifferInFront(signed, h1, h2, x);
    if HeaderLines(signed, h1) == HeaderLines(signed, h2) {
      SameEnds(HeaderLines(signed[..n], h1), HeaderLines(signed[..n], h2), LinesFor(signed[n], h1), LinesFor(signed[n], h2));
      LinesDiffer(signed[..n], h1, h2, x);
    }
  }

  /** A signed name with different lines makes a different request. */
  lemma HeaderLinesDiffer(signed: seq<Text>, h1: Headers, h2: Headers, x: Text)
    requires DifferIn(signed, h1, h2, x) && x in signed && LinesFor(x, h1) != LinesFor(x, h2)
    ensures HeaderLines(signed, h1) != HeaderLines(signed, h2)
  {
    if |LinesFor(x, h1)| < |LinesFor(x, h2)| {
      LinesGrow(signed, h1, h2, x);
    } else if |LinesFor(x, h1)| > |LinesFor(x, h2)| {
      LinesGrow(signed, h2, h1, x);
    } else {
      LinesDiffer(signed, h1, h2, x);
    }
  }

  /** The canonical request determines the header lines. */
  lemma RequestIsLines(before: Text, payload: Text, signed: seq<Text>, h1: Headers, h2: Headers)
    ensures CanonicalRequest(before, payload, signed, h1) == CanonicalRequest(before, payload, signed, h2)
      <==> HeaderLines(signed, h1) == HeaderLines(signed, h2)
  {
    var names, l1, l2 := NameList(signed), HeaderLines(signed, h1), HeaderLines(signed, h2);
    if CanonicalRequest(before, payload, signed, h1) == CanonicalRequest(before, payload, signed, h2) {
      SameEnds(before + l1 + ['\n'] + names + ['\n'], before + l2 + ['\n'] + names + ['\n'], payload, payload);
      SameEnds(before + l1 + ['\n'] + names, before + l2 + ['\n'] + names, ['\n'], ['\n']);
      SameEnds(before + l1 + ['\n'], before + l2 + ['\n'], names, names);
      SameEnds(before + l1, before + l2, ['\n'], ['\n']);
      SameEnds(before, before, l1, l2);
    }
  }

  /** If clashing headers have the same lines, no walk changes the lines of a name. */
  lemma WalksAgreeOnLines(o1: seq<Text>, o2: seq<Text>, headers: Headers, norm: Text -> Text, x: Text)
    requires Walks(o1, headers) && Walks(o2, headers) && LinesAgree(headers, norm)
    ensures LinesFor(x, Renamed(o1, headers, norm)) == LinesFor(x, Renamed(o2, headers, norm))
  {
    RenamedMembers(o1, headers, norm);
    RenamedMembers(o2, headers, norm);
    var r1, r2 := Renamed(o1, headers, norm), Renamed(o2, headers, norm);
    if x in r2 {
      SameNames(o2, o1, headers, norm, x);
    }
    if x in r1 {
      SameNames(o1, o2, headers, norm, x);
      var i :| 0 <= i < |o1| && norm(o1[i]) == x && r1[x] == headers[o1[i]];
      var k :| 0 <= k < |o2| && norm(o2[k]) == x && r2[x] == headers[o2[k]];
      assert o1[i] in headers && o2[k] in headers;
    }
  }

  lemma SameNames(o1: seq<Text>, o2: seq<Text>, headers: Headers, norm: Text -> Text, x: Text)
    requires Walks(o1, headers) && Walks(o2, headers) && x in Renamed(o1, headers, norm)
    ensures x in Renamed(o2, headers, norm)
  {
    RenamedMembers(o1, headers, norm);
    RenamedMembers(o2, headers, norm);
    var i :| 0 <= i < |o1| && norm(o1[i]) == x;
    assert o1[i] in o2;
    var j :| 0 <= j < |o2| && o2[j] == o1[i];
    assert norm(o2[j]) == x;
  }

  lemma SnocKeeps(o1: seq<Text>, o2: seq<Text>, last: Text, headers: Headers, norm: Text -> Text, y: Text)
    requires (forall k | 0 <= k < |o1| :: o1[k] in headers) && (forall k | 0 <= k < |o2| :: o2[k] in headers)
    requires last in headers && LinesFor(y, Renamed(o1, headers, norm)) == LinesFor(y, Renamed(o2, headers, norm))
    ensures LinesFor(y, Renamed(o1 + [last], headers, norm)) == LinesFor(y, Renamed(o2 + [last], headers, norm))
  {
    WalkNext(o1, last, headers, norm);
    WalkNext(o2, last, headers, norm);
  }

  lemma WithoutSnoc(order: seq<Text>, i: nat)
    requires i < |order|
    ensures var n := |order| - 1;
      && order == order[..n] + [order[n]]
      && Without(order, i) == if i == n then order[..n] else Without(order[..n], i) + [order[n]]
  {}

  lemma WithoutMembers(order: seq<Text>, i: nat, headers: Headers)
    requires i < |order| && forall k | 0 <= k < |order| :: order[k] in headers
    ensures forall k | 0 <= k < |order| - 1 :: Without(order, i)[k] in headers
  {}

  /** A header without influence on a name may be left out of the walk. */
  lemma {:induction false} RenamedWithout(order: seq<Text>, i: nat, headers: Headers, norm: Text -> Text, y: Text)
    requires i < |order| && (forall k | 0 <= k < |order| :: order[k] in headers) && norm(order[i]) != y
    ensures forall k | 0 <= k < |order| - 1 :: Without(order, i)[k] in headers
    ensures LinesFor(y, Renamed(Without(order, i), headers, norm)) == LinesFor(y, Renamed(order, headers, norm))
    decreases |order|
  {
    var n := |order| - 1;
    WithoutMembers(order, i, headers);
    WithoutSnoc(order, i);
    if i == n {
      WalkNext(order[..n], order[n], headers, norm);
    } else {
      RenamedWithout(order[..n], i, headers, norm, y);
      SnocKeeps(Without(order[..n], i), order[..n], order[n], headers, norm, y);
    }
  }

  /** Moving a header to the end of the walk changes only the lines of its own name. */
  lemma RestartKeeps(order: seq<Text>, i: nat, headers: Headers, norm: Text -> Text, y: Text)
    requires i < |order| && (forall k | 0 <= k < |order| :: order[k] in headers) && norm(order[i]) != y
    ensures var o := Without(order, i) + [order[i]];
      && (forall k | 0 <= k < |o| :: o[k] in headers)
      && LinesFor(y, Renamed(o, headers, norm)) == LinesFor(y, Renamed(order, headers, norm))
  {
    RenamedWithout(order, i, headers, norm, y);
    var o := Without(order, i) + [order[i]];
    assert o[..|o| - 1] == Without(order, i) && o[|o| - 1] == order[i];
  }

  /** Two headers of the same name with different lines: the requests of two walks differ. */
  lemma RequestsDiffer(signed: seq<Text>, order: seq<Text>, headers: Headers, norm: Text -> Text,
                       before: Text, payload: Text, a: Text, b: Text)
    returns (o1: seq<Text>, o2: seq<Text>)
    requires Signs(signed, order, headers, norm) && a in headers && b in headers && norm(a) == norm(b) != []
    requires ValueLines(norm(a), headers[a]) != ValueLines(norm(a), headers[b])
    ensures Signs(signed, o1, headers, norm) && Signs(signed, o2, headers, norm)
    ensures Request(before, payload, signed, o1, headers, norm) != Request(before, payload, signed, o2, headers, norm)
  {
    var i, k;
    i, o1 := Restart(order, headers, a);
    k, o2 := Restart(order, headers, b);
    SignedNamesAgree(order, o1, headers, norm);
    SignedNamesAgree(order, o2, headers, norm);
    var x, r1, r2 := norm(a), Renamed(o1, headers, norm), Renamed(o2, headers, norm);
    forall n | 0 <= n < |signed| && signed[n] != x ensures LinesFor(signed[n], r1) == LinesFor(signed[n], r2) {
      RestartKeeps(order, i, headers, norm, signed[n]);
      RestartKeeps(order, k, headers, norm, signed[n]);
    }
    assert o1[|o1| - 1] == a && o2[|o2| - 1] == b;
    assert r1[x] == headers[a] && r2[x] == headers[b];
    NamesMembers(order, norm, x);
    assert x in multiset(signed) by {
      assert order[i] == a && x in Names(order, norm) && x in multiset(Names(order, norm));
    }
    HeaderLinesDiffer(signed, r1, r2, x);
    RequestIsLines(before, payload, signed, r1, r2);
  }

  /** All signings of the headers lead to the same canonical request. */
  ghost predicate OneRequest(headers: Headers, norm: Text -> Text, before: Text, payload: Text) {
    forall s1, o1, s2, o2 | Signs(s1, o1, headers, norm) && Signs(s2, o2, headers, norm) ::
      Request(before, payload, s1, o1, headers, norm) == Request(before, payload, s2, o2, headers, norm)
  }

  /** The canonical request, hence the string made of its hash, does not depend on the order of the map
      exactly if headers of the same normalised name have the same lines. `signed` and `order` are any
      one signing. */
  lemma OneRequestExactlyIf(signed: seq<Text>, order: seq<Text>, headers: Headers, norm: Text -> Text,
                            before: Text, payload: Text)
    requires Signs(signed, order, headers, norm)
    ensures OneRequest(headers, norm, before, payload) <==> LinesAgree(headers, norm)
  {
    if LinesAgree(headers, norm) {
      forall s1, o1, s2, o2 | Signs(s1, o1, headers, norm) && Signs(s2, o2, headers, norm)
        ensures Request(before, payload, s1, o1, headers, norm) == Request(before, payload, s2, o2, headers, norm)
      {
        AgreeingRequests(s1, o1, s2, o2, headers, norm, before, payload);
      }
    } else {
      var a, b :| a in headers && b in headers && norm(a) == norm(b) != []
        && ValueLines(norm(a), headers[a]) != ValueLines(norm(a), headers[b]);
      var o1, o2 := RequestsDiffer(signed, order, headers, norm, before, payload, a, b);
    }
  }

  lemma AgreeingRequests(s1: seq<Text>, o1: seq<Text>, s2: seq<Text>, o2: seq<Text>, headers: Headers, norm: Text -> Text,
                         before: Text, payload: Text)
    requires Signs(s1, o1, headers, norm) && Signs(s2, o2, headers, norm) && LinesAgree(headers, norm)
    ensures Request(before, payload, s1, o1, headers, norm) == Request(before, payload, s2, o2, headers, norm)
  {
    SignedNamesAgree(o1, o2, headers, norm);
    SortedIsUnique(s1, s2);
    var r1, r2 := Renamed(o1, headers, norm), Renamed(o2, headers, norm);
    forall i | 0 <= i < |s1| ensures LinesFor(s1[i], r1) == LinesFor(s1[i], r2) {
      WalksAgreeOnLines(o1, o2, headers, norm, s1[i]);
    }
    SameLines(s1, r1, r2);
    RequestIsLines(before, payload, s1, r1, r2);
  }

  /** Two signings of the same headers, whatever their walks, have the same names, each of them once
      exactly if no two headers clash. */
  lemma SigningIsCanonical(headers: Headers, norm: Text -> Text, s1: seq<Text>, o1: seq<Text>, s2: seq<Text>, o2: seq<Text>)
    requires Signs(s1, o1, headers, norm) && Signs(s2, o2, headers, norm)
    ensures s1 == s2
    ensures Distinct(s1) <==> ClashFree(headers, norm)
  {
    SignedNamesAgree(o1, o2, headers, norm);
    SortedIsUnique(s1, s2);
    NamesOnce(o1, headers, norm);
    if Distinct(s1) {
      SameElements(Names(o1, norm), s1);
    } else if Distinct(Names(o1, norm)) {
      SameElements(s1, Names(o1, norm));
    }
  }
}
