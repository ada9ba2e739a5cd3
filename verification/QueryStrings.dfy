// The query part of config.formatUrls (api/pkg/utils/obs/conf.go) and its parsing in
// GetAuthorization (api/pkg/utils/obs/util.go); percent-encoding per sections 2.1 and 2.3 of
// RFC 3986 with "+" for a space.
module QueryStrings {
  import opened Ordering

  type Params = map<Text, Text>

  // ---------------------------------------------------------------- escaping

  /** The bytes url.QueryEscape leaves alone. */
  predicate Unreserved(c: Byte) {
    'A' <= c <= 'Z' || 'a' <= c <= 'z' || '0' <= c <= '9' || c == '-' || c == '_' || c == '.' || c == '~'
  }

  function HexDigit(v: int): Byte
    requires 0 <= v < 16
  {
    if v < 10 then ('0' as int + v) as char else ('A' as int + v - 10) as char
  }

  /** The value of a hexadecimal digit, or -1. */
  function HexValue(c: Byte): (v: int)
    ensures -1 <= v < 16
  {
    if '0' <= c <= '9' then c as int - '0' as int
    else if 'a' <= c <= 'f' then c as int - 'a' as int + 10
    else if 'A' <= c <= 'F' then c as int - 'A' as int + 10
    else -1
  }

  lemma HexRoundTrip(v: int)
    requires 0 <= v < 16
    ensures HexValue(HexDigit(v)) == v
    ensures HexDigit(v) != '&' && HexDigit(v) != '='
  {}

  function EscapeByte(c: Byte): Text {
    if Unreserved(c) then [c]
    else if c == ' ' then ['+']
    else ['%', HexDigit(c as int / 16), HexDigit(c as int % 16)]
  }

  /** url.QueryEscape */
  function Escape(s: Text): Text {
    if s == [] then [] else EscapeByte(s[0]) + Escape(s[1..])
  }

  datatype Unescaped = Plain(s: Text) | Malformed

  /** url.QueryUnescape */
  function Unescape(s: Text): Unescaped
    decreases |s|
  {
    if s == [] then Plain([])
    else if s[0] == '%' then
      if |s| < 3 || HexValue(s[1]) < 0 || HexValue(s[2]) < 0 then Malformed
      else Prepend((HexValue(s[1]) * 16 + HexValue(s[2])) as char, Unescape(s[3..]))
    else Prepend(if s[0] == '+' then ' ' else s[0], Unescape(s[1..]))
  }

  function Prepend(c: Byte, u: Unescaped): Unescaped {
    if u.Plain? then Plain([c] + u.s) else Malformed
  }

  /** UrlDecode, whose error the parser ignores: malformed text becomes empty. */
  function UrlDecode(s: Text): Text {
    var u := Unescape(s);
    if u.Plain? then u.s else []
  }

  const UPPER := "0123456789ABCDEF"
  const LOWER := "0123456789abcdef"

  /** What becomes of each byte: letters, digits and four marks stay, a space becomes "+", and all others
      are written with two upper-case digits. */
  lemma EscapeExactly(c: Byte, tail: Text)
    ensures Escape([c] + tail) == Escape([c]) + Escape(tail)
    ensures var n := c as int;
      Escape([c]) == if 65 <= n <= 90 || 97 <= n <= 122 || 48 <= n <= 57 || n == 45 || n == 46 || n == 95 || n == 126 then [c]
        else if n == 32 then ['+']
        else ['%', UPPER[n / 16], UPPER[n % 16]]
  {
    assert ([c] + tail)[1..] == tail && [c][1..] == [];
    DigitListed(c as int / 16);
    DigitListed(c as int % 16);
  }

  lemma DigitListed(v: int)
    requires 0 <= v < 16
    ensures UPPER[v] == HexDigit(v)
  {}

  /** Digits are read in either case, and nothing else is. */
  lemma HexValueExactly(c: Byte, v: int)
    requires 0 <= v < 16
    ensures HexValue(c) == v <==> c == UPPER[v] || c == LOWER[v]
  {}

  lemma UnescapeByte(c: Byte, tail: Text)
    ensures Unescape(EscapeByte(c) + tail) == Prepend(c, Unescape(tail))
  {
    var s := EscapeByte(c) + tail;
    if Unreserved(c) || c == ' ' {
      assert s[1..] == tail;
    } else {
      var n := c as int;
      HexRoundTrip(n / 16);
      HexRoundTrip(n % 16);
      assert s[3..] == tail;
      assert n / 16 * 16 + n % 16 == n;
    }
  }

  /** Unescaping inverts escaping, for every byte string. */
  lemma {:induction false} UnescapeEscape(s: Text)
    ensures Unescape(Escape(s)) == Plain(s)
    decreases |s|
  {
    if s != [] {
      UnescapeEscape(s[1..]);
      UnescapeByte(s[0], Escape(s[1..]));
      assert s == [s[0]] + s[1..];
    }
  }

  lemma {:induction false} EscapeIsSafe(s: Text)
    ensures '&' !in Escape(s) && '=' !in Escape(s)
    decreases |s|
  {
    if s != [] {
      EscapeIsSafe(s[1..]);
      var n := s[0] as int;
      HexRoundTrip(n / 16);
      HexRoundTrip(n % 16);
    }
  }

  // ---------------------------------------------------------------- splitting

  /** The pieces glued together with the separator. */
  function Glue(ps: seq<Text>, sep: Byte): Text {
    if ps == [] then [] else if |ps| == 1 then ps[0] else Glue(ps[..|ps| - 1], sep) + [sep] + ps[|ps| - 1]
  }

  /** strings.Split with a one-byte separator, from the right. */
  function Split(s: Text, sep: Byte): (ps: seq<Text>)
    ensures ps != []
    decreases |s|
  {
    var n := LastPiece(s, sep);
    if n == |s| then [s] else Split(s[..|s| - n - 1], sep) + [s[|s| - n..]]
  }

  /** Length of the longest suffix without the separator. */
  function LastPiece(s: Text, sep: Byte): (n: nat)
    ensures n <= |s| && (n < |s| ==> s[|s| - n - 1] == sep)
  {
    if s == [] || s[|s| - 1] == sep then 0 else 1 + LastPiece(s[..|s| - 1], sep)
  }

  lemma {:induction false} LastPieceOf(a: Text, sep: Byte, x: Text)
    requires sep !in x
    ensures LastPiece(x, sep) == |x| && LastPiece(a + [sep] + x, sep) == |x|
    decreases |x|
  {
    var s := a + [sep] + x;
    if x == [] {
      assert s[|s| - 1] == sep;
    } else {
      assert s[|s| - 1] == x[|x| - 1];
      assert s[..|s| - 1] == a + [sep] + x[..|x| - 1];
      LastPieceOf(a, sep, x[..|x| - 1]);
    }
  }

  lemma SplitLast(s: Text, sep: Byte, x: Text)
    requires sep !in x
    ensures Split(s + [sep] + x, sep) == Split(s, sep) + [x]
  {
    var t := s + [sep] + x;
    LastPieceOf(s, sep, x);
    assert t[..|t| - |x| - 1] == s && t[|t| - |x|..] == x;
  }

  /** Splitting inverts gluing when no piece contains the separator. */
  lemma {:induction false} SplitGlue(ps: seq<Text>, sep: Byte)
    requires ps != [] && forall i | 0 <= i < |ps| :: sep !in ps[i]
    ensures Split(Glue(ps, sep), sep) == ps
    decreases |ps|
  {
    var n := |ps| - 1;
    if n == 0 {
      LastPieceOf([], sep, ps[0]);
    } else {
      SplitGlue(ps[..n], sep);
      SplitLast(Glue(ps[..n], sep), sep, ps[n]);
      assert ps[..n] + [ps[n]] == ps;
    }
  }

  lemma {:induction false} LastPieceIsFree(s: Text, sep: Byte)
    ensures forall k | |s| - LastPiece(s, sep) <= k < |s| :: s[k] != sep
    decreases |s|
  {
    if s != [] && s[|s| - 1] != sep {
      LastPieceIsFree(s[..|s| - 1], sep);
      assert forall k | 0 <= k < |s| - 1 :: s[k] == s[..|s| - 1][k];
    }
  }

  /** The last piece and what is in front of it, if there is a separator. */
  lemma TakeLast(s: Text, sep: Byte) returns (front: Text, y: Text)
    requires sep in s
    ensures s == front + [sep] + y && sep !in y && |front| < |s|
    ensures Split(s, sep) == Split(front, sep) + [y]
  {
    var n := LastPiece(s, sep);
    LastPieceIsFree(s, sep);
    front, y := s[..|s| - n - 1], s[|s| - n..];
  }

  lemma SplitAlone(s: Text, sep: Byte)
    requires sep !in s
    ensures Split(s, sep) == [s]
  {
    LastPieceOf([], sep, s);
  }

  lemma {:induction false} SplitFirst(x: Text, sep: Byte, b: Text)
    requires sep !in x
    ensures Split(x + [sep] + b, sep) == [x] + Split(b, sep)
    decreases |b|
  {
    if sep !in b {
      SplitLast(x, sep, b);
      SplitAlone(x, sep);
      SplitAlone(b, sep);
    } else {
      var front, y := TakeLast(b, sep);
      SplitFirst(x, sep, front);
      SplitLast(x + [sep] + front, sep, y);
      Reassociate3(x, [sep], front, [sep], y);
      assert [x] + Split(front, sep) + [y] == [x] + (Split(front, sep) + [y]);
    }
  }

  lemma Reassociate3(x: Text, a: Text, front: Text, b: Text, y: Text)
    ensures x + a + front + b + y == x + a + (front + b + y)
  {}

  function Occurrences(s: Text, c: Byte): nat {
    if s == [] then 0 else Occurrences(s[..|s| - 1], c) + if s[|s| - 1] == c then 1 else 0
  }

  lemma {:induction false} OccurrencesBefore(a: Text, x: Text, c: Byte)
    requires c !in x
    ensures Occurrences(a + x, c) == Occurrences(a, c)
    decreases |x|
  {
    if x == [] {
      assert a + x == a;
    } else {
      assert (a + x)[..|a + x| - 1] == a + x[..|x| - 1];
      OccurrencesBefore(a, x[..|x| - 1], c);
    }
  }

  /** What splitting gives: the pieces hold no separator, there is one more of them than separators, and
      glued together they are the text. */
  lemma {:induction false} SplitExactly(s: Text, sep: Byte)
    ensures Glue(Split(s, sep), sep) == s && |Split(s, sep)| == Occurrences(s, sep) + 1
    ensures forall i | 0 <= i < |Split(s, sep)| :: sep !in Split(s, sep)[i]
    decreases |s|
  {
    if sep in s {
      var front, y := TakeLast(s, sep);
      SplitExactly(front, sep);
      GlueSnoc(Split(front, sep), y, sep);
      assert (front + [sep])[..|front|] == front;
      OccurrencesBefore(front + [sep], y, sep);
    } else {
      SplitAlone(s, sep);
      OccurrencesBefore([], s, sep);
      assert [] + s == s;
    }
  }

  // ---------------------------------------------------------------- building and parsing

  datatype Version = V2 | V4

  /** One parameter: v4 always writes "=", v2 only before a value. */
  function Piece(key: Text, value: Text, v: Version): Text {
    if v.V4? || value != [] then Escape(key) + (['='] + Escape(value)) else Escape(key)
  }

  /** A read of the map: a missing key reads as the empty string. */
  function Value(params: Params, key: Text): Text {
    if key in params then params[key] else []
  }

  function Pieces(keys: seq<Text>, params: Params, v: Version): (ps: seq<Text>)
    ensures |ps| == |keys| && forall i | 0 <= i < |keys| :: ps[i] == Piece(keys[i], Value(params, keys[i]), v)
  {
    seq(|keys|, i requires 0 <= i < |keys| => Piece(keys[i], Value(params, keys[i]), v))
  }

  /** The keys of `params`, each once. */
  predicate Lists(keys: seq<Text>, params: Params) {
    (forall i | 0 <= i < |keys| :: keys[i] in params) && (forall k | k in params :: k in keys) && Distinct(keys)
  }

  /** One entry of the parsed map. */
  function ParsePiece(p: Text): (Text, Text) {
    var kv := Split(p, '=');
    (UrlDecode(kv[0]), Glue(Decoded(kv[1..]), '='))
  }

  function Decoded(vs: seq<Text>): (ds: seq<Text>)
    ensures |ds| == |vs| && forall i | 0 <= i < |vs| :: ds[i] == UrlDecode(vs[i])
  {
    seq(|vs|, i requires 0 <= i < |vs| => UrlDecode(vs[i]))
  }

  function ParsePieces(ps: seq<Text>): (es: seq<(Text, Text)>)
    ensures |es| == |ps| && forall i | 0 <= i < |ps| :: es[i] == ParsePiece(ps[i])
  {
    seq(|ps|, i requires 0 <= i < |ps| => ParsePiece(ps[i]))
  }

  /** The entries written in order; later ones overwrite earlier ones. */
  function Entries(es: seq<(Text, Text)>): Params {
    if es == [] then map[]
    else Entries(es[..|es| - 1])[es[|es| - 1].0 := es[|es| - 1].1]
  }

  /** GetAuthorization's reading of a query string. */
  function Parse(query: Text): Params {
    var q := if query != [] && query[0] == '?' then query[1..] else query;
    Entries(ParsePieces(Split(q, '&')))
  }

  lemma PairSplits(k: Text, w: Text)
    requires '=' !in k && '=' !in w
    ensures Split(k + (['='] + w), '=') == [k, w] && Split(k, '=') == [k]
  {
    SplitGlue([k], '=');
    SplitLast(k, '=', w);
    Reassociate(k, ['='], w);
  }

  lemma ParsePair(p: Text, k: Text, w: Text)
    requires Split(p, '=') == [k, w]
    ensures ParsePiece(p) == (UrlDecode(k), UrlDecode(w))
  {
    assert Decoded([k, w][1..]) == [UrlDecode(w)];
  }

  lemma ParseSingle(k: Text)
    requires Split(k, '=') == [k]
    ensures ParsePiece(k) == (UrlDecode(k), [])
  {
    assert Decoded([k][1..]) == [];
  }

  lemma PieceRoundTrip(key: Text, value: Text, v: Version)
    ensures ParsePiece(Piece(key, value, v)) == (key, value) && '&' !in Piece(key, value, v)
  {
    EscapeIsSafe(key);
    EscapeIsSafe(value);
    UnescapeEscape(key);
    UnescapeEscape(value);
    PairSplits(Escape(key), Escape(value));
    if v.V4? || value != [] {
      ParsePair(Piece(key, value, v), Escape(key), Escape(value));
    } else {
      ParseSingle(Escape(key));
    }
  }

  /** The entries of the listed keys. */
  function Restrict(keys: seq<Text>, params: Params): Params {
    map k | k in keys :: Value(params, k)
  }

  lemma MapSnoc(front: seq<Text>, k: Text, params: Params)
    ensures Restrict(front + [k], params) == Restrict(front, params)[k := Value(params, k)]
  {}

  lemma {:induction false} EntriesOfKeys(es: seq<(Text, Text)>, keys: seq<Text>, params: Params)
    requires |es| == |keys| && forall i | 0 <= i < |es| :: es[i] == (keys[i], Value(params, keys[i]))
    ensures Entries(es) == Restrict(keys, params)
    decreases |keys|
  {
    if keys != [] {
      var front, k := keys[..|keys| - 1], keys[|keys| - 1];
      EntriesOfKeys(es[..|es| - 1], front, params);
      MapSnoc(front, k, params);
      assert keys == front + [k];
    }
  }

  /** The query string over a list of keys, with its "?". */
  function Query(keys: seq<Text>, params: Params, v: Version): Text {
    Marked(Pieces(keys, params, v))
  }

  /** "?" before the first piece and "&" before the others. */
  function Marked(ps: seq<Text>): Text {
    if ps == [] then [] else ['?'] + Glue(ps, '&')
  }

  /** Reading a query gives exactly the entries written into it, in either version, with or without
      the "?" and whatever bytes keys and values hold. */
  lemma ReadsWhatWasWritten(keys: seq<Text>, params: Params, v: Version)
    requires keys != []
    ensures Parse(Query(keys, params, v)) == Restrict(keys, params)
    ensures Parse(Query(keys, params, v)[1..]) == Restrict(keys, params)
  {
    var ps := Pieces(keys, params, v);
    var q := Glue(ps, '&');
    forall i | 0 <= i < |ps| ensures '&' !in ps[i] && ParsePiece(ps[i]) == (keys[i], Value(params, keys[i])) {
      PieceRoundTrip(keys[i], Value(params, keys[i]), v);
    }
    SplitGlue(ps, '&');
    EntriesOfKeys(ParsePieces(ps), keys, params);
    StartsPlain(ps, keys, params, v);
    ParsePlain(q);
    assert Query(keys, params, v)[1..] == q;
  }

  /** A leading "?" is dropped, a query without one is read as it is. */
  lemma ParsePlain(q: Text)
    requires q != [] ==> q[0] != '?'
    ensures Parse(q) == Entries(ParsePieces(Split(q, '&'))) == Parse(['?'] + q)
  {
    assert (['?'] + q)[1..] == q;
  }

  /** What follows the "?" never starts with another one. */
  lemma {:induction false} StartsPlain(ps: seq<Text>, keys: seq<Text>, params: Params, v: Version)
    requires ps == Pieces(keys, params, v)
    ensures Glue(ps, '&') != [] ==> Glue(ps, '&')[0] != '?'
    decreases |ps|
  {
    if |ps| == 1 {
      PieceStarts(keys[0], Value(params, keys[0]), v);
    } else if |ps| > 1 {
      assert ps[..|ps| - 1] == Pieces(keys[..|keys| - 1], params, v);
      StartsPlain(ps[..|ps| - 1], keys[..|keys| - 1], params, v);
    }
  }

  lemma PieceStarts(key: Text, value: Text, v: Version)
    ensures Piece(key, value, v) != [] ==> Piece(key, value, v)[0] != '?'
  {
    if key != [] {
      assert EscapeByte(key[0]) != [] && Escape(key)[0] == EscapeByte(key[0])[0];
    }
  }

  /** The keys formatUrls writes after walking the map in `order`: trimmed, then sorted. */
  predicate Writes(keys: seq<Text>, order: seq<Text>, params: Params, trim: Text -> Text) {
    Lists(order, params) && Sorted(keys) && multiset(keys) == multiset(Images(order, trim))
  }

  /** Parsing the built query gives the parameter map back exactly when the map is not empty and its
      keys are trimmed already. */
  lemma QueryRoundTrip(keys: seq<Text>, order: seq<Text>, params: Params, trim: Text -> Text, v: Version)
    requires Writes(keys, order, params, trim) && forall k | k in params :: trim(trim(k)) == trim(k)
    ensures Parse(Query(keys, params, v)) == params <==> params != map[] && forall k | k in params :: trim(k) == k
  {
    WritesMembers(keys, order, params, trim);
    if params == map[] {
      EmptyQuery();
    } else {
      ReadsWhatWasWritten(keys, params, v);
      RestrictIsAll(keys, params, trim);
    }
  }

  lemma RestrictIsAll(keys: seq<Text>, params: Params, trim: Text -> Text)
    requires forall k | k in keys :: trim(k) == k && exists q | q in params :: trim(q) == k
    requires forall k | k in params && trim(k) == k :: k in keys
    ensures Restrict(keys, params) == params <==> forall k | k in params :: trim(k) == k
  {
    if k :| k in params && trim(k) != k {
      assert k !in Restrict(keys, params);
    } else {
      assert forall k | k in keys :: k in params;
    }
  }

  /** The written keys are the trimmed keys of the map; a key is written as it is if it is trimmed. */
  lemma WritesMembers(keys: seq<Text>, order: seq<Text>, params: Params, trim: Text -> Text)
    requires Writes(keys, order, params, trim) && forall k | k in params :: trim(trim(k)) == trim(k)
    ensures keys == [] <==> params == map[]
    ensures forall k | k in keys :: trim(k) == k && exists q | q in params :: trim(q) == k
    ensures forall k | k in params && trim(k) == k :: k in keys
  {
    var images := Images(order, trim);
    SameLength(keys, images);
    assert params != map[] ==> order != [] by {
      if k :| k in params {
        assert k in order;
      }
    }
    forall k | k in keys ensures trim(k) == k && exists q | q in params :: trim(q) == k {
      assert k in multiset(images);
      var i :| 0 <= i < |order| && images[i] == k;
      assert order[i] in params && trim(order[i]) == k;
    }
    forall k | k in params && trim(k) == k ensures k in keys {
      var i :| 0 <= i < |order| && order[i] == k;
      assert images[i] == k;
      assert k in multiset(images);
      assert k in multiset(keys);
    }
  }

  /** The empty map is the exception: its query parses to one empty parameter. */
  lemma EmptyQuery()
    ensures Parse([]) == map[[] := []] != map[]
  {
    var e: Text := [];
    assert Split(e, '&') == [e] && Split(e, '=') == [e];
    assert ParsePiece(e) == (e, e);
    assert ParsePieces([e]) == [(e, e)];
    assert [(e, e)][..0] == [];
    ParsePlain(e);
    assert Entries([(e, e)]) == Entries([])[e := e];
    assert e in Parse(e);
  }

  /** The built string is a function of the map: every two walks lead to the same keys. */
  lemma QueryIsCanonical(keys: seq<Text>, order: seq<Text>, keys': seq<Text>, order': seq<Text>,
                         params: Params, trim: Text -> Text)
    requires Writes(keys, order, params, trim) && Writes(keys', order', params, trim)
    ensures keys == keys'
  {
    assert forall k :: k in order <==> k in params by {
      assert forall k | k in order :: exists i | 0 <= i < |order| :: order[i] == k;
    }
    assert forall k :: k in order' <==> k in params by {
      assert forall k | k in order' :: exists i | 0 <= i < |order'| :: order'[i] == k;
    }
    DistinctMultiset(order, order');
    ImagesPermute(order, order', trim);
    SortedIsUnique(keys, keys');
  }

  // ---------------------------------------------------------------- queries nobody has written

  lemma UnescapeHead(a: Text, b: Text) returns (n: nat, c: Byte)
    requires a != [] && Unescape(a).Plain?
    ensures 0 < n <= |a| && Unescape(a) == Prepend(c, Unescape(a[n..])) && Unescape(a + b) == Prepend(c, Unescape(a[n..] + b))
  {
    n := if a[0] == '%' then 3 else 1;
    c := if a[0] == '%' then (HexValue(a[1]) * 16 + HexValue(a[2])) as char else if a[0] == '+' then ' ' else a[0];
    assert (a + b)[n..] == a[n..] + b;
  }

  /** A well-formed front is decoded by itself. */
  lemma {:induction false} UnescapeConcat(a: Text, b: Text)
    requires Unescape(a).Plain?
    ensures Unescape(a + b) == if Unescape(b).Plain? then Plain(Unescape(a).s + Unescape(b).s) else Malformed
    decreases |a|
  {
    if a == [] {
      assert a + b == b;
    } else {
      var n, c := UnescapeHead(a, b);
      UnescapeConcat(a[n..], b);
      if Unescape(b).Plain? {
        Reassociate([c], Unescape(a[n..]).s, Unescape(b).s);
      }
    }
  }

  /** A "%" that does not stand in front of two hexadecimal digits. */
  predicate Broken(s: Text, i: nat)
    requires i < |s|
  {
    s[i] == '%' && (i + 2 >= |s| || HexValue(s[i + 1]) < 0 || HexValue(s[i + 2]) < 0)
  }

  /** Decoding fails exactly at such a place; without any "%" and "+" the text stays as it is. */
  lemma {:induction false} MalformedExactly(s: Text)
    ensures Unescape(s).Malformed? <==> exists i | 0 <= i < |s| :: Broken(s, i)
    ensures '%' !in s && '+' !in s ==> Unescape(s) == Plain(s)
    decreases |s|
  {
    if s != [] && !Broken(s, 0) {
      var n := if s[0] == '%' then 3 else 1;
      MalformedExactly(s[n..]);
      BrokenBehind(s, n);
      assert s[0] != '%' ==> s == [s[0]] + s[1..];
    }
  }

  lemma BrokenBehind(s: Text, n: nat)
    requires s != [] && n == (if s[0] == '%' then 3 else 1) && !Broken(s, 0)
    ensures (exists i | 0 <= i < |s| :: Broken(s, i)) <==> exists i | 0 <= i < |s[n..]| :: Broken(s[n..], i)
  {
    assert forall k | 0 <= k < |s| && HexValue(s[k]) >= 0 :: s[k] != '%';
    if i :| 0 <= i < |s| && Broken(s, i) {
      assert i >= n;
      assert Broken(s[n..], i - n);
    }
    if i :| 0 <= i < |s[n..]| && Broken(s[n..], i) {
      assert Broken(s, n + i);
    }
  }

  lemma UnescapeJoined(a: Text, b: Text)
    requires Unescape(a).Plain? && Unescape(b).Plain?
    ensures Unescape(a + ['='] + b) == Plain(Unescape(a).s + ['='] + Unescape(b).s)
  {
    var e: Text := ['='];
    assert e[1..] == [];
    assert Unescape(e) == Plain(e);
    UnescapeConcat(a, e);
    UnescapeConcat(a + e, b);
  }

  /** Decoding the pieces and gluing them is decoding the whole. */
  lemma {:induction false} DecodeGlue(vs: seq<Text>)
    requires vs != [] && forall i | 0 <= i < |vs| :: Unescape(vs[i]).Plain?
    ensures Unescape(Glue(vs, '=')) == Plain(Glue(Decoded(vs), '='))
    decreases |vs|
  {
    var n := |vs| - 1;
    if n > 0 {
      DecodeGlue(vs[..n]);
      UnescapeJoined(Glue(vs[..n], '='), vs[n]);
      assert Decoded(vs)[..n] == Decoded(vs[..n]);
    }
  }

  /** A piece with any number of "=": the key ends at the first one, and what follows is the value,
      decoded as a whole, as long as all parts of it are well formed. */
  lemma ManyEquals(key: Text, rest: Text)
    requires '=' !in key && forall i | 0 <= i < |Split(rest, '=')| :: Unescape(Split(rest, '=')[i]).Plain?
    ensures ParsePiece(key + ['='] + rest) == (UrlDecode(key), UrlDecode(rest)) && Unescape(rest).Plain?
  {
    var vs := Split(rest, '=');
    SplitFirst(key, '=', rest);
    SplitExactly(rest, '=');
    DecodeGlue(vs);
    assert ([key] + vs)[1..] == vs;
  }

  /** No "=" at all: the piece is the key of an empty value. */
  lemma NoEquals(key: Text)
    requires '=' !in key
    ensures ParsePiece(key) == (UrlDecode(key), [])
  {
    SplitAlone(key, '=');
    ParseSingle(key);
  }

  /** Of several entries with one key the last one is read, and nothing but the keys of entries is. */
  lemma {:induction false} LastEntryWins(es: seq<(Text, Text)>, i: nat)
    requires i < |es| && forall j | i < j < |es| :: es[j].0 != es[i].0
    ensures es[i].0 in Entries(es) && Entries(es)[es[i].0] == es[i].1
    decreases |es|
  {
    var n := |es| - 1;
    if i < n {
      LastEntryWins(es[..n], i);
    }
  }

  lemma {:induction false} EntriesOnly(es: seq<(Text, Text)>, k: Text) returns (i: nat)
    requires k in Entries(es)
    ensures i < |es| && es[i].0 == k
    decreases |es|
  {
    i := |es| - 1;
    if es[i].0 != k {
      i := EntriesOnly(es[..i], k);
    }
  }

  /** The map holds the last entry of every key, and nothing else. */
  ghost predicate HoldsLast(params: Params, es: seq<(Text, Text)>) {
    && (forall i | 0 <= i < |es| && (forall j | i < j < |es| :: es[j].0 != es[i].0) ::
          es[i].0 in params && params[es[i].0] == es[i].1)
    && (forall k | k in params :: exists i | 0 <= i < |es| :: es[i].0 == k)
  }

  lemma EntriesHoldLast(es: seq<(Text, Text)>)
    ensures HoldsLast(Entries(es), es)
  {
    forall i | 0 <= i < |es| && (forall j | i < j < |es| :: es[j].0 != es[i].0)
      ensures es[i].0 in Entries(es) && Entries(es)[es[i].0] == es[i].1
    {
      LastEntryWins(es, i);
    }
    forall k | k in Entries(es) ensures exists i | 0 <= i < |es| :: es[i].0 == k {
      var i := EntriesOnly(es, k);
    }
  }

  /** What a query says: "&" separates its parameters, a "?" in front is not part of them, and of several
      parameters with one key the last one counts. */
  ghost predicate Says(query: Text, params: Params) {
    exists es | HoldsLast(params, es) ::
      var ps := Split(if query != [] && query[0] == '?' then query[1..] else query, '&');
      |es| == |ps| && forall i | 0 <= i < |ps| :: es[i] == ParsePiece(ps[i])
  }

  // ---------------------------------------------------------------- the canonical form of v2

  /** The keys the v2 signature covers, in their order. */
  function Resources(keys: seq<Text>, resource: Text -> bool): seq<Text> {
    if keys == [] then []
    else
      var last := keys[|keys| - 1];
      var front := Resources(keys[..|keys| - 1], resource);
      if resource(last) then front + [last] else front
  }

  lemma ResourcesNext(keys: seq<Text>, key: Text, resource: Text -> bool)
    ensures var done := Resources(keys, resource);
      Resources(keys + [key], resource) == if resource(key) then done + [key] else done
  {
    assert (keys + [key])[..|keys|] == keys;
  }

  lemma {:induction false} ResourcesFrom(keys: seq<Text>, resource: Text -> bool)
    ensures forall i | 0 <= i < |Resources(keys, resource)| :: Resources(keys, resource)[i] in keys
  {
    if keys != [] {
      ResourcesFrom(keys[..|keys| - 1], resource);
    }
  }

  /** Exactly the keys that are resources, as often as they are written and in the order they are written. */
  lemma {:induction false} ResourcesExactly(keys: seq<Text>, resource: Text -> bool, k: Text)
    ensures multiset(Resources(keys, resource))[k] == if resource(k) then multiset(keys)[k] else 0
    ensures Sorted(keys) ==> Sorted(Resources(keys, resource))
    decreases |keys|
  {
    if keys != [] {
      var front, last := keys[..|keys| - 1], keys[|keys| - 1];
      assert keys == front + [last];
      ResourcesExactly(front, resource, k);
      if Sorted(keys) {
        ResourcesFrom(front, resource);
        forall i | 0 <= i < |Resources(front, resource)| ensures LessEq(Resources(front, resource)[i], last) {
          assert Resources(front, resource)[i] in front;
        }
      }
    }
  }

  /** Here the value stays as it is. */
  function CanonicalPiece(key: Text, value: Text): Text {
    Escape(key) + if value != [] then ['='] + value else []
  }

  function CanonicalPieces(keys: seq<Text>, params: Params): (ps: seq<Text>)
    ensures |ps| == |keys| && forall i | 0 <= i < |keys| :: ps[i] == CanonicalPiece(keys[i], Value(params, keys[i]))
  {
    seq(|keys|, i requires 0 <= i < |keys| => CanonicalPiece(keys[i], Value(params, keys[i])))
  }

  function CanonicalQuery(keys: seq<Text>, params: Params): Text {
    Marked(CanonicalPieces(keys, params))
  }

  lemma CanonicalSnoc(front: seq<Text>, key: Text, params: Params)
    ensures CanonicalPieces(front + [key], params)
         == CanonicalPieces(front, params) + [CanonicalPiece(key, Value(params, key))]
  {}

  /** Escaping never shortens. */
  lemma {:induction false} EscapeIsLonger(s: Text)
    ensures |s| <= |Escape(s)| && (s == [] <==> Escape(s) == [])
    decreases |s|
  {
    if s != [] {
      EscapeIsLonger(s[1..]);
    }
  }

  lemma {:induction false} GlueIsLonger(ps: seq<Text>, qs: seq<Text>, sep: Byte)
    requires |ps| == |qs| && forall i | 0 <= i < |ps| :: |ps[i]| <= |qs[i]|
    ensures |Glue(ps, sep)| <= |Glue(qs, sep)|
    decreases |ps|
  {
    if |ps| > 1 {
      GlueIsLonger(ps[..|ps| - 1], qs[..|qs| - 1], sep);
    }
  }

  /** Lists of pieces, one never shorter than the other, are equal if they are glued to the same text. */
  lemma {:induction false} SameGlue(ps: seq<Text>, qs: seq<Text>, sep: Byte)
    requires |ps| == |qs| && (forall i | 0 <= i < |ps| :: |ps[i]| <= |qs[i]|) && Glue(ps, sep) == Glue(qs, sep)
    ensures ps == qs
    decreases |ps|
  {
    var n := |ps| - 1;
    if n == 0 {
      assert ps == [ps[0]] && qs == [qs[0]];
    } else if n > 0 {
      GlueIsLonger(ps[..n], qs[..n], sep);
      SameEnds(Glue(ps[..n], sep) + [sep], Glue(qs[..n], sep) + [sep], ps[n], qs[n]);
      SameEnds(Glue(ps[..n], sep), Glue(qs[..n], sep), [sep], [sep]);
      SameGlue(ps[..n], qs[..n], sep);
      assert ps == ps[..n] + [ps[n]] && qs == qs[..n] + [qs[n]];
    }
  }

  lemma PieceIsCanonical(key: Text, value: Text)
    ensures |CanonicalPiece(key, value)| <= |Piece(key, value, V2)|
    ensures CanonicalPiece(key, value) == Piece(key, value, V2) <==> Escape(value) == value
  {
    EscapeIsLonger(value);
    if value != [] && CanonicalPiece(key, value) == Piece(key, value, V2) {
      assert ['='] + value == Piece(key, value, V2)[|Escape(key)|..] == ['='] + Escape(value);
      assert (['='] + value)[1..] == value && (['='] + Escape(value))[1..] == Escape(value);
    }
  }

  /** What the v2 signature covers is the query over the same keys exactly if none of their values
      needs escaping. */
  lemma CanonicalIsQuery(keys: seq<Text>, params: Params)
    ensures CanonicalQuery(keys, params) == Query(keys, params, V2) <==>
      forall i | 0 <= i < |keys| :: Escape(Value(params, keys[i])) == Value(params, keys[i])
  {
    var ps, qs := CanonicalPieces(keys, params), Pieces(keys, params, V2);
    forall i | 0 <= i < |keys|
      ensures |ps[i]| <= |qs[i]| && (ps[i] == qs[i] <==> Escape(Value(params, keys[i])) == Value(params, keys[i]))
    {
      PieceIsCanonical(keys[i], Value(params, keys[i]));
    }
    if Marked(ps) == Marked(qs) {
      assert ps != [] ==> Marked(ps)[1..] == Glue(ps, '&') && Marked(qs)[1..] == Glue(qs, '&');
      SameGlue(ps, qs, '&');
    }
    assert (forall i | 0 <= i < |keys| :: ps[i] == qs[i]) ==> ps == qs;
  }

  // ---------------------------------------------------------------- reading the texts back

  /** A text that is empty without rows, and otherwise holds them between "?" and "&". */
  predicate Holds(url: Text, rows: seq<Text>) {
    if rows == [] then url == [] else url != [] && url[0] == '?' && Split(url[1..], '&') == rows
  }

  lemma MarkedHolds(rows: seq<Text>)
    requires forall i | 0 <= i < |rows| :: '&' !in rows[i]
    ensures Holds(Marked(rows), rows)
  {
    if rows != [] {
      SplitGlue(rows, '&');
      assert Marked(rows)[1..] == Glue(rows, '&');
    }
  }

  /** The request query holds one row per key: the key, and with v4 or a value also "=" and the value. */
  ghost predicate RequestReads(url: Text, keys: seq<Text>, params: Params, v: Version) {
    exists rows | Holds(url, rows) ::
      && |rows| == |keys|
      && forall i | 0 <= i < |keys| ::
           var value := Value(params, keys[i]);
           rows[i] == if v.V4? || value != [] then Escape(keys[i]) + ['='] + Escape(value) else Escape(keys[i])
  }

  lemma QueryReads(keys: seq<Text>, params: Params, v: Version)
    ensures RequestReads(Query(keys, params, v), keys, params, v)
  {
    var rows := Pieces(keys, params, v);
    forall i | 0 <= i < |keys|
      ensures '&' !in rows[i]
      ensures var value := Value(params, keys[i]);
        rows[i] == if v.V4? || value != [] then Escape(keys[i]) + ['='] + Escape(value) else Escape(keys[i])
    {
      PieceRoundTrip(keys[i], Value(params, keys[i]), v);
      Reassociate(Escape(keys[i]), ['='], Escape(Value(params, keys[i])));
    }
    MarkedHolds(rows);
  }

  /** The text under the v2 signature: one row per covered key, the value as it is. It can be split if no
      value holds an "&". */
  ghost predicate CoveredReads(url: Text, covered: seq<Text>, params: Params) {
    exists rows | Holds(url, rows) ::
      && |rows| == |covered|
      && forall i | 0 <= i < |covered| ::
           var value := Value(params, covered[i]);
           rows[i] == if value != [] then Escape(covered[i]) + ['='] + value else Escape(covered[i])
  }

  lemma CanonicalReads(covered: seq<Text>, params: Params)
    requires forall i | 0 <= i < |covered| :: '&' !in Value(params, covered[i])
    ensures CoveredReads(CanonicalQuery(covered, params), covered, params)
  {
    var rows := CanonicalPieces(covered, params);
    forall i | 0 <= i < |covered|
      ensures '&' !in rows[i]
      ensures var value := Value(params, covered[i]);
        rows[i] == if value != [] then Escape(covered[i]) + ['='] + value else Escape(covered[i])
    {
      EscapeIsSafe(covered[i]);
      Reassociate(Escape(covered[i]), ['='], Value(params, covered[i]));
    }
    MarkedHolds(rows);
  }

  /** The covered keys are the resources among the written ones, as often and in the same order. */
  ghost predicate Covers(covered: seq<Text>, keys: seq<Text>, resource: Text -> bool) {
    Sorted(covered) && forall k: Text :: multiset(covered)[k] == if resource(k) then multiset(keys)[k] else 0
  }

  // ---------------------------------------------------------------- the loops

  /** formatUrls, the query parts: the keys are collected in the random order of the map, trimmed and
      sorted; "?" or "&" precedes each. `trim` is strings.TrimSpace; `resource` says of a key whether,
      in lower case, it is one of the resource parameters or has the header prefix. */
  method FormatQuery(params: Params, trim: Text -> Text, resource: Text -> bool, v: Version)
    returns (requestUrl: Text, canonicalizedUrl: Text, keys: seq<Text>, ghost order: seq<Text>, ghost covered: seq<Text>)
    ensures Writes(keys, order, params, trim)
    ensures requestUrl == Query(keys, params, v) && RequestReads(requestUrl, keys, params, v)
    ensures v.V4? ==> canonicalizedUrl == []
    ensures v.V2? ==> Covers(covered, keys, resource) && canonicalizedUrl == CanonicalQuery(covered, params)
    ensures v.V2? && (forall i | 0 <= i < |covered| :: '&' !in Value(params, covered[i])) ==>
      CoveredReads(canonicalizedUrl, covered, params)
  {
    keys, order := Collect(params, trim);
    keys := Sort(keys);
    requestUrl, canonicalizedUrl := AppendParams(keys, params, resource, v);
    covered := Resources(keys, resource);
    QueryReads(keys, params, v);
    forall k: Text ensures multiset(covered)[k] == (if resource(k) then multiset(keys)[k] else 0) && Sorted(covered) {
      ResourcesExactly(keys, resource, k);
    }
    if forall i | 0 <= i < |covered| :: '&' !in Value(params, covered[i]) {
      CanonicalReads(covered, params);
    }
  }

  /** The canonical text after some of the keys. */
  function Covered(keys: seq<Text>, params: Params, resource: Text -> bool, v: Version): Text {
    if v.V4? then [] else CanonicalQuery(Resources(keys, resource), params)
  }

  method AppendParams(keys: seq<Text>, params: Params, resource: Text -> bool, v: Version)
    returns (requestUrl: Text, canonicalizedUrl: Text)
    ensures requestUrl == Query(keys, params, v)
    ensures canonicalizedUrl == Covered(keys, params, resource, v)
  {
    requestUrl, canonicalizedUrl := [], [];
    var i := 0;
    for index := 0 to |keys|
      invariant requestUrl == Query(keys[..index], params, v)
      invariant canonicalizedUrl == Covered(keys[..index], params, resource, v)
      invariant v.V2? ==> i == |Resources(keys[..index], resource)|
    {
      TakeNext(keys, index);
      var key := keys[index];
      var value := if key in params then params[key] else [];
      requestUrl := AppendKey(requestUrl, keys[..index], index == 0, key, value, params, v);
      canonicalizedUrl, i := Cover(canonicalizedUrl, i, keys[..index], key, value, params, resource, v);
    }
    TakeAll(keys);
  }

  method Cover(url: Text, i: nat, ghost done: seq<Text>, key: Text, value: Text, ghost params: Params,
               resource: Text -> bool, v: Version)
    returns (canonicalizedUrl: Text, n: nat)
    requires url == Covered(done, params, resource, v) && (v.V2? ==> i == |Resources(done, resource)|)
    requires value == Value(params, key)
    ensures canonicalizedUrl == Covered(done + [key], params, resource, v)
    ensures v.V2? ==> n == |Resources(done + [key], resource)|
  {
    canonicalizedUrl, n := url, i;
    if v.V2? {
      ResourcesNext(done, key, resource);
      if resource(key) {
        canonicalizedUrl := AppendResource(url, Resources(done, resource), i == 0, key, value, params);
        n := i + 1;
      }
    }
  }

  lemma TakeNext(keys: seq<Text>, index: nat)
    requires index < |keys|
    ensures keys[..index + 1] == keys[..index] + [keys[index]] && (keys[..index] == [] <==> index == 0)
  {}

  lemma TakeAll(keys: seq<Text>)
    ensures keys[..|keys|] == keys
  {}

  method AppendKey(url: Text, ghost done: seq<Text>, first: bool, key: Text, value: Text, ghost params: Params, v: Version)
    returns (requestUrl: Text)
    requires url == Query(done, params, v) && first == (done == []) && value == Value(params, key)
    ensures requestUrl == Query(done + [key], params, v)
  {
    PiecesSnoc(done, key, params, v);
    MarkedNext(Pieces(done, params, v), Piece(key, value, v));
    requestUrl := AppendParam(url, first, key, value, v);
  }

  method AppendResource(url: Text, ghost done: seq<Text>, first: bool, key: Text, value: Text, ghost params: Params)
    returns (canonicalizedUrl: Text)
    requires url == CanonicalQuery(done, params) && first == (done == []) && value == Value(params, key)
    ensures canonicalizedUrl == CanonicalQuery(done + [key], params)
  {
    CanonicalSnoc(done, key, params);
    MarkedNext(CanonicalPieces(done, params), CanonicalPiece(key, value));
    canonicalizedUrl := url + if first then ['?'] else ['&'];
    canonicalizedUrl := canonicalizedUrl + (Escape(key) + if value != [] then ['='] + value else []);
  }

  method Collect(params: Params, trim: Text -> Text) returns (keys: seq<Text>, ghost order: seq<Text>)
    ensures Lists(order, params) && keys == Images(order, trim)
  {
    keys, order := [], [];
    var left := params.Keys;
    while left != {}
      invariant left <= params.Keys && Distinct(order)
      invariant forall k | k in params :: k in order <==> k !in left
      invariant forall i | 0 <= i < |order| :: order[i] in params
      invariant keys == Images(order, trim)
    {
      var k :| k in left;
      left := left - {k};
      keys, order := keys + [trim(k)], order + [k];
    }
  }

  /** The body of the loop over the sorted keys. */
  method AppendParam(url: Text, first: bool, key: Text, value: Text, v: Version) returns (requestUrl: Text)
    ensures requestUrl == (url + if first then ['?'] else ['&']) + Piece(key, value, v)
  {
    requestUrl := url + if first then ['?'] else ['&'];
    ghost var mark := requestUrl;
    requestUrl := requestUrl + Escape(key);
    if v.V4? {
      requestUrl := requestUrl + (['='] + Escape(value));
    } else if value != [] {
      requestUrl := requestUrl + (['='] + Escape(value));
    }
    Reassociate(mark, Escape(key), ['='] + Escape(value));
  }

  lemma Reassociate(a: Text, b: Text, c: Text)
    ensures (a + b) + c == a + (b + c)
  {}

  lemma MarkedNext(ps: seq<Text>, p: Text)
    ensures Marked(ps + [p]) == (Marked(ps) + if ps == [] then ['?'] else ['&']) + p
  {
    if ps == [] {
      assert Glue(ps + [p], '&') == p;
    } else {
      GlueSnoc(ps, p, '&');
      Reassociate4(['?'], Glue(ps, '&'), ['&'], p);
    }
  }

  lemma Reassociate4(a: Text, b: Text, c: Text, d: Text)
    ensures ((a + b) + c) + d == a + ((b + c) + d)
  {}

  lemma PiecesSnoc(front: seq<Text>, key: Text, params: Params, v: Version)
    ensures Pieces(front + [key], params, v) == Pieces(front, params, v) + [Piece(key, Value(params, key), v)]
  {}

  lemma GlueSnoc(ps: seq<Text>, p: Text, sep: Byte)
    requires ps != []
    ensures Glue(ps + [p], sep) == (Glue(ps, sep) + [sep]) + p
  {
    assert (ps + [p])[..|ps|] == ps;
  }

  /** GetAuthorization's loops over the pieces of a query. */
  method ParseQuery(query: Text) returns (params: Params)
    ensures params == Parse(query) && Says(query, params)
  {
    EntriesHoldLast(ParsePieces(Split(if query != [] && query[0] == '?' then query[1..] else query, '&')));
    var q := if query != [] && query[0] == '?' then query[1..] else query;
    params := ReadPieces(Split(q, '&'));
  }

  method ReadPieces(querys: seq<Text>) returns (params: Params)
    ensures params == Entries(ParsePieces(querys))
  {
    ghost var es := ParsePieces(querys);
    params := map[];
    for n := 0 to |querys|
      invariant params == Entries(es[..n])
    {
      var entry := ReadPiece(querys[n]);
      assert es[..n + 1][..n] == es[..n];
      params := params[entry.0 := entry.1];
    }
    assert es[..|querys|] == es;
  }

  method ReadPiece(value: Text) returns (entry: (Text, Text))
    ensures entry == ParsePiece(value)
  {
    var kv := Split(value, '=');
    if |kv| == 1 {
      entry := (UrlDecode(kv[0]), []);
    } else {
      var vals := DecodeAll(kv[1..]);
      entry := (UrlDecode(kv[0]), Glue(vals, '='));
    }
  }

  method DecodeAll(vs: seq<Text>) returns (vals: seq<Text>)
    ensures vals == Decoded(vs)
  {
    vals := [];
    for i := 0 to |vs|
      invariant vals == Decoded(vs[..i])
    {
      vals := vals + [UrlDecode(vs[i])];
    }
    assert vs[..|vs|] == vs;
  }
}
