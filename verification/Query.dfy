/** Raw queries (utils/http.go), their cleaning (lib/http.go) and the URLs of challenges (lib/challenge/helper.go). */
module Query {
  import opened Bytes
  import opened Types

  const AMP: byte := 38
  const EQUALS: byte := 61
  const SEMICOLON: byte := 59

  type Values = map<Text, seq<Text>>
  type Pair = (Text, Text)

  predicate Contains(s: Text, b: byte) { exists i :: 0 <= i < |s| && s[i] == b }

  /** The place of the first b, or the length. */
  function IndexOf(s: Text, b: byte): (i: nat)
    ensures i <= |s| && (i < |s| ==> s[i] == b) && forall k :: 0 <= k < i ==> s[k] != b
  {
    if s == [] || s[0] == b then 0 else 1 + IndexOf(s[1..], b)
  }

  /** `strings.Cut`, the parts without the flag. */
  function Cut(s: Text, b: byte): (parts: (Text, Text))
    ensures |parts.1| < |s| || s == []
  {
    var i := IndexOf(s, b);
    if i == |s| then (s, []) else (s[..i], s[i + 1..])
  }

  lemma CutAt(a: Text, b: byte, r: Text)
    requires !Contains(a, b)
    ensures Cut(a + [b] + r, b) == (a, r) && Cut(a, b) == (a, [])
  {
    var s := a + [b] + r;
    assert s[|a|] == b && forall k :: 0 <= k < |a| ==> s[k] == a[k];
    assert IndexOf(s, b) == |a|;
    assert s[..|a|] == a && s[|a| + 1..] == r;
    assert IndexOf(a, b) == |a|;
  }

  // ----------------------------------------------------------------------- parsing

  /** The key-value pairs of a raw query: parts that are empty or hold a semicolon do not count. */
  function RawPairs(q: Text): (seq<Pair>)
    decreases |q|
  {
    if q == [] then []
    else
      var part := Cut(q, AMP).0;
      var rest := RawPairs(Cut(q, AMP).1);
      if Contains(part, SEMICOLON) || part == [] then rest else [Cut(part, EQUALS)] + rest
  }

  predicate HasBadPart(q: Text)
    decreases |q|
  {
    q != [] && (Contains(Cut(q, AMP).0, SEMICOLON) || HasBadPart(Cut(q, AMP).1))
  }

  function Append(m: Values, p: Pair): Values
  {
    m[p.0 := (if p.0 in m then m[p.0] else []) + [p.1]]
  }

  function Collect(pairs: seq<Pair>, m: Values): Values
  {
    if pairs == [] then m else Collect(pairs[1..], Append(m, pairs[0]))
  }

  function Parsed(q: Text): Values { Collect(RawPairs(q), map[]) }

  // What parsing means, part by part and key by key.

  lemma CutBehind(a: Text, b: byte, r: Text)
    requires Contains(a, b)
    ensures Cut(a + [b] + r, b) == (Cut(a, b).0, Cut(a, b).1 + [b] + r) && |Cut(a, b).1| < |a|
  {
    var i := IndexOf(a, b);
    var s := a + [b] + r;
    assert i < |a|;
    assert s[i] == b && forall k :: 0 <= k < i ==> s[k] == a[k];
    assert IndexOf(s, b) == i;
    assert s[..i] == a[..i] && s[i + 1..] == a[i + 1..] + [b] + r;
  }

  /** The parts between separators are read one by one, in order, and a semicolon in any of them is an error. */
  lemma {:induction false} PartsAreReadInOrder(a: Text, b: Text)
    ensures RawPairs(a + [AMP] + b) == RawPairs(a) + RawPairs(b)
    ensures HasBadPart(a + [AMP] + b) <==> HasBadPart(a) || HasBadPart(b)
    decreases |a|
  {
    if Contains(a, AMP) {
      CutBehind(a, AMP, b);
      PartsAreReadInOrder(Cut(a, AMP).1, b);
    } else {
      CutAt(a, AMP, b);
    }
  }

  /** One part: nothing when it is empty or holds a semicolon, or else one pair, cut at the first equals sign. */
  lemma OnePart(p: Text)
    requires !Contains(p, AMP)
    ensures RawPairs(p) == if p == [] || Contains(p, SEMICOLON) then [] else [Cut(p, EQUALS)]
    ensures HasBadPart(p) <==> Contains(p, SEMICOLON)
  {
    CutAt(p, AMP, []);
  }

  lemma {:induction false} ErrorIffSemicolon(q: Text)
    ensures HasBadPart(q) <==> Contains(q, SEMICOLON)
    decreases |q|
  {
    if Contains(q, AMP) {
      var i := IndexOf(q, AMP);
      var a, b := q[..i], q[i + 1..];
      assert q == a + [AMP] + b;
      PartsAreReadInOrder(a, b);
      OnePart(a);
      ErrorIffSemicolon(b);
      SemicolonInParts(a, b);
    } else {
      OnePart(q);
    }
  }

  lemma SemicolonInParts(a: Text, b: Text)
    ensures Contains(a + [AMP] + b, SEMICOLON) <==> Contains(a, SEMICOLON) || Contains(b, SEMICOLON)
  {
    var q := a + [AMP] + b;
    if i :| 0 <= i < |a| && a[i] == SEMICOLON {
      assert q[i] == SEMICOLON;
    }
    if i :| 0 <= i < |b| && b[i] == SEMICOLON {
      assert q[|a| + 1 + i] == SEMICOLON;
    }
  }

  /** The values of a key among pairs, in order. */
  function ValuesAmong(pairs: seq<Pair>, k: Text): seq<Text>
  {
    if pairs == [] then []
    else (if pairs[0].0 == k then [pairs[0].1] else []) + ValuesAmong(pairs[1..], k)
  }

  lemma {:induction false} CollectValues(pairs: seq<Pair>, m: Values, k: Text)
    ensures k in Collect(pairs, m) <==> k in m || ValuesAmong(pairs, k) != []
    ensures k in Collect(pairs, m) ==>
      Collect(pairs, m)[k] == (if k in m then m[k] else []) + ValuesAmong(pairs, k)
    decreases |pairs|
  {
    if pairs != [] {
      CollectValues(pairs[1..], Append(m, pairs[0]), k);
    }
  }

  /** A query has the keys of its pairs, each with the values of all its pairs in order. */
  lemma ParsedValues(q: Text, k: Text)
    ensures k in Parsed(q) <==> ValuesAmong(RawPairs(q), k) != []
    ensures k in Parsed(q) ==> Parsed(q)[k] == ValuesAmong(RawPairs(q), k)
  {
    CollectValues(RawPairs(q), map[], k);
  }

  method ParseRawQuery(rawQuery: Text) returns (m: Values, err: bool)
    ensures m == Parsed(rawQuery) && (err <==> Contains(rawQuery, SEMICOLON))
  {
    ErrorIffSemicolon(rawQuery);
    m, err := map[], false;
    var rest := rawQuery;
    while rest != []
      invariant Collect(RawPairs(rest), m) == Parsed(rawQuery)
      invariant (err || HasBadPart(rest)) <==> HasBadPart(rawQuery)
      decreases |rest|
    {
      var cut := Cut(rest, AMP);
      ghost var whole := rest;
      rest := cut.1;
      if Contains(cut.0, SEMICOLON) {
        err := true;
        continue;
      }
      if cut.0 == [] {
        continue;
      }
      var pair := Cut(cut.0, EQUALS);
      assert RawPairs(whole) == [pair] + RawPairs(rest);
      assert RawPairs(whole)[1..] == RawPairs(rest);
      m := Append(m, pair);
    }
  }

  // ---------------------------------------------------------------------- encoding

  /** Byte-wise order of texts. */
  predicate Less(a: Text, b: Text)
  {
    b != [] && (a == [] || a[0] < b[0] || (a[0] == b[0] && Less(a[1..], b[1..])))
  }

  lemma {:induction false} LessIsOrder(a: Text, b: Text, c: Text)
    ensures !(Less(a, b) && Less(b, a))
    ensures a == b || Less(a, b) || Less(b, a)
    ensures Less(a, b) && Less(b, c) ==> Less(a, c)
  {
    if a != [] && b != [] {
      LessIsOrder(a[1..], b[1..], if c == [] then [] else c[1..]);
      if a[1..] == b[1..] && a[0] == b[0] {
        assert a == [a[0]] + a[1..] && b == [b[0]] + b[1..];
      }
    }
  }

  /** The first byte that differs decides, and a proper beginning comes first. */
  lemma {:induction false} FirstByteDecides(p: Text, a: byte, s: Text, b: byte, t: Text)
    requires a < b
    ensures Less(p + [a] + s, p + [b] + t) && Less(p, p + [a] + s) && !Less(p, p)
  {
    if p != [] {
      FirstByteDecides(p[1..], a, s, b, t);
      assert (p + [a] + s)[1..] == p[1..] + [a] + s && (p + [b] + t)[1..] == p[1..] + [b] + t;
    } else {
      assert p + [a] + s == [a] + s && p + [b] + t == [b] + t;
    }
  }

  predicate IsLeast(x: Text, s: set<Text>)
  {
    x in s && forall y :: y in s ==> y == x || Less(x, y)
  }

  lemma {:induction false} LeastExists(s: set<Text>)
    requires s != {}
    ensures exists x :: IsLeast(x, s)
    ensures forall x, y :: IsLeast(x, s) && IsLeast(y, s) ==> x == y
    decreases |s|
  {
    var z :| z in s;
    if s == {z} {
      assert IsLeast(z, s);
    } else {
      LeastExists(s - {z});
      var x :| IsLeast(x, s - {z});
      LessIsOrder(x, z, z);
      if Less(x, z) {
        assert IsLeast(x, s);
      } else {
        forall y | y in s ensures y == z || Less(z, y) {
          LessIsOrder(z, x, y);
        }
        assert IsLeast(z, s);
      }
    }
    forall x, y | IsLeast(x, s) && IsLeast(y, s) ensures x == y {
      LessIsOrder(x, y, y);
    }
  }

  /** `slices.Sorted` of the keys. */
  function SortedKeys(s: set<Text>): (ks: seq<Text>)
    ensures forall k :: k in ks <==> k in s
    ensures forall i, j :: 0 <= i < j < |ks| ==> Less(ks[i], ks[j]) && ks[i] != ks[j]
    decreases |s|
  {
    if s == {} then []
    else
      LeastExists(s);
      var x :| IsLeast(x, s);
      [x] + SortedKeys(s - {x})
  }

  function PairsOfKey(k: Text, vs: seq<Text>): (ps: seq<Pair>)
    ensures |ps| == |vs| && forall i :: 0 <= i < |vs| ==> ps[i] == (k, vs[i])
  {
    seq(|vs|, i requires 0 <= i < |vs| => (k, vs[i]))
  }

  /** The pairs of a map, key by key in the given order, values in theirs. */
  function PairsOf(ks: seq<Text>, m: Values): seq<Pair>
    requires forall k :: k in ks ==> k in m
  {
    if ks == [] then [] else PairsOfKey(ks[0], m[ks[0]]) + PairsOf(ks[1..], m)
  }

  function Joined(pairs: seq<Pair>): Text
  {
    if pairs == [] then []
    else if |pairs| == 1 then pairs[0].0 + [EQUALS] + pairs[0].1
    else pairs[0].0 + [EQUALS] + pairs[0].1 + [AMP] + Joined(pairs[1..])
  }

  function Encoded(m: Values): Text { Joined(PairsOf(SortedKeys(m.Keys), m)) }

  lemma {:induction false} JoinedSnoc(pairs: seq<Pair>, p: Pair)
    ensures Joined(pairs + [p]) == (if pairs == [] then [] else Joined(pairs) + [AMP]) + p.0 + [EQUALS] + p.1
    ensures pairs != [] ==> |Joined(pairs)| > 0
  {
    if pairs == [] {
      assert [] + [p] == [p];
    } else {
      assert (pairs + [p])[1..] == pairs[1..] + [p];
      JoinedSnoc(pairs[1..], p);
      if |pairs| > 1 {
        var head, rest := pairs[0].0 + [EQUALS] + pairs[0].1 + [AMP], Joined(pairs[1..]);
        assert head + (rest + [AMP] + p.0 + [EQUALS] + p.1) == head + rest + [AMP] + p.0 + [EQUALS] + p.1;
      }
    }
  }

  lemma {:induction false} PairsOfSnoc(ks: seq<Text>, k: Text, m: Values)
    requires (forall x :: x in ks ==> x in m) && k in m
    ensures PairsOf(ks + [k], m) == PairsOf(ks, m) + PairsOfKey(k, m[k])
  {
    if ks == [] {
      assert [] + [k] == [k];
      assert PairsOf([k], m) == PairsOfKey(k, m[k]) + PairsOf([], m);
    } else {
      assert (ks + [k])[1..] == ks[1..] + [k];
      PairsOfSnoc(ks[1..], k, m);
    }
  }

  /** The builder writes a separator before every pair but the first. */
  method EncodeRawQuery(v: Values) returns (buf: Text)
    ensures buf == Encoded(v)
  {
    if v == map[] {
      return [];
    }
    buf := [];
    var ks := SortedKeys(v.Keys);
    for i := 0 to |ks|
      invariant buf == Joined(PairsOf(ks[..i], v))
    {
      buf := EncodeKey(buf, PairsOf(ks[..i], v), ks[i], v[ks[i]]);
      assert ks[..i + 1] == ks[..i] + [ks[i]];
      PairsOfSnoc(ks[..i], ks[i], v);
    }
    assert ks[..|ks|] == ks;
  }

  /** The inner loop: the values of one key. */
  method EncodeKey(start: Text, ghost pairs: seq<Pair>, k: Text, vs: seq<Text>) returns (buf: Text)
    requires start == Joined(pairs)
    ensures buf == Joined(pairs + PairsOfKey(k, vs))
  {
    buf := start;
    assert pairs + PairsOfKey(k, vs[..0]) == pairs;
    for j := 0 to |vs|
      invariant buf == Joined(pairs + PairsOfKey(k, vs[..j]))
    {
      ghost var before := pairs + PairsOfKey(k, vs[..j]);
      JoinedSnoc(before, (k, vs[j]));
      assert pairs + PairsOfKey(k, vs[..j + 1]) == before + [(k, vs[j])];
      if |buf| > 0 {
        buf := buf + [AMP];
      }
      buf := buf + k;
      buf := buf + [EQUALS];
      buf := buf + vs[j];
    }
    assert vs[..|vs|] == vs;
  }

  // -------------------------------------------------------------------- round trips

  predicate CleanPair(p: Pair)
  {
    && !Contains(p.0, AMP) && !Contains(p.0, SEMICOLON) && !Contains(p.0, EQUALS)
    && !Contains(p.1, AMP) && !Contains(p.1, SEMICOLON)
  }

  /** Maps a raw query can spell: no empty value list, no separator where it would be read as one. */
  predicate Clean(m: Values)
  {
    forall k :: k in m ==> m[k] != [] && forall i :: 0 <= i < |m[k]| ==> CleanPair((k, m[k][i]))
  }

  lemma PartOfPair(p: Pair)
    requires CleanPair(p)
    ensures var part := p.0 + [EQUALS] + p.1;
      part != [] && !Contains(part, AMP) && !Contains(part, SEMICOLON) && Cut(part, EQUALS) == p
  {
    var part := p.0 + [EQUALS] + p.1;
    CutAt(p.0, EQUALS, p.1);
    forall i | 0 <= i < |part| ensures part[i] != AMP && part[i] != SEMICOLON {
      if i < |p.0| {
        assert part[i] == p.0[i];
      } else if i > |p.0| {
        assert part[i] == p.1[i - |p.0| - 1];
      }
    }
  }

  /** Reading joined pairs gives the pairs. */
  lemma {:induction false} ReadBack(pairs: seq<Pair>)
    requires forall i :: 0 <= i < |pairs| ==> CleanPair(pairs[i])
    ensures RawPairs(Joined(pairs)) == pairs && !HasBadPart(Joined(pairs))
  {
    if pairs != [] {
      var part := pairs[0].0 + [EQUALS] + pairs[0].1;
      PartOfPair(pairs[0]);
      CutAt(part, AMP, Joined(pairs[1..]));
      ReadBack(pairs[1..]);
      assert pairs == [pairs[0]] + pairs[1..];
      if |pairs| == 1 {
        assert Joined(pairs) == part;
      } else {
        assert Joined(pairs) == part + [AMP] + Joined(pairs[1..]);
      }
    }
  }

  lemma {:induction false} CollectConcat(p: seq<Pair>, q: seq<Pair>, m: Values)
    ensures Collect(p + q, m) == Collect(q, Collect(p, m))
    decreases |p|
  {
    if p == [] {
      assert p + q == q;
    } else {
      assert (p + q)[0] == p[0] && (p + q)[1..] == p[1..] + q;
      CollectConcat(p[1..], q, Append(m, p[0]));
    }
  }

  lemma {:induction false} CollectKey(k: Text, vs: seq<Text>, m: Values)
    requires vs != []
    ensures Collect(PairsOfKey(k, vs), m) == m[k := (if k in m then m[k] else []) + vs]
    decreases |vs|
  {
    var ps := PairsOfKey(k, vs);
    var before := if k in m then m[k] else [];
    assert ps[1..] == PairsOfKey(k, vs[1..]);
    assert before + [vs[0]] + vs[1..] == before + vs;
    if |vs| == 1 {
      assert ps[1..] == [] && vs == [vs[0]];
    } else {
      CollectKey(k, vs[1..], Append(m, ps[0]));
      assert Append(m, ps[0])[k := before + [vs[0]] + vs[1..]] == m[k := before + vs];
    }
  }

  /** The part of a map on some keys. */
  function Restricted(ks: seq<Text>, m: Values): Values
  {
    map k | k in ks && k in m :: m[k]
  }

  /** Collecting the pairs of distinct keys rebuilds the map on them. */
  lemma {:induction false} CollectPairs(ks: seq<Text>, m: Values, acc: Values)
    requires forall k :: k in ks ==> k in m && m[k] != [] && k !in acc
    requires forall i, j :: 0 <= i < j < |ks| ==> ks[i] != ks[j]
    ensures Collect(PairsOf(ks, m), acc) == acc + Restricted(ks, m)
    decreases |ks|
  {
    if ks == [] {
      assert acc + Restricted(ks, m) == acc;
    } else {
      var k, rest := ks[0], ks[1..];
      var next := acc[k := m[k]];
      CollectConcat(PairsOfKey(k, m[k]), PairsOf(rest, m), acc);
      CollectKey(k, m[k], acc);
      assert [] + m[k] == m[k];
      forall x | x in rest ensures x !in next {
        var i :| 0 <= i < |rest| && rest[i] == x;
        assert ks[i + 1] == x;
      }
      CollectPairs(rest, m, next);
      RestrictedStep(ks, m, acc);
    }
  }

  lemma RestrictedStep(ks: seq<Text>, m: Values, acc: Values)
    requires ks != [] && ks[0] in m
    ensures acc[ks[0] := m[ks[0]]] + Restricted(ks[1..], m) == acc + Restricted(ks, m)
  {
    assert forall k :: k in ks <==> k == ks[0] || k in ks[1..];
  }

  lemma {:induction false} PairsAreClean(ks: seq<Text>, m: Values)
    requires Clean(m) && forall k :: k in ks ==> k in m
    ensures forall i :: 0 <= i < |PairsOf(ks, m)| ==> CleanPair(PairsOf(ks, m)[i])
  {
    if ks != [] {
      PairsAreClean(ks[1..], m);
    }
  }

  lemma {:induction false} RawPairsAreClean(q: Text)
    ensures forall i :: 0 <= i < |RawPairs(q)| ==> CleanPair(RawPairs(q)[i])
    decreases |q|
  {
    if q != [] {
      RawPairsAreClean(Cut(q, AMP).1);
      var part := Cut(q, AMP).0;
      assert !Contains(part, AMP);
      if !Contains(part, SEMICOLON) && part != [] {
        CutIsClean(part);
        assert RawPairs(q) == [Cut(part, EQUALS)] + RawPairs(Cut(q, AMP).1);
      }
    }
  }

  lemma CutIsClean(part: Text)
    requires !Contains(part, AMP) && !Contains(part, SEMICOLON)
    ensures CleanPair(Cut(part, EQUALS))
  {
    var p := Cut(part, EQUALS);
    var i := IndexOf(part, EQUALS);
    assert p.0 == part[..i];
    assert forall x :: 0 <= x < |p.1| ==> p.1[x] == part[i + 1 + x];
  }

  lemma {:induction false} CollectIsClean(pairs: seq<Pair>, m: Values)
    requires Clean(m) && forall i :: 0 <= i < |pairs| ==> CleanPair(pairs[i])
    ensures Clean(Collect(pairs, m))
    decreases |pairs|
  {
    if pairs != [] {
      var next := Append(m, pairs[0]);
      forall k | k in next
        ensures next[k] != [] && forall i :: 0 <= i < |next[k]| ==> CleanPair((k, next[k][i]))
      {
        if k == pairs[0].0 && k in m {
          assert forall i :: 0 <= i < |m[k]| ==> next[k][i] == m[k][i];
        }
      }
      CollectIsClean(pairs[1..], next);
    }
  }

  lemma CleanRoundTrip(m: Values)
    requires Clean(m)
    ensures Parsed(Encoded(m)) == m && !HasBadPart(Encoded(m))
    ensures RawPairs(Encoded(m)) == PairsOf(SortedKeys(m.Keys), m)
  {
    var ks := SortedKeys(m.Keys);
    PairsAreClean(ks, m);
    ReadBack(PairsOf(ks, m));
    CollectAll(ks, m);
  }

  lemma CollectAll(ks: seq<Text>, m: Values)
    requires forall k :: k in ks <==> k in m
    requires forall k :: k in m ==> m[k] != []
    requires forall i, j :: 0 <= i < j < |ks| ==> ks[i] != ks[j]
    ensures Collect(PairsOf(ks, m), map[]) == m
  {
    CollectPairs(ks, m, map[]);
    assert map[] + Restricted(ks, m) == m;
  }

  /** Printing and reading gives back exactly the maps that are clean. */
  lemma ParseEncode(m: Values)
    ensures Parsed(Encoded(m)) == m <==> Clean(m)
  {
    ParsedIsClean(Encoded(m));
    if Clean(m) {
      CleanRoundTrip(m);
    }
  }

  lemma ParsedIsClean(q: Text)
    ensures Clean(Parsed(q))
  {
    RawPairsAreClean(q);
    CollectIsClean(RawPairs(q), map[]);
  }

  /** Reading and printing reaches its normal form at once. */
  lemma EncodeParseIdempotent(q: Text)
    ensures Encoded(Parsed(Encoded(Parsed(q)))) == Encoded(Parsed(q))
    ensures Parsed(Encoded(Parsed(q))) == Parsed(q)
  {
    ParsedIsClean(q);
    ParseEncode(Parsed(q));
  }

  // ----------------------------------------------------------------------- cleaning

  /** "__goaway". */
  const PREFIX: Text := [95, 95, 103, 111, 97, 119, 97, 121]

  predicate IsOurs(k: Text) { PREFIX <= k }

  function Theirs(m: Values): Values { map k | k in m && !IsOurs(k) :: m[k] }

  /** The cleaned query has key k exactly when the raw one has it and it does not begin with the prefix, with the same values. */
  predicate KeptIffTheirs(rawQuery: Text, cleaned: Text, k: Text)
  {
    && (k in Parsed(cleaned) <==> k in Parsed(rawQuery) && !(|k| >= 8 && k[..8] == PREFIX))
    && (k in Parsed(cleaned) ==> Parsed(cleaned)[k] == Parsed(rawQuery)[k])
  }

  /** The query a backend gets: keys of ours deleted one by one, the rest printed again. */
  method CleanupQuery(rawQuery: Text) returns (cleaned: Text)
    ensures cleaned == Encoded(Theirs(Parsed(rawQuery)))
    ensures forall k :: KeptIffTheirs(rawQuery, cleaned, k)
  {
    var m, _ := ParseRawQuery(rawQuery);
    ghost var all := m;
    var ks := m.Keys;
    while ks != {}
      invariant m.Keys <= all.Keys && ks <= all.Keys
      invariant forall k :: k in m ==> m[k] == all[k]
      invariant forall k :: k in all && (k in ks || !IsOurs(k)) ==> k in m
      invariant forall k :: k in m && IsOurs(k) ==> k in ks
      decreases ks
    {
      var k :| k in ks;
      if IsOurs(k) {
        m := m - {k};
      }
      ks := ks - {k};
    }
    assert m == Theirs(all);
    cleaned := EncodeRawQuery(m);
    forall k ensures KeptIffTheirs(rawQuery, cleaned, k) {
      CleanupKeepsExactlyTheirs(rawQuery, k);
    }
  }

  /** A backend reads every key but ours, with all its values in order, and none of ours. */
  lemma CleanupKeepsExactlyTheirs(q: Text, k: Text)
    ensures KeptIffTheirs(q, Encoded(Theirs(Parsed(q))), k)
    ensures Parsed(Encoded(Theirs(Parsed(q)))) == Theirs(Parsed(q))
  {
    ParsedIsClean(q);
    ParseEncode(Theirs(Parsed(q)));
  }
}
