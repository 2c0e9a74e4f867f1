/**
  The URL a challenge sends its client to, and reading it back
  (lib/challenge/helper.go). Percent escaping is any escaping with the laws below.
 */
module VerifyUrls {
  import opened Bytes
  import opened Types
  import opened Wrappers
  import opened Query
  import opened Protocol
  import opened Ledger
  import Hex

  datatype Escaping = Escaping(escape: Text -> Text, unescape: Text -> Option<Text>)

  const PERCENT: byte := 37
  const PLUS: byte := 43

  /** Unescaping undoes escaping, escaped text holds no separator, and plain text stands for itself. */
  ghost predicate Lawful(x: Escaping)
  {
    && (forall t: Text :: x.unescape(x.escape(t)) == Some(t))
    && (forall t: Text :: CleanPair(([], x.escape(t))) && CleanPair((x.escape(t), [])))
    && (forall t: Text :: !Contains(t, PERCENT) && !Contains(t, PLUS) ==> x.unescape(t) == Some(t))
  }

  const ARG_ID: Text := PREFIX + [95, 105, 100]
  const ARG_REDIRECT: Text := PREFIX + [95, 114, 101, 100, 105, 114, 101, 99, 116]
  const ARG_TOKEN: Text := PREFIX + [95, 116, 111, 107, 101, 110]
  const ARG_CHALLENGE: Text := PREFIX + [95, 99, 104, 97, 108, 108, 101, 110, 103, 101]
  const ARG_REFERER: Text := PREFIX + [95, 114, 101, 102, 101, 114, 101, 114]
  const ARG_BUST: Text := PREFIX + [95, 98, 117, 115, 116]

  // ----------------------------------------------------------- reading a URL's query

  /** The pairs of `url.ParseQuery`: those whose key and value both unescape. */
  function ReadablePairs(x: Escaping, pairs: seq<Pair>): seq<Pair>
  {
    if pairs == [] then []
    else
      var rest := ReadablePairs(x, pairs[1..]);
      var k, v := x.unescape(pairs[0].0), x.unescape(pairs[0].1);
      if k.Some? && v.Some? then [(k.value, v.value)] + rest else rest
  }

  function UrlQuery(x: Escaping, q: Text): Values { Collect(ReadablePairs(x, RawPairs(q)), map[]) }

  /** `url.Values.Get`. */
  function Get(m: Values, k: Text): Text { if k in m && m[k] != [] then m[k][0] else [] }

  /** The value of the first pair of a key. */
  function First(pairs: seq<Pair>, k: Text): Option<Text>
  {
    if pairs == [] then None else if pairs[0].0 == k then Some(pairs[0].1) else First(pairs[1..], k)
  }

  lemma {:induction false} GetIsFirst(pairs: seq<Pair>, m: Values, k: Text)
    requires forall j :: j in m ==> m[j] != []
    ensures Get(Collect(pairs, m), k) == if k in m then m[k][0] else (var f := First(pairs, k); if f.Some? then f.value else [])
    decreases |pairs|
  {
    if pairs != [] {
      var next := Append(m, pairs[0]);
      assert forall j :: j in m ==> next[j][0] == m[j][0];
      GetIsFirst(pairs[1..], next, k);
    }
  }

  lemma {:induction false} FirstConcat(x: Escaping, p: seq<Pair>, q: seq<Pair>, k: Text)
    ensures var f := First(ReadablePairs(x, p), k);
      First(ReadablePairs(x, p + q), k) == if f.Some? then f else First(ReadablePairs(x, q), k)
    decreases |p|
  {
    if p == [] {
      assert p + q == q;
    } else {
      assert (p + q)[0] == p[0] && (p + q)[1..] == p[1..] + q;
      FirstConcat(x, p[1..], q, k);
    }
  }

  /** Pairs that do not read as one of k give none. */
  lemma {:induction false} NoPairOf(x: Escaping, pairs: seq<Pair>, k: Text)
    requires forall i :: 0 <= i < |pairs| && x.unescape(pairs[i].0) == Some(k) ==> x.unescape(pairs[i].1).None?
    ensures First(ReadablePairs(x, pairs), k) == None
    decreases |pairs|
  {
    if pairs != [] {
      NoPairOf(x, pairs[1..], k);
    }
  }

  /** The first value that unescapes. */
  function FirstValue(x: Escaping, vs: seq<Text>): Option<Text>
  {
    if vs == [] then None else if x.unescape(vs[0]).Some? then x.unescape(vs[0]) else FirstValue(x, vs[1..])
  }

  lemma {:induction false} FirstValueIs(x: Escaping, vs: seq<Text>, r: Text, k: Text)
    requires x.unescape(r) == Some(k)
    ensures First(ReadablePairs(x, PairsOfKey(r, vs)), k) == FirstValue(x, vs)
    decreases |vs|
  {
    if vs != [] {
      var pairs := PairsOfKey(r, vs);
      assert pairs[0] == (r, vs[0]) && pairs[1..] == PairsOfKey(r, vs[1..]);
      FirstValueIs(x, vs[1..], r, k);
    }
  }

  lemma {:induction false} NoFirstValue(x: Escaping, vs: seq<Text>, i: nat)
    requires FirstValue(x, vs).None? && i < |vs|
    ensures x.unescape(vs[i]).None?
  {
    if i > 0 {
      NoFirstValue(x, vs[1..], i - 1);
    }
  }

  lemma {:induction false} PairsOfConcat(ks: seq<Text>, ls: seq<Text>, m: Values)
    requires forall k :: k in ks + ls ==> k in m
    ensures (forall k :: k in ks ==> k in m) && (forall k :: k in ls ==> k in m)
    ensures PairsOf(ks + ls, m) == PairsOf(ks, m) + PairsOf(ls, m)
    decreases |ks|
  {
    assert forall k :: k in ks || k in ls ==> k in ks + ls;
    if ks == [] {
      assert ks + ls == ls;
    } else {
      assert (ks + ls)[0] == ks[0] && (ks + ls)[1..] == ks[1..] + ls;
      PairsOfConcat(ks[1..], ls, m);
    }
  }

  /** Raw key r reads as k, with a value that can be read. */
  predicate Aliases(x: Escaping, m: Values, r: Text, k: Text)
  {
    r in m && x.unescape(r) == Some(k) && FirstValue(x, m[r]).Some?
  }

  /** Keys that are no alias of k give no pair of it. */
  lemma {:induction false} NoAliasNoPair(x: Escaping, ks: seq<Text>, m: Values, k: Text)
    requires forall r :: r in ks ==> r in m && !Aliases(x, m, r, k)
    ensures First(ReadablePairs(x, PairsOf(ks, m)), k) == None
    decreases |ks|
  {
    if ks != [] {
      var own := PairsOfKey(ks[0], m[ks[0]]);
      assert ks[0] in ks && forall r :: r in ks[1..] ==> r in ks;
      forall i | 0 <= i < |own| && x.unescape(own[i].0) == Some(k) ensures x.unescape(own[i].1).None? {
        NoFirstValue(x, m[ks[0]], i);
      }
      NoPairOf(x, own, k);
      NoAliasNoPair(x, ks[1..], m, k);
      FirstConcat(x, own, PairsOf(ks[1..], m), k);
    }
  }

  /** The pairs before a key, its own, and those behind it. */
  lemma PairsAround(ks: seq<Text>, m: Values, j: nat)
    requires (forall k :: k in ks ==> k in m) && j < |ks|
    ensures (forall k :: k in ks[..j] ==> k in m) && (forall k :: k in ks[j + 1..] ==> k in m)
    ensures PairsOf(ks, m) == PairsOf(ks[..j], m) + (PairsOfKey(ks[j], m[ks[j]]) + PairsOf(ks[j + 1..], m))
  {
    var before, after := ks[..j], ks[j..];
    assert ks == before + after && after[0] == ks[j] && after[1..] == ks[j + 1..];
    PairsOfConcat(before, after, m);
  }

  /** Reading stops at the first key that is an alias of k. */
  lemma FirstAt(x: Escaping, ks: seq<Text>, m: Values, j: nat, k: Text)
    requires (forall r :: r in ks ==> r in m) && j < |ks| && Aliases(x, m, ks[j], k)
    requires forall i :: 0 <= i < j ==> !Aliases(x, m, ks[i], k)
    ensures First(ReadablePairs(x, PairsOf(ks, m)), k) == FirstValue(x, m[ks[j]])
  {
    PairsAround(ks, m, j);
    var before, own, rest := PairsOf(ks[..j], m), PairsOfKey(ks[j], m[ks[j]]), PairsOf(ks[j + 1..], m);
    NoAliasNoPair(x, ks[..j], m, k);
    FirstConcat(x, before, own + rest, k);
    FirstConcat(x, own, rest, k);
    FirstValueIs(x, m[ks[j]], ks[j], k);
  }

  /** Of the aliases of k the least in byte order. */
  ghost predicate LeastAlias(x: Escaping, m: Values, a: Text, k: Text)
  {
    Aliases(x, m, a, k) && forall r :: r in m && Less(r, a) ==> !Aliases(x, m, r, k)
  }

  /** Reading a printed query, k has the first readable value of its least alias. */
  lemma LeastAliasIsRead(x: Escaping, m: Values, a: Text, k: Text)
    requires Clean(m) && LeastAlias(x, m, a, k)
    ensures Get(UrlQuery(x, Encoded(m)), k) == FirstValue(x, m[a]).value
  {
    CleanRoundTrip(m);
    SortedFirstIs(x, SortedKeys(m.Keys), m, a, k);
    GetIsFirst(ReadablePairs(x, PairsOf(SortedKeys(m.Keys), m)), map[], k);
  }

  lemma SortedFirstIs(x: Escaping, ks: seq<Text>, m: Values, a: Text, k: Text)
    requires (forall r :: r in ks <==> r in m) && LeastAlias(x, m, a, k)
    requires forall i, j :: 0 <= i < j < |ks| ==> Less(ks[i], ks[j])
    ensures First(ReadablePairs(x, PairsOf(ks, m)), k) == FirstValue(x, m[a])
  {
    var j :| 0 <= j < |ks| && ks[j] == a;
    FirstAt(x, ks, m, j, k);
  }

  // -------------------------------------------------------------------- verify URLs

  datatype Args = Args(id: Text, redirect: Text, token: Text, name: Text, bust: Text)

  /** The arguments of a verify URL, each set to one escaped value. */
  function WithArgs(x: Escaping, m: Values, a: Args): Values
  {
    m[ARG_ID := [x.escape(Hex.Encoded(a.id))]]
     [ARG_REDIRECT := [x.escape(a.redirect)]]
     [ARG_TOKEN := [x.escape(a.token)]]
     [ARG_CHALLENGE := [x.escape(a.name)]]
     [ARG_BUST := [x.escape(a.bust)]]
  }

  method VerifyUrl(x: Escaping, rawQuery: Text, a: Args) returns (query: Text)
    ensures query == Encoded(WithArgs(x, Parsed(rawQuery), a))
  {
    var values, _ := ParseRawQuery(rawQuery);
    values := values[ARG_ID := [x.escape(Hex.Encoded(a.id))]];
    values := values[ARG_REDIRECT := [x.escape(a.redirect)]];
    values := values[ARG_TOKEN := [x.escape(a.token)]];
    values := values[ARG_CHALLENGE := [x.escape(a.name)]];
    values := values[ARG_BUST := [x.escape(a.bust)]];
    query := EncodeRawQuery(values);
  }

  datatype Information =
    | Information(requestId: Text, redirect: Text, token: Text)
    | UnexpectedChallenge(got: Text) | InvalidId | UnreadableId | BadRedirect

  /** What the verify endpoint makes of the arguments it read. */
  function Inform(clean: Text -> Option<Text>, name: Text, challenge: Text, hex: Text, redirect: Text, token: Text): Information
  {
    if challenge != name then UnexpectedChallenge(challenge)
    else if Hex.DecodedLen(|hex|) != 16 then InvalidId
    else if Hex.DecodedOf(hex).error != None then UnreadableId
    else if |Hex.DecodedOf(hex).out| != 16 then InvalidId
    else if clean(redirect).None? then BadRedirect
    else Information(Hex.DecodedOf(hex).out, clean(redirect).value, token)
  }

  /** There is information exactly for the challenge itself, an id of sixteen bytes and a redirect that is not refused. */
  lemma InformsIff(clean: Text -> Option<Text>, name: Text, challenge: Text, hex: Text, redirect: Text, token: Text)
    ensures var i := Inform(clean, name, challenge, hex, redirect, token);
      && (i.Information? <==>
            challenge == name && Hex.DecodedOf(hex).error == None && |Hex.DecodedOf(hex).out| == 16 && clean(redirect).Some?)
      && (i.Information? ==> i == Information(Hex.DecodedOf(hex).out, clean(redirect).value, token))
      && (i.UnexpectedChallenge? <==> challenge != name)
      && (i.BadRedirect? ==> clean(redirect).None?)
  {
    Hex.DecodedLength(hex);
    Hex.DecodeSucceeds(hex);
  }

  /** `GetVerifyInformation`; `clean` is the cleaning of redirects, which may refuse one. */
  function GetVerifyInformation(x: Escaping, clean: Text -> Option<Text>, query: Text, name: Text): Information
  {
    var q := UrlQuery(x, query);
    Inform(clean, name, Get(q, ARG_CHALLENGE), Get(q, ARG_ID), Get(q, ARG_REDIRECT), Get(q, ARG_TOKEN))
  }

  /** A raw key before k in byte order that is read in its place. */
  predicate EarlierAlias(x: Escaping, m: Values, r: Text, k: Text)
  {
    Less(r, k) && Aliases(x, m, r, k)
  }

  predicate NoEarlierAlias(x: Escaping, m: Values, k: Text)
  {
    forall r :: r in m ==> !EarlierAlias(x, m, r, k)
  }

  predicate PlainArg(k: Text)
  {
    k in [ARG_ID, ARG_REDIRECT, ARG_TOKEN, ARG_CHALLENGE, ARG_REFERER, ARG_BUST]
  }

  lemma ArgsArePlain(x: Escaping, k: Text)
    requires Lawful(x) && PlainArg(k)
    ensures x.unescape(k) == Some(k) && CleanPair((k, []))
  {
    assert forall i :: 0 <= i < |k| ==> 95 <= k[i];
  }

  lemma SetIsClean(x: Escaping, m: Values, k: Text, v: Text)
    requires Lawful(x) && PlainArg(k) && Clean(m)
    ensures Clean(m[k := [x.escape(v)]])
  {
    ArgsArePlain(x, k);
    assert CleanPair(([], x.escape(v))) && CleanPair((k, x.escape(v)));
  }

  /** The maps have the same earlier aliases of k, with the same values. */
  ghost predicate SameAliases(x: Escaping, m: Values, n: Values, k: Text)
  {
    forall r :: (EarlierAlias(x, m, r, k) <==> EarlierAlias(x, n, r, k)) && (EarlierAlias(x, m, r, k) ==> m[r] == n[r])
  }

  /** Setting one argument neither hides an alias nor is one of another argument. */
  lemma SetKeepsAliases(x: Escaping, m: Values, k: Text, vs: seq<Text>, j: Text)
    requires Lawful(x) && PlainArg(k)
    ensures SameAliases(x, m, m[k := vs], j)
  {
    ArgsArePlain(x, k);
    LessIsOrder(k, j, j);
  }

  lemma ArgsAreSet(x: Escaping, m: Values, a: Args)
    ensures var n := WithArgs(x, m, a);
      && ARG_ID in n && n[ARG_ID] == [x.escape(Hex.Encoded(a.id))]
      && ARG_REDIRECT in n && n[ARG_REDIRECT] == [x.escape(a.redirect)]
      && ARG_TOKEN in n && n[ARG_TOKEN] == [x.escape(a.token)]
      && ARG_CHALLENGE in n && n[ARG_CHALLENGE] == [x.escape(a.name)]
      && ARG_BUST in n && n[ARG_BUST] == [x.escape(a.bust)]
      && forall k :: !PlainArg(k) ==> (k in n <==> k in m) && (k in m ==> n[k] == m[k])
  {
    assert ARG_ID[9] == 105 && ARG_REDIRECT[9] == 114 && ARG_TOKEN[9] == 116 && ARG_CHALLENGE[9] == 99 && ARG_BUST[9] == 98;
  }

  lemma WithArgsIsClean(x: Escaping, m: Values, a: Args)
    requires Lawful(x) && Clean(m)
    ensures Clean(WithArgs(x, m, a))
  {
    var n := m[ARG_ID := [x.escape(Hex.Encoded(a.id))]];
    var o := n[ARG_REDIRECT := [x.escape(a.redirect)]];
    var p := o[ARG_TOKEN := [x.escape(a.token)]];
    var q := p[ARG_CHALLENGE := [x.escape(a.name)]];
    SetIsClean(x, m, ARG_ID, Hex.Encoded(a.id));
    SetIsClean(x, n, ARG_REDIRECT, a.redirect);
    SetIsClean(x, o, ARG_TOKEN, a.token);
    SetIsClean(x, p, ARG_CHALLENGE, a.name);
    SetIsClean(x, q, ARG_BUST, a.bust);
  }

  lemma WithArgsKeepsAliases(x: Escaping, m: Values, a: Args, j: Text)
    requires Lawful(x)
    ensures SameAliases(x, m, WithArgs(x, m, a), j)
  {
    var n := m[ARG_ID := [x.escape(Hex.Encoded(a.id))]];
    var o := n[ARG_REDIRECT := [x.escape(a.redirect)]];
    var p := o[ARG_TOKEN := [x.escape(a.token)]];
    var q := p[ARG_CHALLENGE := [x.escape(a.name)]];
    SetKeepsAliases(x, m, ARG_ID, [x.escape(Hex.Encoded(a.id))], j);
    SetKeepsAliases(x, n, ARG_REDIRECT, [x.escape(a.redirect)], j);
    SetKeepsAliases(x, o, ARG_TOKEN, [x.escape(a.token)], j);
    SetKeepsAliases(x, p, ARG_CHALLENGE, [x.escape(a.name)], j);
    SetKeepsAliases(x, q, ARG_BUST, [x.escape(a.bust)], j);
  }

  /** What is read for an argument set to v: the value itself, or that of the least earlier alias. */
  ghost predicate ReadsAs(x: Escaping, m: Values, k: Text, v: Text, w: Text)
  {
    if NoEarlierAlias(x, m, k) then w == v
    else exists a :: LeastAlias(x, m, a, k) && Less(a, k) && FirstValue(x, m[a]) == Some(w)
  }

  /** If there is an earlier alias there is a least one. */
  lemma LeastAliasExists(x: Escaping, m: Values, k: Text) returns (a: Text)
    requires !NoEarlierAlias(x, m, k)
    ensures LeastAlias(x, m, a, k) && Less(a, k)
  {
    var earlier := set r | r in m && EarlierAlias(x, m, r, k);
    var r :| r in m && EarlierAlias(x, m, r, k);
    assert r in earlier;
    LeastExists(earlier);
    a :| a in earlier && IsLeast(a, earlier);
    forall b | b in m && Less(b, a) ensures !Aliases(x, m, b, k) {
      LessIsOrder(b, a, k);
      LessIsOrder(a, b, a);
    }
  }

  lemma ReadsSomething(x: Escaping, m: Values, k: Text, v: Text) returns (w: Text)
    ensures ReadsAs(x, m, k, v, w)
  {
    w := v;
    if !NoEarlierAlias(x, m, k) {
      var a := LeastAliasExists(x, m, k);
      w := FirstValue(x, m[a]).value;
    }
  }

  /** The argument k of n, which has the earlier aliases of m, is read as m says. */
  lemma ArgumentIsRead(x: Escaping, m: Values, n: Values, k: Text, v: Text, w: Text)
    requires Lawful(x) && PlainArg(k) && Clean(n) && k in n && n[k] == [x.escape(v)]
    requires SameAliases(x, m, n, k) && ReadsAs(x, m, k, v, w)
    ensures Get(UrlQuery(x, Encoded(n)), k) == w
  {
    ArgsArePlain(x, k);
    assert FirstValue(x, n[k]) == Some(v);
    if NoEarlierAlias(x, m, k) {
      assert forall r :: r in n && Less(r, k) && Aliases(x, n, r, k) ==> EarlierAlias(x, n, r, k);
      assert LeastAlias(x, n, k, k);
      LeastAliasIsRead(x, n, k, k);
    } else {
      var a :| LeastAlias(x, m, a, k) && Less(a, k) && FirstValue(x, m[a]) == Some(w);
      assert EarlierAlias(x, m, a, k);
      forall r | r in n && Less(r, a) ensures !Aliases(x, n, r, k) {
        LessIsOrder(r, a, k);
        assert Aliases(x, n, r, k) ==> EarlierAlias(x, n, r, k);
      }
      LeastAliasIsRead(x, n, a, k);
    }
  }

  // --------------------------------------------------------------------- round trip

  /** What the verify endpoint reads out of a verify URL, for any query of the request it was made for. */
  lemma VerifyUrlIsRead(x: Escaping, clean: Text -> Option<Text>, q: Text, a: Args,
                        challenge: Text, hex: Text, redirect: Text, token: Text)
    requires Lawful(x)
    requires ReadsAs(x, Parsed(q), ARG_CHALLENGE, a.name, challenge) && ReadsAs(x, Parsed(q), ARG_ID, Hex.Encoded(a.id), hex)
    requires ReadsAs(x, Parsed(q), ARG_REDIRECT, a.redirect, redirect) && ReadsAs(x, Parsed(q), ARG_TOKEN, a.token, token)
    ensures GetVerifyInformation(x, clean, Encoded(WithArgs(x, Parsed(q), a)), a.name) ==
            Inform(clean, a.name, challenge, hex, redirect, token)
  {
    var m, n := Parsed(q), WithArgs(x, Parsed(q), a);
    ParsedIsClean(q);
    WithArgsIsClean(x, m, a);
    ArgsAreSet(x, m, a);
    WithArgsKeepsAliases(x, m, a, ARG_CHALLENGE);
    WithArgsKeepsAliases(x, m, a, ARG_ID);
    WithArgsKeepsAliases(x, m, a, ARG_REDIRECT);
    WithArgsKeepsAliases(x, m, a, ARG_TOKEN);
    ArgumentIsRead(x, m, n, ARG_CHALLENGE, a.name, challenge);
    ArgumentIsRead(x, m, n, ARG_ID, Hex.Encoded(a.id), hex);
    ArgumentIsRead(x, m, n, ARG_REDIRECT, a.redirect, redirect);
    ArgumentIsRead(x, m, n, ARG_TOKEN, a.token, token);
  }

  /** The endpoint reads the very id, token and redirect the challenge put in. */
  predicate RoundTrips(x: Escaping, clean: Text -> Option<Text>, q: Text, a: Args)
  {
    GetVerifyInformation(x, clean, Encoded(WithArgs(x, Parsed(q), a)), a.name) ==
      if clean(a.redirect).None? then BadRedirect else Information(a.id, clean(a.redirect).value, a.token)
  }

  /** No earlier alias of any of the four arguments that are read. */
  predicate Unaliased(x: Escaping, m: Values)
  {
    && NoEarlierAlias(x, m, ARG_CHALLENGE) && NoEarlierAlias(x, m, ARG_ID)
    && NoEarlierAlias(x, m, ARG_REDIRECT) && NoEarlierAlias(x, m, ARG_TOKEN)
  }

  /** What a challenge put into its verify URL is what the verify endpoint reads out of it. */
  lemma VerifyUrlRoundTrip(x: Escaping, clean: Text -> Option<Text>, q: Text, a: Args)
    requires Lawful(x) && |a.id| == 16 && Unaliased(x, Parsed(q))
    ensures RoundTrips(x, clean, q, a)
  {
    VerifyUrlIsRead(x, clean, q, a, a.name, Hex.Encoded(a.id), a.redirect, a.token);
    Hex.DecodeEncode(a.id);
  }

  /** A function that refuses no redirect. */
  function Keep(t: Text): Option<Text> { Some(t) }

  /** Two URLs that differ only in an argument that is read from an alias cannot both be read rightly. */
  lemma AliasBreaksOne(x: Escaping, q: Text, a: Args, b: Args, challenge: Text, hex: Text, redirect: Text, token: Text)
    requires Lawful(x) && a != b && a.bust == b.bust
    requires ReadsAs(x, Parsed(q), ARG_CHALLENGE, a.name, challenge) && ReadsAs(x, Parsed(q), ARG_CHALLENGE, b.name, challenge)
    requires ReadsAs(x, Parsed(q), ARG_ID, Hex.Encoded(a.id), hex) && ReadsAs(x, Parsed(q), ARG_ID, Hex.Encoded(b.id), hex)
    requires ReadsAs(x, Parsed(q), ARG_REDIRECT, a.redirect, redirect) && ReadsAs(x, Parsed(q), ARG_REDIRECT, b.redirect, redirect)
    requires ReadsAs(x, Parsed(q), ARG_TOKEN, a.token, token) && ReadsAs(x, Parsed(q), ARG_TOKEN, b.token, token)
    ensures !RoundTrips(x, Keep, q, a) || !RoundTrips(x, Keep, q, b)
  {
    VerifyUrlIsRead(x, Keep, q, a, challenge, hex, redirect, token);
    VerifyUrlIsRead(x, Keep, q, b, challenge, hex, redirect, token);
  }

  /** One of two URLs around an alias of k goes wrong. */
  lemma AliasBreaks(x: Escaping, q: Text, k: Text) returns (a: Args)
    requires Lawful(x) && k in [ARG_CHALLENGE, ARG_ID, ARG_REDIRECT, ARG_TOKEN] && !NoEarlierAlias(x, Parsed(q), k)
    ensures |a.id| == 16 && !RoundTrips(x, Keep, q, a)
  {
    var m := Parsed(q);
    var zeros, ones: Text := seq(16, _ => 0), seq(16, _ => 1);
    assert zeros[0] != ones[0];
    a := Args(zeros, [], [], [], []);
    var b := if k == ARG_CHALLENGE then a.(name := [0]) else if k == ARG_ID then a.(id := ones)
             else if k == ARG_REDIRECT then a.(redirect := [0]) else a.(token := [0]);
    var challenge := ReadsSomething(x, m, ARG_CHALLENGE, a.name);
    var hex := ReadsSomething(x, m, ARG_ID, Hex.Encoded(a.id));
    var redirect := ReadsSomething(x, m, ARG_REDIRECT, a.redirect);
    var token := ReadsSomething(x, m, ARG_TOKEN, a.token);
    AliasBreaksOne(x, q, a, b, challenge, hex, redirect, token);
    if RoundTrips(x, Keep, q, a) {
      a := b;
    }
  }

  lemma AliasBreaksSome(x: Escaping, q: Text) returns (a: Args)
    requires Lawful(x) && !Unaliased(x, Parsed(q))
    ensures |a.id| == 16 && !RoundTrips(x, Keep, q, a)
  {
    if !NoEarlierAlias(x, Parsed(q), ARG_CHALLENGE) {
      a := AliasBreaks(x, q, ARG_CHALLENGE);
    } else if !NoEarlierAlias(x, Parsed(q), ARG_ID) {
      a := AliasBreaks(x, q, ARG_ID);
    } else if !NoEarlierAlias(x, Parsed(q), ARG_REDIRECT) {
      a := AliasBreaks(x, q, ARG_REDIRECT);
    } else {
      a := AliasBreaks(x, q, ARG_TOKEN);
    }
  }

  /** Whatever the redirects and the arguments are. */
  ghost predicate AlwaysRoundTrips(x: Escaping, q: Text)
  {
    forall clean: Text -> Option<Text>, a: Args :: |a.id| == 16 ==> RoundTrips(x, clean, q, a)
  }

  /** Every verify URL made for a request is read rightly exactly when its query has no earlier alias. */
  lemma VerifyUrlsRoundTripIff(x: Escaping, q: Text)
    requires Lawful(x)
    ensures AlwaysRoundTrips(x, q) <==> Unaliased(x, Parsed(q))
  {
    if Unaliased(x, Parsed(q)) {
      UnaliasedRoundTrips(x, q);
    } else {
      var a := AliasBreaksSome(x, q);
    }
  }

  lemma UnaliasedRoundTrips(x: Escaping, q: Text)
    requires Lawful(x) && Unaliased(x, Parsed(q))
    ensures AlwaysRoundTrips(x, q)
  {
    forall clean: Text -> Option<Text>, a: Args | |a.id| == 16 ensures RoundTrips(x, clean, q, a) {
      VerifyUrlRoundTrip(x, clean, q, a);
    }
  }

  /** With an alias of the token the endpoint gets its value, and the token only if that is the same. */
  lemma EarlierAliasIsReadInstead(x: Escaping, clean: Text -> Option<Text>, q: Text, a: Args, r: Text, w: Text)
    requires Lawful(x) && |a.id| == 16 && clean(a.redirect).Some?
    requires NoEarlierAlias(x, Parsed(q), ARG_CHALLENGE) && NoEarlierAlias(x, Parsed(q), ARG_ID)
    requires NoEarlierAlias(x, Parsed(q), ARG_REDIRECT)
    requires LeastAlias(x, Parsed(q), r, ARG_TOKEN) && Less(r, ARG_TOKEN) && FirstValue(x, Parsed(q)[r]) == Some(w)
    ensures GetVerifyInformation(x, clean, Encoded(WithArgs(x, Parsed(q), a)), a.name) ==
            Information(a.id, clean(a.redirect).value, w)
    ensures RoundTrips(x, clean, q, a) <==> w == a.token
  {
    TokenReadsAs(x, Parsed(q), a.token, r, w);
    VerifyUrlIsRead(x, clean, q, a, a.name, Hex.Encoded(a.id), a.redirect, w);
    Hex.DecodeEncode(a.id);
  }

  lemma TokenReadsAs(x: Escaping, m: Values, v: Text, r: Text, w: Text)
    requires LeastAlias(x, m, r, ARG_TOKEN) && Less(r, ARG_TOKEN) && FirstValue(x, m[r]) == Some(w)
    ensures ReadsAs(x, m, ARG_TOKEN, v, w)
  {
    assert EarlierAlias(x, m, r, ARG_TOKEN);
  }

  // ----------------------------------------------------------------------- redirects

  /** The arguments of the URL a client is to come back to. */
  function WithRedirectArgs(x: Escaping, m: Values, id: Text, referer: Text, name: Text): Values
  {
    var n := m[ARG_ID := [x.escape(Hex.Encoded(id))]];
    var o := if referer != [] then n[ARG_REFERER := [x.escape(referer)]] else n;
    o[ARG_CHALLENGE := [x.escape(name)]]
  }

  method RedirectUrl(x: Escaping, rawQuery: Text, id: Text, referer: Text, name: Text) returns (query: Text)
    ensures query == Encoded(WithRedirectArgs(x, Parsed(rawQuery), id, referer, name))
  {
    var values, _ := ParseRawQuery(rawQuery);
    values := values[ARG_ID := [x.escape(Hex.Encoded(id))]];
    if referer != [] {
      values := values[ARG_REFERER := [x.escape(referer)]];
    }
    values := values[ARG_CHALLENGE := [x.escape(name)]];
    query := EncodeRawQuery(values);
  }

  /** The challenge a request says it comes back from. */
  function IssuedChallenge(x: Escaping, query: Text): Text { Get(UrlQuery(x, query), ARG_CHALLENGE) }

  lemma RedirectFacts(x: Escaping, m: Values, id: Text, referer: Text, name: Text, j: Text)
    requires Lawful(x) && Clean(m)
    ensures var n := WithRedirectArgs(x, m, id, referer, name);
      && Clean(n) && SameAliases(x, m, n, j)
      && ARG_CHALLENGE in n && n[ARG_CHALLENGE] == [x.escape(name)]
      && ARG_ID in n && n[ARG_ID] == [x.escape(Hex.Encoded(id))]
      && (referer != [] ==> ARG_REFERER in n && n[ARG_REFERER] == [x.escape(referer)])
  {
    var n := m[ARG_ID := [x.escape(Hex.Encoded(id))]];
    var o := if referer != [] then n[ARG_REFERER := [x.escape(referer)]] else n;
    SetIsClean(x, m, ARG_ID, Hex.Encoded(id));
    SetIsClean(x, n, ARG_REFERER, referer);
    SetIsClean(x, o, ARG_CHALLENGE, name);
    SetKeepsAliases(x, m, ARG_ID, [x.escape(Hex.Encoded(id))], j);
    SetKeepsAliases(x, n, ARG_REFERER, [x.escape(referer)], j);
    SetKeepsAliases(x, o, ARG_CHALLENGE, [x.escape(name)], j);
    assert ARG_ID[9] == 105 && ARG_REFERER[9] == 114 && ARG_CHALLENGE[9] == 99;
  }

  /** The names of the arguments as they are spelled. */
  lemma ArgsAreSpelled(i: nat)
    ensures |ARG_ID| == |"__goaway_id"| && |ARG_REDIRECT| == |"__goaway_redirect"| && |ARG_TOKEN| == |"__goaway_token"|
    ensures |ARG_CHALLENGE| == |"__goaway_challenge"| && |ARG_REFERER| == |"__goaway_referer"|
    ensures i < |ARG_ID| ==> ARG_ID[i] == "__goaway_id"[i] as int
    ensures i < |ARG_REDIRECT| ==> ARG_REDIRECT[i] == "__goaway_redirect"[i] as int
    ensures i < |ARG_TOKEN| ==> ARG_TOKEN[i] == "__goaway_token"[i] as int
    ensures i < |ARG_CHALLENGE| ==> ARG_CHALLENGE[i] == "__goaway_challenge"[i] as int
    ensures i < |ARG_REFERER| ==> ARG_REFERER[i] == "__goaway_referer"[i] as int
  {
  }

  predicate ComesBackAs(x: Escaping, q: Text, id: Text, referer: Text, name: Text, read: Text)
  {
    IssuedChallenge(x, Encoded(WithRedirectArgs(x, Parsed(q), id, referer, name))) == read
  }

  lemma RedirectIsRead(x: Escaping, q: Text, id: Text, referer: Text, name: Text, read: Text)
    requires Lawful(x) && ReadsAs(x, Parsed(q), ARG_CHALLENGE, name, read)
    ensures ComesBackAs(x, q, id, referer, name, read)
  {
    ParsedIsClean(q);
    RedirectFacts(x, Parsed(q), id, referer, name, ARG_CHALLENGE);
    ArgumentIsRead(x, Parsed(q), WithRedirectArgs(x, Parsed(q), id, referer, name), ARG_CHALLENGE, name, read);
  }

  /** Coming back, a request names the challenge it was redirected for, whichever that was, exactly without an earlier alias. */
  lemma RedirectNamesChallengeIff(x: Escaping, q: Text, id: Text, referer: Text)
    requires Lawful(x)
    ensures (forall name: Text :: ComesBackAs(x, q, id, referer, name, name)) <==> NoEarlierAlias(x, Parsed(q), ARG_CHALLENGE)
  {
    if NoEarlierAlias(x, Parsed(q), ARG_CHALLENGE) {
      forall name: Text ensures ComesBackAs(x, q, id, referer, name, name) {
        RedirectIsRead(x, q, id, referer, name, name);
      }
    } else {
      var w := ReadsSomething(x, Parsed(q), ARG_CHALLENGE, []);
      var name := w + [0];
      RedirectIsRead(x, q, id, referer, name, w);
      assert name != w && !ComesBackAs(x, q, id, referer, name, name);
    }
  }

  /** The referer of the first request comes back with it. */
  lemma RedirectKeepsReferer(x: Escaping, q: Text, id: Text, referer: Text, name: Text)
    requires Lawful(x) && referer != [] && NoEarlierAlias(x, Parsed(q), ARG_REFERER)
    ensures Get(UrlQuery(x, Encoded(WithRedirectArgs(x, Parsed(q), id, referer, name))), ARG_REFERER) == referer
  {
    ParsedIsClean(q);
    RedirectFacts(x, Parsed(q), id, referer, name, ARG_REFERER);
    ArgumentIsRead(x, Parsed(q), WithRedirectArgs(x, Parsed(q), id, referer, name), ARG_REFERER, referer, referer);
  }

  lemma OursIsCleanedAway(m: Values, k: Text, vs: seq<Text>)
    requires IsOurs(k)
    ensures Theirs(m[k := vs]) == Theirs(m)
  {
  }

  lemma ArgsAreOurs()
    ensures IsOurs(ARG_ID) && IsOurs(ARG_REFERER) && IsOurs(ARG_CHALLENGE)
  {
  }

  lemma TheirsAreLeft(x: Escaping, m: Values, id: Text, referer: Text, name: Text)
    ensures Theirs(WithRedirectArgs(x, m, id, referer, name)) == Theirs(m)
  {
    var n := m[ARG_ID := [x.escape(Hex.Encoded(id))]];
    var o := if referer != [] then n[ARG_REFERER := [x.escape(referer)]] else n;
    ArgsAreOurs();
    OursIsCleanedAway(m, ARG_ID, [x.escape(Hex.Encoded(id))]);
    OursIsCleanedAway(n, ARG_REFERER, [x.escape(referer)]);
    OursIsCleanedAway(o, ARG_CHALLENGE, [x.escape(name)]);
  }

  /** A backend sees the same query after the redirect as it would have without it. */
  lemma RedirectIsCleanedAway(x: Escaping, q: Text, id: Text, referer: Text, name: Text)
    requires Lawful(x)
    ensures Theirs(Parsed(Encoded(WithRedirectArgs(x, Parsed(q), id, referer, name)))) == Theirs(Parsed(q))
  {
    var n := WithRedirectArgs(x, Parsed(q), id, referer, name);
    ParsedIsClean(q);
    RedirectFacts(x, Parsed(q), id, referer, name, ARG_CHALLENGE);
    ParseEncode(n);
    TheirsAreLeft(x, Parsed(q), id, referer, name);
  }

  /** A client that follows the redirect of a challenge is not given that challenge again. */
  lemma RedirectEndsLoop(x: Escaping, q: Text, id: Text, referer: Text, reg: Registration, rules: seq<Rule>, e: Env, c: CookieIn)
    requires Lawful(x) && NoEarlierAlias(x, Parsed(q), ARG_CHALLENGE)
    requires RulesUseOnly(rules, e.server.challenges) && WellRegistered(e.server.challenges) && reg in e.server.challenges
    requires e.issuedChallenge == IssuedChallenge(x, Encoded(WithRedirectArgs(x, Parsed(q), id, referer, reg.name)))
    ensures reg.id !in HandleRequest(rules, e, Started(e, c)).s.issued
  {
    RedirectIsRead(x, q, id, referer, reg.name, reg.name);
    NoChallengeLoop(rules, e, c, reg);
  }
}
