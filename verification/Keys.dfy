/** Challenge keys (lib/challenge/key.go) and the tokens that spell them (lib/challenge/helper.go). */
module Keys {
  import opened Bytes
  import opened Wrappers
  import opened Types
  import Hex

  type Key = Digest

  // ------------------------------------------------------------------- addresses

  type Bytes4 = s: seq<byte> | |s| == 4 witness [0, 0, 0, 0]
  type Bytes16 = s: seq<byte> | |s| == 16 witness seq(16, _ => 0)

  /** `netip.Addr`; NoAddr is its zero value. */
  datatype Addr = V4(quad: Bytes4) | V6(word: Bytes16) | NoAddr

  const MAPPED: seq<byte> := [0, 0, 0, 0, 0, 0, 0, 0, 0, 0, 255, 255]

  function Zeros(n: nat): (s: seq<byte>)
    ensures |s| == n && forall i :: 0 <= i < n ==> s[i] == 0
  {
    seq(n, _ => 0)
  }

  function Unmap(a: Addr): Addr
  {
    if a.V6? && a.word[..12] == MAPPED then V4(a.word[12..]) else a
  }

  /** /24 of an IPv4 address, /64 of an IPv6 address. */
  function NetworkPrefix(a: Addr): Addr
  {
    match Unmap(a)
    case V4(quad) => V4(quad[..3] + [0])
    case V6(word) => V6(word[..8] + Zeros(8))
    case NoAddr => NoAddr
  }

  function As16(a: Addr): Bytes16
  {
    match a
    case V4(quad) => MAPPED + quad
    case V6(word) => word
    case NoAddr => Zeros(16)
  }

  /** An IPv4 address, or an IPv6 address that stands for one: ten zero bytes, two of 255, and its four bytes. */
  predicate StandsForV4(a: Addr)
  {
    a.V4? || (a.V6? && (forall i :: 0 <= i < 10 ==> a.word[i] == 0) && a.word[10] == 255 && a.word[11] == 255)
  }

  /** Byte i of the address it stands for. */
  function V4Byte(a: Addr, i: nat): byte
    requires StandsForV4(a) && i < 4
  {
    if a.V4? then a.quad[i] else a.word[12 + i]
  }

  /** Byte i of any other address; no address is all zeros. */
  function V6Byte(a: Addr, i: nat): byte
    requires !StandsForV4(a) && i < 16
  {
    if a.V6? then a.word[i] else 0
  }

  /** One network: the first three bytes of IPv4 addresses, the first eight of all others. */
  predicate SameNetwork(a: Addr, b: Addr)
  {
    && (StandsForV4(a) <==> StandsForV4(b))
    && (if StandsForV4(a) && StandsForV4(b) then forall i :: 0 <= i < 3 ==> V4Byte(a, i) == V4Byte(b, i)
        else if !StandsForV4(a) && !StandsForV4(b) then forall i :: 0 <= i < 8 ==> V6Byte(a, i) == V6Byte(b, i)
        else true)
  }

  /** What is taken off a mapped address is just the mapping. */
  lemma UnmapIs(a: Addr)
    ensures Unmap(a).V4? <==> StandsForV4(a)
    ensures StandsForV4(a) ==> forall i :: 0 <= i < 4 ==> Unmap(a).quad[i] == V4Byte(a, i)
    ensures !StandsForV4(a) ==> Unmap(a) == a
  {
    if a.V6? {
      var head := a.word[..12];
      if StandsForV4(a) {
        assert forall i :: 0 <= i < 12 ==> head[i] == MAPPED[i];
      } else if head == MAPPED {
        assert forall i :: 0 <= i < 12 ==> a.word[i] == MAPPED[i];
      }
    }
  }

  /** The sixteen bytes of a prefix: the mapping, three bytes and a zero, or eight bytes and zeros. */
  lemma PrefixBytes(a: Addr, i: nat)
    requires i < 16
    ensures As16(NetworkPrefix(a))[i] ==
      if StandsForV4(a) then (if i < 10 || i == 15 then 0 else if i < 12 then 255 else V4Byte(a, i - 12))
      else if i < 8 then V6Byte(a, i) else 0
  {
    UnmapIs(a);
  }

  /** Two addresses have the same prefix bytes exactly when they are in one network. */
  lemma SamePrefixIffSameNetwork(a: Addr, b: Addr)
    ensures As16(NetworkPrefix(a)) == As16(NetworkPrefix(b)) <==> SameNetwork(a, b)
  {
    var p, q := As16(NetworkPrefix(a)), As16(NetworkPrefix(b));
    forall i | 0 <= i < 16
      ensures p[i] == if StandsForV4(a) then (if i < 10 || i == 15 then 0 else if i < 12 then 255 else V4Byte(a, i - 12))
                      else if i < 8 then V6Byte(a, i) else 0
      ensures q[i] == if StandsForV4(b) then (if i < 10 || i == 15 then 0 else if i < 12 then 255 else V4Byte(b, i - 12))
                      else if i < 8 then V6Byte(b, i) else 0
    {
      PrefixBytes(a, i);
      PrefixBytes(b, i);
    }
    if SameNetwork(a, b) {
      assert p == q;
    }
    if p == q {
      assert forall i :: 0 <= i < 16 ==> p[i] == q[i];
      assert p[10] == q[10] && p[12] == q[12] && p[13] == q[13] && p[14] == q[14];
    }
  }

  /** So a mapped address is in the network of the address it stands for. */
  lemma MappedIsSameNetwork(quad: Bytes4)
    ensures SameNetwork(V6(MAPPED + quad), V4(quad))
    ensures NetworkPrefix(V6(MAPPED + quad)) == NetworkPrefix(V4(quad))
  {
    var word: Bytes16 := MAPPED + quad;
    assert word[..12] == MAPPED && word[12..] == quad;
  }

  /** The family of an address can be read off the sixteen bytes of its prefix. */
  lemma PrefixDeterminesFamily(a: Addr, b: Addr)
    requires As16(NetworkPrefix(a)) == As16(NetworkPrefix(b))
    ensures StandsForV4(a) <==> StandsForV4(b)
    ensures Unmap(a).V4? <==> Unmap(b).V4?
  {
    PrefixBytes(a, 10);
    PrefixBytes(b, 10);
    UnmapIs(a);
    UnmapIs(b);
  }

  // -------------------------------------------------------------------- preimage

  datatype Client = Client(address: Addr, headers: map<Text, seq<Text>>)

  /** `http.Header.Values` of a canonical key. */
  function HeaderValues(client: Client, k: Text): seq<Text>
  {
    if k in client.headers then client.headers[k] else []
  }

  /** The bound headers of a challenge, in its own order. */
  function BoundHeaders(keyHeaders: seq<Text>, client: Client): (hs: seq<(Text, seq<Text>)>)
    ensures |hs| == |keyHeaders|
  {
    seq(|keyHeaders|, i requires 0 <= i < |keyHeaders| => (keyHeaders[i], HeaderValues(client, keyHeaders[i])))
  }

  function ValueBytes(vs: seq<Text>): seq<byte>
  {
    if vs == [] then [] else vs[0] + [1] + ValueBytes(vs[1..])
  }

  function HeaderBytes(hs: seq<(Text, seq<Text>)>): seq<byte>
  {
    if hs == [] then [] else hs[0].0 + [0] + ValueBytes(hs[0].1) + [0] + HeaderBytes(hs[1..])
  }

  /** "challenge" and a zero byte. */
  const LABEL: seq<byte> := [99, 104, 97, 108, 108, 101, 110, 103, 101, 0]

  /** A signed 64-bit integer in two's complement. */
  function Int64Bytes(v: int): seq<byte>
  {
    LittleEndianBytes(8, v % 0x1_0000_0000_0000_0000)
  }

  function Preimage(name: Text, prefix: Bytes16, hs: seq<(Text, seq<Text>)>, second: int, fingerprint: Text): seq<byte>
  {
    LABEL + name + [0] + prefix + [0] + HeaderBytes(hs) + [0] + Int64Bytes(second) + [0] + fingerprint + [0]
  }

  /** The key flag of IPv4 is the lowest bit of the first byte, the rest of which is cleared. */
  function FirstByte(isIPv4: bool): byte { if isIPv4 then 1 else 0 }

  function HasIPv4Flag(key: Key): bool { key[0] % 2 == 1 }

  function RequestPreimage(reg: Registration, client: Client, second: int, fingerprint: Text): seq<byte>
  {
    Preimage(reg.name, As16(NetworkPrefix(client.address)), BoundHeaders(reg.keyHeaders, client), second, fingerprint)
  }

  function KeyOf(H: Hash, fingerprint: Text, reg: Registration, client: Client, second: int): Key
  {
    [FirstByte(Unmap(client.address).V4?)] + H(RequestPreimage(reg, client, second, fingerprint))[1..]
  }

  lemma FeedHeader(start: seq<byte>, hs: seq<(Text, seq<Text>)>, h: (Text, seq<Text>))
    ensures start + HeaderBytes(hs + [h]) == start + HeaderBytes(hs) + h.0 + [0] + ValueBytes(h.1) + [0]
  {
    HeaderBytesSnoc(hs, h);
    var f := HeaderBytes(hs);
    assert start + (f + h.0 + [0] + ValueBytes(h.1) + [0]) == start + f + h.0 + [0] + ValueBytes(h.1) + [0];
  }

  lemma FeedValue(start: seq<byte>, vs: seq<Text>, v: Text)
    ensures start + ValueBytes(vs + [v]) == start + ValueBytes(vs) + v + [1]
  {
    ValueBytesSnoc(vs, v);
    assert start + (ValueBytes(vs) + v + [1]) == start + ValueBytes(vs) + v + [1];
  }

  lemma {:induction false} HeaderBytesSnoc(hs: seq<(Text, seq<Text>)>, h: (Text, seq<Text>))
    ensures HeaderBytes(hs + [h]) == HeaderBytes(hs) + h.0 + [0] + ValueBytes(h.1) + [0]
  {
    if hs == [] {
      assert HeaderBytes([h]) == h.0 + [0] + ValueBytes(h.1) + [0] + HeaderBytes([]);
    } else {
      HeaderBytesSnoc(hs[1..], h);
      assert (hs + [h])[1..] == hs[1..] + [h] && (hs + [h])[0] == hs[0];
      var a, b, c := hs[0].0 + [0] + ValueBytes(hs[0].1) + [0], HeaderBytes(hs[1..]), h.0 + [0] + ValueBytes(h.1) + [0];
      assert a + (b + c) == a + b + c;
    }
  }

  lemma {:induction false} ValueBytesSnoc(vs: seq<Text>, v: Text)
    ensures ValueBytes(vs + [v]) == ValueBytes(vs) + v + [1]
  {
    if vs == [] {
      assert ValueBytes([v]) == v + [1] + ValueBytes([]);
    } else {
      ValueBytesSnoc(vs[1..], v);
      assert (vs + [v])[1..] == vs[1..] + [v];
    }
  }

  /** The loop over the bound headers and their values. */
  method WriteHeaders(start: seq<byte>, keyHeaders: seq<Text>, client: Client) returns (fed: seq<byte>)
    ensures fed == start + HeaderBytes(BoundHeaders(keyHeaders, client))
  {
    fed := start;
    ghost var bound := BoundHeaders(keyHeaders, client);
    for i := 0 to |keyHeaders|
      invariant fed == start + HeaderBytes(bound[..i])
    {
      fed := fed + keyHeaders[i];
      fed := fed + [0];
      ghost var before := fed;
      var values := HeaderValues(client, keyHeaders[i]);
      for j := 0 to |values|
        invariant fed == before + ValueBytes(values[..j])
      {
        FeedValue(before, values[..j], values[j]);
        assert values[..j + 1] == values[..j] + [values[j]];
        fed := fed + values[j];
        fed := fed + [1];
      }
      assert values[..|values|] == values;
      fed := fed + [0];
      FeedHeader(start, bound[..i], bound[i]);
      assert bound[..i + 1] == bound[..i] + [bound[i]];
    }
    assert bound[..|bound|] == bound;
  }

  /** Feeding the hasher piece by piece, then clearing and flagging the first byte. */
  method GetChallengeKeyForRequest(H: Hash, fingerprint: Text, reg: Registration, client: Client, second: int)
    returns (key: Key)
    ensures key == KeyOf(H, fingerprint, reg, client, second)
  {
    var prefix := As16(NetworkPrefix(client.address));
    var fed: seq<byte> := LABEL;
    fed := fed + reg.name;
    fed := fed + [0];
    fed := fed + prefix;
    fed := fed + [0];
    fed := WriteHeaders(fed, reg.keyHeaders, client);
    fed := fed + [0];
    fed := fed + Int64Bytes(second);
    fed := fed + [0];
    fed := fed + fingerprint;
    fed := fed + [0];
    assert fed == RequestPreimage(reg, client, second, fingerprint);
    var sum: seq<byte> := H(fed);
    sum := sum[0 := 0];
    if Unmap(client.address).V4? {
      sum := sum[0 := 1];
    }
    key := sum;
  }

  // ------------------------------------------------------------------ injectivity

  predicate Lacks(s: seq<byte>, b: byte) { forall i :: 0 <= i < |s| ==> s[i] != b }

  predicate CleanValues(vs: seq<Text>)
  {
    forall i :: 0 <= i < |vs| ==> Lacks(vs[i], 0) && Lacks(vs[i], 1)
  }

  /** Header names are not empty and hold no zero byte; values hold neither zero nor one. */
  predicate CleanHeaders(hs: seq<(Text, seq<Text>)>)
  {
    forall i :: 0 <= i < |hs| ==> hs[i].0 != [] && Lacks(hs[i].0, 0) && CleanValues(hs[i].1)
  }

  /** A list of values ends where a zero byte stands in the place of a value. */
  lemma ValueBytesUnfold(vs: seq<Text>, r: seq<byte>)
    requires CleanValues(vs)
    ensures vs == [] ==> ValueBytes(vs) + [0] + r == [0] + r
    ensures vs != [] ==> ValueBytes(vs) + [0] + r == vs[0] + [1] + (ValueBytes(vs[1..]) + [0] + r)
    ensures (ValueBytes(vs) + [0] + r)[0] == 0 <==> vs == []
  {
    if vs != [] {
      var head, rest := vs[0] + [1], ValueBytes(vs[1..]);
      assert head[0] != 0;
      assert head + rest + [0] + r == head + (rest + [0] + r);
    }
  }

  lemma {:induction false} ValueBytesInjective(vs: seq<Text>, ws: seq<Text>, r: seq<byte>, s: seq<byte>)
    requires CleanValues(vs) && CleanValues(ws)
    requires ValueBytes(vs) + [0] + r == ValueBytes(ws) + [0] + s
    ensures vs == ws && r == s
    decreases |vs|
  {
    ValueBytesUnfold(vs, r);
    ValueBytesUnfold(ws, s);
    if vs == [] {
      assert r == ([0] + r)[1..] && s == ([0] + s)[1..];
    } else {
      var r', s' := ValueBytes(vs[1..]) + [0] + r, ValueBytes(ws[1..]) + [0] + s;
      UniqueCut(vs[0], ws[0], 1, r', s');
      ValueBytesInjective(vs[1..], ws[1..], r, s);
      assert vs == [vs[0]] + vs[1..] && ws == [ws[0]] + ws[1..];
    }
  }

  lemma HeaderBytesUnfold(hs: seq<(Text, seq<Text>)>, r: seq<byte>)
    requires CleanHeaders(hs)
    ensures hs == [] ==> HeaderBytes(hs) + [0] + r == [0] + r
    ensures hs != [] ==>
      (HeaderBytes(hs) + [0] + r == hs[0].0 + [0] + (ValueBytes(hs[0].1) + [0] + (HeaderBytes(hs[1..]) + [0] + r)))
    ensures (HeaderBytes(hs) + [0] + r)[0] == 0 <==> hs == []
  {
    if hs != [] {
      var k, v, rest := hs[0].0, ValueBytes(hs[0].1), HeaderBytes(hs[1..]);
      assert k + [0] + v + [0] + rest + [0] + r == k + [0] + (v + [0] + (rest + [0] + r));
    }
  }

  lemma {:induction false} HeaderBytesInjective(hs: seq<(Text, seq<Text>)>, gs: seq<(Text, seq<Text>)>,
                                                r: seq<byte>, s: seq<byte>)
    requires CleanHeaders(hs) && CleanHeaders(gs)
    requires HeaderBytes(hs) + [0] + r == HeaderBytes(gs) + [0] + s
    ensures hs == gs && r == s
    decreases |hs|
  {
    HeaderBytesUnfold(hs, r);
    HeaderBytesUnfold(gs, s);
    if hs == [] {
      assert r == ([0] + r)[1..] && s == ([0] + s)[1..];
    } else {
      var r'', s'' := HeaderBytes(hs[1..]) + [0] + r, HeaderBytes(gs[1..]) + [0] + s;
      UniqueCut(hs[0].0, gs[0].0, 0, ValueBytes(hs[0].1) + [0] + r'', ValueBytes(gs[0].1) + [0] + s'');
      ValueBytesInjective(hs[0].1, gs[0].1, r'', s'');
      HeaderBytesInjective(hs[1..], gs[1..], r, s);
      assert hs == [hs[0]] + hs[1..] && gs == [gs[0]] + gs[1..];
    }
  }

  predicate Int64(v: int) { -0x8000_0000_0000_0000 <= v < 0x8000_0000_0000_0000 }

  lemma Int64BytesInjective(v: int, w: int)
    requires Int64(v) && Int64(w) && Int64Bytes(v) == Int64Bytes(w)
    ensures v == w
  {
    Pow2Word();
    WrapOnce(v, 0x1_0000_0000_0000_0000);
    WrapOnce(w, 0x1_0000_0000_0000_0000);
    LittleEndianBytesInjective(8, v % 0x1_0000_0000_0000_0000, w % 0x1_0000_0000_0000_0000);
  }

  lemma WrapOnce(v: int, n: int)
    requires -n <= v < n
    ensures v % n == if v < 0 then v + n else v
  {
  }

  /** The fixed-width tail of a preimage. */
  lemma TailInjective(second: int, fp: Text, second': int, fp': Text)
    requires Int64(second) && Int64(second')
    requires Int64Bytes(second) + [0] + fp + [0] == Int64Bytes(second') + [0] + fp' + [0]
    ensures second == second' && fp == fp'
  {
    var t, t' := Int64Bytes(second) + [0] + fp + [0], Int64Bytes(second') + [0] + fp' + [0];
    assert Int64Bytes(second) == t[..8] && Int64Bytes(second') == t'[..8];
    Int64BytesInjective(second, second');
    assert fp == t[9..|t| - 1] && fp' == t'[9..|t'| - 1];
  }

  lemma PreimageUnfold(name: Text, prefix: Bytes16, hs: seq<(Text, seq<Text>)>, second: int, fp: Text)
    ensures Preimage(name, prefix, hs, second, fp)[|LABEL|..] ==
      name + [0] + (prefix + ([0] + (HeaderBytes(hs) + [0] + (Int64Bytes(second) + [0] + fp + [0]))))
  {
  }

  /**
    The hashed text of a key determines everything it is made of: the challenge, the network,
    every bound header with its values, the expiration second and the server.
   */
  lemma PreimageInjective(name: Text, prefix: Bytes16, hs: seq<(Text, seq<Text>)>, second: int, fp: Text,
                          name': Text, prefix': Bytes16, hs': seq<(Text, seq<Text>)>, second': int, fp': Text)
    requires Lacks(name, 0) && Lacks(name', 0) && CleanHeaders(hs) && CleanHeaders(hs')
    requires Int64(second) && Int64(second')
    requires Preimage(name, prefix, hs, second, fp) == Preimage(name', prefix', hs', second', fp')
    ensures name == name' && prefix == prefix' && hs == hs' && second == second' && fp == fp'
  {
    var t, t' := Int64Bytes(second) + [0] + fp + [0], Int64Bytes(second') + [0] + fp' + [0];
    var u, u' := [0] + (HeaderBytes(hs) + [0] + t), [0] + (HeaderBytes(hs') + [0] + t');
    PreimageUnfold(name, prefix, hs, second, fp);
    PreimageUnfold(name', prefix', hs', second', fp');
    UniqueCut(name, name', 0, prefix + u, prefix' + u');
    assert prefix == (prefix + u)[..16] && prefix' == (prefix' + u')[..16];
    assert u[1..] == (prefix + u)[17..] && u'[1..] == (prefix' + u')[17..];
    HeaderBytesInjective(hs, hs', t, t');
    TailInjective(second, fp, second', fp');
  }

  /** Without the rule on values it is not so: a one byte inside a value reads as two values. */
  lemma SeparatorInValueCollides(name: Text, prefix: Bytes16, k: Text, v: Text, w: Text, second: int, fp: Text)
    ensures Preimage(name, prefix, [(k, [v + [1] + w])], second, fp) == Preimage(name, prefix, [(k, [v, w])], second, fp)
  {
    ValueBytesSnoc([], v + [1] + w);
    ValueBytesSnoc([], v);
    ValueBytesSnoc([v], w);
    assert [] + [v] == [v] && [v] + [w] == [v, w] && [] + [v + [1] + w] == [v + [1] + w];
    assert ValueBytes([v + [1] + w]) == ValueBytes([v, w]);
    HeaderBytesSnoc([], (k, [v + [1] + w]));
    HeaderBytesSnoc([], (k, [v, w]));
    assert [] + [(k, [v, w])] == [(k, [v, w])] && [] + [(k, [v + [1] + w])] == [(k, [v + [1] + w])];
  }

  /** Two different texts whose digests agree past the first byte. */
  predicate Collision(H: Hash, p: seq<byte>, q: seq<byte>)
  {
    p != q && H(p)[1..] == H(q)[1..]
  }

  predicate CleanRequest(reg: Registration, client: Client, second: int)
  {
    && Lacks(reg.name, 0) && CleanHeaders(BoundHeaders(reg.keyHeaders, client))
    && Int64(second)
  }

  /** What a key of the challenge depends on in a client: its network and the bound headers. */
  predicate SameClient(a: Client, b: Client, reg: Registration)
  {
    && SameNetwork(a.address, b.address)
    && forall i :: 0 <= i < |reg.keyHeaders| ==> SameValues(a, b, reg.keyHeaders[i])
  }

  /** Both sent the header with the same values in the same order, or neither with any. */
  predicate SameValues(a: Client, b: Client, k: Text)
  {
    || (k in a.headers && k in b.headers && a.headers[k] == b.headers[k])
    || (!HasValues(a, k) && !HasValues(b, k))
  }

  predicate HasValues(client: Client, k: Text) { k in client.headers && client.headers[k] != [] }

  /** It is what the hashed text holds of the client. */
  lemma SameClientIff(a: Client, b: Client, reg: Registration)
    ensures SameClient(a, b, reg) <==>
      As16(NetworkPrefix(a.address)) == As16(NetworkPrefix(b.address)) &&
      BoundHeaders(reg.keyHeaders, a) == BoundHeaders(reg.keyHeaders, b)
  {
    SamePrefixIffSameNetwork(a.address, b.address);
    var hs, gs := BoundHeaders(reg.keyHeaders, a), BoundHeaders(reg.keyHeaders, b);
    assert forall i :: 0 <= i < |reg.keyHeaders| ==>
      hs[i] == (reg.keyHeaders[i], HeaderValues(a, reg.keyHeaders[i])) &&
      gs[i] == (reg.keyHeaders[i], HeaderValues(b, reg.keyHeaders[i]));
    assert forall i :: 0 <= i < |reg.keyHeaders| ==>
      (SameValues(a, b, reg.keyHeaders[i]) <==> HeaderValues(a, reg.keyHeaders[i]) == HeaderValues(b, reg.keyHeaders[i]));
    if hs == gs {
      assert forall i :: 0 <= i < |reg.keyHeaders| ==> hs[i].1 == gs[i].1;
    }
  }

  /** Clients that are the same for a challenge have the same key for it, at any second. */
  lemma SameClientSameKey(H: Hash, fp: Text, reg: Registration, a: Client, b: Client, second: int)
    requires SameClient(a, b, reg)
    ensures KeyOf(H, fp, reg, a, second) == KeyOf(H, fp, reg, b, second)
  {
    SameClientIff(a, b, reg);
    PrefixDeterminesFamily(a.address, b.address);
  }

  /** Equal keys mean the same challenge name, network, family, headers and second, or a hash collision. */
  lemma KeyBinds(H: Hash, fp: Text, reg: Registration, client: Client, second: int,
                 fp': Text, reg': Registration, client': Client, second': int)
    requires CleanRequest(reg, client, second) && CleanRequest(reg', client', second')
    requires KeyOf(H, fp, reg, client, second) == KeyOf(H, fp', reg', client', second')
    ensures Collision(H, RequestPreimage(reg, client, second, fp), RequestPreimage(reg', client', second', fp'))
         || (&& reg.name == reg'.name && second == second' && fp == fp'
             && SameNetwork(client.address, client'.address)
             && BoundHeaders(reg.keyHeaders, client) == BoundHeaders(reg'.keyHeaders, client'))
  {
    var p, p' := RequestPreimage(reg, client, second, fp), RequestPreimage(reg', client', second', fp');
    var k, k' := KeyOf(H, fp, reg, client, second), KeyOf(H, fp', reg', client', second');
    assert H(p)[1..] == k[1..] && H(p')[1..] == k'[1..];
    if p == p' {
      PreimageInjective(reg.name, As16(NetworkPrefix(client.address)), BoundHeaders(reg.keyHeaders, client), second, fp,
                        reg'.name, As16(NetworkPrefix(client'.address)), BoundHeaders(reg'.keyHeaders, client'), second', fp');
      SamePrefixIffSameNetwork(client.address, client'.address);
    }
  }

  /** One challenge on one server: equal keys mean the same client and second, or a collision. */
  lemma KeyBindsClient(H: Hash, fp: Text, reg: Registration, a: Client, s: int, b: Client, t: int)
    requires CleanRequest(reg, a, s) && CleanRequest(reg, b, t)
    requires KeyOf(H, fp, reg, a, s) == KeyOf(H, fp, reg, b, t)
    ensures Collision(H, RequestPreimage(reg, a, s, fp), RequestPreimage(reg, b, t, fp)) || (s == t && SameClient(a, b, reg))
  {
    KeyBinds(H, fp, reg, a, s, fp, reg, b, t);
    SameClientIff(a, b, reg);
    SamePrefixIffSameNetwork(a.address, b.address);
  }

  // ----------------------------------------------------------------- key verifier

  datatype VerifyError = NoProblem | NotHex | InvalidToken | MismatchedToken | MismatchedHappyEyeballs

  datatype Verdict = Verdict(result: VerifyResult, error: VerifyError)

  /** `NewKeyVerifier`: the token must spell the key. */
  function VerifyKey(key: Key, token: Text): Verdict
  {
    var decoded := Hex.DecodedOf(token);
    if decoded.error != None then Verdict(ResultFail, NotHex)
    else if |decoded.out| != 32 then Verdict(ResultFail, InvalidToken)
    else if key == decoded.out then Verdict(ResultOK, NoProblem)
    else if !HasIPv4Flag(key) && HasIPv4Flag(decoded.out) then Verdict(ResultOK, MismatchedHappyEyeballs)
    else Verdict(ResultFail, MismatchedToken)
  }

  /** The issued token of a key is accepted for that key, and an accepted token spells no other. */
  lemma IssuedTokenVerifies(key: Key, other: Key)
    ensures VerifyKey(key, Hex.Encoded(key)) == Verdict(ResultOK, NoProblem)
    ensures VerifyKey(key, Hex.Encoded(other)) == Verdict(ResultOK, NoProblem) ==> key == other
  {
    Hex.DecodeEncode(key);
    Hex.DecodeEncode(other);
  }

  /** What each text is worth: only a spelling of the key verifies, in either case of its digits. */
  lemma KeyVerifierExactly(key: Key, token: Text)
    ensures var v, decoded := VerifyKey(key, token), Hex.DecodedOf(token);
      && (v == Verdict(ResultOK, NoProblem) <==> decoded == Hex.Decoded(key, None))
      && (v.error == NotHex <==> decoded.error.Some?)
      && (v.error == InvalidToken <==> decoded.error.None? && |decoded.out| != 32)
      && (v.error in {NotHex, InvalidToken, MismatchedToken} ==> v.result == ResultFail)
  {
  }

  /** A token issued over IPv4 and sent over IPv6 is told apart from every other mismatch. */
  lemma HappyEyeballs(H: Hash, fp: Text, reg: Registration, issuedTo: Client, usedBy: Client, s: int, t: int)
    ensures VerifyKey(KeyOf(H, fp, reg, usedBy, t), Hex.Encoded(KeyOf(H, fp, reg, issuedTo, s))).error == MismatchedHappyEyeballs
       <==> StandsForV4(issuedTo.address) && !StandsForV4(usedBy.address)
  {
    UnmapIs(issuedTo.address);
    UnmapIs(usedBy.address);
    Hex.DecodeEncode(KeyOf(H, fp, reg, issuedTo, s));
  }
}
