/** The JA4 fingerprint: its readable part and the texts of its two hashes (utils/fingerprint.go). */
module Ja4Texts {
  import opened Bytes
  import opened Ja3Texts
  import opened Grease
  import opened Numbers

  const UNDERSCORE: byte := 95
  const ZERO: byte := 48

  datatype Ja4 = Ja4(a: Bytestring, b: Bytestring, c: Bytestring)

  // ------------------------------------------------------------------- readable part

  /** Versions without a name are written as two decimal bytes, after a 16-bit subtraction. */
  function VersionText(v: uint16): Bytestring
  {
    if v == SSL30 then [115, 51]
    else if v == TLS10 then [49, 48]
    else if v == TLS11 then [49, 49]
    else if v == TLS12 then [49, 50]
    else if v == TLS13 then [49, 51]
    else
      var w := (v - 0x0201) % 0x10000;
      Decimal(w / 256) + Decimal(w % 256)
  }

  /** Counts take two digits and stop at 99. */
  function CountText(n: nat): Bytestring
  {
    if n < 10 then [ZERO] + Decimal(n) else if n > 99 then [57, 57] else Decimal(n)
  }

  lemma CountSaturates(n: nat)
    ensures var m := if n < 99 then n else 99;
      CountText(n) == [48 + m / 10, 48 + m % 10]
  {
    if 10 <= n <= 99 {
      assert Decimal(n / 10) == [48 + n / 10];
    }
  }

  /** The first and the last byte of the first protocol, if it has two. */
  function ProtoText(protos: seq<Bytestring>): (s: Bytestring)
    ensures |s| == 2
  {
    if |protos| > 0 && |protos[0]| > 1 then [protos[0][0], protos[0][|protos[0]| - 1]] else [ZERO, ZERO]
  }

  function NamesServer(h: Hello): bool { SERVER_NAME in h.extensions && h.serverName != [] }

  function Ja4Version(h: Hello): uint16 { Greatest(NoGrease(h.versions)) }

  /** The readable part before it is copied into ten bytes. */
  function Readable(h: Hello): Bytestring
  {
    [116] + VersionText(Ja4Version(h)) + [if NamesServer(h) then 100 else 105]
    + CountText(|NoGrease(h.ciphers)|) + CountText(|NoGrease(h.extensions)|) + ProtoText(h.protos)
  }

  /** Versions that are written in two bytes. */
  predicate IsTwoDigits(v: uint16)
  {
    SSL30 <= v <= TLS13 || ((v - 0x0201) % 0x10000 / 256 < 10 && (v - 0x0201) % 0x10000 % 256 < 10)
  }

  lemma DecimalLength(n: nat)
    ensures |Decimal(n)| == 1 <==> n < 10
  {
    if n >= 10 {
      assert |Decimal(n / 10)| >= 1;
    }
  }

  lemma VersionLength(v: uint16)
    ensures |VersionText(v)| >= 2 && (|VersionText(v)| == 2 <==> IsTwoDigits(v))
  {
    var w := (v - 0x0201) % 0x10000;
    DecimalLength(w / 256);
    DecimalLength(w % 256);
  }

  /** The readable part fills the ten bytes, and is cut off exactly for the other versions. */
  lemma ReadableIsWhole(h: Hello)
    ensures |Readable(h)| >= 10 && (|Readable(h)| == 10 <==> IsTwoDigits(Ja4Version(h)))
  {
    VersionLength(Ja4Version(h));
    CountSaturates(|NoGrease(h.ciphers)|);
    CountSaturates(|NoGrease(h.extensions)|);
  }

  /** Named versions: "s3", "10", "11", "12" and "13". */
  lemma NamedVersionIs(v: uint16)
    ensures v == 0x0300 ==> VersionText(v) == ['s' as int, '3' as int]
    ensures 0x0301 <= v <= 0x0304 ==> VersionText(v) == ['1' as int, '0' as int + (v - 0x0301)]
  {
  }

  /** Any other is its two bytes less 2 and 1, in decimal, wrapping below. */
  lemma OtherVersionIs(v: uint16, w: nat)
    requires !(0x0300 <= v <= 0x0304) && w == if v < 0x0201 then v + 0xFDFF else v - 0x0201
    ensures VersionText(v) == Decimal(w / 256) + Decimal(w % 256)
  {
    assert (v - 0x0201) % 0x10000 == w;
  }

  /** The ten bytes of a client with a version of two digits, one after the other. */
  lemma ReadableParts(h: Hello)
    requires IsTwoDigits(Ja4Version(h))
    ensures var s, n, m := Readable(h), |NoGrease(h.ciphers)|, |NoGrease(h.extensions)|;
      && |s| == 10 && s[0] == 't' as int && s[1..3] == VersionText(Ja4Version(h))
      && (s[3] == 'd' as int <==> 0 in h.extensions && h.serverName != []) && s[3] in ['d' as int, 'i' as int]
      && s[4..6] == CountText(n) && s[6..8] == CountText(m)
      && (if h.protos != [] && |h.protos[0]| >= 2 then s[8] == h.protos[0][0] && s[9] == h.protos[0][|h.protos[0]| - 1]
          else s[8] == '0' as int && s[9] == '0' as int)
  {
    ReadableIsWhole(h);
    VersionLength(Ja4Version(h));
    CountSaturates(|NoGrease(h.ciphers)|);
    CountSaturates(|NoGrease(h.extensions)|);
    SixParts([116], VersionText(Ja4Version(h)), [if NamesServer(h) then 100 else 105],
             CountText(|NoGrease(h.ciphers)|), CountText(|NoGrease(h.extensions)|), ProtoText(h.protos));
  }

  lemma SixParts(t: Bytestring, v: Bytestring, k: Bytestring, c: Bytestring, d: Bytestring, p: Bytestring)
    requires |t| == 1 && |v| == 2 && |k| == 1 && |c| == 2 && |d| == 2 && |p| == 2
    ensures var s := t + v + k + c + d + p;
      && s[0] == t[0] && s[1..3] == v && s[3] == k[0] && s[4..6] == c && s[6..8] == d && s[8] == p[0] && s[9] == p[1]
  {
  }

  // ------------------------------------------------------------------------- hashes

  /** Server name and protocol are in the readable part and not hashed. */
  predicate IsNamedPart(v: uint16) { v == ALPN || v == SERVER_NAME }

  function Shown(s: seq<uint16>): seq<uint16> { Without(NoGrease(s), IsNamedPart) }

  function HashedExtensions(h: Hello): seq<uint16> { Shown(h.extensions) }

  function CipherText(h: Hello): Bytestring { HexList(Sorted(NoGrease(h.ciphers))) }

  /** The extensions, then the signature schemes if there are any. */
  function WithSchemes(extensions: Bytestring, schemes: seq<uint16>): Bytestring
  {
    if schemes == [] then extensions else extensions + [UNDERSCORE] + HexList(schemes)
  }

  function ExtensionText(h: Hello): Bytestring
  {
    WithSchemes(HexList(Sorted(HashedExtensions(h))), NoGrease(h.schemes))
  }

  /** Six bytes of the hash, or zeros for an empty text. */
  function ShortHash(sha: Bytestring -> Digest, buf: Bytestring): Bytestring
  {
    if |buf| == 0 then [0, 0, 0, 0, 0, 0] else sha(buf)[..6]
  }

  /** Short hashes are equal for equal texts, and otherwise only when the first six bytes of the hash collide or are zeros. */
  lemma ShortHashIs(sha: Bytestring -> Digest, s: Bytestring, t: Bytestring)
    ensures |ShortHash(sha, s)| == 6
    ensures s != [] ==> forall i :: 0 <= i < 6 ==> ShortHash(sha, s)[i] == sha(s)[i]
    ensures ShortHash(sha, []) == [0, 0, 0, 0, 0, 0]
    ensures s != [] && t != [] ==> (ShortHash(sha, s) == ShortHash(sha, t) <==> sha(s)[..6] == sha(t)[..6])
  {
  }

  function Ja4Of(h: Hello, sha: Bytestring -> Digest): Ja4
  {
    ReadableIsWhole(h);
    Ja4(Readable(h)[..10], ShortHash(sha, CipherText(h)), ShortHash(sha, ExtensionText(h)))
  }

  // ------------------------------------------------------------------------- methods

  method Ungreased(list: seq<uint16>) returns (out: seq<uint16>)
    ensures out == NoGrease(list)
  {
    out := [];
    for i := 0 to |list|
      invariant out == NoGrease(list[..i])
    {
      assert list[..i + 1] == list[..i] + [list[i]];
      WithoutSnoc(list[..i], list[i], IsGrease);
      if !IsGrease(list[i]) {
        out := out + [list[i]];
      }
    }
    assert list[..|list|] == list;
  }

  /** All extensions but GREASE count; those with a place of their own are not listed. */
  method CountAndKeep(list: seq<uint16>) returns (count: nat, out: seq<uint16>)
    ensures count == |NoGrease(list)| && out == Without(NoGrease(list), IsNamedPart)
  {
    count, out := 0, [];
    for i := 0 to |list|
      invariant count == |NoGrease(list[..i])| && out == Without(NoGrease(list[..i]), IsNamedPart)
    {
      assert list[..i + 1] == list[..i] + [list[i]];
      WithoutSnoc(list[..i], list[i], IsGrease);
      if !IsGrease(list[i]) {
        WithoutSnoc(NoGrease(list[..i]), list[i], IsNamedPart);
        count := count + 1;
        if list[i] != ALPN && list[i] != SERVER_NAME {
          out := out + [list[i]];
        }
      }
    }
    assert list[..|list|] == list;
  }

  method Uint16SliceToHex(list: seq<uint16>) returns (out: Bytestring)
    ensures out == HexList(list)
  {
    if |list| == 0 {
      return [];
    }
    out := [];
    for i := 0 to |list|
      invariant out == Terminated(Hex4s(list[..i]), COMMA)
    {
      assert Hex4s(list[..i + 1]) == Hex4s(list[..i]) + [Hex4(list[i])];
      TerminatedSnoc(Hex4s(list[..i]), Hex4(list[i]), COMMA);
      out := out + Hex4(list[i]);
      out := out + [COMMA];
    }
    assert list[..|list|] == list;
    TerminatedIsJoined(Hex4s(list), COMMA);
    out := out[..|out| - 1];
  }

  method AppendVersion(buf: Bytestring, version: uint16) returns (out: Bytestring)
    ensures out == buf + VersionText(version)
  {
    if version == SSL30 {
      out := buf + [115, 51];
    } else if version == TLS10 {
      out := buf + [49, 48];
    } else if version == TLS11 {
      out := buf + [49, 49];
    } else if version == TLS12 {
      out := buf + [49, 50];
    } else if version == TLS13 {
      out := buf + [49, 51];
    } else {
      var w := (version - 0x0201) % 0x10000;
      out := buf + Decimal(w / 256);
      out := out + Decimal(w % 256);
    }
  }

  method AppendCount(buf: Bytestring, n: nat) returns (out: Bytestring)
    ensures out == buf + CountText(n)
  {
    if n < 10 {
      out := buf + [ZERO];
      out := out + Decimal(n);
    } else if n > 99 {
      out := buf + [57, 57];
    } else {
      out := buf + Decimal(n);
    }
  }

  method Fingerprint(h: Hello, sha: Bytestring -> Digest) returns (r: Ja4)
    ensures r == Ja4Of(h, sha)
  {
    var buf: Bytestring := [116];
    var version, _ := MaxVersion(h.versions);
    buf := AppendVersion(buf, version);
    if SERVER_NAME in h.extensions && h.serverName != [] {
      buf := buf + [100];
    } else {
      buf := buf + [105];
    }
    var ciphers := Ungreased(h.ciphers);
    var count, extensions := CountAndKeep(h.extensions);
    var schemes := Ungreased(h.schemes);
    SortedCounts(ciphers);
    assert |Sorted(ciphers)| == |multiset(Sorted(ciphers))| == |multiset(ciphers)| == |ciphers|;
    ciphers := Sorted(ciphers);
    extensions := Sorted(extensions);
    buf := AppendCount(buf, |ciphers|);
    buf := AppendCount(buf, count);
    if |h.protos| > 0 && |h.protos[0]| > 1 {
      buf := buf + [h.protos[0][0], h.protos[0][|h.protos[0]| - 1]];
    } else {
      buf := buf + [ZERO, ZERO];
    }
    assert buf == Readable(h);
    ReadableIsWhole(h);
    var cipherText := Uint16SliceToHex(ciphers);
    var extBuf := Uint16SliceToHex(extensions);
    if |schemes| > 0 {
      extBuf := extBuf + [UNDERSCORE];
      var text := Uint16SliceToHex(schemes);
      extBuf := extBuf + text;
    }
    assert extBuf == ExtensionText(h);
    r := Ja4(buf[..10], ShortHash(sha, cipherText), ShortHash(sha, extBuf));
  }

  // ---------------------------------------------------------------------- invariance

  /** The hashed text of the ciphers tells apart exactly what are no permutations without GREASE. */
  lemma CipherTextDetermines(h: Hello, k: Hello)
    ensures CipherText(h) == CipherText(k) <==> multiset(NoGrease(h.ciphers)) == multiset(NoGrease(k.ciphers))
  {
    SortedIffPermutation(NoGrease(h.ciphers), NoGrease(k.ciphers));
    if CipherText(h) == CipherText(k) {
      HexListInjective(Sorted(NoGrease(h.ciphers)), Sorted(NoGrease(k.ciphers)));
    }
  }

  lemma NoUnderscore(s: seq<uint16>)
    ensures UNDERSCORE !in HexList(s)
  {
    JoinHasNoOther(Hex4s(s), COMMA, UNDERSCORE);
  }

  lemma WithSchemesInjective(e: Bytestring, f: Bytestring, s: seq<uint16>, t: seq<uint16>)
    requires UNDERSCORE !in e && UNDERSCORE !in f && WithSchemes(e, s) == WithSchemes(f, t)
    ensures e == f && s == t
  {
    if s != [] {
      assert WithSchemes(e, s)[|e|] == UNDERSCORE;
    }
    if t != [] {
      assert WithSchemes(f, t)[|f|] == UNDERSCORE;
    }
    if s != [] && t != [] {
      UniqueCut(e, f, UNDERSCORE, HexList(s), HexList(t));
      HexListInjective(s, t);
    }
  }

  /** That of the extensions: the extensions as a multiset, the schemes in order. */
  lemma ExtensionTextDetermines(h: Hello, k: Hello)
    ensures ExtensionText(h) == ExtensionText(k) <==>
            multiset(HashedExtensions(h)) == multiset(HashedExtensions(k)) && NoGrease(h.schemes) == NoGrease(k.schemes)
  {
    SortedIffPermutation(HashedExtensions(h), HashedExtensions(k));
    if ExtensionText(h) == ExtensionText(k) {
      var e, f := Sorted(HashedExtensions(h)), Sorted(HashedExtensions(k));
      NoUnderscore(e);
      NoUnderscore(f);
      WithSchemesInjective(HexList(e), HexList(f), NoGrease(h.schemes), NoGrease(k.schemes));
      HexListInjective(e, f);
    }
  }

  /**
    Hellos that agree up to GREASE anywhere, the order of ciphers and extensions, and the order
    of the versions offered.
   */
  predicate AgreeUpToOrderAndGrease(h: Hello, k: Hello)
  {
    && multiset(NoGrease(h.versions)) == multiset(NoGrease(k.versions))
    && multiset(NoGrease(h.ciphers)) == multiset(NoGrease(k.ciphers))
    && multiset(NoGrease(h.extensions)) == multiset(NoGrease(k.extensions))
    && NoGrease(h.schemes) == NoGrease(k.schemes)
    && h.serverName == k.serverName && h.protos == k.protos
  }

  lemma SameGreatest(s: seq<uint16>, t: seq<uint16>)
    requires multiset(s) == multiset(t)
    ensures Greatest(s) == Greatest(t)
  {
    forall v ensures v in s <==> v in t {
      assert v in multiset(s) <==> v in multiset(t);
    }
    GreatestIs(s, Greatest(t));
  }

  lemma SameLength(s: seq<uint16>, t: seq<uint16>)
    requires multiset(s) == multiset(t)
    ensures |s| == |t|
  {
    assert |multiset(s)| == |s| && |multiset(t)| == |t|;
  }

  lemma SameNamesServer(h: Hello, k: Hello)
    requires multiset(NoGrease(h.extensions)) == multiset(NoGrease(k.extensions)) && h.serverName == k.serverName
    ensures NamesServer(h) == NamesServer(k)
  {
    WithoutKeeps(h.extensions, SERVER_NAME, IsGrease);
    WithoutKeeps(k.extensions, SERVER_NAME, IsGrease);
    assert SERVER_NAME in multiset(NoGrease(h.extensions)) <==> SERVER_NAME in multiset(NoGrease(k.extensions));
  }

  lemma SameReadable(h: Hello, k: Hello)
    requires AgreeUpToOrderAndGrease(h, k)
    ensures Readable(h) == Readable(k)
  {
    SameGreatest(NoGrease(h.versions), NoGrease(k.versions));
    SameNamesServer(h, k);
    SameLength(NoGrease(h.ciphers), NoGrease(k.ciphers));
    SameLength(NoGrease(h.extensions), NoGrease(k.extensions));
  }

  /** The fingerprint does not see the order of ciphers, extensions and versions, nor GREASE. */
  lemma Ja4IgnoresOrderAndGrease(h: Hello, k: Hello, sha: Bytestring -> Digest)
    requires AgreeUpToOrderAndGrease(h, k)
    ensures Ja4Of(h, sha) == Ja4Of(k, sha)
  {
    SameReadable(h, k);
    CipherTextDetermines(h, k);
    PermutedStaysPermuted(NoGrease(h.extensions), NoGrease(k.extensions), IsNamedPart);
    ExtensionTextDetermines(h, k);
  }

  /** A permuted list, and a list with GREASE put in, agree with the list in that sense. */
  lemma PermutingAndGreasingAgree(h: Hello, ciphers: seq<uint16>, extensions: seq<uint16>, i: nat, j: nat, g: uint16)
    requires multiset(ciphers) == multiset(h.ciphers) && multiset(extensions) == multiset(h.extensions)
    requires IsGrease(g) && i <= |h.schemes| && j <= |h.versions|
    ensures AgreeUpToOrderAndGrease(h, h.(ciphers := ciphers + [g], extensions := [g] + extensions,
      schemes := h.schemes[..i] + [g] + h.schemes[i..], versions := h.versions[..j] + [g] + h.versions[j..]))
  {
    PermutedStaysPermuted(ciphers, h.ciphers, IsGrease);
    PermutedStaysPermuted(extensions, h.extensions, IsGrease);
    WithoutSnoc(ciphers, g, IsGrease);
    assert ([g] + extensions)[1..] == extensions;
    DroppedAreInvisible(h.schemes, i, g, IsGrease);
    DroppedAreInvisible(h.versions, j, g, IsGrease);
  }

  /** Read back, the ciphers' text is the ciphers without GREASE in ascending order. */
  lemma CipherTextReadsBack(h: Hello)
    ensures var read := ReadHexList(CipherText(h));
      && read == Sorted(NoGrease(h.ciphers)) && (forall i, j :: 0 <= i < j < |read| ==> read[i] <= read[j])
  {
    HexListReadsBack(Sorted(NoGrease(h.ciphers)));
    SortedIsOrdered(NoGrease(h.ciphers));
    OrderedAscends(Sorted(NoGrease(h.ciphers)));
  }

  /** That of the extensions is theirs in ascending order, then, if there are any, the schemes as they came. */
  lemma ExtensionTextReadsBack(h: Hello)
    ensures var parts := Pieces(ExtensionText(h), UNDERSCORE);
      && ReadHexList(parts[0]) == Sorted(Without(NoGrease(h.extensions), IsNamedPart))
      && (if |parts| == 1 then NoGrease(h.schemes) == [] else |parts| == 2 && ReadHexList(parts[1]) == NoGrease(h.schemes))
  {
    var e, s := HexList(Sorted(HashedExtensions(h))), NoGrease(h.schemes);
    HexListReadsBack(Sorted(HashedExtensions(h)));
    HexListReadsBack(s);
    NoUnderscore(Sorted(HashedExtensions(h)));
    NoUnderscore(s);
    OnePiece(e, UNDERSCORE);
    OnePiece(HexList(s), UNDERSCORE);
    FirstPiece(e, HexList(s), UNDERSCORE);
  }

  /** A list with one more value in it. */
  function Put(s: seq<uint16>, i: nat, v: uint16): seq<uint16>
    requires i <= |s|
  {
    s[..i] + [v] + s[i..]
  }

  lemma PutCounts(s: seq<uint16>, i: nat, v: uint16)
    requires i <= |s|
    ensures multiset(Put(s, i, v))[v] == multiset(s)[v] + 1
  {
    assert s == s[..i] + s[i..];
  }

  lemma ShownCounts(s: seq<uint16>, v: uint16)
    requires !IsGrease(v) && !IsNamedPart(v)
    ensures multiset(Shown(s))[v] == multiset(s)[v]
  {
    WithoutCounts(s, v, IsGrease);
    WithoutCounts(NoGrease(s), v, IsNamedPart);
  }

  /** A named part is one more value without GREASE, and then dropped. */
  lemma NamedPartIsHidden(s: seq<uint16>, i: nat, v: uint16)
    requires i <= |s| && !IsGrease(v) && IsNamedPart(v)
    ensures Shown(Put(s, i, v)) == Shown(s)
  {
    WithoutAppend(s[..i] + [v], s[i..], IsGrease);
    WithoutSnoc(s[..i], v, IsGrease);
    WithoutAppend(s[..i], s[i..], IsGrease);
    assert s == s[..i] + s[i..];
    var a, b := NoGrease(s[..i]), NoGrease(s[i..]);
    DroppedAreInvisible(a + b, |a|, v, IsNamedPart);
    assert (a + b)[..|a|] == a && (a + b)[|a|..] == b;
  }

  lemma ShownIff(s: seq<uint16>, i: nat, v: uint16)
    requires i <= |s|
    ensures multiset(Shown(Put(s, i, v))) == multiset(Shown(s)) <==> IsGrease(v) || v == 0 || v == 16
  {
    if IsGrease(v) {
      DroppedAreInvisible(s, i, v, IsGrease);
    } else if IsNamedPart(v) {
      NamedPartIsHidden(s, i, v);
    } else {
      PutCounts(s, i, v);
      ShownCounts(s, v);
      ShownCounts(Put(s, i, v), v);
    }
  }

  /** An extension shows in its hash unless it is GREASE, the server name or the protocols. */
  lemma HiddenIff(h: Hello, i: nat, v: uint16)
    requires i <= |h.extensions|
    ensures ExtensionText(h.(extensions := h.extensions[..i] + [v] + h.extensions[i..])) == ExtensionText(h)
       <==> IsGrease(v) || v == 0 || v == 16
  {
    ExtensionTextDetermines(h.(extensions := Put(h.extensions, i, v)), h);
    ShownIff(h.extensions, i, v);
  }

  /** The three parts are about different things: the second about the ciphers, the third about extensions and schemes. */
  lemma PartsAreApart(h: Hello, k: Hello, sha: Bytestring -> Digest)
    ensures multiset(NoGrease(h.ciphers)) == multiset(NoGrease(k.ciphers)) ==> Ja4Of(h, sha).b == Ja4Of(k, sha).b
    ensures Ja4Of(h, sha).b == Ja4Of(k, sha).b && NoGrease(h.ciphers) != [] && NoGrease(k.ciphers) != [] ==>
      multiset(NoGrease(h.ciphers)) == multiset(NoGrease(k.ciphers)) || SixBytesCollide(sha, CipherText(h), CipherText(k))
    ensures h.extensions == k.extensions && h.schemes == k.schemes ==> Ja4Of(h, sha).c == Ja4Of(k, sha).c
  {
    CipherTextDetermines(h, k);
  }

  predicate SixBytesCollide(sha: Bytestring -> Digest, s: Bytestring, t: Bytestring)
  {
    s != t && sha(s)[..6] == sha(t)[..6]
  }
}
