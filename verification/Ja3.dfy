/** The JA3 fingerprint text, up to the hash, and what both fingerprints read of a client hello (utils/fingerprint.go). */
module Ja3Texts {
  import opened Bytes
  import opened Grease
  import opened Numbers

  const SERVER_NAME: uint16 := 0
  const ALPN: uint16 := 16
  const SUPPORTED_VERSIONS: uint16 := 43

  const SSL30: uint16 := 0x0300
  const TLS10: uint16 := 0x0301
  const TLS11: uint16 := 0x0302
  const TLS12: uint16 := 0x0303
  const TLS13: uint16 := 0x0304

  datatype Hello = Hello(
    versions: seq<uint16>,
    ciphers: seq<uint16>,
    extensions: seq<uint16>,
    curves: seq<uint16>,
    points: seq<byte>,
    schemes: seq<uint16>,
    serverName: Bytestring,
    protos: seq<Bytestring>)

  predicate HasGrease(s: seq<uint16>) { exists i :: 0 <= i < |s| && IsGrease(s[i]) }

  /** The greatest value, or zero. */
  function Greatest(s: seq<uint16>): (m: uint16)
    ensures m == 0 || m in s
    ensures forall i :: 0 <= i < |s| ==> s[i] <= m
  {
    if s == [] then 0
    else
      var m := Greatest(s[1..]);
      if s[0] > m then s[0] else m
  }

  lemma GreatestIs(s: seq<uint16>, m: uint16)
    requires m == 0 || m in s
    requires forall v :: v in s ==> v <= m
    ensures Greatest(s) == m
  {
  }

  /** The loop over the offered versions, the same in both fingerprints. */
  method MaxVersion(versions: seq<uint16>) returns (max: uint16, hasGrease: bool)
    ensures max == Greatest(NoGrease(versions))
    ensures hasGrease <==> HasGrease(versions)
  {
    max, hasGrease := 0, false;
    for i := 0 to |versions|
      invariant max == 0 || (max in versions[..i] && !IsGrease(max))
      invariant forall k :: 0 <= k < i && !IsGrease(versions[k]) ==> versions[k] <= max
      invariant hasGrease <==> HasGrease(versions[..i])
    {
      var v := versions[i];
      assert versions[..i + 1] == versions[..i] + [v];
      assert IsGrease(v) ==> versions[..i + 1][i] == v;
      HasGreaseSnoc(versions[..i], v);
      if !IsGrease(v) {
        if v > max {
          max := v;
        }
      } else {
        hasGrease := true;
      }
    }
    assert versions[..|versions|] == versions;
    forall v: uint16 ensures v in NoGrease(versions) <==> v in versions && !IsGrease(v) {
      WithoutKeeps(versions, v, IsGrease);
    }
    GreatestIs(NoGrease(versions), max);
  }

  lemma HasGreaseSnoc(s: seq<uint16>, v: uint16)
    ensures HasGrease(s + [v]) <==> HasGrease(s) || IsGrease(v)
  {
    var t := s + [v];
    assert t[|s|] == v;
    if HasGrease(s) {
      var i :| 0 <= i < |s| && IsGrease(s[i]);
      assert IsGrease(t[i]);
    }
  }

  // ----------------------------------------------------------------------------- JA3

  /** The version written: that of the hello message when newer ones are offered as an extension with GREASE. */
  function Ja3Version(h: Hello): uint16
  {
    var m := Greatest(NoGrease(h.versions));
    if SUPPORTED_VERSIONS in h.extensions && HasGrease(h.versions) && m > TLS12 then TLS12 else m
  }

  /**
    The version written is the greatest one offered, except that a client that offers more than TLS
    1.2 with GREASE and the supported-versions extension is written as TLS 1.2.
   */
  lemma Ja3VersionIs(h: Hello)
    ensures var m := Greatest(NoGrease(h.versions));
      && (Ja3Version(h) != m <==> m > 0x0303 && 43 in h.extensions && exists i :: 0 <= i < |h.versions| && IsGrease(h.versions[i]))
      && (Ja3Version(h) != m ==> Ja3Version(h) == 0x0303)
  {
  }

  function Ja3Extensions(h: Hello, sort: bool): seq<uint16>
  {
    NoGrease(if sort then Sorted(h.extensions) else h.extensions)
  }

  /** Five fields with commas between them, each a list with dashes between its numbers. */
  function Ja3Text(h: Hello, sort: bool): Bytestring { Join(Ja3Fields(h, sort), COMMA) }

  function Ja3Fields(h: Hello, sort: bool): seq<Bytestring>
  {
    [Decimal(Ja3Version(h)), DashList(NoGrease(h.ciphers)), DashList(Ja3Extensions(h, sort)),
     DashList(NoGrease(h.curves)), DashList(h.points)]
  }

  /** One number with a dash after it. */
  method AppendNumber(buf: Bytestring, start: Bytestring, ghost seen: seq<nat>, v: nat) returns (out: Bytestring)
    requires buf == start + Terminated(Decimals(seen), DASH)
    ensures out == start + Terminated(Decimals(seen + [v]), DASH)
  {
    DecimalsSnoc(seen, v);
    TerminatedSnoc(Decimals(seen), Decimal(v), DASH);
    out := buf + Decimal(v);
    out := out + [DASH];
    assert out == start + (Terminated(Decimals(seen), DASH) + Decimal(v) + [DASH]);
  }

  function Kept(list: seq<uint16>, filter: bool): seq<uint16> { if filter then NoGrease(list) else list }

  lemma KeptSnoc(list: seq<uint16>, i: nat, filter: bool)
    requires i < |list|
    ensures Kept(list[..i + 1], filter)
         == if filter && IsGrease(list[i]) then Kept(list[..i], filter) else Kept(list[..i], filter) + [list[i]]
  {
    assert list[..i + 1] == list[..i] + [list[i]];
    WithoutSnoc(list[..i], list[i], IsGrease);
  }

  /**
    One list: every number with a dash after it, n saying whether there is a last dash to cut off;
    the points are written without a look at GREASE.
   */
  method AppendList(buf: Bytestring, list: seq<uint16>, filter: bool) returns (out: Bytestring)
    ensures out == buf + DashList(Kept(list, filter))
  {
    out := buf;
    var n := 0;
    for i := 0 to |list|
      invariant out == buf + Terminated(Decimals(Kept(list[..i], filter)), DASH)
      invariant n == if Kept(list[..i], filter) == [] then 0 else 1
    {
      KeptSnoc(list, i, filter);
      if !filter || !IsGrease(list[i]) {
        out := AppendNumber(out, buf, Kept(list[..i], filter), list[i]);
        n := 1;
      }
    }
    assert list[..|list|] == list;
    if Kept(list, filter) != [] {
      TerminatedIsJoined(Decimals(Kept(list, filter)), DASH);
    }
    out := out[..|out| - n];
  }

  lemma DecimalsSnoc(s: seq<nat>, v: nat)
    ensures Decimals(s + [v]) == Decimals(s) + [Decimal(v)]
  {
  }

  /** The trailing separators cut off by a counter leave plain joined lists. */
  method Ja3(h: Hello, sort: bool) returns (buf: Bytestring)
    ensures buf == Ja3Text(h, sort)
  {
    var version, hasGrease := MaxVersion(h.versions);
    if SUPPORTED_VERSIONS in h.extensions && hasGrease && version > TLS12 {
      version := TLS12;
    }
    buf := Decimal(version) + [COMMA];
    buf := AppendList(buf, h.ciphers, true);
    buf := buf + [COMMA];
    var extensions := h.extensions;
    if sort {
      extensions := Sorted(extensions);
    }
    buf := AppendList(buf, extensions, true);
    buf := buf + [COMMA];
    buf := AppendList(buf, h.curves, true);
    buf := buf + [COMMA];
    buf := AppendList(buf, h.points, false);
    FiveJoined(Decimal(version), DashList(NoGrease(h.ciphers)), DashList(Ja3Extensions(h, sort)),
               DashList(NoGrease(h.curves)), DashList(h.points));
  }

  lemma FiveJoined(a: Bytestring, b: Bytestring, c: Bytestring, d: Bytestring, e: Bytestring)
    ensures Join([a, b, c, d, e], COMMA)
         == a + [COMMA] + b + [COMMA] + c + [COMMA] + d + [COMMA] + e
  {
    JoinSnoc([a], b, COMMA);
    JoinSnoc([a, b], c, COMMA);
    JoinSnoc([a, b, c], d, COMMA);
    JoinSnoc([a, b, c, d], e, COMMA);
    assert [a] + [b] == [a, b] && [a, b] + [c] == [a, b, c];
    assert [a, b, c] + [d] == [a, b, c, d] && [a, b, c, d] + [e] == [a, b, c, d, e];
  }

  lemma NoCommas(n: nat, s: seq<nat>)
    ensures COMMA !in Decimal(n) && COMMA !in DashList(s)
  {
    JoinHasNoOther(Decimals(s), DASH, COMMA);
  }

  lemma Ja3FieldsHaveNoCommas(h: Hello, sort: bool)
    ensures forall i :: 0 <= i < 5 ==> COMMA !in Ja3Fields(h, sort)[i]
  {
    NoCommas(Ja3Version(h), NoGrease(h.ciphers));
    NoCommas(0, Ja3Extensions(h, sort));
    NoCommas(0, NoGrease(h.curves));
    NoCommas(0, h.points);
  }

  /** What two client hellos have in common when their JA3 texts are one. */
  predicate Ja3Alike(h: Hello, k: Hello, sort: bool)
  {
    && Ja3Version(h) == Ja3Version(k)
    && NoGrease(h.ciphers) == NoGrease(k.ciphers)
    && (if sort then multiset(NoGrease(h.extensions)) == multiset(NoGrease(k.extensions))
        else NoGrease(h.extensions) == NoGrease(k.extensions))
    && NoGrease(h.curves) == NoGrease(k.curves)
    && h.points == k.points
  }

  lemma Ja3ExtensionsIff(h: Hello, k: Hello, sort: bool)
    ensures Ja3Extensions(h, sort) == Ja3Extensions(k, sort) <==>
            if sort then multiset(NoGrease(h.extensions)) == multiset(NoGrease(k.extensions))
            else NoGrease(h.extensions) == NoGrease(k.extensions)
  {
    WithoutOfSorted(h.extensions, IsGrease);
    WithoutOfSorted(k.extensions, IsGrease);
    SortedIffPermutation(NoGrease(h.extensions), NoGrease(k.extensions));
  }

  /**
    The text tells apart exactly what it is about: the version, the lists without GREASE, and the
    extensions in order or, with sorting, up to permutation.
   */
  lemma Ja3Determines(h: Hello, k: Hello, sort: bool)
    ensures Ja3Text(h, sort) == Ja3Text(k, sort) <==> Ja3Alike(h, k, sort)
  {
    Ja3ExtensionsIff(h, k, sort);
    if Ja3Text(h, sort) == Ja3Text(k, sort) {
      Ja3FieldsHaveNoCommas(h, sort);
      Ja3FieldsHaveNoCommas(k, sort);
      var f, g := Ja3Fields(h, sort), Ja3Fields(k, sort);
      FieldsInjective(f, g, COMMA);
      assert f[0] == g[0] && f[1] == g[1] && f[2] == g[2] && f[3] == g[3] && f[4] == g[4];
      DecimalInjective(Ja3Version(h), Ja3Version(k));
      DashListInjective(NoGrease(h.ciphers), NoGrease(k.ciphers));
      DashListInjective(Ja3Extensions(h, sort), Ja3Extensions(k, sort));
      DashListInjective(NoGrease(h.curves), NoGrease(k.curves));
      DashListInjective(h.points, k.points);
    }
  }

  /** With sorting, the order in which a client sends its extensions does not show. */
  lemma Ja3IgnoresExtensionOrder(h: Hello, extensions: seq<uint16>)
    requires multiset(extensions) == multiset(h.extensions)
    ensures Ja3Text(h.(extensions := extensions), true) == Ja3Text(h, true)
  {
    var k := h.(extensions := extensions);
    PermutedStaysPermuted(extensions, h.extensions, IsGrease);
    assert SUPPORTED_VERSIONS in multiset(extensions) <==> SUPPORTED_VERSIONS in multiset(h.extensions);
    Ja3Determines(k, h, true);
  }

  /** Read back, the text is the version, the ciphers, the extensions, the curves and the points, in this order. */
  lemma Ja3ReadsBack(h: Hello, sort: bool)
    ensures var fields := Pieces(Ja3Text(h, sort), COMMA);
      && |fields| == 5 && ValueOf(fields[0]) == Ja3Version(h)
      && ReadDashList(fields[1]) == NoGrease(h.ciphers)
      && ReadDashList(fields[2]) == NoGrease(if sort then Sorted(h.extensions) else h.extensions)
      && ReadDashList(fields[3]) == NoGrease(h.curves)
      && ReadDashList(fields[4]) == h.points
  {
    Ja3FieldsHaveNoCommas(h, sort);
    PiecesOfJoined(Ja3Fields(h, sort), COMMA);
    DecimalStandsFor(Ja3Version(h));
    DashListReadsBack(NoGrease(h.ciphers));
    DashListReadsBack(Ja3Extensions(h, sort));
    DashListReadsBack(NoGrease(h.curves));
    DashListReadsBack(h.points);
  }
}
