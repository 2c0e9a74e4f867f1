/** Canonical header keys and the header map (utils/inline/mime.go). */
module Mime {

  type Bytes = seq<bv8>

  // -------------------------------------------------------------------- token bytes

  /** The token characters of section 3.2.6 of RFC 7230: digits, letters and fifteen marks. */
  predicate IsTokenByte(c: bv8)
  {
    || 48 <= c <= 57 || 65 <= c <= 90 || 97 <= c <= 122
    || c == 33 || c == 35 || c == 36 || c == 37 || c == 38 || c == 39 || c == 42 || c == 43 || c == 45 || c == 46
    || c == 94 || c == 95 || c == 96 || c == 124 || c == 126
  }

  /** The low and high words of the bitmap. */
  const LOW: bv64 :=
    (0x3ff << 48) | (1 << 33) | (1 << 35) | (1 << 36) | (1 << 37) | (1 << 38) | (1 << 39)
    | (1 << 42) | (1 << 43) | (1 << 45) | (1 << 46)
  const HIGH: bv64 :=
    (0x3ff_ffff << 33) | (0x3ff_ffff << 1) | (1 << 30) | (1 << 31) | (1 << 32) | (1 << 60) | (1 << 62)

  /** A shift of one by a byte; shifts of 64 and more give zero. */
  function OneShifted(c: bv8): bv64 { if c < 64 then 1 << c else 0 }

  function ValidHeaderFieldByte(c: bv8): bool
  {
    (OneShifted(c) & LOW) | (OneShifted(c - 64) & HIGH) != 0
  }

  /** The two-word bitmap accepts exactly the token characters. */
  lemma BitmapIsTokenTable(c: bv8)
    ensures ValidHeaderFieldByte(c) <==> IsTokenByte(c)
  {
  }

  // ---------------------------------------------------------------- canonical keys

  predicate ValidKey(s: Bytes) { forall i :: 0 <= i < |s| ==> ValidHeaderFieldByte(s[i]) }

  predicate IsLower(c: bv8) { 97 <= c <= 122 }
  predicate IsUpper(c: bv8) { 65 <= c <= 90 }

  function Cased(c: bv8, upper: bool): bv8
  {
    if upper && IsLower(c) then c - 32 else if !upper && IsUpper(c) then c + 32 else c
  }

  /** Upper case at the start and after each hyphen, lower case elsewhere. */
  function CasedFrom(s: Bytes, upper: bool): (t: Bytes)
    ensures |t| == |s|
  {
    if s == [] then [] else [Cased(s[0], upper)] + CasedFrom(s[1..], s[0] == 45)
  }

  /** The canonical form of a key; a key with any other byte stays as it is. */
  function Canonical(s: Bytes): Bytes
  {
    if ValidKey(s) then CasedFrom(s, true) else s
  }

  /** Whether the byte at i is to be upper case. */
  predicate UpperAt(s: Bytes, i: nat)
    requires i <= |s|
  {
    i == 0 || s[i - 1] == 45
  }

  lemma {:induction false} CasedFromAt(s: Bytes, upper: bool, i: nat)
    requires i < |s|
    ensures CasedFrom(s, upper)[i] == Cased(s[i], if i == 0 then upper else s[i - 1] == 45)
  {
    if i > 0 {
      CasedFromAt(s[1..], s[0] == 45, i - 1);
    }
  }

  lemma CasedIs(s: Bytes, t: Bytes)
    requires |t| == |s| && forall i :: 0 <= i < |s| ==> t[i] == Cased(s[i], UpperAt(s, i))
    ensures CasedFrom(s, true) == t
  {
    forall i | 0 <= i < |s| ensures CasedFrom(s, true)[i] == t[i] {
      CasedFromAt(s, true, i);
    }
  }

  /** Valid bytes and spaces, which a header key may have without being canonicalized. */
  predicate KeyOrSpaces(s: Bytes) { forall i :: 0 <= i < |s| ==> ValidHeaderFieldByte(s[i]) || s[i] == 32 }

  /** The look at the key before it is rewritten. */
  method ScanKey(a: array<bv8>) returns (ok: bool, noCanon: bool)
    ensures ok <==> KeyOrSpaces(a[..])
    ensures ok ==> (noCanon <==> !ValidKey(a[..]))
  {
    noCanon := false;
    for i := 0 to a.Length
      invariant KeyOrSpaces(a[..i])
      invariant noCanon <==> !ValidKey(a[..i])
    {
      assert a[..i + 1] == a[..i] + [a[i]];
      assert a[..][i] == a[i];
      if ValidHeaderFieldByte(a[i]) {
        continue;
      }
      if a[i] == 32 {
        assert a[..i + 1][i] == a[i];
        noCanon := true;
        continue;
      }
      return false, noCanon;
    }
    assert a[..a.Length] == a[..];
    ok := true;
  }

  method RewriteKey(a: array<bv8>)
    modifies a
    ensures a[..] == CasedFrom(old(a[..]), true)
  {
    ghost var was := a[..];
    var upper := true;
    for i := 0 to a.Length
      invariant upper == UpperAt(was, i)
      invariant forall k :: i <= k < a.Length ==> a[k] == was[k]
      invariant forall k :: 0 <= k < i ==> a[k] == Cased(was[k], UpperAt(was, k))
    {
      var c := a[i];
      if upper && IsLower(c) {
        c := c - 32;
      } else if !upper && IsUpper(c) {
        c := c + 32;
      }
      a[i] := c;
      upper := c == 45;
    }
    CasedIs(was, a[..]);
  }

  /** Rewrites the bytes in place when all of them are valid, and says whether only spaces were not. */
  method CanonicalizeInPlace(a: array<bv8>) returns (s: Bytes, ok: bool)
    modifies a
    ensures s == Canonical(old(a[..])) && a[..] == s
    ensures ok <==> a.Length > 0 && KeyOrSpaces(old(a[..]))
  {
    if a.Length == 0 {
      return [], false;
    }
    var fine, noCanon := ScanKey(a);
    if !fine {
      return a[..], false;
    }
    if noCanon {
      return a[..], true;
    }
    RewriteKey(a);
    return a[..], true;
  }

  /** The quick scan: only a key that is valid so far and has a byte in the wrong case takes the slow path. */
  method CanonicalMIMEHeaderKey(s: Bytes) returns (t: Bytes)
    ensures t == Canonical(s)
  {
    var upper := true;
    for i := 0 to |s|
      invariant upper == UpperAt(s, i)
      invariant forall k :: 0 <= k < i ==> ValidHeaderFieldByte(s[k]) && s[k] == Cased(s[k], UpperAt(s, k))
    {
      var c := s[i];
      if !ValidHeaderFieldByte(c) {
        return s;
      }
      if (upper && IsLower(c)) || (!upper && IsUpper(c)) {
        var a := new bv8[|s|](k requires 0 <= k < |s| => s[k]);
        assert a[..] == s;
        var ok;
        t, ok := CanonicalizeInPlace(a);
        return;
      }
      upper := c == 45;
    }
    CasedIs(s, s);
    return s;
  }

  function LowerOf(c: bv8): bv8 { if IsUpper(c) then c + 32 else c }

  /** The keys are equal up to the case of ASCII letters. */
  predicate SameUpToCase(s: Bytes, t: Bytes)
  {
    |s| == |t| && forall i :: 0 <= i < |s| ==> LowerOf(s[i]) == LowerOf(t[i])
  }

  lemma CasedBytes(c: bv8, d: bv8, upper: bool)
    ensures LowerOf(Cased(c, upper)) == LowerOf(c) && (Cased(c, upper) == 45 <==> c == 45)
    ensures Cased(Cased(c, upper), upper) == Cased(c, upper)
    ensures LowerOf(c) == LowerOf(d) ==> Cased(c, upper) == Cased(d, upper) && (c == 45 <==> d == 45)
    ensures ValidHeaderFieldByte(c) ==> ValidHeaderFieldByte(Cased(c, upper))
  {
    BitmapIsTokenTable(c);
    BitmapIsTokenTable(Cased(c, upper));
  }

  lemma {:induction false} CasedFromIdempotent(s: Bytes, upper: bool)
    ensures CasedFrom(CasedFrom(s, upper), upper) == CasedFrom(s, upper)
  {
    if s != [] {
      var u := CasedFrom(s, upper);
      CasedBytes(s[0], 0, upper);
      assert u[1..] == CasedFrom(s[1..], s[0] == 45);
      CasedFromIdempotent(s[1..], s[0] == 45);
    }
  }

  /** Casing changes only the case, and no byte to an invalid one. */
  lemma CasedFromKeeps(s: Bytes, upper: bool)
    ensures SameUpToCase(CasedFrom(s, upper), s)
    ensures ValidKey(s) ==> ValidKey(CasedFrom(s, upper))
  {
    forall i | 0 <= i < |s|
      ensures LowerOf(CasedFrom(s, upper)[i]) == LowerOf(s[i])
      ensures ValidHeaderFieldByte(s[i]) ==> ValidHeaderFieldByte(CasedFrom(s, upper)[i])
    {
      CasedFromAt(s, upper, i);
      CasedBytes(s[i], 0, if i == 0 then upper else s[i - 1] == 45);
    }
  }

  lemma {:induction false} CasedFromSame(s: Bytes, t: Bytes, upper: bool)
    requires SameUpToCase(s, t)
    ensures CasedFrom(s, upper) == CasedFrom(t, upper)
  {
    if s != [] {
      CasedBytes(s[0], t[0], upper);
      CasedFromSame(s[1..], t[1..], s[0] == 45);
    }
  }

  /** Canonicalizing is idempotent and keeps keys with invalid bytes. */
  lemma CanonicalIdempotent(s: Bytes)
    ensures Canonical(Canonical(s)) == Canonical(s)
    ensures ValidKey(Canonical(s)) <==> ValidKey(s)
    ensures !ValidKey(s) ==> Canonical(s) == s
  {
    CasedFromIdempotent(s, true);
    CasedFromKeeps(s, true);
  }

  /** In the canonical form of a valid key letters are upper case at the start and behind a hyphen, and lower case elsewhere. */
  lemma CanonicalCase(s: Bytes, i: nat)
    requires ValidKey(s) && i < |s|
    ensures var t := Canonical(s);
      && |t| == |s| && LowerOf(t[i]) == LowerOf(s[i])
      && (if i == 0 || s[i - 1] == 45 then !IsLower(t[i]) else !IsUpper(t[i]))
  {
    CasedFromAt(s, true, i);
  }

  /** Two ways to write one key: the same bytes, or valid keys that differ only in the case of letters. */
  predicate SameKey(s: Bytes, t: Bytes)
  {
    s == t || (ValidKey(s) && ValidKey(t) && SameUpToCase(s, t))
  }

  /** Keys have one canonical form exactly when they are two ways to write one key. */
  lemma CanonicalIffSameKey(s: Bytes, t: Bytes)
    ensures Canonical(s) == Canonical(t) <==> SameKey(s, t)
  {
    CanonicalIdempotent(s);
    CanonicalIdempotent(t);
    if ValidKey(s) && ValidKey(t) {
      CasedFromKeeps(s, true);
      CasedFromKeeps(t, true);
      if SameUpToCase(s, t) {
        CasedFromSame(s, t, true);
      }
      if Canonical(s) == Canonical(t) {
        var u := CasedFrom(s, true);
        forall i | 0 <= i < |s| ensures LowerOf(s[i]) == LowerOf(t[i]) {
          assert LowerOf(u[i]) == LowerOf(s[i]);
          assert LowerOf(CasedFrom(t, true)[i]) == LowerOf(t[i]);
        }
      }
    }
  }

  lemma OtherSpellings(key: Bytes)
    ensures forall j :: SameKey(j, key) <==> Canonical(j) == Canonical(key)
  {
    forall j ensures SameKey(j, key) <==> Canonical(j) == Canonical(key) {
      CanonicalIffSameKey(j, key);
    }
  }

  // ------------------------------------------------------------------- header maps

  /** A header map; methods reach it through canonical keys only. */
  class MIMEHeader<V(0)> {
    var h: map<Bytes, seq<V>>

    /** All values of a key, however it is written. */
    ghost function ValuesOf(key: Bytes): seq<V>
      reads this
    {
      if Canonical(key) in h then h[Canonical(key)] else []
    }

    constructor ()
      ensures h == map[]
    {
      h := map[];
    }

    method Values(key: Bytes) returns (vs: seq<V>)
      ensures vs == ValuesOf(key)
    {
      var k := CanonicalMIMEHeaderKey(key);
      return if k in h then h[k] else [];
    }

    /** The first value, or none. */
    method Get(key: Bytes) returns (found: bool, v: V)
      ensures found <==> ValuesOf(key) != []
      ensures found ==> v == ValuesOf(key)[0]
    {
      var vs := Values(key);
      if |vs| == 0 {
        v := *;
        return false, v;
      }
      return true, vs[0];
    }

    method Add(key: Bytes, value: V)
      modifies this
      ensures forall j :: SameKey(j, key) ==> ValuesOf(j) == old(ValuesOf(j)) + [value]
      ensures forall j :: !SameKey(j, key) ==> ValuesOf(j) == old(ValuesOf(j))
    {
      var k := CanonicalMIMEHeaderKey(key);
      OtherSpellings(key);
      h := h[k := (if k in h then h[k] else []) + [value]];
    }

    method Set(key: Bytes, value: V)
      modifies this
      ensures forall j :: ValuesOf(j) == if SameKey(j, key) then [value] else old(ValuesOf(j))
    {
      var k := CanonicalMIMEHeaderKey(key);
      OtherSpellings(key);
      h := h[k := [value]];
    }

    method Del(key: Bytes)
      modifies this
      ensures forall j :: ValuesOf(j) == if SameKey(j, key) then [] else old(ValuesOf(j))
    {
      var k := CanonicalMIMEHeaderKey(key);
      OtherSpellings(key);
      h := h - {k};
    }
  }
}
