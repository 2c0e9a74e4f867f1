/** Bytes, powers of two, and the two readings of a byte string as a number. */
module Bytes {

  type byte = x: int | 0 <= x < 256

  /** A SHA-256 digest. */
  type Digest = s: seq<byte> | |s| == 32 witness seq(32, _ => 0)

  /** SHA-256, or any other function to digests. */
  type Hash = seq<byte> -> Digest

  function Pow2(n: nat): (p: nat)
    ensures p >= 1
  {
    if n == 0 then 1 else 2 * Pow2(n - 1)
  }

  lemma {:induction false} Pow2Add(a: nat, b: nat)
    ensures Pow2(a + b) == Pow2(a) * Pow2(b)
  {
    if a == 0 {
    } else {
      Pow2Add(a - 1, b);
      calc {
        Pow2(a + b);
        2 * Pow2(a - 1 + b);
        2 * (Pow2(a - 1) * Pow2(b));
        (2 * Pow2(a - 1)) * Pow2(b);
      }
    }
  }

  lemma {:induction false} Pow2Monotone(a: nat, b: nat)
    requires a <= b
    ensures Pow2(a) <= Pow2(b)
    ensures a < b ==> Pow2(a) < Pow2(b)
    decreases b
  {
    if a < b {
      Pow2Monotone(a, b - 1);
    }
  }

  lemma Pow2Small()
    ensures Pow2(0) == 1 && Pow2(1) == 2 && Pow2(2) == 4 && Pow2(3) == 8 && Pow2(4) == 16
    ensures Pow2(5) == 32 && Pow2(6) == 64 && Pow2(7) == 128 && Pow2(8) == 256
  {
    assert Pow2(2) == 2 * Pow2(1);
    assert Pow2(3) == 2 * Pow2(2);
    assert Pow2(4) == 2 * Pow2(3);
    assert Pow2(5) == 2 * Pow2(4);
    assert Pow2(6) == 2 * Pow2(5);
    assert Pow2(7) == 2 * Pow2(6);
  }

  lemma Pow2Plus8(n: nat)
    ensures Pow2(n + 8) == 256 * Pow2(n)
  {
    Pow2Small();
    Pow2Add(8, n);
  }

  lemma Pow2Word()
    ensures Pow2(64) == 0x1_0000_0000_0000_0000
  {
    Pow2Small();
    Pow2Add(8, 8);
    Pow2Add(16, 16);
    Pow2Add(32, 32);
  }

  /** The value of a byte string, most significant byte first. */
  function BigEndian(s: seq<byte>): nat
  {
    if s == [] then 0 else s[0] * Pow2(8 * (|s| - 1)) + BigEndian(s[1..])
  }

  /** The value of a byte string, least significant byte first. */
  function LittleEndian(s: seq<byte>): nat
  {
    if s == [] then 0 else s[0] + 256 * LittleEndian(s[1..])
  }

  /** A head byte and a tail below a unit compare first by the head. */
  lemma HeadDecides(a: nat, b: nat, unit: nat, s: nat, t: nat)
    requires s < unit && a < b
    ensures a * unit + s < b * unit + t
  {
    assert (a + 1) * unit <= b * unit by {
      assert b * unit == (a + 1) * unit + (b - a - 1) * unit;
    }
  }

  /** Below q units means a head below q, whatever tail below a unit follows. */
  lemma HeadBelow(a: nat, t: nat, unit: nat, q: nat)
    requires t < unit
    ensures a * unit + t < q * unit <==> a < q
  {
    if a < q {
      HeadDecides(a, q, unit, t, 0);
    } else {
      assert a * unit == q * unit + (a - q) * unit;
    }
  }

  lemma {:induction false} BigEndianBound(s: seq<byte>)
    ensures BigEndian(s) < Pow2(8 * |s|)
  {
    if s != [] {
      BigEndianBound(s[1..]);
      Pow2Plus8(8 * (|s| - 1));
      HeadDecides(s[0], 256, Pow2(8 * (|s| - 1)), BigEndian(s[1..]), 0);
    }
  }

  lemma Scaled(a: nat, u: nat, b: nat, v: nat)
    ensures a * (256 * u) + (256 * b + v) == 256 * (a * u + b) + v
  {
  }

  lemma {:induction false} BigEndianSnoc(s: seq<byte>, v: byte)
    ensures BigEndian(s + [v]) == 256 * BigEndian(s) + v
  {
    if s == [] {
      assert BigEndian([v]) == v * Pow2(0) + BigEndian([]);
    } else {
      var u := Pow2(8 * (|s| - 1));
      calc {
        BigEndian(s + [v]);
        { assert (s + [v])[1..] == s[1..] + [v] && (s + [v])[0] == s[0]; }
        s[0] * Pow2(8 * |s|) + BigEndian(s[1..] + [v]);
        { BigEndianSnoc(s[1..], v); Pow2Plus8(8 * (|s| - 1)); assert 8 * (|s| - 1) + 8 == 8 * |s|; }
        s[0] * (256 * u) + (256 * BigEndian(s[1..]) + v);
        { Scaled(s[0], u, BigEndian(s[1..]), v); }
        256 * BigEndian(s) + v;
      }
    }
  }

  /** Equally long byte strings with one value are one string. */
  lemma {:induction false} BigEndianInjective(s: seq<byte>, t: seq<byte>)
    requires |s| == |t| && BigEndian(s) == BigEndian(t)
    ensures s == t
  {
    if s != [] {
      var u := Pow2(8 * (|s| - 1));
      BigEndianBound(s[1..]);
      BigEndianBound(t[1..]);
      if s[0] < t[0] {
        HeadDecides(s[0], t[0], u, BigEndian(s[1..]), BigEndian(t[1..]));
      } else if t[0] < s[0] {
        HeadDecides(t[0], s[0], u, BigEndian(t[1..]), BigEndian(s[1..]));
      }
      BigEndianInjective(s[1..], t[1..]);
      assert s == [s[0]] + s[1..] && t == [t[0]] + t[1..];
    }
  }

  lemma {:induction false} LittleEndianBound(s: seq<byte>)
    ensures LittleEndian(s) < Pow2(8 * |s|)
  {
    if s != [] {
      LittleEndianBound(s[1..]);
      Pow2Plus8(8 * (|s| - 1));
    }
  }

  lemma {:induction false} LittleEndianInjective(s: seq<byte>, t: seq<byte>)
    requires |s| == |t| && LittleEndian(s) == LittleEndian(t)
    ensures s == t
  {
    if s != [] {
      assert LittleEndian(s) % 256 == s[0] && LittleEndian(t) % 256 == t[0];
      LittleEndianInjective(s[1..], t[1..]);
      assert s == [s[0]] + s[1..] && t == [t[0]] + t[1..];
    }
  }

  /** The n low bytes of a number, least significant first (`binary.LittleEndian`). */
  function LittleEndianBytes(n: nat, v: nat): (s: seq<byte>)
    ensures |s| == n
  {
    if n == 0 then [] else [v % 256] + LittleEndianBytes(n - 1, v / 256)
  }

  lemma {:induction false} LittleEndianBytesValue(n: nat, v: nat)
    requires v < Pow2(8 * n)
    ensures LittleEndian(LittleEndianBytes(n, v)) == v
  {
    if n > 0 {
      Pow2Plus8(8 * (n - 1));
      LittleEndianBytesValue(n - 1, v / 256);
      assert LittleEndianBytes(n, v)[1..] == LittleEndianBytes(n - 1, v / 256);
    }
  }

  lemma LittleEndianBytesInjective(n: nat, v: nat, w: nat)
    requires v < Pow2(8 * n) && w < Pow2(8 * n) && LittleEndianBytes(n, v) == LittleEndianBytes(n, w)
    ensures v == w
  {
    LittleEndianBytesValue(n, v);
    LittleEndianBytesValue(n, w);
  }

  /** The first separator ends the first part. */
  lemma UniqueCut(a: seq<byte>, b: seq<byte>, sep: byte, r: seq<byte>, s: seq<byte>)
    requires sep !in a && sep !in b && a + [sep] + r == b + [sep] + s
    ensures a == b && r == s
  {
    var left, right := a + [sep] + r, b + [sep] + s;
    assert left[|a|] == sep && right[|b|] == sep;
    assert forall i :: 0 <= i < |a| ==> left[i] == a[i];
    assert forall i :: 0 <= i < |b| ==> right[i] == b[i];
    assert |a| == |b|;
    assert a == left[..|a|] == right[..|b|] == b;
    assert r == left[|a| + 1..] == right[|b| + 1..] == s;
  }
}
