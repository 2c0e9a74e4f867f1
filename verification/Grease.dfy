/** GREASE values, and lists of 16-bit values with them dropped or sorted (utils/fingerprint.go). */
module Grease {

  type uint16 = x: int | 0 <= x < 0x10000

  /** The low nibbles of both bytes are ten: the mask 0x0F0F leaves 0x0A0A. */
  predicate IsGrease(v: uint16) { v % 16 == 10 && v / 256 % 16 == 10 }

  lemma SplitNibble(v: bv16)
    ensures (v & 0xF) as int == v as int - (v >> 4) as int * 16
  {
  }

  lemma NibbleBound(v: bv16)
    ensures 0 <= (v & 0xF) as int < 16
  {
  }

  lemma DivMod(v: int, q: int, r: int)
    requires r == v - q * 16 && 0 <= r < 16
    ensures r == v % 16 && q == v / 16
  {
  }

  lemma Nibble(v: bv16)
    ensures (v & 0xF) as int == v as int % 16 && (v >> 4) as int == v as int / 16
  {
    SplitNibble(v);
    NibbleBound(v);
    DivMod(v as int, (v >> 4) as int, (v & 0xF) as int);
  }

  lemma IsTen(v: bv16)
    ensures v == 10 <==> v as int == 10
  {
  }

  lemma NibbleIsTen(v: bv16)
    ensures v & 0xF == 10 <==> v as int % 16 == 10
  {
    Nibble(v);
    IsTen(v & 0xF);
  }

  lemma HighByte(v: bv16, q: bv16, h: bv16)
    requires q == v >> 4 && h == q >> 4
    ensures h as int == v as int / 256
  {
    Nibble(v);
    Nibble(q);
    DivTwice(v as int);
  }

  lemma DivTwice(v: int)
    ensures v / 16 / 16 == v / 256
  {
  }

  lemma MaskBits(v: bv16)
    ensures v & 0x0F0F == 0x0A0A <==> v & 0xF == 10 && ((v >> 4) >> 4) & 0xF == 10
  {
  }

  /** The masking the code does on 16 bits is that test of nibbles. */
  lemma MaskTestsNibbles(v: bv16)
    ensures v & 0x0F0F == 0x0A0A <==> IsGrease(v as int)
  {
    var q := v >> 4;
    var h := q >> 4;
    MaskBits(v);
    NibbleIsTen(v);
    NibbleIsTen(h);
    HighByte(v, q, h);
  }

  /** The sixteen values of section 2 of RFC 8701. */
  predicate IsReserved(v: uint16)
  {
    exists k :: 0 <= k < 16 && v == 0x0A0A + 0x1010 * k
  }

  /** Reserved values are the greased ones with equal bytes; the mask takes the others, like 0x0A1A, as well. */
  lemma ReservedIffEqualBytes(v: uint16)
    ensures IsReserved(v) <==> IsGrease(v) && v / 256 == v % 256
    ensures IsGrease(0x0A1A) && !IsReserved(0x0A1A)
  {
    if IsGrease(v) && v / 256 == v % 256 {
      var k := v % 256 / 16;
      assert v == 0x0A0A + 0x1010 * k;
    }
  }

  // ---------------------------------------------------------------------- filtering

  /** The list without the values to drop. */
  function Without(s: seq<uint16>, drop: uint16 -> bool): seq<uint16>
  {
    if s == [] then []
    else if drop(s[0]) then Without(s[1..], drop)
    else [s[0]] + Without(s[1..], drop)
  }

  function NoGrease(s: seq<uint16>): seq<uint16> { Without(s, IsGrease) }

  lemma {:induction false} WithoutAppend(s: seq<uint16>, t: seq<uint16>, drop: uint16 -> bool)
    ensures Without(s + t, drop) == Without(s, drop) + Without(t, drop)
  {
    if s == [] {
      assert s + t == t;
    } else {
      WithoutAppend(s[1..], t, drop);
      assert (s + t)[1..] == s[1..] + t && (s + t)[0] == s[0];
      var a, b := Without(s[1..], drop), Without(t, drop);
      assert [s[0]] + (a + b) == [s[0]] + a + b;
    }
  }

  lemma {:induction false} WithoutSnoc(s: seq<uint16>, v: uint16, drop: uint16 -> bool)
    ensures Without(s + [v], drop) == if drop(v) then Without(s, drop) else Without(s, drop) + [v]
  {
    if s == [] {
      assert ([v])[1..] == [];
      assert s + [v] == [v];
    } else {
      WithoutSnoc(s[1..], v, drop);
      assert (s + [v])[1..] == s[1..] + [v];
    }
  }

  /** What is left are the other values, as often as before. */
  lemma {:induction false} WithoutCounts(s: seq<uint16>, v: uint16, drop: uint16 -> bool)
    ensures multiset(Without(s, drop))[v] == if drop(v) then 0 else multiset(s)[v]
  {
    if s != [] {
      WithoutCounts(s[1..], v, drop);
      assert s == [s[0]] + s[1..];
    }
  }

  lemma WithoutKeeps(s: seq<uint16>, v: uint16, drop: uint16 -> bool)
    ensures v in Without(s, drop) <==> v in s && !drop(v)
  {
    WithoutCounts(s, v, drop);
    assert v in s <==> multiset(s)[v] > 0;
    assert v in Without(s, drop) <==> multiset(Without(s, drop))[v] > 0;
  }

  /** Dropping does not see dropped values put in or taken out anywhere. */
  lemma DroppedAreInvisible(s: seq<uint16>, i: nat, v: uint16, drop: uint16 -> bool)
    requires i <= |s| && drop(v)
    ensures Without(s[..i] + [v] + s[i..], drop) == Without(s, drop)
  {
    WithoutAppend(s[..i] + [v], s[i..], drop);
    WithoutSnoc(s[..i], v, drop);
    WithoutAppend(s[..i], s[i..], drop);
    assert s == s[..i] + s[i..];
  }

  lemma PermutedStaysPermuted(s: seq<uint16>, t: seq<uint16>, drop: uint16 -> bool)
    requires multiset(s) == multiset(t)
    ensures multiset(Without(s, drop)) == multiset(Without(t, drop))
  {
    forall v: uint16 ensures multiset(Without(s, drop))[v] == multiset(Without(t, drop))[v] {
      WithoutCounts(s, v, drop);
      WithoutCounts(t, v, drop);
    }
  }

  // ------------------------------------------------------------------------ sorting

  predicate Ordered(s: seq<uint16>)
  {
    |s| <= 1 || (s[0] <= s[1] && Ordered(s[1..]))
  }

  lemma {:induction false} HeadIsLeast(s: seq<uint16>, v: uint16)
    requires Ordered(s) && v in s
    ensures s[0] <= v
  {
    if v != s[0] {
      assert v in s[1..];
      HeadIsLeast(s[1..], v);
    }
  }

  lemma {:induction false} OrderedAscends(s: seq<uint16>)
    requires Ordered(s)
    ensures forall i, j :: 0 <= i < j < |s| ==> s[i] <= s[j]
  {
    if s != [] {
      OrderedAscends(s[1..]);
      forall j | 0 < j < |s| ensures s[0] <= s[j] {
        HeadIsLeast(s, s[j]);
      }
      assert forall i :: 0 < i < |s| ==> s[i] == s[1..][i - 1];
    }
  }

  function Inserted(v: uint16, s: seq<uint16>): seq<uint16>
  {
    if s == [] || v <= s[0] then [v] + s else [s[0]] + Inserted(v, s[1..])
  }

  /** `slices.Sort`: the ordered list of the same values. */
  function Sorted(s: seq<uint16>): seq<uint16>
  {
    if s == [] then [] else Inserted(s[0], Sorted(s[1..]))
  }

  lemma {:induction false} InsertedIsOrdered(v: uint16, s: seq<uint16>)
    requires Ordered(s)
    ensures Ordered(Inserted(v, s))
  {
    if s == [] || v <= s[0] {
      assert ([v] + s)[1..] == s;
    } else {
      InsertedIsOrdered(v, s[1..]);
      assert Inserted(v, s)[1..] == Inserted(v, s[1..]);
    }
  }

  lemma {:induction false} InsertedCounts(v: uint16, s: seq<uint16>)
    ensures multiset(Inserted(v, s)) == multiset(s) + multiset{v}
  {
    if s == [] || v <= s[0] {
    } else {
      InsertedCounts(v, s[1..]);
      assert s == [s[0]] + s[1..];
    }
  }

  lemma {:induction false} SortedIsOrdered(s: seq<uint16>)
    ensures Ordered(Sorted(s))
  {
    if s != [] {
      SortedIsOrdered(s[1..]);
      InsertedIsOrdered(s[0], Sorted(s[1..]));
    }
  }

  lemma {:induction false} SortedCounts(s: seq<uint16>)
    ensures multiset(Sorted(s)) == multiset(s)
  {
    if s != [] {
      SortedCounts(s[1..]);
      InsertedCounts(s[0], Sorted(s[1..]));
      assert s == [s[0]] + s[1..];
    }
  }

  lemma TailCounts(s: seq<uint16>)
    requires s != []
    ensures multiset(s[1..]) == multiset(s) - multiset{s[0]}
  {
    assert s == [s[0]] + s[1..];
  }

  lemma SameHead(s: seq<uint16>, t: seq<uint16>)
    requires Ordered(s) && Ordered(t) && s != [] && t != [] && multiset(s) == multiset(t)
    ensures s[0] == t[0]
  {
    assert s[0] in multiset(t) && t[0] in multiset(s);
    HeadIsLeast(s, t[0]);
    HeadIsLeast(t, s[0]);
  }

  /** There is only one ordered list of given values. */
  lemma {:induction false} OrderedIsUnique(s: seq<uint16>, t: seq<uint16>)
    requires Ordered(s) && Ordered(t) && multiset(s) == multiset(t)
    ensures s == t
    decreases |s|
  {
    assert |s| == |multiset(s)| == |multiset(t)| == |t|;
    if s != [] {
      SameHead(s, t);
      TailCounts(s);
      TailCounts(t);
      OrderedIsUnique(s[1..], t[1..]);
      assert s == [s[0]] + s[1..] && t == [t[0]] + t[1..];
    }
  }

  /** Sorted lists are equal exactly when the lists are permutations of one another. */
  lemma SortedIffPermutation(s: seq<uint16>, t: seq<uint16>)
    ensures Sorted(s) == Sorted(t) <==> multiset(s) == multiset(t)
  {
    SortedIsOrdered(s);
    SortedIsOrdered(t);
    SortedCounts(s);
    SortedCounts(t);
    if multiset(s) == multiset(t) {
      OrderedIsUnique(Sorted(s), Sorted(t));
    }
  }

  lemma {:induction false} WithoutIsOrdered(s: seq<uint16>, drop: uint16 -> bool)
    requires Ordered(s)
    ensures Ordered(Without(s, drop))
  {
    if s != [] {
      WithoutIsOrdered(s[1..], drop);
      var t := Without(s[1..], drop);
      if t != [] && !drop(s[0]) {
        WithoutKeeps(s[1..], t[0], drop);
        HeadIsLeast(s, t[0]);
        assert ([s[0]] + t)[1..] == t;
      }
    }
  }

  /** Dropping after sorting is sorting what is left. */
  lemma WithoutOfSorted(s: seq<uint16>, drop: uint16 -> bool)
    ensures Without(Sorted(s), drop) == Sorted(Without(s, drop))
  {
    SortedIsOrdered(s);
    SortedCounts(s);
    WithoutIsOrdered(Sorted(s), drop);
    PermutedStaysPermuted(Sorted(s), s, drop);
    SortedIsOrdered(Without(s, drop));
    SortedCounts(Without(s, drop));
    OrderedIsUnique(Without(Sorted(s), drop), Sorted(Without(s, drop)));
  }
}
