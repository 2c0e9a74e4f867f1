/** Lists of numbers as text, as the TLS fingerprints write them (utils/fingerprint.go). */
module Numbers {
  import opened Bytes
  import opened Grease
  import Hex

  type Bytestring = seq<byte>

  const COMMA: byte := 44
  const DASH: byte := 45

  // --------------------------------------------------------------------- one number

  /** `strconv.AppendUint` with base ten. */
  function Decimal(n: nat): (s: Bytestring)
    ensures s != [] && forall i :: 0 <= i < |s| ==> 48 <= s[i] <= 57
  {
    if n < 10 then [48 + n] else Decimal(n / 10) + [48 + n % 10]
  }

  lemma {:induction false} DecimalInjective(n: nat, m: nat)
    requires Decimal(n) == Decimal(m)
    ensures n == m
  {
    var s, t := Decimal(n), Decimal(m);
    assert |Decimal(n / 10)| > 0 && |Decimal(m / 10)| > 0;
    if n < 10 || m < 10 {
      assert s[0] == t[0];
    } else {
      assert s[..|s| - 1] == Decimal(n / 10) && t[..|t| - 1] == Decimal(m / 10);
      assert s[|s| - 1] == 48 + n % 10 && t[|t| - 1] == 48 + m % 10;
      DecimalInjective(n / 10, m / 10);
    }
  }

  /** The number that decimal digits stand for. */
  function ValueOf(s: Bytestring): int
  {
    if s == [] then 0 else 10 * ValueOf(s[..|s| - 1]) + s[|s| - 1] as int - 48
  }

  /** The text stands for the number, and has no zero in front. */
  lemma {:induction false} DecimalStandsFor(n: nat)
    ensures ValueOf(Decimal(n)) == n && (|Decimal(n)| > 1 ==> Decimal(n)[0] != 48)
  {
    var s := Decimal(n);
    if n >= 10 {
      DecimalStandsFor(n / 10);
      assert s[..|s| - 1] == Decimal(n / 10) && s[|s| - 1] == 48 + n % 10;
      assert |Decimal(n / 10)| == 1 ==> n / 10 < 10 && Decimal(n / 10)[0] == 48 + n / 10 by {
        if n / 10 >= 10 {
          assert |Decimal(n / 10 / 10)| >= 1;
        }
      }
    } else {
      assert s[..0] == [];
    }
  }

  /** `%04x`: four hexadecimal digits. */
  function Hex4(v: uint16): (s: Bytestring)
    ensures |s| == 4 && forall i :: 0 <= i < 4 ==> 48 <= s[i] <= 57 || 97 <= s[i] <= 102
  {
    var q := v / 16;
    var r := q / 16;
    [Hex.Digit(r / 16), Hex.Digit(r % 16), Hex.Digit(q % 16), Hex.Digit(v % 16)]
  }

  /** The four digits stand for the value, highest first. */
  lemma Hex4StandsFor(v: uint16)
    ensures var s := Hex4(v);
      v == 4096 * Hex.FromDigit(s[0]) + 256 * Hex.FromDigit(s[1]) + 16 * Hex.FromDigit(s[2]) + Hex.FromDigit(s[3])
  {
    var q := v / 16;
    var r := q / 16;
    assert v == 16 * q + v % 16 && q == 16 * r + q % 16 && r == 16 * (r / 16) + r % 16;
  }

  // -------------------------------------------------------------------------- lists

  /** The texts with the separator between them. */
  function Join(texts: seq<Bytestring>, sep: byte): Bytestring
  {
    if texts == [] then []
    else if |texts| == 1 then texts[0]
    else texts[0] + [sep] + Join(texts[1..], sep)
  }

  /** The texts with the separator after each of them. */
  function Terminated(texts: seq<Bytestring>, sep: byte): Bytestring
  {
    if texts == [] then [] else texts[0] + [sep] + Terminated(texts[1..], sep)
  }

  lemma {:induction false} TerminatedSnoc(texts: seq<Bytestring>, t: Bytestring, sep: byte)
    ensures Terminated(texts + [t], sep) == Terminated(texts, sep) + t + [sep]
  {
    if texts == [] {
      assert texts + [t] == [t];
      assert Terminated([t][1..], sep) == [];
    } else {
      TerminatedSnoc(texts[1..], t, sep);
      assert (texts + [t])[1..] == texts[1..] + [t];
    }
  }

  /** Cutting the last separator off leaves the joined texts. */
  lemma {:induction false} TerminatedIsJoined(texts: seq<Bytestring>, sep: byte)
    requires texts != []
    ensures Terminated(texts, sep) == Join(texts, sep) + [sep]
  {
    if |texts| == 1 {
      assert Terminated(texts[1..], sep) == [];
    } else {
      TerminatedIsJoined(texts[1..], sep);
    }
  }

  lemma {:induction false} JoinSnoc(texts: seq<Bytestring>, t: Bytestring, sep: byte)
    requires texts != []
    ensures Join(texts + [t], sep) == Join(texts, sep) + [sep] + t
  {
    var more := texts + [t];
    if |texts| == 1 {
      assert more[1..] == [t];
    } else {
      JoinSnoc(texts[1..], t, sep);
      assert more[1..] == texts[1..] + [t];
    }
  }

  /** Texts that can be told apart after joining: none is empty or has the separator in it. */
  predicate Separable(texts: seq<Bytestring>, sep: byte)
  {
    forall i :: 0 <= i < |texts| ==> texts[i] != [] && sep !in texts[i]
  }

  lemma {:induction false} JoinHasNoOther(texts: seq<Bytestring>, sep: byte, other: byte)
    requires other != sep && forall i :: 0 <= i < |texts| ==> other !in texts[i]
    ensures other !in Join(texts, sep)
  {
    if |texts| > 1 {
      JoinHasNoOther(texts[1..], sep, other);
    }
  }

  /** A joined text with a further part has the separator in it; one alone has not. */
  lemma {:induction false} JoinInjective(ss: seq<Bytestring>, ts: seq<Bytestring>, sep: byte)
    requires Separable(ss, sep) && Separable(ts, sep) && Join(ss, sep) == Join(ts, sep)
    ensures ss == ts
  {
    if ss == [] || ts == [] {
      JoinIsEmptyIff(ss, sep);
      JoinIsEmptyIff(ts, sep);
    } else if |ss| == 1 || |ts| == 1 {
      JoinHasSeparatorIff(ss, sep);
      JoinHasSeparatorIff(ts, sep);
    } else {
      UniqueCut(ss[0], ts[0], sep, Join(ss[1..], sep), Join(ts[1..], sep));
      JoinInjective(ss[1..], ts[1..], sep);
      assert ss == [ss[0]] + ss[1..] && ts == [ts[0]] + ts[1..];
    }
  }

  /** A fixed number of fields, empty or not, can be told apart. */
  lemma {:induction false} FieldsInjective(ss: seq<Bytestring>, ts: seq<Bytestring>, sep: byte)
    requires |ss| == |ts| && Join(ss, sep) == Join(ts, sep)
    requires forall i :: 0 <= i < |ss| ==> sep !in ss[i] && sep !in ts[i]
    ensures ss == ts
  {
    if |ss| > 1 {
      UniqueCut(ss[0], ts[0], sep, Join(ss[1..], sep), Join(ts[1..], sep));
      FieldsInjective(ss[1..], ts[1..], sep);
      assert ss == [ss[0]] + ss[1..] && ts == [ts[0]] + ts[1..];
    }
  }

  lemma JoinIsEmptyIff(texts: seq<Bytestring>, sep: byte)
    requires Separable(texts, sep)
    ensures Join(texts, sep) == [] <==> texts == []
  {
  }

  lemma JoinHasSeparatorIff(texts: seq<Bytestring>, sep: byte)
    requires Separable(texts, sep)
    ensures sep in Join(texts, sep) <==> |texts| > 1
  {
    if |texts| > 1 {
      assert Join(texts, sep)[|texts[0]|] == sep;
    }
  }

  // --------------------------------------------------------------- lists of numbers

  function Decimals(s: seq<nat>): (texts: seq<Bytestring>)
    ensures |texts| == |s| && forall i :: 0 <= i < |s| ==> texts[i] == Decimal(s[i])
  {
    seq(|s|, i requires 0 <= i < |s| => Decimal(s[i]))
  }

  function Hex4s(s: seq<uint16>): (texts: seq<Bytestring>)
    ensures |texts| == |s| && forall i :: 0 <= i < |s| ==> texts[i] == Hex4(s[i])
  {
    seq(|s|, i requires 0 <= i < |s| => Hex4(s[i]))
  }

  /** Numbers in decimal with dashes between them. */
  function DashList(s: seq<nat>): Bytestring { Join(Decimals(s), DASH) }

  /** Four-digit hexadecimal numbers with commas between them. */
  function HexList(s: seq<uint16>): Bytestring { Join(Hex4s(s), COMMA) }

  /** The text of a list determines the list. */
  lemma DashListInjective(s: seq<nat>, t: seq<nat>)
    requires DashList(s) == DashList(t)
    ensures s == t
  {
    JoinInjective(Decimals(s), Decimals(t), DASH);
    forall i | 0 <= i < |s| ensures s[i] == t[i] {
      assert Decimals(s)[i] == Decimals(t)[i];
      DecimalInjective(s[i], t[i]);
    }
  }

  lemma SameNibble(v: nat, w: nat)
    requires v / 16 == w / 16 && v % 16 == w % 16
    ensures v == w
  {
    assert v == 16 * (v / 16) + v % 16;
  }

  lemma Hex4Injective(v: uint16, w: uint16)
    requires Hex4(v) == Hex4(w)
    ensures v == w
  {
    var s, t := Hex4(v), Hex4(w);
    assert s[0] == t[0] && s[1] == t[1] && s[2] == t[2] && s[3] == t[3];
    SameNibble(v / 16 / 16, w / 16 / 16);
    SameNibble(v / 16, w / 16);
    SameNibble(v, w);
  }

  lemma HexListInjective(s: seq<uint16>, t: seq<uint16>)
    requires HexList(s) == HexList(t)
    ensures s == t
  {
    JoinInjective(Hex4s(s), Hex4s(t), COMMA);
    forall i | 0 <= i < |s| ensures s[i] == t[i] {
      assert Hex4s(s)[i] == Hex4s(t)[i];
      Hex4Injective(s[i], t[i]);
    }
  }

  // ------------------------------------------------------------------ reading them back

  /** A text cut at its separators. */
  function Pieces(s: Bytestring, sep: byte): (pieces: seq<Bytestring>)
    ensures pieces != []
  {
    if s == [] then [[]]
    else
      var rest := Pieces(s[1..], sep);
      if s[0] == sep then [[]] + rest else [[s[0]] + rest[0]] + rest[1..]
  }

  lemma {:induction false} OnePiece(t: Bytestring, sep: byte)
    requires sep !in t
    ensures Pieces(t, sep) == [t]
  {
    if t != [] {
      OnePiece(t[1..], sep);
      assert [t[0]] + t[1..] == t;
    }
  }

  lemma {:induction false} FirstPiece(t: Bytestring, r: Bytestring, sep: byte)
    requires sep !in t
    ensures Pieces(t + [sep] + r, sep) == [t] + Pieces(r, sep)
  {
    var s := t + [sep] + r;
    if t == [] {
      assert s[1..] == r;
    } else {
      FirstPiece(t[1..], r, sep);
      assert s[1..] == t[1..] + [sep] + r;
      assert [t[0]] + t[1..] == t;
    }
  }

  /** Cutting undoes joining. */
  lemma {:induction false} PiecesOfJoined(texts: seq<Bytestring>, sep: byte)
    requires texts != [] && forall i :: 0 <= i < |texts| ==> sep !in texts[i]
    ensures Pieces(Join(texts, sep), sep) == texts
  {
    if |texts| == 1 {
      OnePiece(texts[0], sep);
    } else {
      PiecesOfJoined(texts[1..], sep);
      FirstPiece(texts[0], Join(texts[1..], sep), sep);
    }
  }

  /** The numbers of a list with dashes. */
  function ReadDashList(t: Bytestring): seq<int>
  {
    if t == [] then [] else var ps := Pieces(t, DASH); seq(|ps|, i requires 0 <= i < |ps| => ValueOf(ps[i]))
  }

  /** Reading a written list gives its numbers, in its order. */
  lemma DashListReadsBack(s: seq<nat>)
    ensures ReadDashList(DashList(s)) == s
  {
    JoinIsEmptyIff(Decimals(s), DASH);
    if s != [] {
      PiecesOfJoined(Decimals(s), DASH);
      forall i | 0 <= i < |s| ensures ValueOf(Decimals(s)[i]) == s[i] {
        DecimalStandsFor(s[i]);
      }
    }
  }

  /** The number that four hexadecimal digits stand for. */
  function Hex4Value(s: Bytestring): int
  {
    if |s| != 4 then -1
    else 4096 * Hex.FromDigit(s[0]) + 256 * Hex.FromDigit(s[1]) + 16 * Hex.FromDigit(s[2]) + Hex.FromDigit(s[3])
  }

  function ReadHexList(t: Bytestring): seq<int>
  {
    if t == [] then [] else var ps := Pieces(t, COMMA); seq(|ps|, i requires 0 <= i < |ps| => Hex4Value(ps[i]))
  }

  lemma HexListReadsBack(s: seq<uint16>)
    ensures ReadHexList(HexList(s)) == s
  {
    JoinIsEmptyIff(Hex4s(s), COMMA);
    if s != [] {
      PiecesOfJoined(Hex4s(s), COMMA);
      forall i | 0 <= i < |s| ensures Hex4Value(Hex4s(s)[i]) == s[i] {
        Hex4StandsFor(s[i]);
      }
    }
  }
}
