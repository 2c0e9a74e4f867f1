/** Hexadecimal text as the server writes and reads it (utils/inline/hex.go). */
module Hex {
  import opened Bytes
  import opened Wrappers

  datatype DecodeError = InvalidByte(b: byte) | OddLength

  datatype Decoded = Decoded(out: seq<byte>, error: Option<DecodeError>)

  /** The digit table: '0'..'9' and 'a'..'f'. */
  function Digit(v: int): (c: byte)
    requires 0 <= v < 16
  {
    if v < 10 then 48 + v else 87 + v
  }

  /** The reverse table: 255 marks a byte that is no digit; both cases are digits. */
  function FromDigit(c: byte): (v: byte)
    ensures v < 16 || v == 255
  {
    if 48 <= c <= 57 then c - 48
    else if 65 <= c <= 70 then c - 55
    else if 97 <= c <= 102 then c - 87
    else 255
  }

  predicate IsDigit(c: byte) { FromDigit(c) < 16 }

  /** The digits in order, and that each is read as its place; letters are read in both cases, and nothing else is a digit. */
  lemma DigitsAreThese(v: int, c: byte)
    requires 0 <= v < 16
    ensures Digit(v) == "0123456789abcdef"[v] as int
    ensures FromDigit("0123456789abcdef"[v] as int) == v && FromDigit("0123456789ABCDEF"[v] as int) == v
    ensures IsDigit(c) <==> c as char in "0123456789abcdefABCDEF"
  {
    var digits := "0123456789abcdefABCDEF";
    if IsDigit(c) {
      assert digits[if c <= 57 then c - 48 else if c <= 70 then c - 49 else c - 87] == c as char;
    }
  }

  function Encoded(src: seq<byte>): (s: seq<byte>)
    ensures |s| == 2 * |src|
  {
    if src == [] then [] else [Digit(src[0] / 16), Digit(src[0] % 16)] + Encoded(src[1..])
  }

  lemma {:induction false} EncodedSnoc(s: seq<byte>, v: byte)
    ensures Encoded(s + [v]) == Encoded(s) + [Digit(v / 16), Digit(v % 16)]
  {
    if s == [] {
      assert Encoded([v]) == [Digit(v / 16), Digit(v % 16)] + Encoded([]);
    } else {
      EncodedSnoc(s[1..], v);
      assert (s + [v])[1..] == s[1..] + [v];
    }
  }

  /** Every byte is two digits, the higher one first. */
  lemma {:induction false} EncodedAt(src: seq<byte>, i: nat)
    requires i < |src|
    ensures Encoded(src)[2 * i] == Digit(src[i] / 16) && Encoded(src)[2 * i + 1] == Digit(src[i] % 16)
  {
    if i > 0 {
      EncodedAt(src[1..], i - 1);
    }
  }

  /** What decoding a text means: whole pairs first, the odd tail last. */
  function DecodedOf(src: seq<byte>): Decoded
  {
    if src == [] then Decoded([], None)
    else if |src| == 1 then
      Decoded([], Some(if IsDigit(src[0]) then OddLength else InvalidByte(src[0])))
    else if !IsDigit(src[0]) then Decoded([], Some(InvalidByte(src[0])))
    else if !IsDigit(src[1]) then Decoded([], Some(InvalidByte(src[1])))
    else
      var rest := DecodedOf(src[2..]);
      Decoded([FromDigit(src[0]) * 16 + FromDigit(src[1])] + rest.out, rest.error)
  }

  lemma DecodedStep(src: seq<byte>)
    requires |src| >= 2 && IsDigit(src[0]) && IsDigit(src[1])
    ensures DecodedOf(src).out == [FromDigit(src[0]) * 16 + FromDigit(src[1])] + DecodedOf(src[2..]).out
    ensures DecodedOf(src).error == DecodedOf(src[2..]).error
  {
  }

  lemma {:induction false} DecodedLength(src: seq<byte>)
    ensures |DecodedOf(src).out| <= |src| / 2
    ensures DecodedOf(src).error == None ==> |src| == 2 * |DecodedOf(src).out|
  {
    if |src| >= 2 {
      DecodedLength(src[2..]);
    }
  }

  /** Decoding undoes encoding, for every byte string. */
  lemma {:induction false} DecodeEncode(src: seq<byte>)
    ensures DecodedOf(Encoded(src)) == Decoded(src, None)
  {
    if src != [] {
      DecodeEncode(src[1..]);
      var e := Encoded(src);
      assert e[2..] == Encoded(src[1..]);
      assert FromDigit(e[0]) == src[0] / 16 && FromDigit(e[1]) == src[0] % 16;
      assert src == [src[0]] + src[1..];
    }
  }

  /** Decoding succeeds exactly on an even number of digits. */
  lemma {:induction false} DecodeSucceeds(src: seq<byte>)
    ensures DecodedOf(src).error == None
       <==> |src| % 2 == 0 && forall i :: 0 <= i < |src| ==> IsDigit(src[i])
  {
    if |src| >= 2 {
      DecodeSucceeds(src[2..]);
      assert forall i :: 2 <= i < |src| ==> src[i] == src[2..][i - 2];
    }
  }

  function EncodedLen(n: nat): nat { n * 2 }

  function DecodedLen(n: nat): nat { n / 2 }

  method Encode(dst: array<byte>, src: seq<byte>) returns (n: nat)
    requires EncodedLen(|src|) <= dst.Length
    modifies dst
    ensures n == 2 * |src|
    ensures dst[..n] == Encoded(src)
    ensures dst[n..] == old(dst[2 * |src|..])
  {
    var j := 0;
    for i := 0 to |src|
      invariant j == 2 * i
      invariant dst[..j] == Encoded(src[..i])
      invariant dst[j..] == old(dst[..])[j..]
    {
      var v := src[i];
      dst[j] := Digit(v / 16);
      dst[j + 1] := Digit(v % 16);
      EncodedSnoc(src[..i], v);
      assert src[..i + 1] == src[..i] + [v];
      j := j + 2;
    }
    assert src[..|src|] == src;
    n := |src| * 2;
  }

  /** The pairs up to k are decoded, and what is left decides how decoding ends. */
  ghost predicate DecodedUpTo(src: seq<byte>, k: nat, written: seq<byte>)
    requires k <= |src|
  {
    DecodedOf(src) == Decoded(written + DecodedOf(src[k..]).out, DecodedOf(src[k..]).error)
  }

  lemma DecodedFurther(src: seq<byte>, k: nat, written: seq<byte>)
    requires k + 1 < |src| && IsDigit(src[k]) && IsDigit(src[k + 1]) && DecodedUpTo(src, k, written)
    ensures DecodedUpTo(src, k + 2, written + [FromDigit(src[k]) * 16 + FromDigit(src[k + 1])])
  {
    DecodedStep(src[k..]);
    assert src[k..][2..] == src[k + 2..];
  }

  lemma DecodedStops(src: seq<byte>, k: nat, written: seq<byte>)
    requires k <= |src| && DecodedUpTo(src, k, written)
    ensures |src| == k ==> DecodedOf(src) == Decoded(written, None)
    ensures |src| == k + 1 ==>
      DecodedOf(src) == Decoded(written, Some(if IsDigit(src[k]) then OddLength else InvalidByte(src[k])))
    ensures |src| > k + 1 && !IsDigit(src[k]) ==> DecodedOf(src) == Decoded(written, Some(InvalidByte(src[k])))
    ensures |src| > k + 1 && IsDigit(src[k]) && !IsDigit(src[k + 1]) ==>
      DecodedOf(src) == Decoded(written, Some(InvalidByte(src[k + 1])))
  {
  }

  /** Decodes into dst and reports how many bytes were written before the first problem. */
  method Decode(dst: array<byte>, src: seq<byte>) returns (n: nat, err: Option<DecodeError>)
    requires DecodedLen(|src|) <= dst.Length
    modifies dst
    ensures n <= dst.Length
    ensures Decoded(dst[..n], err) == DecodedOf(src)
    ensures dst[n..] == old(dst[..])[n..]
  {
    var i, j := 0, 1;
    assert src[0..] == src;
    while j < |src|
      invariant j == 2 * i + 1 && j <= |src| + 1
      invariant forall k :: i <= k < dst.Length ==> dst[k] == old(dst[k])
      invariant DecodedUpTo(src, j - 1, dst[..i])
    {
      var p := src[j - 1];
      var q := src[j];
      var a := FromDigit(p);
      var b := FromDigit(q);
      DecodedStops(src, j - 1, dst[..i]);
      if a > 0x0f {
        return i, Some(InvalidByte(p));
      }
      if b > 0x0f {
        return i, Some(InvalidByte(q));
      }
      DecodedFurther(src, j - 1, dst[..i]);
      ghost var written := dst[..i];
      dst[i] := a * 16 + b;
      assert dst[..i + 1] == written + [a * 16 + b];
      i := i + 1;
      j := j + 2;
    }
    DecodedStops(src, j - 1, dst[..i]);
    if |src| % 2 == 1 {
      if FromDigit(src[j - 1]) > 0x0f {
        return i, Some(InvalidByte(src[j - 1]));
      }
      return i, Some(OddLength);
    }
    return i, None;
  }
}
