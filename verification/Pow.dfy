/**
  The js-pow-sha256 challenge: what the server builds and accepts
  (embed/challenge/js-pow-sha256/runtime/runtime.go) and what the browser worker
  looks for (embed/challenge/js-pow-sha256/static/load.mjs). SHA-256 is any
  function `H` from byte strings to digests.
*/
module ProofOfWork {
  import opened Arithmetic
  import opened Bytes
  import opened Wrappers
  import Hex

  /** `strconv.ParseUint` of the difficulty parameter. */
  type uint64 = x: int | 0 <= x < 0x1_0000_0000_0000_0000

  datatype Setting = Absent | Malformed | Number(value: uint64)

  datatype Output = OK | Failed | Error

  const DEFAULT_DIFFICULTY: uint64 := 20

  function Difficulty(setting: Setting): uint64
    requires !setting.Malformed?
  {
    if setting.Absent? then DEFAULT_DIFFICULTY else setting.value
  }

  /** The challenge of a key: the digest of the difficulty's eight bytes and the key. */
  function Challenge(H: Hash, key: seq<byte>, d: nat): Digest
  {
    H(ChallengeText(key, d))
  }

  /** What a challenge is the digest of. */
  function ChallengeText(key: seq<byte>, d: nat): (s: seq<byte>)
    ensures |s| == 8 + |key| && s[8..] == key
  {
    LittleEndianBytes(8, d) + key
  }

  /** Two different texts with one digest. */
  predicate DigestCollision(H: Hash, p: seq<byte>, q: seq<byte>) { p != q && H(p) == H(q) }

  lemma ChallengeTextBinds(key: seq<byte>, d: uint64, other: seq<byte>, f: uint64)
    ensures LittleEndian(ChallengeText(key, d)[..8]) == d
    ensures ChallengeText(key, d) == ChallengeText(other, f) <==> key == other && d == f
  {
    var p, q := ChallengeText(key, d), ChallengeText(other, f);
    assert p[..8] == LittleEndianBytes(8, d) && q[..8] == LittleEndianBytes(8, f);
    Pow2Word();
    LittleEndianBytesValue(8, d);
    LittleEndianBytesValue(8, f);
  }

  /** Challenges of different keys or difficulties are different, or the two hashed texts collide. */
  lemma ChallengeBinds(H: Hash, key: seq<byte>, d: uint64, other: seq<byte>, f: uint64)
    ensures Challenge(H, key, d) == Challenge(H, other, f) <==>
      (key == other && d == f) || DigestCollision(H, ChallengeText(key, d), ChallengeText(other, f))
  {
    ChallengeTextBinds(key, d, other, f);
  }

  // ---------------------------------------------------------------- leading zeros

  /** `bits.LeadingZeros8`. */
  function LeadingZeros8(b: byte): (n: nat)
    ensures n <= 8 && (n == 8 <==> b == 0)
  {
    if b >= 128 then 0 else if b >= 64 then 1 else if b >= 32 then 2 else if b >= 16 then 3
    else if b >= 8 then 4 else if b >= 4 then 5 else if b >= 2 then 6 else if b >= 1 then 7 else 8
  }

  lemma LeadingZeros8Bound(b: byte, k: nat)
    requires k <= 8
    ensures LeadingZeros8(b) >= k <==> b < Pow2(8 - k)
  {
    Pow2Small();
  }

  /** The number of zero bits before the first one bit. */
  function LeadingZeroBits(h: seq<byte>): nat
  {
    if h == [] then 0
    else if h[0] != 0 then LeadingZeros8(h[0])
    else 8 + LeadingZeroBits(h[1..])
  }

  /** Having d leading zero bits is being below two to the number of remaining bits. */
  lemma {:induction false} LeadingZerosAreAValueBound(h: seq<byte>, d: nat)
    requires d <= 8 * |h|
    ensures LeadingZeroBits(h) >= d <==> BigEndian(h) < Pow2(8 * |h| - d)
  {
    if h != [] {
      var rest := 8 * (|h| - 1);
      BigEndianBound(h[1..]);
      if h[0] == 0 && d <= 8 {
        Pow2Monotone(rest, 8 * |h| - d);
      } else if h[0] == 0 {
        LeadingZerosAreAValueBound(h[1..], d - 8);
      } else if d <= 8 {
        LeadingZeros8Bound(h[0], d);
        Pow2Add(8 - d, rest);
        assert (8 - d) + rest == 8 * |h| - d;
        HeadBelow(h[0], BigEndian(h[1..]), Pow2(rest), Pow2(8 - d));
      } else {
        Pow2Monotone(8 * |h| - d, rest);
        HeadBelow(h[0], BigEndian(h[1..]), Pow2(rest), 1);
      }
    }
  }

  /** The verifier's count, byte by byte, stopping at the first byte that is not zero. */
  method CountLeadingZeroes(hash: seq<byte>) returns (leadingZeroesCount: nat)
    ensures leadingZeroesCount == LeadingZeroBits(hash)
  {
    leadingZeroesCount := 0;
    var i := 0;
    while i < |hash|
      invariant 0 <= i <= |hash|
      invariant leadingZeroesCount + LeadingZeroBits(hash[i..]) == LeadingZeroBits(hash)
    {
      var leadingZeroes := LeadingZeros8(hash[i]);
      assert hash[i..][1..] == hash[i + 1..];
      leadingZeroesCount := leadingZeroesCount + leadingZeroes;
      if leadingZeroes < 8 {
        return;
      }
      i := i + 1;
    }
  }

  /** The signed 32-bit integer that Go's conversion of the difficulty gives on wasm32. */
  function ToInt(d: nat): int
  {
    var low := d % 0x1_0000_0000;
    if low < 0x8000_0000 then low else low - 0x1_0000_0000
  }

  /** The conversion keeps the low 32 bits and gives the signed number they stand for. */
  lemma ToIntIsSigned32(d: nat)
    ensures -0x8000_0000 <= ToInt(d) < 0x8000_0000 && (d - ToInt(d)) % 0x1_0000_0000 == 0
    ensures d < 0x8000_0000 ==> ToInt(d) == d
  {
    var low := d % 0x1_0000_0000;
    assert d == d / 0x1_0000_0000 * 0x1_0000_0000 + low;
    var q := if low < 0x8000_0000 then d / 0x1_0000_0000 else d / 0x1_0000_0000 + 1;
    assert d - ToInt(d) == q * 0x1_0000_0000 + 0;
    QuotientIsUnique(d - ToInt(d), 0x1_0000_0000, q, 0);
  }

  /** What a difficulty asks of a digest: that its first d bits be zero. */
  predicate HasZeroBits(h: Digest, d: nat)
  {
    d <= 256 && BigEndian(h) < Pow2(256 - d)
  }

  predicate ServerAccepts(h: Digest, d: nat)
  {
    LeadingZeroBits(h) >= ToInt(d)
  }

  lemma ToIntOfSmall(d: nat)
    requires d < 0x8000_0000
    ensures ToInt(d) == d
  {
  }

  /** The server's test of a digest is the difficulty's meaning, when the conversion keeps the difficulty's size. */
  lemma ServerAcceptsMeaning(h: Digest, d: nat)
    requires d <= 256 || ToInt(d) > 256
    ensures ServerAccepts(h, d) <==> HasZeroBits(h, d)
  {
    if d <= 256 {
      ToIntOfSmall(d);
      LeadingZerosAreAValueBound(h, d);
    } else {
      LeadingZeroBitsBound(h);
    }
  }

  /** It is so for every digest exactly under that condition: otherwise the zero digest is accepted. */
  lemma ServerAcceptsExactly(d: nat)
    ensures (forall h: Digest :: ServerAccepts(h, d) <==> HasZeroBits(h, d))
       <==> (d <= 256 || ToInt(d) > 256)
  {
    if d <= 256 || ToInt(d) > 256 {
      forall h: Digest ensures ServerAccepts(h, d) <==> HasZeroBits(h, d) {
        ServerAcceptsMeaning(h, d);
      }
    } else {
      var zeros: Digest := seq(32, _ => 0);
      ZeroBytes(32);
      assert zeros == seq(32, _ => 0 as byte);
      assert ServerAccepts(zeros, d) && !HasZeroBits(zeros, d);
    }
  }

  /** A difficulty of twenty, the one of challenges that set none, wants two zero bytes and half of a third. */
  lemma DefaultDifficultyIs(h: Digest)
    ensures ServerAccepts(h, Difficulty(Absent)) <==> h[0] == 0 && h[1] == 0 && h[2] < 16
  {
    assert h[1..][0] == h[1] && h[1..][1..] == h[2..] && h[2..][0] == h[2];
    assert LeadingZeroBits(h) == if h[0] != 0 then LeadingZeros8(h[0]) else 8 + LeadingZeroBits(h[1..]);
    assert LeadingZeroBits(h[1..]) == if h[1] != 0 then LeadingZeros8(h[1]) else 8 + LeadingZeroBits(h[2..]);
    assert LeadingZeroBits(h[2..]) == if h[2] != 0 then LeadingZeros8(h[2]) else 8 + LeadingZeroBits(h[2..][1..]);
  }

  lemma {:induction false} LeadingZeroBitsBound(h: seq<byte>)
    ensures LeadingZeroBits(h) <= 8 * |h|
  {
    if h != [] {
      LeadingZeroBitsBound(h[1..]);
    }
  }

  lemma {:induction false} ZeroBytes(n: nat)
    ensures LeadingZeroBits(seq(n, _ => 0 as byte)) == 8 * n
    ensures LittleEndian(seq(n, _ => 0 as byte)) == 0
  {
    if n > 0 {
      ZeroBytes(n - 1);
      assert seq(n, _ => 0 as byte)[1..] == seq(n - 1, _ => 0 as byte);
    }
  }

  // ---------------------------------------------------------------------- target

  function Minus(a: nat, b: nat): nat { if a <= b then 0 else a - b }

  /** The value of a target: all ones after d zero bits of `bits`. */
  function Ones(bits: nat, d: nat): nat
  {
    if bits <= d then 0 else Pow2(bits - d) - 1
  }

  lemma OnesStep(bits: nat, d: nat)
    ensures Ones(bits + 1, d) == 2 * Ones(bits, d) + if d <= bits then 1 else 0
  {
  }

  /** Eight more bits, taken as the byte of their own Ones. */
  lemma OnesByte(bits: nat, d: nat)
    ensures Ones(bits + 8, d) == 256 * Ones(bits, d) + Ones(8, Minus(d, bits))
  {
    if bits <= d {
    } else {
      Pow2Plus8(bits - d);
      Pow2Small();
    }
  }

  lemma OnesBound(j: nat, d: nat)
    ensures Ones(j, d) < Pow2(j)
  {
    if d < j {
      Pow2Monotone(j - d, j);
    }
  }

  lemma OnesInByte(j: nat, d: nat)
    requires j < 8
    ensures Ones(j, d) < 128
    ensures Ones(j + 1, d) == 2 * Ones(j, d) + if d <= j then 1 else 0
  {
    OnesStep(j, d);
    OnesBound(j, d);
    Pow2Monotone(j, 7);
    Pow2Small();
  }

  /** Setting the low bit of a byte whose low bit is clear. */
  function SetLowBit(v: byte): byte { if v % 2 == 0 then v + 1 else v }

  /** The inner loop: the next byte, and how many zero bits are still to be built. */
  method BuildByte(start: nat) returns (v: byte, nBits: nat)
    ensures v == Ones(8, start) && nBits == Minus(start, 8)
  {
    v, nBits := 0, start;
    for j := 0 to 8
      invariant nBits == Minus(start, j) && v == Ones(j, start)
    {
      OnesInByte(j, start);
      v := (2 * v) % 256;
      if nBits == 0 {
        v := SetLowBit(v);
      } else {
        nBits := nBits - 1;
      }
    }
  }

  /** The target: as many zero bits as the difficulty, then ones. */
  method BuildTarget(difficulty: nat, n: nat) returns (target: array<byte>)
    ensures fresh(target) && target.Length == n
    ensures BigEndian(target[..]) == Ones(8 * n, difficulty)
  {
    target := new byte[n](_ => 0);
    var nBits := difficulty;
    for i := 0 to target.Length
      invariant nBits == Minus(difficulty, 8 * i)
      invariant BigEndian(target[..i]) == Ones(8 * i, difficulty)
    {
      var v;
      ghost var before := target[..i];
      v, nBits := BuildByte(nBits);
      OnesByte(8 * i, difficulty);
      BigEndianSnoc(before, v);
      target[i] := v;
      assert target[..i + 1] == before + [v];
      assert 8 * (i + 1) == 8 * i + 8;
    }
    assert target[..n] == target[..];
  }

  // ---------------------------------------------------------------------- server

  datatype Made = BadSetting | Made(challenge: seq<byte>, target: seq<byte>, difficulty: nat)

  method EncodeText(src: seq<byte>) returns (text: seq<byte>)
    ensures text == Hex.Encoded(src)
  {
    var dst := new byte[Hex.EncodedLen(|src|)];
    var n := Hex.Encode(dst, src);
    text := dst[..n];
  }

  /** The challenge and target texts a browser is given; a malformed difficulty is an error. */
  method MakeChallenge(H: Hash, key: seq<byte>, setting: Setting) returns (made: Made)
    ensures made.BadSetting? <==> setting.Malformed?
    ensures made.Made? ==>
      && made.difficulty == Difficulty(setting)
      && Hex.DecodedOf(made.challenge) == Hex.Decoded(Challenge(H, key, made.difficulty), None)
      && Hex.DecodedOf(made.target).error == None
      && |Hex.DecodedOf(made.target).out| == 32
      && BigEndian(Hex.DecodedOf(made.target).out) == Ones(256, made.difficulty)
  {
    if setting.Malformed? {
      return BadSetting;
    }
    var difficulty := Difficulty(setting);
    var c := Challenge(H, key, difficulty);
    var target := BuildTarget(difficulty, |c|);
    var challengeText := EncodeText(c);
    var targetText := EncodeText(target[..]);
    Hex.DecodeEncode(c);
    Hex.DecodeEncode(target[..]);
    made := Made(challengeText, targetText, difficulty);
  }

  /** A text proves work: it spells the challenge and eight more bytes, and they hash low enough. */
  ghost predicate ProvesWork(H: Hash, key: seq<byte>, d: nat, text: seq<byte>)
  {
    exists nonce: seq<byte> :: |nonce| == 8
      && Hex.DecodedOf(text) == Hex.Decoded(Challenge(H, key, d) + nonce, None)
      && HasZeroBits(H(Challenge(H, key, d) + nonce), d)
  }

  /** The server accepts a text: it spells the challenge and eight more bytes whose digest passes its comparison. */
  ghost predicate IsAccepted(H: Hash, key: seq<byte>, d: nat, text: seq<byte>)
  {
    exists nonce: seq<byte> :: |nonce| == 8
      && Hex.DecodedOf(text) == Hex.Decoded(Challenge(H, key, d) + nonce, None)
      && ServerAccepts(H(Challenge(H, key, d) + nonce), d)
  }

  lemma IsAcceptedByPrefix(H: Hash, key: seq<byte>, d: nat, text: seq<byte>, result: seq<byte>)
    requires Hex.DecodedOf(text) == Hex.Decoded(result, None) && |result| >= 8
    ensures IsAccepted(H, key, d, text) <==>
      result[..|result| - 8] == Challenge(H, key, d) && ServerAccepts(H(result), d)
  {
    var c := Challenge(H, key, d);
    if IsAccepted(H, key, d, text) {
      var nonce: seq<byte> :| |nonce| == 8 && result == c + nonce && ServerAccepts(H(c + nonce), d);
      assert result[..|result| - 8] == c;
    }
    if result[..|result| - 8] == c {
      assert result == c + result[|result| - 8..];
    }
  }

  /** What is accepted proves work when the conversion keeps the difficulty's size. */
  lemma AcceptedProvesWork(H: Hash, key: seq<byte>, d: nat, text: seq<byte>)
    requires d <= 256 || ToInt(d) > 256
    ensures IsAccepted(H, key, d, text) <==> ProvesWork(H, key, d, text)
  {
    forall h: Digest ensures ServerAccepts(h, d) <==> HasZeroBits(h, d) {
      ServerAcceptsMeaning(h, d);
    }
  }

  /** A text that is accepted for two keys or difficulties exhibits a collision: one solution serves one key. */
  lemma AcceptedForOneKey(H: Hash, key: seq<byte>, d: uint64, other: seq<byte>, f: uint64, text: seq<byte>)
    requires IsAccepted(H, key, d, text) && IsAccepted(H, other, f, text)
    ensures (key == other && d == f) || DigestCollision(H, ChallengeText(key, d), ChallengeText(other, f))
  {
    var m: seq<byte> :| |m| == 8 && Hex.DecodedOf(text) == Hex.Decoded(Challenge(H, key, d) + m, None);
    var n: seq<byte> :| |n| == 8 && Hex.DecodedOf(text) == Hex.Decoded(Challenge(H, other, f) + n, None);
    var out := Hex.DecodedOf(text).out;
    assert out[..32] == Challenge(H, key, d) && out[..32] == Challenge(H, other, f);
    ChallengeBinds(H, key, d, other, f);
  }

  method VerifyChallenge(H: Hash, key: seq<byte>, setting: Setting, text: seq<byte>) returns (out: Output)
    ensures out == Error <==>
      setting.Malformed? || Hex.DecodedOf(text).error != None || |text| < 16
    ensures !setting.Malformed? ==> (out == OK <==> IsAccepted(H, key, Difficulty(setting), text))
    ensures !setting.Malformed? && (Difficulty(setting) <= 256 || ToInt(Difficulty(setting)) > 256) ==>
      (out == OK <==> ProvesWork(H, key, Difficulty(setting), text))
  {
    if setting.Malformed? {
      return Error;
    }
    var difficulty := Difficulty(setting);
    if difficulty <= 256 || ToInt(difficulty) > 256 {
      AcceptedProvesWork(H, key, difficulty, text);
    }
    var c := Challenge(H, key, difficulty);
    var dst := new byte[Hex.DecodedLen(|text|)];
    var n, err := Hex.Decode(dst, text);
    Hex.DecodedLength(text);
    if err != None {
      return Error;
    }
    var result := dst[..n];
    if |result| < 8 {
      return Error;
    }
    IsAcceptedByPrefix(H, key, difficulty, text, result);
    if result[..|result| - 8] != c {
      return Failed;
    }
    var hash := H(result);
    var leadingZeroesCount := CountLeadingZeroes(hash);
    assert ServerAccepts(hash, difficulty) <==> leadingZeroesCount >= ToInt(difficulty);
    if leadingZeroesCount < ToInt(difficulty) {
      return Failed;
    }
    return OK;
  }

  // ---------------------------------------------------------------------- worker

  lemma {:induction false} FirstDifferenceDecides(s: seq<byte>, t: seq<byte>, i: nat)
    requires |s| == |t| && i < |s| && s[..i] == t[..i] && s[i] < t[i]
    ensures BigEndian(s) < BigEndian(t)
  {
    if i == 0 {
      BigEndianBound(s[1..]);
      HeadDecides(s[0], t[0], Pow2(8 * (|s| - 1)), BigEndian(s[1..]), BigEndian(t[1..]));
    } else {
      assert s[0] == s[..i][0] == t[..i][0] == t[0];
      assert s[1..][..i - 1] == s[..i][1..] == t[..i][1..] == t[1..][..i - 1];
      FirstDifferenceDecides(s[1..], t[1..], i - 1);
    }
  }

  /** The worker's byte-wise comparison orders equally long strings by their values. */
  method LessThan(buf: seq<byte>, target: seq<byte>) returns (less: bool)
    requires |buf| == |target|
    ensures less <==> BigEndian(buf) < BigEndian(target)
  {
    for i := 0 to |buf|
      invariant buf[..i] == target[..i]
    {
      if buf[i] < target[i] {
        FirstDifferenceDecides(buf, target, i);
        return true;
      } else if buf[i] > target[i] {
        FirstDifferenceDecides(target, buf, i);
        return false;
      }
      assert buf[..i + 1] == buf[..i] + [buf[i]];
      assert target[..i + 1] == target[..i] + [target[i]];
    }
    assert buf == buf[..|buf|] == target[..|buf|] == target;
    return false;
  }

  /** Adding one with the low byte first: carry through bytes of 255, wrap at the end. */
  function Incremented(s: seq<byte>): (t: seq<byte>)
    ensures |t| == |s|
  {
    if s == [] then []
    else if s[0] == 255 then [0] + Incremented(s[1..])
    else [s[0] + 1] + s[1..]
  }

  /** The successor among n values, wrapping to zero. */
  function Next(v: nat, n: nat): nat { if v + 1 == n then 0 else v + 1 }

  lemma {:induction false} IncrementedValue(s: seq<byte>)
    ensures LittleEndian(Incremented(s)) == Next(LittleEndian(s), Pow2(8 * |s|))
  {
    if s != [] {
      Pow2Plus8(8 * (|s| - 1));
      LittleEndianBound(s[1..]);
      assert Incremented(s)[1..] == if s[0] == 255 then Incremented(s[1..]) else s[1..];
      if s[0] == 255 {
        IncrementedValue(s[1..]);
      }
    } else {
      assert Pow2(0) == 1;
    }
  }

  /** The carry has gone through the bytes before i and stopped there, or goes on. */
  lemma {:induction false} CarryThrough(s: seq<byte>, i: nat)
    requires i <= |s| && forall k :: 0 <= k < i ==> s[k] == 255
    ensures Incremented(s) == seq(i, _ => 0) + Incremented(s[i..])
  {
    if i > 0 {
      CarryThrough(s[1..], i - 1);
      assert s[1..][i - 1..] == s[i..];
      assert [0] + seq(i - 1, _ => 0) == seq(i, _ => 0);
    } else {
      assert s[0..] == s;
    }
  }

  lemma CarryStops(s: seq<byte>, i: nat)
    requires i < |s| && s[i] != 255 && forall k :: 0 <= k < i ==> s[k] == 255
    ensures Incremented(s) == seq(i, _ => 0) + [s[i] + 1] + s[i + 1..]
  {
    CarryThrough(s, i);
    assert s[i..][1..] == s[i + 1..];
  }

  method Increment(number: array<byte>)
    modifies number
    ensures number[..] == Incremented(old(number[..]))
    ensures LittleEndian(number[..]) == Next(LittleEndian(old(number[..])), Pow2(8 * number.Length))
  {
    ghost var was := number[..];
    IncrementedValue(was);
    var i := 0;
    while i < number.Length
      invariant i <= number.Length
      invariant forall k :: 0 <= k < i ==> was[k] == 255 && number[k] == 0
      invariant forall k :: i <= k < number.Length ==> number[k] == was[k]
    {
      if number[i] == 255 {
        number[i] := 0;
      } else {
        number[i] := number[i] + 1;
        CarryStops(was, i);
        assert number[..] == seq(i, _ => 0) + [was[i] + 1] + was[i + 1..];
        return;
      }
      i := i + 1;
    }
    CarryThrough(was, |was|);
    assert number[..] == seq(|was|, _ => 0) + [];
  }

  /** The eight nonce bytes after k increments from zero. */
  function Nonce(k: nat): (s: seq<byte>)
    ensures |s| == 8
  {
    if k == 0 then seq(8, _ => 0) else Incremented(Nonce(k - 1))
  }

  const NONCES: nat := 0x1_0000_0000_0000_0000

  lemma {:induction false} NonceValue(k: nat)
    ensures LittleEndian(Nonce(k)) == k % NONCES
  {
    if k == 0 {
      ZeroBytes(8);
      assert Nonce(0) == seq(8, _ => 0 as byte);
    } else {
      NonceValue(k - 1);
      IncrementedWord(Nonce(k - 1));
      NextModulo(k - 1, NONCES);
    }
  }

  lemma IncrementedWord(s: seq<byte>)
    requires |s| == 8
    ensures LittleEndian(Incremented(s)) == Next(LittleEndian(s), NONCES)
  {
    Pow2Word();
    IncrementedValue(s);
  }

  lemma NextModulo(k: nat, n: nat)
    requires n > 0
    ensures Next(k % n, n) == (k + 1) % n
  {
    assert k + 1 == n * (k / n) + (k % n + 1);
    if k % n + 1 == n {
      QuotientIsUnique(k + 1, n, k / n + 1, 0);
    } else {
      QuotientIsUnique(k + 1, n, k / n, k % n + 1);
    }
  }

  lemma ModuloOfSmall(k: nat, n: nat)
    requires k < n
    ensures k % n == k
  {
  }

  lemma NonceInjective(i: nat, j: nat)
    requires i < NONCES && j < NONCES && Nonce(i) == Nonce(j)
    ensures i == j
  {
    NonceValue(i);
    NonceValue(j);
    ModuloOfSmall(i, NONCES);
    ModuloOfSmall(j, NONCES);
  }

  /** The first 2^64 candidates are all eight-byte strings, each met exactly once. */
  lemma NoncesEnumerate(s: seq<byte>)
    requires |s| == 8
    ensures exists k: nat :: k < NONCES && Nonce(k) == s
    ensures forall i: nat, j: nat :: i < NONCES && j < NONCES && Nonce(i) == Nonce(j) ==> i == j
  {
    var k := LittleEndian(s);
    Pow2Word();
    LittleEndianBound(s);
    NonceValue(k);
    ModuloOfSmall(k, NONCES);
    LittleEndianInjective(Nonce(k), s);
    forall i: nat, j: nat | i < NONCES && j < NONCES && Nonce(i) == Nonce(j)
      ensures i == j
    {
      NonceInjective(i, j);
    }
  }

  /** The worker stops at digest h for target value `goal`. */
  predicate WorkerStops(H: Hash, data: seq<byte>, goal: nat, k: nat)
  {
    BigEndian(H(data + Nonce(k))) < goal
  }

  /** For the built target, the worker stops exactly where the server accepts, save on the target itself. */
  lemma WorkerVersusServer(h: Digest, target: Digest, d: nat)
    requires d <= 256 && BigEndian(target) == Ones(256, d)
    ensures BigEndian(h) < BigEndian(target) <==> ServerAccepts(h, d) && h != target
  {
    ServerAcceptsMeaning(h, d);
    OnesOfDigest(d);
    if BigEndian(h) == BigEndian(target) {
      BigEndianInjective(h, target);
    }
  }

  lemma OnesOfDigest(d: nat)
    requires d <= 256
    ensures Ones(256, d) == Pow2(256 - d) - 1
  {
  }

  /** Past 256 bits neither side ever agrees to stop, as long as the conversion keeps the number large. */
  lemma NobodyStopsPast256(h: Digest, d: nat)
    requires ToInt(d) > 256
    ensures !ServerAccepts(h, d) && !(BigEndian(h) < Ones(256, d))
  {
    LeadingZeroBitsBound(h);
  }

  /** The white space that `parseInt` passes over. */
  predicate IsSpace(c: byte) { 9 <= c <= 13 || c == 32 || c == 160 }

  /** The digits after a sign or a space: one, or none at all, which a byte array stores as zero. */
  function OneDigit(c: byte): byte { if Hex.IsDigit(c) then Hex.FromDigit(c) else 0 }

  /** `parseInt` of two characters in base 16, as a byte array stores it. */
  function ParsePair(p: byte, q: byte): byte
  {
    if IsSpace(p) || p == 43 then OneDigit(q)
    else if p == 45 then (if OneDigit(q) == 0 then 0 else 256 - OneDigit(q))
    else if !Hex.IsDigit(p) then 0
    else if !Hex.IsDigit(q) then Hex.FromDigit(p)
    else Hex.FromDigit(p) * 16 + Hex.FromDigit(q)
  }

  /** What the worker makes of a text of characters below 256: an odd one at the end has no place. */
  function Parsed(str: seq<byte>): (s: seq<byte>)
    ensures |s| == |str| / 2
  {
    if |str| < 2 then [] else [ParsePair(str[0], str[1])] + Parsed(str[2..])
  }

  lemma {:induction false} ParsedAt(str: seq<byte>, j: nat)
    requires j < |str| / 2
    ensures Parsed(str)[j] == ParsePair(str[2 * j], str[2 * j + 1])
  {
    if j > 0 {
      ParsedAt(str[2..], j - 1);
    }
  }

  /** On what the server can decode, the worker agrees with it. */
  lemma {:induction false} ParsedIsDecoded(str: seq<byte>)
    requires Hex.DecodedOf(str).error == None
    ensures Hex.DecodedOf(str).out == Parsed(str)
  {
    if |str| >= 2 {
      Hex.DecodedStep(str);
      ParsedIsDecoded(str[2..]);
    }
  }

  method DecodeHex(str: seq<byte>) returns (result: array<byte>)
    ensures fresh(result) && result[..] == Parsed(str)
    ensures Hex.DecodedOf(str).error == None ==> Hex.DecodedOf(str) == Hex.Decoded(result[..], None)
  {
    result := new byte[|str| / 2](_ => 0);
    var i := 0;
    while i < |str|
      invariant i <= |str| + 1 && i % 2 == 0
      invariant forall j :: 0 <= j < i / 2 && j < |str| / 2 ==> result[j] == ParsePair(str[2 * j], str[2 * j + 1])
    {
      if i + 1 < |str| {
        result[i / 2] := ParsePair(str[i], str[i + 1]);
      }
      i := i + 2;
    }
    forall j | 0 <= j < |str| / 2 ensures result[j] == Parsed(str)[j] {
      ParsedAt(str, j);
    }
    if Hex.DecodedOf(str).error == None {
      ParsedIsDecoded(str);
    }
  }

  /** One round: put the nonce behind the challenge, hash, compare. */
  method Candidate(H: Hash, buf: array<byte>, nonce: array<byte>, target: array<byte>) returns (less: bool)
    requires nonce.Length <= buf.Length && buf != nonce && buf != target && target.Length == 32
    modifies buf
    ensures buf[..] == old(buf[..buf.Length - nonce.Length]) + nonce[..]
    ensures less <==> BigEndian(H(buf[..])) < BigEndian(target[..])
  {
    Set(buf, nonce, buf.Length - nonce.Length);
    less := LessThan(H(buf[..]), target[..]);
  }

  ghost predicate CanWin(H: Hash, data: seq<byte>, goal: nat)
  {
    exists k: nat :: WorkerStops(H, data, goal, k)
  }

  ghost predicate NoneBefore(H: Hash, data: seq<byte>, goal: nat, k: nat)
  {
    forall j: nat :: j < k ==> !WorkerStops(H, data, goal, j)
  }

  /** The k-th candidate is the first to win, and this is what the worker posts for it. */
  ghost predicate WinsFirst(H: Hash, data: seq<byte>, goal: nat, posted: seq<byte>, k: nat)
  {
    posted == Hex.Encoded(data + Nonce(k)) && WorkerStops(H, data, goal, k) && NoneBefore(H, data, goal, k)
  }

  lemma OneMore(H: Hash, data: seq<byte>, goal: nat, k: nat, last: nat)
    requires NoneBefore(H, data, goal, k) && !WorkerStops(H, data, goal, k)
    requires k <= last && WorkerStops(H, data, goal, last)
    ensures NoneBefore(H, data, goal, k + 1) && k + 1 <= last
  {
  }

  /** The buffers the search begins with: the challenge with room behind it, and a nonce of zeros. */
  method Prepare(data: array<byte>) returns (buf: array<byte>, nonce: array<byte>)
    ensures fresh(buf) && fresh(nonce) && buf != nonce
    ensures nonce[..] == Nonce(0) && buf.Length == data.Length + 8 && buf[..data.Length] == data[..]
  {
    nonce := new byte[8](_ => 0);
    buf := new byte[data.Length + nonce.Length](_ => 0);
    Set(buf, data, 0);
  }

  /** The search of the worker: the first nonce whose digest is strictly below the target. */
  method Search(H: Hash, data: array<byte>, target: array<byte>) returns (posted: seq<byte>)
    requires target.Length == 32
    // without a winning nonce the loop of the worker never ends
    requires CanWin(H, data[..], BigEndian(target[..]))
    ensures exists k: nat :: WinsFirst(H, data[..], BigEndian(target[..]), posted, k)
  {
    ghost var prefix, goal := data[..], BigEndian(target[..]);
    ghost var last: nat :| WorkerStops(H, prefix, goal, last);
    var buf, nonce := Prepare(data);
    assert buf[..|prefix|] == prefix;
    posted := SearchFrom(H, prefix, goal, last, buf, nonce, target);
    ghost var k: nat :| WinsFirst(H, prefix, goal, posted, k);
    assert data[..] == prefix && BigEndian(target[..]) == goal;
    assert WinsFirst(H, data[..], BigEndian(target[..]), posted, k);
  }

  /** The loop of the search. */
  method SearchFrom(H: Hash, ghost data: seq<byte>, ghost goal: nat, ghost last: nat,
                    buf: array<byte>, nonce: array<byte>, target: array<byte>) returns (posted: seq<byte>)
    requires buf != nonce && buf != target && nonce != target && target.Length == 32
    requires nonce[..] == Nonce(0) && buf.Length == |data| + 8 && buf[..|data|] == data
    requires BigEndian(target[..]) == goal && WorkerStops(H, data, goal, last)
    modifies buf, nonce
    ensures exists k: nat :: WinsFirst(H, data, goal, posted, k)
  {
    ghost var k: nat := 0;
    while true
      invariant nonce.Length == 8 && nonce[..] == Nonce(k) && k <= last
      invariant buf[..|data|] == data && BigEndian(target[..]) == goal
      invariant NoneBefore(H, data, goal, k)
      decreases last - k
    {
      var less := Candidate(H, buf, nonce, target);
      assert buf[..] == data + Nonce(k);
      if less {
        posted := EncodeHex(buf[..]);
        assert WinsFirst(H, data, goal, posted, k);
        return;
      }
      Increment(nonce);
      OneMore(H, data, goal, k, last);
      k := k + 1;
    }
  }

  /** The worker's message handler: decode the two texts, search, post. */
  method OnMessage(H: Hash, challenge: seq<byte>, targetText: seq<byte>) returns (posted: seq<byte>)
    requires |targetText| / 2 == 32
    requires CanWin(H, Parsed(challenge), BigEndian(Parsed(targetText)))
    ensures exists k: nat :: WinsFirst(H, Parsed(challenge), BigEndian(Parsed(targetText)), posted, k)
  {
    var data := DecodeHex(challenge);
    var target := DecodeHex(targetText);
    posted := Search(H, data, target);
  }

  /** `Uint8Array.set`. */
  method Set(buf: array<byte>, src: array<byte>, offset: nat)
    requires buf != src && offset + src.Length <= buf.Length
    modifies buf
    ensures buf[..] == old(buf[..offset]) + src[..] + old(buf[offset + src.Length..])
  {
    forall i | 0 <= i < src.Length {
      buf[offset + i] := src[i];
    }
  }

  /** The worker's `reduce`: append the two padded digits of each byte. */
  function EncodeHexFrom(acc: seq<byte>, buf: seq<byte>): seq<byte>
    decreases |buf|
  {
    if buf == [] then acc
    else EncodeHexFrom(acc + [Hex.Digit(buf[0] / 16), Hex.Digit(buf[0] % 16)], buf[1..])
  }

  function EncodeHex(buf: seq<byte>): (text: seq<byte>)
    ensures text == Hex.Encoded(buf)
  {
    EncodeHexFromIs([], buf);
    EncodeHexFrom([], buf)
  }

  lemma {:induction false} EncodeHexFromIs(acc: seq<byte>, buf: seq<byte>)
    ensures EncodeHexFrom(acc, buf) == acc + Hex.Encoded(buf)
    decreases |buf|
  {
    if buf != [] {
      EncodeHexFromIs(acc + [Hex.Digit(buf[0] / 16), Hex.Digit(buf[0] % 16)], buf[1..]);
    }
  }

  /** What the worker posts on a win proves work to the server. */
  lemma WinnerIsAccepted(H: Hash, key: seq<byte>, d: nat, k: nat)
    requires d <= 256 && WorkerStops(H, Challenge(H, key, d), Ones(256, d), k)
    ensures ProvesWork(H, key, d, Hex.Encoded(Challenge(H, key, d) + Nonce(k)))
    ensures |Hex.Encoded(Challenge(H, key, d) + Nonce(k))| == 80
  {
    Hex.DecodeEncode(Challenge(H, key, d) + Nonce(k));
    assert |Nonce(k)| == 8;
  }

  /**
    A whole exchange: whatever the worker posts for a challenge the server made
    is accepted by the server for the same key and difficulty.
   */
  method Exchange(H: Hash, key: seq<byte>, setting: Setting) returns (out: Output)
    requires !setting.Malformed? && Difficulty(setting) <= 256
    requires CanWin(H, Challenge(H, key, Difficulty(setting)), Ones(256, Difficulty(setting)))
    ensures out == OK
  {
    var made := MakeChallenge(H, key, setting);
    ParsedIsDecoded(made.challenge);
    ParsedIsDecoded(made.target);
    var posted := OnMessage(H, made.challenge, made.target);
    ghost var k: nat :| WinsFirst(H, Challenge(H, key, made.difficulty), Ones(256, made.difficulty), posted, k);
    WinnerIsAccepted(H, key, made.difficulty, k);
    out := VerifyChallenge(H, key, setting, posted);
  }

  /** Some eight-byte nonce wins for the worker exactly when one of its first 2^64 candidates does. */
  lemma SearchIsExhaustive(H: Hash, data: seq<byte>, goal: nat)
    ensures (exists s: seq<byte> :: |s| == 8 && BigEndian(H(data + s)) < goal)
       <==> (exists k: nat :: k < NONCES && WorkerStops(H, data, goal, k))
  {
    if s: seq<byte> :| |s| == 8 && BigEndian(H(data + s)) < goal {
      NoncesEnumerate(s);
      var k: nat :| k < NONCES && Nonce(k) == s;
      assert WorkerStops(H, data, goal, k);
    }
    if k: nat :| k < NONCES && WorkerStops(H, data, goal, k) {
      assert |Nonce(k)| == 8 && BigEndian(H(data + Nonce(k))) < goal;
    }
  }
}
