/** Base32 without padding (section 6 of RFC 4648) as arithmetic, and the accumulator loop that
    writes it in 32-bit arithmetic. */
module Base32 {

  type Byte = x: int | 0 <= x < 256
  type Digit = x: int | 0 <= x < 32

  const LOWER_ALPHABET := "abcdefghijklmnopqrstuvwxyz234567"
  const WORD := 0x1_0000_0000

  // ---------------------------------------------------------------- numbers

  /** The number a byte string spells, most significant byte first. */
  function FromBytes(b: seq<Byte>): nat {
    if b == [] then 0 else FromBytes(b[..|b| - 1]) * 256 + b[|b| - 1]
  }

  /** The number a string of base-32 digits spells. */
  function FromDigits(d: seq<Digit>): nat {
    if d == [] then 0 else FromDigits(d[..|d| - 1]) * 32 + d[|d| - 1]
  }

  /** The last `n` base-32 digits of a number. */
  function ToDigits(v: nat, n: nat): (d: seq<Digit>)
    ensures |d| == n
  {
    if n == 0 then [] else ToDigits(v / 32, n - 1) + [v % 32]
  }

  /** The last `n` bytes of a number. */
  function ToBytes(v: nat, n: nat): (b: seq<Byte>)
    ensures |b| == n
  {
    if n == 0 then [] else ToBytes(v / 256, n - 1) + [v % 256]
  }

  function Pow2(k: nat): (p: nat)
    ensures p > 0
  {
    if k == 0 then 1 else 2 * Pow2(k - 1)
  }

  lemma {:induction false} DigitsUnique(d: seq<Digit>)
    ensures ToDigits(FromDigits(d), |d|) == d
    decreases |d|
  {
    if d != [] {
      var n := |d| - 1;
      var v := FromDigits(d[..n]);
      assert (v * 32 + d[n]) / 32 == v && (v * 32 + d[n]) % 32 == d[n];
      DigitsUnique(d[..n]);
      assert d == d[..n] + [d[n]];
    }
  }

  lemma {:induction false} BytesUnique(b: seq<Byte>)
    ensures ToBytes(FromBytes(b), |b|) == b
    decreases |b|
  {
    if b != [] {
      var n := |b| - 1;
      var v := FromBytes(b[..n]);
      assert (v * 256 + b[n]) / 256 == v && (v * 256 + b[n]) % 256 == b[n];
      BytesUnique(b[..n]);
      assert b == b[..n] + [b[n]];
    }
  }

  lemma {:induction false} BytesBounded(b: seq<Byte>)
    ensures FromBytes(b) < Pow2(8 * |b|)
    decreases |b|
  {
    if b != [] {
      var n := |b| - 1;
      BytesBounded(b[..n]);
      Pow2Eight(8 * n);
    }
  }

  lemma Pow2Eight(k: nat)
    ensures Pow2(k + 8) == 256 * Pow2(k)
  {
    assert Pow2(k + 8) == 2 * Pow2(k + 7) == 4 * Pow2(k + 6) == 8 * Pow2(k + 5);
    assert Pow2(k + 5) == 2 * Pow2(k + 4) == 4 * Pow2(k + 3) == 8 * Pow2(k + 2) == 16 * Pow2(k + 1) == 32 * Pow2(k);
  }

  lemma {:induction false} DigitsRead(v: nat, n: nat)
    requires v < Pow2(5 * n)
    ensures FromDigits(ToDigits(v, n)) == v
    decreases n
  {
    if n > 0 {
      var d := ToDigits(v / 32, n - 1);
      Pow2Five(5 * n - 5);
      DigitsRead(v / 32, n - 1);
      assert (d + [v % 32])[..n - 1] == d;
    }
  }

  lemma Pow2Five(k: nat)
    ensures Pow2(k + 5) == 32 * Pow2(k)
  {
    assert Pow2(k + 5) == 2 * Pow2(k + 4) == 4 * Pow2(k + 3) == 8 * Pow2(k + 2) == 16 * Pow2(k + 1) == 32 * Pow2(k);
  }

  // ---------------------------------------------------------------- the encoding

  /** How many digits a byte string takes: one for every five bits, the last group padded. */
  function DigitCount(bytes: nat): nat {
    (8 * bytes + 4) / 5
  }

  /** The digits of a byte string, as the standard defines them: the bits of the input in
      groups of five, zero bits filling the last one. */
  function Digits(b: seq<Byte>): seq<Digit> {
    var n := DigitCount(|b|);
    ToDigits(FromBytes(b) * Pow2(5 * n - 8 * |b|), n)
  }

  function LowerChars(d: seq<Digit>): (s: string)
    ensures |s| == |d|
    ensures forall i :: 0 <= i < |d| ==> s[i] == LOWER_ALPHABET[d[i]]
  {
    seq(|d|, i requires 0 <= i < |d| => LOWER_ALPHABET[d[i]])
  }

  // ---------------------------------------------------------------- 32-bit arithmetic

  /** `value << 8 | byte` on 32-bit words: the shift drops what overflows, and the low eight
      bits it clears are those the byte fills. */
  function PushByte(value: nat, byte: Byte): (r: nat)
    ensures r < WORD
  {
    (value * 256) % WORD + byte
  }

  /** `(value >>> shift) & 31`. */
  function PeekDigit(value: nat, shift: nat): Digit {
    (value / Pow2(shift)) % 32
  }

  /** On machine words, filling the cleared low bits is an addition. */
  lemma OrFillsLowBits(value: bv32, byte: bv32)
    requires byte < 256
    ensures (value << 8) | byte == (value << 8) + byte
  {
  }

  /** The low bits of the accumulator, the only ones that matter. */
  function Low(value: nat, bits: nat): nat {
    value % Pow2(bits)
  }

  lemma Pow2Table()
    ensures Pow2(0) == 1 && Pow2(1) == 2 && Pow2(2) == 4 && Pow2(3) == 8 && Pow2(4) == 16
    ensures Pow2(5) == 32 && Pow2(6) == 64 && Pow2(7) == 128 && Pow2(8) == 256 && Pow2(9) == 512
    ensures Pow2(10) == 1024 && Pow2(11) == 2048 && Pow2(12) == 4096
  {
  }

  /** A quotient and a remainder are what division gives. */
  lemma DivUnique(v: int, m: int, q: int, r: int)
    requires m > 0 && v == q * m + r && 0 <= r < m
    ensures v / m == q && v % m == r
  {
    var e := v / m - q;
    assert e * m == r - v % m by {
      assert v == (v / m) * m + v % m;
      assert (v / m - q) * m == (v / m) * m - q * m;
    }
    MultipleLarge(e, m);
  }

  lemma MultipleLarge(e: int, m: int)
    requires m > 0
    ensures e >= 1 ==> e * m >= m
    ensures e <= -1 ==> e * m <= -m
  {
  }

  /** Pushing a byte on the accumulator keeps its low bits and adds eight, whatever the shift
      lost at the top. */
  lemma LowAfterByte(value: nat, bits: nat, byte: Byte)
    requires bits <= 4
    ensures Low(PushByte(value, byte), bits + 8) == Low(value, bits) * 256 + byte
  {
    hide Pow2;
    Pow2Table();
    var p := Pow2(bits);
    var m := 256 * p;
    var k := 0x100_0000 / p;
    assert k * m == WORD && Pow2(bits + 8) == m;
    var a, b, t := value / p, value % p, (value * 256) / WORD;
    assert PushByte(value, byte) == (a - t * k) * m + (b * 256 + byte) by {
      assert value == a * p + b;
      assert value * 256 == a * m + b * 256;
      assert t * WORD == t * (k * m) == (t * k) * m;
      assert (a - t * k) * m == a * m - (t * k) * m;
    }
    DivUnique(PushByte(value, byte), m, a - t * k, b * 256 + byte);
  }

  /** Taking a digit off the accumulator leaves the bits below it. */
  lemma LowAfterDigit(value: nat, bits: nat)
    requires 5 <= bits
    ensures Low(value, bits) == PeekDigit(value, bits - 5) * Pow2(bits - 5) + Low(value, bits - 5)
  {
    hide Pow2;
    var p := Pow2(bits - 5);
    Pow2Five(bits - 5);
    var a, b := value / p, value % p;
    var c, d := a / 32, a % 32;
    Regroup(c, d, p, b);
    DivUnique(value, 32 * p, c, d * p + b);
  }

  lemma Regroup(c: nat, d: nat, p: nat, b: nat)
    requires d < 32 && b < p
    ensures (c * 32 + d) * p + b == c * (32 * p) + (d * p + b)
    ensures 0 <= d * p + b < 32 * p
  {
  }
}
