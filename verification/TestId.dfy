/** Test identifiers: their Base32 spelling, the e-mail address they are wrapped in, and the
    way back to the identifier. */
module TestId {
  import opened Basics
  import opened Text
  import opened Base32

  const UPPER_ALPHABET := "ABCDEFGHIJKLMNOPQRSTUVWXYZ234567"

  // ---------------------------------------------------------------- spelling

  function UpperChars(d: seq<Digit>): (s: string)
    ensures |s| == |d|
    ensures forall i :: 0 <= i < |d| ==> s[i] == UPPER_ALPHABET[d[i]]
  {
    seq(|d|, i requires 0 <= i < |d| => UPPER_ALPHABET[d[i]])
  }

  /** A hyphen before every seventh character but the first. */
  function Hyphenate(s: string): string {
    if s == "" then ""
    else
      var n := |s| - 1;
      Hyphenate(s[..n]) + (if n > 0 && n % 7 == 0 then "-" else "") + [s[n]]
  }

  /** The spelling of a byte string: lower case, in groups of seven. */
  function Spelling(b: seq<Byte>): string {
    Hyphenate(LowerChars(Digits(b)))
  }

  method InsertHyphens(s: string) returns (r: string)
    ensures r == Hyphenate(s)
  {
    r := "";
    for i := 0 to |s|
      invariant r == Hyphenate(s[..i])
    {
      assert s[..i + 1][..i] == s[..i];
      if i > 0 && i % 7 == 0 {
        r := r + "-";
      }
      r := r + [s[i]];
    }
    assert s[..|s|] == s;
  }

  lemma LowerCharsSnoc(d: seq<Digit>, x: Digit)
    ensures LowerChars(d + [x]) == LowerChars(d) + [LOWER_ALPHABET[x]]
  {
  }

  lemma FromDigitsSnoc(d: seq<Digit>, x: Digit)
    ensures FromDigits(d + [x]) == FromDigits(d) * 32 + x
  {
  }

  /** What the accumulator holds: the digits written and the bits pending spell the bytes read. */
  ghost predicate Balanced(d: seq<Digit>, value: nat, bits: nat, bytes: seq<Byte>) {
    && FromDigits(d) * Pow2(bits) + Low(value, bits) == FromBytes(bytes)
    && 8 * |bytes| == 5 * |d| + bits
  }

  lemma BalancedByte(d: seq<Digit>, value: nat, bits: nat, bytes: seq<Byte>, byte: Byte)
    requires Balanced(d, value, bits, bytes) && bits <= 4
    ensures Balanced(d, PushByte(value, byte), bits + 8, bytes + [byte])
  {
    hide PushByte, FromDigits, Low, Pow2;
    LowAfterByte(value, bits, byte);
    Pow2Eight(bits);
    assert (bytes + [byte])[..|bytes|] == bytes;
    assert FromDigits(d) * Pow2(bits + 8) == FromDigits(d) * Pow2(bits) * 256;
  }

  lemma BalancedDigit(d: seq<Digit>, value: nat, bits: nat, bytes: seq<Byte>)
    requires Balanced(d, value, bits, bytes) && bits >= 5
    ensures Balanced(d + [PeekDigit(value, bits - 5)], value, bits - 5, bytes)
  {
    hide PeekDigit, FromDigits, Low, Pow2, FromBytes;
    var x, p := PeekDigit(value, bits - 5), Pow2(bits - 5);
    LowAfterDigit(value, bits);
    Pow2Five(bits - 5);
    FromDigitsSnoc(d, x);
    assert (FromDigits(d) * 32 + x) * p == FromDigits(d) * (32 * p) + x * p;
  }

  /** `(value << (5 - bits)) & 31`: the pending bits, zero bits after them. */
  function PadDigit(value: nat, bits: nat): Digit
    requires bits < 5
  {
    ((value * Pow2(5 - bits)) % WORD) % 32
  }

  lemma PadDigitLow(value: nat, bits: nat)
    requires bits < 5
    ensures PadDigit(value, bits) == Low(value, bits) * Pow2(5 - bits)
  {
    hide Pow2;
    Pow2Table();
    var p, q := Pow2(bits), Pow2(5 - bits);
    Shifted(value, p, q);
    LowOfWord(value * q);
  }

  lemma Shifted(value: nat, p: nat, q: nat)
    requires p * q == 32
    ensures p > 0 && (value * q) % 32 == (value % p) * q
  {
    var a, b := value / p, value % p;
    assert value * q == a * 32 + b * q by {
      assert (a * p + b) * q == a * (p * q) + b * q;
    }
    assert b * q < 32 by {
      assert b * q <= (p - 1) * q;
    }
    DivUnique(value * q, 32, a, b * q);
  }

  /** Wrapping around a machine word keeps the low five bits. */
  lemma LowOfWord(v: nat)
    ensures (v % WORD) % 32 == v % 32
  {
  }

  /** The digits of a balanced accumulator with nothing more to read are those of the standard. */
  lemma BalancedEnds(d: seq<Digit>, value: nat, bits: nat, bytes: seq<Byte>)
    requires Balanced(d, value, bits, bytes) && bits < 5
    ensures Digits(bytes) == if bits == 0 then d else d + [PadDigit(value, bits)]
  {
    hide FromDigits, Low, Pow2, FromBytes, PadDigit;
    Pow2Table();
    if bits == 0 {
      assert Low(value, 0) == 0 by { LowNone(value); }
      assert FromDigits(d) == FromBytes(bytes) && DigitCount(|bytes|) == |d|;
      DigitsUnique(d);
    } else {
      var x, q := PadDigit(value, bits), Pow2(5 - bits);
      PadDigitLow(value, bits);
      FromDigitsSnoc(d, x);
      assert Pow2(bits) * q == 32;
      assert FromBytes(bytes) * q == FromDigits(d) * (Pow2(bits) * q) + x by {
        assert (FromDigits(d) * Pow2(bits) + Low(value, bits)) * q == FromDigits(d) * (Pow2(bits) * q) + Low(value, bits) * q;
      }
      assert DigitCount(|bytes|) == |d| + 1;
      assert 5 * (|d| + 1) - 8 * |bytes| == 5 - bits;
      DigitsUnique(d + [x]);
    }
  }

  lemma LowNone(value: nat)
    ensures Low(value, 0) == 0
  {
  }

  /** The accumulator loop, in 32-bit arithmetic: whatever its shifts push over the top, it
      writes the digits the standard defines. */
  method GenerateBase32Id(bytes: seq<Byte>) returns (formatted: string)
    ensures formatted == Spelling(bytes)
  {
    hide Balanced, Digits, LowerChars, PushByte, PeekDigit, PadDigit, Hyphenate;
    var bits: nat, value: nat, output := 0, 0, "";
    ghost var d: seq<Digit> := [];
    BalancedStart();
    for i := 0 to |bytes|
      invariant bits < 5 && Balanced(d, value, bits, bytes[..i]) && output == LowerChars(d)
    {
      BalancedByte(d, value, bits, bytes[..i], bytes[i]);
      assert bytes[..i] + [bytes[i]] == bytes[..i + 1];
      value := PushByte(value, bytes[i]);
      bits := bits + 8;
      while bits >= 5
        invariant Balanced(d, value, bits, bytes[..i + 1]) && output == LowerChars(d)
        decreases bits
      {
        var x := PeekDigit(value, bits - 5);
        BalancedDigit(d, value, bits, bytes[..i + 1]);
        LowerCharsSnoc(d, x);
        output := output + [LOWER_ALPHABET[x]];
        bits := bits - 5;
        d := d + [x];
      }
    }
    assert bytes[..|bytes|] == bytes;
    BalancedEnds(d, value, bits, bytes);
    if bits > 0 {
      LowerCharsSnoc(d, PadDigit(value, bits));
      output := output + [LOWER_ALPHABET[PadDigit(value, bits)]];
    }
    formatted := InsertHyphens(output);
  }

  lemma BalancedStart()
    ensures Balanced([], 0, 0, [])
    ensures LowerChars([]) == ""
  {
  }

  /** The two alphabets, letter by letter. */
  lemma AlphabetCase(x: Digit)
    ensures LowerChar(UPPER_ALPHABET[x]) == LOWER_ALPHABET[x]
    ensures UpperChar(LOWER_ALPHABET[x]) == UPPER_ALPHABET[x]
    ensures LOWER_ALPHABET[x] != '-'
    ensures IsAlphabet(UPPER_ALPHABET[x]) && DigitOf(UPPER_ALPHABET[x]) == x
  {
    if x < 26 {
      assert LOWER_ALPHABET[x] == (('a' as int) + x) as char;
      assert UPPER_ALPHABET[x] == (('A' as int) + x) as char;
    } else {
      assert LOWER_ALPHABET[x] == (('2' as int) + x - 26) as char == UPPER_ALPHABET[x];
    }
  }

  lemma AlphabetsAgree(d: seq<Digit>)
    ensures Lower(UpperChars(d)) == LowerChars(d)
  {
    hide LowerChar;
    forall i | 0 <= i < |d|
      ensures Lower(UpperChars(d))[i] == LowerChars(d)[i]
    {
      AlphabetCase(d[i]);
    }
  }

  /** The spelling of an identifier, from the library's encoding of it. */
  method UuidToBase32(id: seq<Byte>) returns (r: string)
    ensures r == Spelling(id)
  {
    AlphabetsAgree(Digits(id));
    r := InsertHyphens(Lower(UpperChars(Digits(id))));
  }

  // ---------------------------------------------------------------- reading back

  /** The text without any `c`. */
  function Without(s: string, c: char): string {
    if s == "" then "" else Without(s[..|s| - 1], c) + if s[|s| - 1] == c then "" else [s[|s| - 1]]
  }

  lemma {:induction false} WithoutAbsent(s: string, c: char)
    requires c !in s
    ensures Without(s, c) == s
  {
    if s != "" {
      WithoutAbsent(s[..|s| - 1], c);
      assert s == s[..|s| - 1] + [s[|s| - 1]];
    }
  }

  lemma WithoutSnoc(s: string, c: char, x: char)
    ensures Without(s + [x], c) == Without(s, c) + if x == c then "" else [x]
  {
  }

  lemma {:induction false} WithoutHyphens(s: string)
    requires '-' !in s
    ensures Without(Hyphenate(s), '-') == s
  {
    hide Without;
    if s == "" {
      WithoutAbsent("", '-');
    } else {
      var n := |s| - 1;
      var h := Hyphenate(s[..n]);
      WithoutHyphens(s[..n]);
      WithoutSnoc(h, '-', '-');
      WithoutSnoc(h + "-", '-', s[n]);
      WithoutSnoc(h, '-', s[n]);
      assert h + "" == h && s == s[..n] + [s[n]];
    }
  }

  lemma {:induction false} HyphenateLength(s: string)
    requires s != ""
    ensures |Hyphenate(s)| == |s| + (|s| - 1) / 7
  {
    if |s| > 1 {
      HyphenateLength(s[..|s| - 1]);
    } else {
      assert s[..0] == "";
    }
  }

  function UpperChar(c: char): char {
    if 'a' <= c <= 'z' then ((c as int) - 32) as char else c
  }

  function Upper(s: string): (r: string)
    ensures |r| == |s| && forall i :: 0 <= i < |s| ==> r[i] == UpperChar(s[i])
  {
    seq(|s|, i requires 0 <= i < |s| => UpperChar(s[i]))
  }

  predicate IsAlphabet(c: char) {
    'A' <= c <= 'Z' || '2' <= c <= '7'
  }

  function DigitOf(c: char): Digit
    requires IsAlphabet(c)
  {
    if 'A' <= c <= 'Z' then (c as int) - ('A' as int) else (c as int) - ('2' as int) + 26
  }

  /** How many digits of a last, incomplete group of eight the decoder can use. */
  function Usable(n: nat): (k: nat)
    ensures k <= n
  {
    var r := n % 8;
    if r == 1 || r == 3 || r == 6 then n - r else n
  }

  /** How many whole bytes a number of digits fills. */
  function WholeBytes(digits: nat): (n: nat)
    ensures 8 * n <= 5 * digits < 8 * n + 8
  {
    5 * digits / 8
  }

  predicate AllAlphabet(t: string) {
    forall i :: 0 <= i < |t| ==> IsAlphabet(t[i])
  }

  /** The digits a text spells in the upper-case alphabet. */
  function ReadDigits(t: string): (d: seq<Digit>)
    requires AllAlphabet(t)
    ensures |d| == |t| && forall i :: 0 <= i < |t| ==> d[i] == DigitOf(t[i])
  {
    seq(|t|, i requires 0 <= i < |t| => DigitOf(t[i]))
  }

  function Quotient(v: nat, p: nat): nat
    requires p > 0
  {
    v / p
  }

  /** The bytes a string of digits fills, the bits left over dropped. */
  function BytesOf(d: seq<Digit>): (b: seq<Byte>)
    ensures |b| == WholeBytes(|d|)
  {
    var n := WholeBytes(|d|);
    ToBytes(Quotient(FromDigits(d), Pow2(5 * |d| - 8 * n)), n)
  }

  /** The library decoder without padding: line breaks are skipped, any other character must
      be a digit, and the bits that fill no byte are dropped. */
  function DecodeString(s: string): Option<seq<Byte>> {
    var t := Without(Without(s, '\r'), '\n');
    if !AllAlphabet(t) then None
    else
      var d := ReadDigits(t);
      Some(BytesOf(d[..Usable(|d|)]))
  }

  /** The identifier a spelling stands for: sixteen bytes, hyphens and case notwithstanding. */
  function Base32ToUuid(encoded: string): Option<seq<Byte>> {
    var decoded := DecodeString(Upper(Without(encoded, '-')));
    if decoded.None? || |decoded.value| != 16 then None else decoded
  }

  lemma UpperOfLower(d: seq<Digit>)
    ensures Upper(LowerChars(d)) == UpperChars(d)
    ensures '-' !in LowerChars(d)
  {
    hide UpperChar;
    forall i | 0 <= i < |d|
      ensures Upper(LowerChars(d))[i] == UpperChars(d)[i] && LowerChars(d)[i] != '-'
    {
      AlphabetCase(d[i]);
    }
  }

  lemma AlphabetRead(d: seq<Digit>)
    ensures forall i :: 0 <= i < |d| ==> IsAlphabet(UpperChars(d)[i]) && DigitOf(UpperChars(d)[i]) == d[i]
    ensures '\r' !in UpperChars(d) && '\n' !in UpperChars(d)
  {
    forall i | 0 <= i < |d|
      ensures IsAlphabet(UpperChars(d)[i]) && DigitOf(UpperChars(d)[i]) == d[i]
    {
      AlphabetCase(d[i]);
    }
  }

  lemma {:induction false} Pow2Add(a: nat, b: nat)
    ensures Pow2(a + b) == Pow2(a) * Pow2(b)
  {
    if a > 0 {
      Pow2Add(a - 1, b);
    }
  }

  lemma DigitsLength(b: seq<Byte>)
    ensures |Digits(b)| == DigitCount(|b|)
  {
  }

  lemma ScaledBelow(v: nat, a: nat, p: nat)
    requires v < a && p > 0
    ensures 0 <= v * p < a * p
  {
  }

  /** A whole number of bytes leaves no digit the decoder cannot use. */
  lemma UsableAll(bytes: nat)
    ensures Usable(DigitCount(bytes)) == DigitCount(bytes) && WholeBytes(DigitCount(bytes)) == bytes
  {
    var q, r := bytes / 5, bytes % 5;
    assert DigitCount(bytes) == 8 * q + (8 * r + 4) / 5;
    assert (8 * r + 4) / 5 == if r == 0 then 0 else if r == 1 then 2 else if r == 2 then 4 else if r == 3 then 5 else 7;
  }

  lemma ReadInvertsSpell(d: seq<Digit>)
    ensures AllAlphabet(UpperChars(d)) && ReadDigits(UpperChars(d)) == d
  {
    hide UpperChars, IsAlphabet, DigitOf;
    AlphabetRead(d);
  }

  /** The digits of a byte string spell it, moved up by the bits of padding. */
  lemma DigitsValue(b: seq<Byte>)
    ensures FromDigits(Digits(b)) == FromBytes(b) * Pow2(5 * DigitCount(|b|) - 8 * |b|)
  {
    hide Pow2, FromDigits, ToDigits, FromBytes;
    var n := DigitCount(|b|);
    var v, rest := FromBytes(b), 5 * n - 8 * |b|;
    BytesBounded(b);
    Pow2Add(8 * |b|, rest);
    ScaledBelow(v, Pow2(8 * |b|), Pow2(rest));
    DigitsRead(v * Pow2(rest), n);
  }

  lemma BytesInvertDigits(b: seq<Byte>)
    ensures BytesOf(Digits(b)) == b
  {
    hide Pow2, FromDigits, ToBytes, FromBytes, Digits, DigitCount, WholeBytes;
    UsableAll(|b|);
    DigitsLength(b);
    DigitsValue(b);
    var p := Pow2(5 * DigitCount(|b|) - 8 * |b|);
    DivUnique(FromBytes(b) * p, p, FromBytes(b), 0);
    BytesUnique(b);
  }

  /** Decoding inverts encoding, for a byte string of any length. */
  lemma DecodeInvertsEncode(b: seq<Byte>)
    ensures DecodeString(UpperChars(Digits(b))) == Some(b)
  {
    hide BytesOf, Digits, UpperChars, Without, AllAlphabet, ReadDigits, Usable, DigitCount;
    var d := Digits(b);
    var t := UpperChars(d);
    AlphabetRead(d);
    WithoutAbsent(t, '\r');
    WithoutAbsent(t, '\n');
    DigitsLength(b);
    ReadInvertsSpell(d);
    UsableAll(|b|);
    assert d[..|d|] == d;
    BytesInvertDigits(b);
  }

  /** Spelling an identifier and reading it back gives the identifier. */
  lemma IdRoundTrip(id: seq<Byte>)
    requires |id| == 16
    ensures Base32ToUuid(Spelling(id)) == Some(id)
    ensures |Spelling(id)| == 29
  {
    hide DecodeString, Digits, Hyphenate, Without;
    var d := Digits(id);
    DigitsLength(id);
    UpperOfLower(d);
    WithoutHyphens(LowerChars(d));
    HyphenateLength(LowerChars(d));
    DecodeInvertsEncode(id);
  }

  // ---------------------------------------------------------------- test addresses

  /** The address a test is sent to. */
  function Address(prefix: string, id: seq<Byte>, domain: string): string {
    prefix + Spelling(id) + "@" + domain
  }

  predicate IsBracket(c: char) {
    c == '<' || c == '>'
  }

  function TrimBracketsLeft(s: string): string {
    if s != "" && IsBracket(s[0]) then TrimBracketsLeft(s[1..]) else s
  }

  function TrimBracketsRight(s: string): string {
    if s != "" && IsBracket(s[|s| - 1]) then TrimBracketsRight(s[..|s| - 1]) else s
  }

  function TrimBrackets(s: string): string {
    TrimBracketsRight(TrimBracketsLeft(s))
  }

  /** The identifier a recipient address names, if it is one of a test. */
  function ExtractTestId(prefix: string, email: string): Option<seq<Byte>> {
    var parts := Split(TrimBrackets(email), '@');
    if |parts| != 2 || !HasPrefix(parts[0], prefix) then None
    else Base32ToUuid(parts[0][|prefix|..])
  }

  // ---------------------------------------------------------------- the address round trip

  /** The characters of a spelling: none of those an address is taken apart at. */
  lemma {:induction false} SpellingChars(s: string)
    requires forall i :: 0 <= i < |s| ==> s[i] in LOWER_ALPHABET
    ensures forall i :: 0 <= i < |Hyphenate(s)| ==> Hyphenate(s)[i] in LOWER_ALPHABET || Hyphenate(s)[i] == '-'
    ensures s != "" ==> Hyphenate(s) != ""
  {
    if s != "" {
      var n := |s| - 1;
      SpellingChars(s[..n]);
    }
  }

  lemma SpellingPlain(id: seq<Byte>)
    requires id != []
    ensures var sp := Spelling(id); sp != "" && '@' !in sp && !IsBracket(sp[0])
  {
    hide Digits, Hyphenate;
    DigitsLength(id);
    SpellingChars(LowerChars(Digits(id)));
    AlphabetPlain();
  }

  lemma AlphabetPlain()
    ensures '@' !in LOWER_ALPHABET && '<' !in LOWER_ALPHABET && '>' !in LOWER_ALPHABET
  {
    forall x: Digit
      ensures LOWER_ALPHABET[x] !in {'@', '<', '>'}
    {
      AlphabetCase(x);
    }
    assert |LOWER_ALPHABET| == 32;
  }

  lemma {:induction false} TrimTail(s: string, tail: string)
    requires s != "" && !IsBracket(s[|s| - 1])
    ensures TrimBracketsRight(s + tail) == s + TrimBracketsRight(tail)
    decreases |tail|
  {
    if tail == "" {
      assert s + tail == s;
    } else {
      var n := |tail| - 1;
      assert (s + tail)[..|s + tail| - 1] == s + tail[..n];
      if IsBracket(tail[n]) {
        TrimTail(s, tail[..n]);
      }
    }
  }

  /** Trimming takes brackets only: it keeps any other character, and a part of the text. */
  lemma {:induction false} TrimRightKeeps(s: string, c: char)
    requires !IsBracket(c)
    ensures c in TrimBracketsRight(s) <==> c in s
    ensures TrimBracketsRight(s) <= s
    decreases |s|
  {
    if s != "" && IsBracket(s[|s| - 1]) {
      TrimRightKeeps(s[..|s| - 1], c);
      assert s == s[..|s| - 1] + [s[|s| - 1]];
    }
  }

  lemma {:induction false} TrimLeftOpens(s: string)
    ensures TrimBracketsLeft(s) != "" ==> !IsBracket(TrimBracketsLeft(s)[0])
  {
    if s != "" && IsBracket(s[0]) {
      TrimLeftOpens(s[1..]);
    }
  }

  /** A text that holds its separator twice is not split in two. */
  lemma SplitInTwo(t: string, c: char, i: nat, j: nat)
    requires i < j < |t| && t[i] == c && t[j] == c
    ensures |Split(t, c)| != 2
  {
  }

  /** An address whose prefix and domain hold no at-sign, and whose prefix opens on no bracket,
      is taken apart where it was put together. */
  lemma AddressRead(prefix: string, id: seq<Byte>, domain: string)
    requires |id| == 16
    requires '@' !in prefix && '@' !in domain && (prefix == "" || !IsBracket(prefix[0]))
    ensures ExtractTestId(prefix, Address(prefix, id, domain)) == Some(id)
  {
    hide Spelling, Base32ToUuid, Split;
    var sp := Spelling(id);
    SpellingPlain(id);
    IdRoundTrip(id);
    AddressTrims(prefix, sp, domain);
    var kept := TrimBracketsRight(domain);
    TrimRightKeeps(domain, '@');
    SplitJoin([prefix + sp, kept], '@');
    assert [prefix + sp, kept][1..] == [kept];
    assert Join([prefix + sp, kept], "@") == prefix + sp + "@" + kept;
    assert (prefix + sp)[|prefix|..] == sp;
  }

  lemma AddressTrims(prefix: string, sp: string, domain: string)
    requires sp != "" && !IsBracket(sp[0]) && (prefix == "" || !IsBracket(prefix[0]))
    ensures TrimBrackets(prefix + sp + "@" + domain) == prefix + sp + "@" + TrimBracketsRight(domain)
  {
    var whole := prefix + sp + "@" + domain;
    assert whole[0] == if prefix == "" then sp[0] else prefix[0];
    TrimTail(prefix + sp + "@", domain);
  }

  lemma AddressMisread(prefix: string, id: seq<Byte>, domain: string)
    requires |id| == 16
    requires '@' in prefix || '@' in domain || (prefix != "" && IsBracket(prefix[0]))
    ensures ExtractTestId(prefix, Address(prefix, id, domain)) == None
  {
    hide Spelling, Base32ToUuid, Split;
    var sp, email := Spelling(id), Address(prefix, id, domain);
    SpellingPlain(id);
    if prefix != "" && IsBracket(prefix[0]) {
      var left := TrimBracketsLeft(email);
      var t := TrimBrackets(email);
      TrimLeftOpens(email);
      TrimRightKeeps(left, '@');
      FirstPartOpens(t);
      assert t != "" ==> t[0] == left[0];
    } else {
      AddressTrims(prefix, sp, domain);
      var kept := TrimBracketsRight(domain);
      var t := prefix + sp + "@" + kept;
      assert t[|prefix + sp|] == '@';
      if '@' in prefix {
        var i :| 0 <= i < |prefix| && prefix[i] == '@';
        assert t[i] == '@';
        SplitInTwo(t, '@', i, |prefix + sp|);
      } else {
        TrimRightKeeps(domain, '@');
        var j :| 0 <= j < |kept| && kept[j] == '@';
        assert t[|prefix + sp| + 1 + j] == '@';
        SplitInTwo(t, '@', |prefix + sp|, |prefix + sp| + 1 + j);
      }
    }
  }

  lemma FirstPartOpens(t: string)
    ensures Split(t, '@')[0] <= t
  {
  }

  /** A test address gives its identifier back exactly when the configured prefix and domain
      hold no at-sign and the prefix opens on no angle bracket. */
  lemma AddressRoundTrip(prefix: string, id: seq<Byte>, domain: string)
    requires |id| == 16
    ensures ExtractTestId(prefix, Address(prefix, id, domain)) == Some(id) <==>
              '@' !in prefix && '@' !in domain && (prefix == "" || !IsBracket(prefix[0]))
  {
    hide ExtractTestId, Address;
    if '@' !in prefix && '@' !in domain && (prefix == "" || !IsBracket(prefix[0])) {
      AddressRead(prefix, id, domain);
    } else {
      AddressMisread(prefix, id, domain);
    }
  }

  lemma {:induction false} TrimLeftTail(s: string, tail: string)
    requires exists i :: 0 <= i < |s| && !IsBracket(s[i])
    ensures TrimBracketsLeft(s + tail) == TrimBracketsLeft(s) + tail
    ensures TrimBracketsLeft(s) != ""
    decreases |s|
  {
    if IsBracket(s[0]) {
      var i :| 0 <= i < |s| && !IsBracket(s[i]);
      assert !IsBracket(s[1..][i - 1]);
      assert (s + tail)[1..] == s[1..] + tail;
      TrimLeftTail(s[1..], tail);
    }
  }

  lemma {:induction false} TrimNothingLeft(s: string)
    requires forall i :: 0 <= i < |s| ==> IsBracket(s[i])
    ensures TrimBracketsLeft(s) == ""
  {
    if s != "" {
      TrimNothingLeft(s[1..]);
    }
  }

  /** A recipient written between angle brackets names the same test. */
  lemma BracketsIgnored(prefix: string, email: string)
    ensures ExtractTestId(prefix, "<" + email + ">") == ExtractTestId(prefix, email)
  {
    hide Split, Base32ToUuid;
    var wrapped := "<" + email + ">";
    assert wrapped[1..] == email + ">";
    if exists i :: 0 <= i < |email| && !IsBracket(email[i]) {
      TrimLeftTail(email, ">");
      var left := TrimBracketsLeft(email);
      assert (left + ">")[..|left|] == left;
    } else {
      TrimNothingLeft(email);
      TrimNothingLeft(email + ">");
    }
  }
}
