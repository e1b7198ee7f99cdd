/** What the spelling of a test identifier is, bit by bit, and which texts and addresses are
    read as an identifier. */
module TestIdLaws {
  import opened Basics
  import opened Text
  import opened Base32
  import opened TestId

  // ---------------------------------------------------------------- the digits are the bits

  /** A bit of a byte string, the most significant first; zero past its end. */
  function ByteBit(b: seq<Byte>, k: nat): nat {
    if k < 8 * |b| then b[k / 8] / Pow2(7 - k % 8) % 2 else 0
  }

  function DigitBit(d: seq<Digit>, k: nat): nat
    requires k < 5 * |d|
  {
    d[k / 5] / Pow2(4 - k % 5) % 2
  }

  /** Above the digit added last, a number reads as it did without it. */
  lemma HighBit(v: nat, radix: nat, x: nat, p: nat)
    requires x < radix && p > 0
    ensures radix * p > 0 && (v * radix + x) / (radix * p) == v / p
  {
    var q, r := v / p, v % p;
    assert radix * p > 0;
    assert v * radix + x == q * (radix * p) + (r * radix + x) by {
      assert v == q * p + r;
      assert (q * p + r) * radix == q * (radix * p) + r * radix;
    }
    assert r * radix + x < radix * p by {
      assert (r + 1) * radix <= p * radix;
    }
    DivUnique(v * radix + x, radix * p, q, r * radix + x);
  }

  lemma Regrouped(v: nat, h: nat, p: nat)
    ensures v * (2 * h * p) == (2 * (v * h)) * p
  {
    assert v * (h * p) == (v * h) * p;
  }

  lemma Distributed(k: nat, y: nat, p: nat)
    ensures (2 * k + y) * p == 2 * k * p + y * p
  {
  }

  lemma EvenPart(k: nat, p: nat, x: nat)
    requires p > 0
    ensures (2 * k * p + x) / p % 2 == x / p % 2
  {
    var y, r := x / p, x % p;
    Distributed(k, y, p);
    DivUnique(2 * k * p + x, p, 2 * k + y, r);
  }

  /** Below it, only the digit added last counts. */
  lemma LowBit(v: nat, h: nat, p: nat, x: nat)
    requires p > 0
    ensures (v * (2 * h * p) + x) / p % 2 == x / p % 2
  {
    Regrouped(v, h, p);
    EvenPart(v * h, p, x);
  }

  lemma BytesSnoc(b: seq<Byte>)
    requires b != []
    ensures FromBytes(b) == FromBytes(b[..|b| - 1]) * 256 + b[|b| - 1]
  {
  }

  lemma {:induction false} BytesBit(b: seq<Byte>, k: nat)
    requires k < 8 * |b|
    ensures FromBytes(b) / Pow2(8 * |b| - 1 - k) % 2 == ByteBit(b, k)
    decreases |b|
  {
    hide Pow2, FromBytes;
    var n := |b| - 1;
    var v, x := FromBytes(b[..n]), b[n];
    assert FromBytes(b) == v * 256 + x by { BytesSnoc(b); }
    if k < 8 * n {
      var e := 8 * n - 1 - k;
      BytesBit(b[..n], k);
      Pow2Eight(e);
      HighBit(v, 256, x, Pow2(e));
    } else {
      var m := 7 - k % 8;
      assert 8 * |b| - 1 - k == m && k / 8 == n;
      Pow2Table();
      HalfOf(8, m);
      LowBit(v, Pow2(7 - m), Pow2(m), x);
    }
  }

  lemma {:induction false} DigitsBit(d: seq<Digit>, k: nat)
    requires k < 5 * |d|
    ensures FromDigits(d) / Pow2(5 * |d| - 1 - k) % 2 == DigitBit(d, k)
    decreases |d|
  {
    hide Pow2, FromDigits;
    var n := |d| - 1;
    var v, x := FromDigits(d[..n]), d[n];
    FromDigitsSnoc(d[..n], x);
    assert d[..n] + [x] == d;
    if k < 5 * n {
      var e := 5 * n - 1 - k;
      DigitsBit(d[..n], k);
      Pow2Five(e);
      HighBit(v, 32, x, Pow2(e));
    } else {
      var m := 4 - k % 5;
      assert 5 * |d| - 1 - k == m && k / 5 == n;
      Pow2Table();
      HalfOf(5, m);
      LowBit(v, Pow2(4 - m), Pow2(m), x);
    }
  }

  lemma HalfOf(n: nat, m: nat)
    requires m < n
    ensures Pow2(n) == 2 * Pow2(n - 1 - m) * Pow2(m)
  {
    Pow2Add(n - 1 - m, m);
  }

  /** The digits of a byte string are its bits in groups of five, zeros after the last: the
      encoding as the standard words it. */
  lemma DigitsAreBits(b: seq<Byte>, k: nat)
    requires k < 5 * |Digits(b)|
    ensures DigitBit(Digits(b), k) == ByteBit(b, k)
    ensures 8 * |b| <= 5 * |Digits(b)| < 8 * |b| + 5
  {
    hide Pow2, FromDigits, FromBytes, Digits, DigitBit, ByteBit;
    DigitsLength(b);
    DigitsValue(b);
    var d := Digits(b);
    DigitsBit(d, k);
    var pad, e := 5 * |d| - 8 * |b|, 5 * |d| - 1 - k;
    if k < 8 * |b| {
      BytesBit(b, k);
      Pow2Add(pad, e - pad);
      HighBit(FromBytes(b), Pow2(pad), 0, Pow2(e - pad));
    } else {
      HalfOf(pad, e);
      LowBit(FromBytes(b), Pow2(pad - 1 - e), Pow2(e), 0);
      PastTheEnd(b, k, Pow2(e));
    }
  }

  lemma PastTheEnd(b: seq<Byte>, k: nat, p: nat)
    requires k >= 8 * |b| && p > 0
    ensures ByteBit(b, k) == 0 == 0 / p % 2
  {
  }

  // ---------------------------------------------------------------- where the hyphens stand

  /** Every eighth character is a hyphen; the others are those of the text, in order. */
  lemma {:induction false} HyphenPlaces(s: string, k: nat)
    requires k < |Hyphenate(s)|
    ensures k % 8 != 7 ==> k - k / 8 < |s| && Hyphenate(s)[k] == s[k - k / 8]
    ensures k % 8 == 7 ==> Hyphenate(s)[k] == '-'
    decreases |s|
  {
    var n := |s| - 1;
    HyphenateLength(s);
    if n > 0 {
      HyphenateLength(s[..n]);
    }
    if k < |Hyphenate(s[..n])| {
      HyphenPlaces(s[..n], k);
    }
  }

  // ---------------------------------------------------------------- which texts are read

  /** The character stands for the digit, in either case. */
  predicate ReadsAs(c: char, x: Digit) {
    c == UPPER_ALPHABET[x] || c == LOWER_ALPHABET[x]
  }

  /** The characters of a text other than hyphens and line breaks. */
  function Letters(s: string): string {
    if s == "" then ""
    else Letters(s[..|s| - 1]) + if s[|s| - 1] in {'-', '\r', '\n'} then "" else [s[|s| - 1]]
  }

  lemma {:induction false} LettersRead(s: string)
    ensures Without(Without(Upper(Without(s, '-')), '\r'), '\n') == Upper(Letters(s))
  {
    hide Without, Upper;
    if s == "" {
      WithoutAbsent("", '-');
      WithoutAbsent("", '\r');
      WithoutAbsent("", '\n');
      assert Upper("") == "";
    } else {
      var n := |s| - 1;
      var c, u := s[n], UpperChar(s[n]);
      LettersRead(s[..n]);
      assert s == s[..n] + [c];
      WithoutSnoc(s[..n], '-', c);
      var kept := Without(s[..n], '-');
      assert kept + "" == kept && Letters(s[..n]) + "" == Letters(s[..n]);
      assert Upper(kept + [c]) == Upper(kept) + [u];
      assert Upper(Letters(s[..n]) + [c]) == Upper(Letters(s[..n])) + [u];
      WithoutSnoc(Upper(kept), '\r', u);
      var more := Without(Upper(kept), '\r');
      assert more + "" == more;
      WithoutSnoc(more, '\n', u);
      assert Without(more, '\n') + "" == Without(more, '\n');
    }
  }

  lemma CharRead(c: char, x: Digit)
    ensures IsAlphabet(UpperChar(c)) && DigitOf(UpperChar(c)) == x <==> ReadsAs(c, x)
  {
    AlphabetCase(x);
    var u := UpperChar(c);
    if IsAlphabet(u) {
      AlphabetAt(u);
    }
  }

  lemma AlphabetAt(u: char)
    requires IsAlphabet(u)
    ensures UPPER_ALPHABET[DigitOf(u)] == u
    ensures LOWER_ALPHABET[DigitOf(u)] == if u >= 'A' then ((u as int) + 32) as char else u
  {
    AlphabetCase(DigitOf(u));
  }

  /** The number twenty-six digits spell without its last two bits. */
  lemma TopBits(d: seq<Digit>)
    requires |d| == 26
    ensures FromDigits(d) / 4 == FromDigits(d[..25]) * 8 + d[25] / 4
  {
    hide FromDigits;
    assert FromDigits(d) == FromDigits(d[..25]) * 32 + d[25] by {
      FromDigitsSnoc(d[..25], d[25]);
      assert d[..25] + [d[25]] == d;
    }
  }

  lemma {:induction false} DigitsBelow(d: seq<Digit>)
    ensures FromDigits(d) < Pow2(5 * |d|)
    decreases |d|
  {
    if d != [] {
      var n := |d| - 1;
      DigitsBelow(d[..n]);
      Pow2Five(5 * n);
    }
  }

  lemma {:induction false} BytesRead(v: nat, n: nat)
    requires v < Pow2(8 * n)
    ensures FromBytes(ToBytes(v, n)) == v
    decreases n
  {
    if n > 0 {
      Pow2Eight(8 * n - 8);
      BytesRead(v / 256, n - 1);
      assert (ToBytes(v / 256, n - 1) + [v % 256])[..n - 1] == ToBytes(v / 256, n - 1);
    }
  }

  /** Twenty-six digits fill the sixteen bytes of an identifier exactly when they are its own,
      but for the two bits at the end that fill no byte. */
  lemma BytesOfExactly(d: seq<Digit>, id: seq<Byte>)
    requires |d| == 26 && |id| == 16
    ensures |Digits(id)| == 26
    ensures BytesOf(d) == id <==> d[..25] == Digits(id)[..25] && d[25] / 4 == Digits(id)[25] / 4
  {
    hide FromDigits, FromBytes, ToBytes, Digits, ToDigits, Pow2;
    DigitsLength(id);
    var e := Digits(id);
    TopBits(d);
    TopBits(e);
    BytesInvertDigits(id);
    BytesOfTwentySix(d);
    BytesOfTwentySix(e);
    if BytesOf(d) == id {
      FourthsBelow(d);
      FourthsBelow(e);
      BytesRead(FromDigits(d) / 4, 16);
      BytesRead(FromDigits(e) / 4, 16);
      DigitsUnique(d[..25]);
      DigitsUnique(e[..25]);
    }
  }

  lemma BytesOfTwentySix(d: seq<Digit>)
    requires |d| == 26
    ensures BytesOf(d) == ToBytes(FromDigits(d) / 4, 16)
  {
    hide FromDigits, ToBytes, Pow2;
    Pow2Table();
  }

  lemma FourthsBelow(d: seq<Digit>)
    requires |d| == 26
    ensures FromDigits(d) / 4 < Pow2(128)
  {
    hide FromDigits, Pow2;
    DigitsBelow(d);
    Pow2Table();
    Pow2Add(128, 2);
  }

  /** Sixteen bytes come of twenty-six digits and of no other number of them. */
  lemma SixteenBytes(n: nat)
    ensures WholeBytes(Usable(n)) == 16 <==> n == 26
    ensures Usable(26) == 26
  {
  }

  /** Nothing but sixteen bytes is ever read. */
  lemma SixteenOnly(s: string)
    ensures Base32ToUuid(s).Some? ==> |Base32ToUuid(s).value| == 16
  {
  }

  /** A text is read as an identifier exactly when its letters and digits are the twenty-six of
      the identifier's spelling, in any case, but for the two bits the last one has to spare:
      four spellings of each identifier, hyphens and case apart. */
  lemma DecodedExactly(s: string, id: seq<Byte>)
    requires |id| == 16
    ensures |Digits(id)| == 26
    ensures var t, d := Letters(s), Digits(id);
            Base32ToUuid(s) == Some(id) <==>
              && |t| == 26
              && (forall k :: 0 <= k < 25 ==> ReadsAs(t[k], d[k]))
              && exists x: Digit :: ReadsAs(t[25], x) && x / 4 == d[25] / 4
  {
    hide Digits, Upper, Without, Letters, ReadsAs, BytesOf, Usable;
    DigitsLength(id);
    LettersRead(s);
    var t, d := Letters(s), Digits(id);
    var u := Upper(t);
    SixteenBytes(|t|);
    if |t| == 26 {
      forall k, x: Digit | 0 <= k < 26
        ensures IsAlphabet(u[k]) && DigitOf(u[k]) == x <==> ReadsAs(t[k], x)
      {
        CharRead(t[k], x);
      }
      if AllAlphabet(u) {
        var e := ReadDigits(u);
        assert e[..26] == e;
        BytesOfExactly(e, id);
        assert ReadsAs(t[25], e[25]);
        assert e[..25] == d[..25] <==> forall k :: 0 <= k < 25 ==> e[k] == d[k];
      }
    }
  }

  // ---------------------------------------------------------------- which addresses name a test

  predicate AllBrackets(s: string) {
    forall i :: 0 <= i < |s| ==> s[i] in {'<', '>'}
  }

  lemma {:induction false} LeftTrimmed(left: string, rest: string)
    requires AllBrackets(left) && (rest != "" ==> rest[0] !in {'<', '>'})
    ensures TrimBracketsLeft(left + rest) == rest
    decreases |left|
  {
    if left == "" {
      assert left + rest == rest;
    } else {
      assert (left + rest)[1..] == left[1..] + rest;
      LeftTrimmed(left[1..], rest);
    }
  }

  lemma {:induction false} RightTrimmed(s: string, right: string)
    requires AllBrackets(right) && s != "" && s[|s| - 1] !in {'<', '>'}
    ensures TrimBracketsRight(s + right) == s
    decreases |right|
  {
    if right == "" {
      assert s + right == s;
    } else {
      var n := |right| - 1;
      assert (s + right)[..|s + right| - 1] == s + right[..n];
      RightTrimmed(s, right[..n]);
    }
  }

  /** All the angle brackets around an address are taken off, and nothing else. */
  lemma BracketsTrimmed(left: string, core: string, right: string)
    requires AllBrackets(left) && AllBrackets(right)
    requires core != "" && core[0] !in {'<', '>'} && core[|core| - 1] !in {'<', '>'}
    ensures TrimBrackets(left + core + right) == core
  {
    assert left + core + right == left + (core + right);
    LeftTrimmed(left, core + right);
    RightTrimmed(core, right);
  }

  /** The text is an at-sign between a prefixed spelling and a domain, and holds no other. */
  predicate IsAddress(t: string, prefix: string, spelled: string, domain: string) {
    t == prefix + spelled + "@" + domain && '@' !in prefix + spelled && '@' !in domain
  }

  /** An address names a test exactly when, its brackets off, it is the prefix, a spelling of
      the test, and a domain. */
  lemma NamedExactly(prefix: string, email: string, id: seq<Byte>)
    ensures ExtractTestId(prefix, email) == Some(id) <==>
              exists spelled, domain ::
                IsAddress(TrimBrackets(email), prefix, spelled, domain) && Base32ToUuid(spelled) == Some(id)
  {
    hide Base32ToUuid, TrimBrackets, Split;
    var t := TrimBrackets(email);
    var parts := Split(t, '@');
    if ExtractTestId(prefix, email) == Some(id) {
      var spelled := parts[0][|prefix|..];
      assert parts[0] == prefix + spelled;
      JoinTwo(parts, "@");
      assert IsAddress(t, prefix, spelled, parts[1]);
    }
    forall spelled, domain | IsAddress(t, prefix, spelled, domain) && Base32ToUuid(spelled) == Some(id)
      ensures ExtractTestId(prefix, email) == Some(id)
    {
      var two := [prefix + spelled, domain];
      JoinTwo(two, "@");
      SplitJoin(two, '@');
      assert (prefix + spelled)[|prefix|..] == spelled;
    }
  }

  lemma JoinTwo(parts: seq<string>, sep: string)
    requires |parts| == 2
    ensures Join(parts, sep) == parts[0] + sep + parts[1]
  {
    assert parts[1..] == [parts[1]];
  }
}
