/** ASCII string operations shared by the parsers: blanks, trimming, case and searching. */
module Text {

  /** The ASCII characters `strings.TrimSpace` takes for white space. */
  predicate IsSpace(c: char) {
    c == ' ' || c == '\t' || c == '\n' || c == '\r' || c == 11 as char || c == 12 as char
  }

  predicate AllSpace(s: string) {
    forall i :: 0 <= i < |s| ==> IsSpace(s[i])
  }

  /** Neither end of the string is a blank. */
  predicate Trimmed(s: string) {
    s != "" ==> !IsSpace(s[0]) && !IsSpace(s[|s| - 1])
  }

  function TrimLeft(s: string): (r: string)
    ensures r != "" ==> !IsSpace(r[0]) && |r| <= |s| && r == s[|s| - |r|..]
    ensures r == "" <==> AllSpace(s)
  {
    if s != "" && IsSpace(s[0]) then
      assert s == [s[0]] + s[1..];
      TrimLeft(s[1..])
    else s
  }

  function TrimRight(s: string): (r: string)
    ensures r != "" ==> !IsSpace(r[|r| - 1])
    ensures |r| <= |s| && r == s[..|r|]
    ensures r == "" <==> AllSpace(s)
  {
    if s != "" && IsSpace(s[|s| - 1]) then
      assert s == s[..|s| - 1] + [s[|s| - 1]];
      TrimRight(s[..|s| - 1])
    else s
  }

  /** A text trims to nothing exactly when it holds only blanks. */
  function TrimSpace(s: string): (r: string)
    ensures Trimmed(r)
    ensures r == "" <==> AllSpace(s)
  {
    TrimRight(TrimLeft(s))
  }

  lemma {:induction false} TrimLeftPadded(left: string, s: string)
    requires AllSpace(left) && (s != "" ==> !IsSpace(s[0]))
    ensures TrimLeft(left + s) == s
  {
    if left != "" {
      assert (left + s)[1..] == left[1..] + s;
      TrimLeftPadded(left[1..], s);
    } else {
      assert left + s == s;
    }
  }

  lemma {:induction false} TrimRightPadded(s: string, right: string)
    requires AllSpace(right) && (s != "" ==> !IsSpace(s[|s| - 1]))
    ensures TrimRight(s + right) == s
  {
    if right != "" {
      var n := |right| - 1;
      assert (s + right)[..|s + right| - 1] == s + right[..n];
      TrimRightPadded(s, right[..n]);
    } else {
      assert s + right == s;
    }
  }

  /** Trimming takes off exactly the padding around a trimmed text. */
  lemma TrimPadded(left: string, s: string, right: string)
    requires AllSpace(left) && AllSpace(right) && Trimmed(s)
    ensures TrimSpace(left + s + right) == s
  {
    if s == "" {
      assert AllSpace(left + s + right);
    } else {
      assert left + s + right == left + (s + right);
      TrimLeftPadded(left, s + right);
      TrimRightPadded(s, right);
    }
  }

  lemma TrimFixed(s: string)
    requires Trimmed(s)
    ensures TrimSpace(s) == s
  {
  }

  function LowerChar(c: char): char {
    if 'A' <= c <= 'Z' then ((c as int) + 32) as char else c
  }

  function Lower(s: string): (r: string)
    ensures |r| == |s|
    ensures forall i :: 0 <= i < |s| ==> r[i] == LowerChar(s[i])
  {
    if s == "" then "" else [LowerChar(s[0])] + Lower(s[1..])
  }

  /** `strings.EqualFold` on ASCII text. */
  predicate EqualFold(a: string, b: string) {
    Lower(a) == Lower(b)
  }

  /** The position of the first `c`, or the length of the list when there is none. */
  function Find<T(==)>(s: seq<T>, c: T): (i: nat)
    ensures i <= |s|
    ensures forall k :: 0 <= k < i ==> s[k] != c
    ensures i < |s| ==> s[i] == c
  {
    if s == [] || s[0] == c then 0 else 1 + Find(s[1..], c)
  }

  /** What `strings.Cut` answers: the text around the first separator, if there is one. */
  datatype Halves = Halves(before: string, after: string, found: bool)

  function Cut(s: string, c: char): (h: Halves)
    ensures h.found <==> c in s
    ensures h.found ==> s == h.before + [c] + h.after
    ensures !h.found ==> h.before == s && h.after == ""
    ensures c !in h.before
  {
    var i := Find(s, c);
    if i < |s| then Halves(s[..i], s[i + 1..], true) else Halves(s, "", false)
  }

  /** The first separator is the only place a text can be cut at. */
  lemma CutAt(before: string, c: char, after: string)
    requires c !in before
    ensures Cut(before + [c] + after, c) == Halves(before, after, true)
  {
    var s := before + [c] + after;
    var i := Find(s, c);
    assert s[|before|] == c;
    assert forall k :: 0 <= k < |before| ==> s[k] == before[k] != c;
    assert s[..i] == before && s[i + 1..] == after;
  }

  /** A place held by a separator, with none before it, is where the text is cut. */
  lemma CutPlace(s: string, c: char, i: nat)
    requires i < |s| && s[i] == c && c !in s[..i]
    ensures Cut(s, c) == Halves(s[..i], s[i + 1..], true)
  {
    hide Cut;
    CutAt(s[..i], c, s[i + 1..]);
    assert s[..i] + [c] + s[i + 1..] == s;
  }

  predicate HasPrefix(s: string, prefix: string) {
    prefix <= s
  }

  predicate IsDigit(c: char) {
    '0' <= c <= '9'
  }

  function Join(parts: seq<string>, sep: string): string {
    if |parts| == 0 then ""
    else if |parts| == 1 then parts[0]
    else parts[0] + sep + Join(parts[1..], sep)
  }

  /** `strings.Split` on one character: always at least one part. */
  function Split(s: string, sep: char): (parts: seq<string>)
    ensures |parts| >= 1
    ensures forall i :: 0 <= i < |parts| ==> sep !in parts[i]
    ensures Join(parts, [sep]) == s
    decreases |s|
  {
    var h := Cut(s, sep);
    if h.found then
      var rest := Split(h.after, sep);
      assert ([h.before] + rest)[1..] == rest;
      [h.before] + rest
    else
      [s]
  }

  /** Splitting inverts joining parts that hold no separator. */
  lemma {:induction false} SplitJoin(parts: seq<string>, sep: char)
    requires |parts| >= 1
    requires forall i :: 0 <= i < |parts| ==> sep !in parts[i]
    ensures Split(Join(parts, [sep]), sep) == parts
  {
    if |parts| == 1 {
      assert parts == [parts[0]];
    } else {
      var rest := Join(parts[1..], [sep]);
      SplitJoin(parts[1..], sep);
      CutAt(parts[0], sep, rest);
      assert Split(Join(parts, [sep]), sep) == [parts[0]] + Split(rest, sep);
    }
  }

  /** How the slices of a text around two positions fit together. */
  lemma Slices<T>(s: seq<T>, start: nat, i: nat, n: nat)
    requires start <= i && i + n <= |s|
    ensures s[i..][..n] == s[i..i + n] && s[i..][n..] == s[i + n..]
    ensures s[start..i] + s[i..][..n] == s[start..i + n]
  {
  }

  lemma PrefixSlices<T>(a: seq<T>, x: seq<T>, n: nat)
    requires n <= |a|
    ensures (a + x)[..n] == a[..n] && (a + x)[n..] == a[n..] + x
  {
  }
}
