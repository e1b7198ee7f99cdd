/** Selectors derived from the local-part of an address, and the prefixes they are matched to. */
module LocalPart {
  import opened Basics
  import opened Text

  const MAX_LENGTH := 63

  predicate IsSelectorChar(c: char) {
    'a' <= c <= 'z' || 'A' <= c <= 'Z' || '0' <= c <= '9' || c == '-'
  }

  /** 1 to 63 letters, digits or dashes. */
  predicate IsSelectorText(s: string) {
    s != "" && |s| <= MAX_LENGTH && forall i :: 0 <= i < |s| ==> IsSelectorChar(s[i])
  }

  // ---------------------------------------------------------------- prefixes

  function TrimAll(parts: seq<string>): (r: seq<string>)
    ensures |r| == |parts| && forall i :: 0 <= i < |parts| ==> r[i] == TrimSpace(parts[i])
  {
    seq(|parts|, i requires 0 <= i < |parts| => TrimSpace(parts[i]))
  }

  /** The prefixes of an lps tag: none for a blank value, an empty one where one is missing. */
  function Prefixes(value: string): seq<string> {
    if AllSpace(value) then [] else TrimAll(Split(value, ','))
  }

  method ParseLocalPartPrefixes(value: string) returns (prefixes: seq<string>)
    ensures prefixes == Prefixes(value)
  {
    hide TrimSpace, Split;
    if TrimSpace(value) == "" {
      return [];
    }
    prefixes := Split(value, ',');
    ghost var parts := prefixes;
    for i := 0 to |prefixes|
      invariant |prefixes| == |parts|
      invariant forall k :: 0 <= k < i ==> prefixes[k] == TrimSpace(parts[k])
      invariant forall k :: i <= k < |parts| ==> prefixes[k] == parts[k]
    {
      prefixes := prefixes[i := TrimSpace(prefixes[i])];
    }
  }

  /** The first prefix that is not 1 to 63 letters, digits or dashes. */
  function FirstInvalid(prefixes: seq<string>): (r: Option<string>)
    ensures r.None? <==> forall i :: 0 <= i < |prefixes| ==> IsSelectorText(prefixes[i])
    ensures r.Some? ==> exists i :: 0 <= i < |prefixes| && prefixes[i] == r.value && !IsSelectorText(r.value)
                          && forall j :: 0 <= j < i ==> IsSelectorText(prefixes[j])
  {
    if prefixes == [] then None
    else if !IsSelectorText(prefixes[0]) then Some(prefixes[0])
    else
      assert forall i :: 0 < i < |prefixes| ==> prefixes[i] == prefixes[1..][i - 1];
      FirstInvalid(prefixes[1..])
  }

  // ---------------------------------------------------------------- deriving a selector

  /** The mailbox: what stands before the first plus sign. */
  function Mailbox(localPart: string): string {
    localPart[..Find(localPart, '+')]
  }

  function Dash(c: char): char {
    if c == '_' || c == '.' then '-' else c
  }

  /** Dashes however spelled, each run of them made one and those at the front dropped. */
  function Fold(s: string): string {
    if s == "" then ""
    else
      var b, c := Fold(s[..|s| - 1]), Dash(s[|s| - 1]);
      if c == '-' && (b == "" || b[|b| - 1] == '-') then b else b + [c]
  }

  function TrimDash(s: string): string {
    if s != "" && s[|s| - 1] == '-' then s[..|s| - 1] else s
  }

  function Normalize(localPart: string): Option<string> {
    var selector := TrimDash(Fold(Mailbox(localPart)));
    if IsSelectorText(selector) then Some(Lower(selector)) else None
  }

  method NormalizeLocalPart(localPart: string) returns (r: Option<string>)
    ensures r == Normalize(localPart)
  {
    var mailbox := localPart;
    var plus := Find(localPart, '+');
    if plus < |localPart| {
      mailbox := localPart[..plus];
    }
    assert mailbox == Mailbox(localPart);
    var b := "";
    for i := 0 to |mailbox|
      invariant b == Fold(mailbox[..i])
    {
      assert mailbox[..i + 1][..i] == mailbox[..i];
      var c := mailbox[i];
      if c == '_' || c == '.' {
        c := '-';
      }
      if c == '-' && (|b| == 0 || b[|b| - 1] == '-') {
        continue;
      }
      b := b + [c];
    }
    assert mailbox[..|mailbox|] == mailbox;
    var selector := TrimDash(b);
    if !IsSelectorText(selector) {
      return None;
    }
    return Some(Lower(selector));
  }

  // ---------------------------------------------------------------- the canonical form

  /** A lower-case selector with no dash at either end and no two dashes in a row. */
  predicate Canonical(s: string) {
    && IsSelectorText(s) && Lower(s) == s
    && s[0] != '-' && s[|s| - 1] != '-'
    && forall i :: 0 <= i < |s| - 1 ==> !(s[i] == '-' && s[i + 1] == '-')
  }

  /** No dash in front, no two in a row, none written with another character. */
  predicate Folded(b: string) {
    && (b != "" ==> b[0] != '-')
    && (forall i :: 0 <= i < |b| - 1 ==> !(b[i] == '-' && b[i + 1] == '-'))
    && forall i :: 0 <= i < |b| ==> b[i] != '_' && b[i] != '.'
  }

  lemma {:induction false} FoldFolds(s: string)
    ensures Folded(Fold(s))
    decreases |s|
  {
    if s != "" {
      FoldFolds(s[..|s| - 1]);
    }
  }

  /** Folding leaves a folded text alone. */
  lemma {:induction false} FoldFixed(b: string)
    requires Folded(b)
    ensures Fold(b) == b
    decreases |b|
  {
    if b != "" {
      var n := |b| - 1;
      FoldFixed(b[..n]);
      assert b == b[..n] + [b[n]];
      assert n > 0 ==> b[..n][n - 1] == b[n - 1] && b[..n][0] == b[0];
    }
  }

  /** Whatever selector is derived is canonical. */
  lemma NormalizeCanonical(localPart: string)
    ensures Normalize(localPart).Some? ==> Canonical(Normalize(localPart).value)
  {
    hide Fold, Mailbox, Lower, IsSelectorText, TrimDash;
    var b := Fold(Mailbox(localPart));
    FoldFolds(Mailbox(localPart));
    TrimDashEnds(b);
    var s := TrimDash(b);
    if IsSelectorText(s) {
      LowerSelector(s);
    }
  }

  lemma TrimDashEnds(b: string)
    requires Folded(b)
    ensures var s := TrimDash(b); Folded(s) && (s != "" ==> s[|s| - 1] != '-')
  {
  }

  lemma LowerSelector(s: string)
    requires IsSelectorText(s)
    ensures var r := Lower(s);
            && s != "" && IsSelectorText(r) && Lower(r) == r
            && forall i :: 0 <= i < |s| ==> (r[i] == '-' <==> s[i] == '-')
  {
    hide Lower;
    var r := Lower(s);
    assert forall i :: 0 <= i < |s| ==> IsSelectorChar(r[i]) && (r[i] == '-' <==> s[i] == '-') && LowerChar(r[i]) == r[i];
    LowerFixed(r);
  }

  lemma LowerFixed(r: string)
    requires forall i :: 0 <= i < |r| ==> LowerChar(r[i]) == r[i]
    ensures Lower(r) == r
  {
  }

  /** A canonical selector is its own: deriving again changes nothing. */
  lemma CanonicalFixed(s: string)
    requires Canonical(s)
    ensures Normalize(s) == Some(s)
  {
    hide Fold, Lower;
    assert '+' !in s by {
      assert forall i :: 0 <= i < |s| ==> IsSelectorChar(s[i]);
    }
    assert Find(s, '+') == |s| && Mailbox(s) == s;
    assert Folded(s) by {
      assert forall i :: 0 <= i < |s| ==> IsSelectorChar(s[i]);
    }
    FoldFixed(s);
  }

  lemma NormalizeIdempotent(localPart: string)
    requires Normalize(localPart).Some?
    ensures Normalize(Normalize(localPart).value) == Normalize(localPart)
  {
    hide Normalize, Canonical;
    NormalizeCanonical(localPart);
    CanonicalFixed(Normalize(localPart).value);
  }

  // ---------------------------------------------------------------- what makes no difference

  lemma FindConcat(s: string, c: char, rest: string)
    ensures Find(s + [c] + rest, c) == Find(s, c)
  {
    var t := s + [c] + rest;
    assert t[|s|] == c;
    assert forall i :: 0 <= i < |s| ==> t[i] == s[i];
  }

  /** A subaddress makes no difference. */
  lemma SubaddressIgnored(localPart: string, suffix: string)
    ensures Normalize(localPart + "+" + suffix) == Normalize(localPart)
  {
    hide Fold;
    FindConcat(localPart, '+', suffix);
    var i := Find(localPart, '+');
    assert (localPart + ['+'] + suffix)[..i] == localPart[..i];
  }

  /** The same text but for which of the three dash characters is written where. */
  predicate SameDashes(a: string, b: string) {
    |a| == |b| && forall i :: 0 <= i < |a| ==> Dash(a[i]) == Dash(b[i])
  }

  lemma {:induction false} FoldSameDashes(a: string, b: string)
    requires SameDashes(a, b)
    ensures Fold(a) == Fold(b)
    decreases |a|
  {
    if a != "" {
      FoldSameDashes(a[..|a| - 1], b[..|b| - 1]);
    }
  }

  /** Writing a dash as a period or an underscore, or back, makes no difference. */
  lemma DashesInterchangeable(a: string, b: string)
    requires SameDashes(a, b)
    ensures Normalize(a) == Normalize(b)
  {
    hide Fold;
    assert forall i :: 0 <= i < |a| ==> (a[i] == '+' <==> b[i] == '+');
    var i, j := Find(a, '+'), Find(b, '+');
    assert i == j;
    FoldSameDashes(a[..i], b[..j]);
  }

  // ---------------------------------------------------------------- matching prefixes

  /** A selector matches when no prefix is listed, or when it begins with one of them. */
  predicate Matches(prefixes: seq<string>, selector: string) {
    prefixes == [] || exists i :: 0 <= i < |prefixes| && HasPrefix(selector, Lower(prefixes[i]))
  }

  method MatchesLocalPart(published: bool, prefixes: seq<string>, selector: string) returns (r: bool)
    ensures r <==> published && Matches(prefixes, selector)
  {
    if !published {
      return false;
    }
    if |prefixes| == 0 {
      return true;
    }
    for i := 0 to |prefixes|
      invariant forall k :: 0 <= k < i ==> !HasPrefix(selector, Lower(prefixes[k]))
    {
      if HasPrefix(selector, Lower(prefixes[i])) {
        return true;
      }
    }
    return false;
  }
}
