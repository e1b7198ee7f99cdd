/** How much of one text is in another: the overlap of their words as multisets. */
module WordOverlap {
  import opened Basics

  type Words = seq<string>

  /** How often each word occurs. */
  ghost predicate Counts(counts: map<string, nat>, words: Words) {
    && (forall w :: w in counts <==> w in words)
    && forall w :: w in counts ==> counts[w] == multiset(words)[w]
  }

  method CountWords(words: Words) returns (counts: map<string, nat>)
    ensures Counts(counts, words)
  {
    counts := map[];
    for i := 0 to |words|
      invariant Counts(counts, words[..i])
    {
      assert words[..i + 1] == words[..i] + [words[i]];
      var before := if words[i] in counts then counts[words[i]] else 0;
      counts := counts[words[i] := before + 1];
    }
    assert words[..|words|] == words;
  }

  /** The part of a multiset over some of its words. */
  ghost function Only(m: multiset<string>, keys: set<string>): (r: multiset<string>)
    ensures forall w :: r[w] == if w in keys then m[w] else 0
    decreases keys
  {
    if keys == {} then multiset{}
    else
      var w :| w in keys;
      Only(m, keys - {w})[w := m[w]]
  }

  lemma MultisetUpdateSize(m: multiset<string>, w: string, n: nat)
    requires m[w] == 0
    ensures |m[w := n]| == |m| + n
  {
  }

  /** Sums, over the words both texts hold, how often the rarer of the two does. */
  method CommonWords(a: map<string, nat>, b: map<string, nat>, ghost x: Words, ghost y: Words) returns (common: nat)
    requires Counts(a, x) && Counts(b, y)
    ensures common == |multiset(x) * multiset(y)|
  {
    hide Only, Counts;
    common := 0;
    var todo := a.Keys;
    ghost var both := multiset(x) * multiset(y);
    OnlyNothing(both);
    while todo != {}
      invariant todo <= a.Keys
      invariant common == |Only(both, a.Keys - todo)|
      decreases todo
    {
      var w :| w in todo;
      OnlyMore(both, a.Keys, todo, w);
      InBoth(a, b, x, y, w);
      if w in b {
        common := common + if a[w] < b[w] then a[w] else b[w];
      }
      todo := todo - {w};
    }
    assert a.Keys - {} == a.Keys;
    AllCounted(a, x, both);
    OnlyAll(both, a.Keys);
  }

  /** How often a word of the first text is in both. */
  lemma InBoth(a: map<string, nat>, b: map<string, nat>, x: Words, y: Words, w: string)
    requires Counts(a, x) && Counts(b, y) && w in a
    ensures (multiset(x) * multiset(y))[w] == if w in b then Min(a[w], b[w]) else 0
  {
  }

  lemma AllCounted(a: map<string, nat>, x: Words, both: multiset<string>)
    requires Counts(a, x) && both <= multiset(x)
    ensures forall w :: w in both ==> w in a.Keys
  {
  }

  lemma OnlyMore(m: multiset<string>, keys: set<string>, todo: set<string>, w: string)
    requires w in todo && todo <= keys
    ensures |Only(m, keys - (todo - {w}))| == |Only(m, keys - todo)| + m[w]
  {
    hide Only;
    assert keys - (todo - {w}) == (keys - todo) + {w};
    OnlyAdd(m, keys - todo, w);
  }

  lemma OnlyNothing(m: multiset<string>)
    ensures forall k: set<string> :: |Only(m, k - k)| == 0
  {
  }

  lemma OnlyAdd(m: multiset<string>, keys: set<string>, w: string)
    requires w !in keys
    ensures |Only(m, keys + {w})| == |Only(m, keys)| + m[w]
  {
    assert Only(m, keys + {w}) == Only(m, keys)[w := m[w]];
    MultisetUpdateSize(Only(m, keys), w, m[w]);
  }

  lemma OnlyAll(m: multiset<string>, keys: set<string>)
    requires forall w :: w in m ==> w in keys
    ensures Only(m, keys) == m
  {
  }

  /** The overlap before it is capped: common words against the average length, in exact
      arithmetic. */
  ghost function Ratio(x: Words, y: Words): real
    requires |x| + |y| > 0
  {
    |multiset(x) * multiset(y)| as real / ((|x| + |y|) as real / 2.0)
  }

  /** The consistency of two texts, given as their words. */
  method Consistency(x: Words, y: Words) returns (ratio: real)
    ensures |x| == 0 || |y| == 0 ==> ratio == 0.0
    ensures |x| > 0 && |y| > 0 ==> ratio == Ratio(x, y)
  {
    if |x| == 0 || |y| == 0 {
      return 0.0;
    }
    var a := CountWords(x);
    var b := CountWords(y);
    var common := CommonWords(a, b, x, y);
    ratio := common as real / ((|x| + |y|) as real / 2.0);
    RatioBounded(x, y);
    if ratio > 1.0 {
      ratio := 1.0;
    }
  }

  // ---------------------------------------------------------------- what the ratio says

  lemma Scaled(c: real, n: real)
    requires n > 0.0
    ensures c / (n / 2.0) * n == 2.0 * c
  {
    var h := n / 2.0;
    assert c / h * h == c;
  }

  /** The ratio is twice the words in common for all the words there are. */
  lemma RatioExactly(x: Words, y: Words)
    requires |x| + |y| > 0
    ensures Ratio(x, y) * ((|x| + |y|) as real) == 2.0 * (|multiset(x) * multiset(y)| as real)
  {
    Scaled(|multiset(x) * multiset(y)| as real, (|x| + |y|) as real);
  }

  lemma IntersectionSymmetric(a: multiset<string>, b: multiset<string>)
    ensures a * b == b * a
  {
  }

  lemma RatioSymmetric(x: Words, y: Words)
    requires |x| + |y| > 0
    ensures Ratio(x, y) == Ratio(y, x)
  {
    IntersectionSymmetric(multiset(x), multiset(y));
  }

  lemma IntersectionSize(a: multiset<string>, b: multiset<string>)
    ensures |a * b| <= |a| && |a * b| <= |b|
    ensures |a * b| == |a| ==> a * b == a
    ensures |a * b| == |b| ==> a * b == b
  {
    assert a == a * b + (a - b);
    assert b == a * b + (b - a);
    assert |a| == |a * b| + |a - b|;
    assert |b| == |a * b| + |b - a|;
    if |a - b| == 0 {
      assert a - b == multiset{};
    }
    if |b - a| == 0 {
      assert b - a == multiset{};
    }
  }

  lemma RatioBounded(x: Words, y: Words)
    requires |x| + |y| > 0
    ensures 0.0 <= Ratio(x, y) <= 1.0
    ensures Ratio(x, y) == 1.0 <==> 2 * |multiset(x) * multiset(y)| == |x| + |y|
  {
    IntersectionSize(multiset(x), multiset(y));
    var c, n := |multiset(x) * multiset(y)|, |x| + |y|;
    assert |multiset(x)| == |x| && |multiset(y)| == |y|;
    HalfRatio(c, n);
  }

  lemma HalfRatio(c: nat, n: nat)
    requires n > 0 && 2 * c <= n
    ensures 0.0 <= c as real / (n as real / 2.0) <= 1.0
    ensures c as real / (n as real / 2.0) == 1.0 <==> 2 * c == n
  {
  }

  /** The ratio never passes one, so the cap never applies, and it is one exactly for texts made
      of the same words as often. */
  lemma FullOverlap(x: Words, y: Words)
    requires x != [] && y != []
    ensures Ratio(x, y) <= 1.0
    ensures Ratio(x, y) == 1.0 <==> multiset(x) == multiset(y)
  {
    RatioBounded(x, y);
    IntersectionSize(multiset(x), multiset(y));
    assert |multiset(x)| == |x| && |multiset(y)| == |y|;
    if multiset(x) == multiset(y) {
      assert multiset(x) * multiset(y) == multiset(x);
    }
  }
}
