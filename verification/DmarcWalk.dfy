/** The DNS tree walk for DMARC records: a loop that jumps over labels by rewriting its own
    index, under a budget of eight queries (section 4.10 of DMARCbis). */
module DmarcWalk {
  import opened Basics
  import opened Text

  datatype Lookup = Failed(why: string) | NotFound | Found(record: string)

  /** What the walk answers: a resolver error, nothing, or a record and the name it was at. */
  datatype Outcome = Error(why: string) | Nothing | Record(record: string, domain: string)

  /** The name made of the labels from index `i` on. */
  function Suffix(labels: seq<string>, i: nat): string
    requires i <= |labels|
  {
    Join(labels[i..], ".")
  }

  predicate IsLabels(labels: seq<string>) {
    labels != [] && forall i :: 0 <= i < |labels| ==> '.' !in labels[i]
  }

  /** The value of the last tag with this name in a list of "name=value" parts, "" without one. */
  function Tag(parts: seq<string>, name: string): string {
    if parts == [] then ""
    else
      var n := |parts| - 1;
      var h := Cut(TrimSpace(parts[n]), '=');
      if h.found && TrimSpace(h.before) == name then TrimSpace(h.after) else Tag(parts[..n], name)
  }

  /** The value of a record's psd tag, "" when it is absent or none of "y", "n" and "u". */
  function PsdValue(record: string): string {
    var v := Tag(Split(record, ';'), "psd");
    if v in {"y", "n", "u"} then v else ""
  }

  /** A host name in comparable form: lower case, trimmed, without the root dot. */
  function Normalize(domain: string): string {
    var name := Lower(TrimSpace(domain));
    if name != "" && name[|name| - 1] == '.' then name[..|name| - 1] else name
  }

  /** The labels of a domain, of which there is always at least one. */
  function Labels(domain: string): (labels: seq<string>)
    ensures IsLabels(labels) && Join(labels, ".") == Normalize(domain)
  {
    Split(Normalize(domain), '.')
  }

  // ---------------------------------------------------------------- what names and records say

  /** The part of a record gives its psd tag this value. */
  predicate GivesPsd(part: string, value: string) {
    var t := TrimSpace(part);
    exists j :: 0 <= j < |t| && t[j] == '=' && '=' !in t[..j] && TrimSpace(t[..j]) == "psd" && TrimSpace(t[j + 1..]) == value
  }

  /** A tag gives psd this value, and no later one gives it another. */
  ghost predicate SaysPsd(parts: seq<string>, value: string) {
    exists i :: 0 <= i < |parts| && GivesPsd(parts[i], value)
      && forall j, v :: i < j < |parts| ==> !GivesPsd(parts[j], v)
  }

  /** The record says `psd=y`, and no later tag says otherwise. */
  ghost predicate SpeaksForSuffix(record: string) {
    SaysPsd(Split(record, ';'), "y")
  }

  lemma PartExactly(part: string, value: string)
    ensures var h := Cut(TrimSpace(part), '=');
            GivesPsd(part, value) <==> h.found && TrimSpace(h.before) == "psd" && TrimSpace(h.after) == value
  {
    hide TrimSpace, Cut;
    var t := TrimSpace(part);
    var h := Cut(t, '=');
    if h.found {
      var j := |h.before|;
      assert t[j] == '=' && t[..j] == h.before && t[j + 1..] == h.after;
    }
    if GivesPsd(part, value) {
      var j :| 0 <= j < |t| && t[j] == '=' && '=' !in t[..j] && TrimSpace(t[..j]) == "psd" && TrimSpace(t[j + 1..]) == value;
      CutPlace(t, '=', j);
    }
  }

  lemma {:induction false} TagExactly(parts: seq<string>, value: string)
    requires value != ""
    ensures Tag(parts, "psd") == value <==> SaysPsd(parts, value)
    decreases |parts|
  {
    hide GivesPsd, TrimSpace, Cut;
    if parts != [] {
      var n := |parts| - 1;
      TagExactly(parts[..n], value);
      assert forall i :: 0 <= i < n ==> parts[..n][i] == parts[i];
      forall v
        ensures var h := Cut(TrimSpace(parts[n]), '=');
                GivesPsd(parts[n], v) <==> h.found && TrimSpace(h.before) == "psd" && TrimSpace(h.after) == v
      {
        PartExactly(parts[n], v);
      }
      var h := Cut(TrimSpace(parts[n]), '=');
      assert h.found && TrimSpace(h.before) == "psd" ==> GivesPsd(parts[n], TrimSpace(h.after));
    }
  }

  /** The reading of the tag answers "y" exactly when the record says so last. */
  lemma PsdExactly(record: string)
    ensures PsdValue(record) == "y" <==> SpeaksForSuffix(record)
  {
    hide GivesPsd, Split, Tag, SaysPsd;
    TagExactly(Split(record, ';'), "y");
  }

  /** So it does for "n" and "u", and it answers nothing else. */
  lemma PsdOtherwise(record: string)
    ensures PsdValue(record) == "n" <==> SaysPsd(Split(record, ';'), "n")
    ensures PsdValue(record) == "u" <==> SaysPsd(Split(record, ';'), "u")
    ensures PsdValue(record) in {"", "y", "n", "u"}
  {
    hide GivesPsd, Split, Tag, SaysPsd;
    TagExactly(Split(record, ';'), "n");
    TagExactly(Split(record, ';'), "u");
  }

  lemma RootDropped(domain: string, spelled: string, root: string)
    requires TrimSpace(domain) == spelled + root && spelled != ""
    requires root == "." || (root == "" && spelled[|spelled| - 1] != '.')
    ensures Normalize(domain) == Lower(spelled)
  {
    hide TrimSpace, Lower;
    var name := spelled + root;
    assert Lower(name)[..|spelled|] == Lower(spelled);
    assert root == "" ==> name == spelled;
  }

  /** A host name is compared without its case, the blanks around it and its root dot. */
  lemma HostNameRead(left: string, spelled: string, root: string, right: string)
    requires AllSpace(left) && AllSpace(right) && Trimmed(spelled) && spelled != ""
    requires root == "." || (root == "" && spelled[|spelled| - 1] != '.')
    ensures Join(Labels(left + spelled + root + right), ".") == Lower(spelled)
  {
    hide TrimSpace, Lower, Split, Join, AllSpace, Labels, Normalize;
    var name := spelled + root;
    TrimPadded(left, name, right);
    assert left + name + right == left + spelled + root + right;
    RootDropped(left + name + right, spelled, root);
  }

  /** What is queried is an end of the name, cut at a dot. */
  lemma {:induction false} SuffixEnds(labels: seq<string>, i: nat)
    requires 0 < i < |labels|
    ensures Join(labels, ".") == Join(labels[..i], ".") + "." + Suffix(labels, i)
    decreases i
  {
    if i > 1 {
      SuffixEnds(labels[1..], i - 1);
      assert labels[..i][1..] == labels[1..][..i - 1] && labels[i..] == labels[1..][i - 1..];
      assert Join(labels, ".") == labels[0] + "." + Join(labels[1..], ".");
      assert Join(labels[..i], ".") == labels[0] + "." + Join(labels[..i][1..], ".");
    } else {
      assert Join(labels[..1], ".") == labels[0];
    }
  }

  // ---------------------------------------------------------------- the loop

  /** The walk as written: `i` is both the loop counter and the place the jump rewrites. The
      names queried come back beside the outcome. */
  method Walk(labels: seq<string>, lookup: string -> Lookup)
    returns (outcome: Outcome, queried: seq<string>)
    requires IsLabels(labels)
    ensures (outcome, queried) == Visit(labels, Plan(|labels|), lookup)
  {
    var n := |labels|;
    var i, queries := 0, 0;
    queried := [];
    hide Visit, After, Plan, Suffix, PsdValue;
    ghost var plan := Plan(n);
    assert plan[0..] == plan;
    AfterNothing(Visit(labels, plan, lookup));
    while i < n && queries < 8
      invariant 0 <= i <= n && queries == |queried| && queries <= |plan|
      invariant i < n ==> queries < |plan| && plan[queries] == i
      invariant i == n ==> queries == |plan|
      invariant Visit(labels, plan, lookup) == After(queried, Visit(labels, plan[queries..], lookup))
      decreases n - i
    {
      var current := Suffix(labels, i);
      ghost var rest := plan[queries..];
      assert rest[0] == i && rest[1..] == plan[queries + 1..];
      SingleLabel(labels, i);
      VisitStep(labels, rest, lookup, queried);
      queried := queried + [current];
      match lookup(current) {
        case Failed(why) =>
          return Error(why), queried;
        case Found(raw) =>
          if '.' !in current && PsdValue(raw) != "y" {
            return Nothing, queried;
          }
          return Record(raw, current), queried;
        case NotFound =>
      }
      if i == 0 && n >= 8 {
        i := n - 8;
      }
      i, queries := i + 1, queries + 1;
    }
    assert plan[queries..] == [];
    VisitEnd(labels, lookup, queried);
    outcome := Nothing;
  }

  /** The answer of a walk that had already queried some names. */
  ghost function After(queried: seq<string>, v: (Outcome, seq<string>)): (Outcome, seq<string>) {
    (v.0, queried + v.1)
  }

  lemma AfterNothing(v: (Outcome, seq<string>))
    ensures After([], v) == v
  {
    assert [] + v.1 == v.1;
  }

  lemma VisitEnd(labels: seq<string>, lookup: string -> Lookup, queried: seq<string>)
    ensures After(queried, Visit(labels, [], lookup)) == (Nothing, queried)
  {
    assert queried + [] == queried;
  }

  lemma VisitStep(labels: seq<string>, plan: seq<nat>, lookup: string -> Lookup, queried: seq<string>)
    requires plan != [] && forall k :: 0 <= k < |plan| ==> plan[k] < |labels|
    ensures var current := Suffix(labels, plan[0]);
            After(queried, Visit(labels, plan, lookup)) ==
              if lookup(current).NotFound? then After(queried + [current], Visit(labels, plan[1..], lookup))
              else (Answer(labels, plan[0], lookup), queried + [current])
  {
    var current := Suffix(labels, plan[0]);
    var rest := Visit(labels, plan[1..], lookup).1;
    assert queried + ([current] + rest) == queried + [current] + rest;
  }

  method WalkDnsForDmarc(domain: string, lookup: string -> Lookup) returns (outcome: Outcome, queried: seq<string>)
    ensures (outcome, queried) == Visit(Labels(domain), Plan(|Labels(domain)|), lookup)
  {
    outcome, queried := Walk(Labels(domain), lookup);
  }

  /** A name has no dot exactly when it is made of the last label alone. */
  lemma SingleLabel(labels: seq<string>, i: nat)
    requires IsLabels(labels) && i < |labels|
    ensures '.' in Suffix(labels, i) <==> i < |labels| - 1
  {
  }

  // ---------------------------------------------------------------- the plan

  /** The places the walk queries, in order: the full name, then the suffixes of at most seven
      labels, longest first, down to the last label. */
  function Plan(n: nat): (plan: seq<nat>)
    requires n > 0
    ensures plan != [] && plan[0] == 0
    ensures |plan| == 1 + Min(n - 1, 7) <= 8
    ensures forall k :: 0 < k < |plan| ==> plan[k] == n - Min(n - 1, 7) + k - 1
  {
    [0] + seq(Min(n - 1, 7), k requires 0 <= k => n - Min(n - 1, 7) + k)
  }

  /** What the answer found at one place means for the walk: a record at the last label alone
      counts only when it says that it speaks for a public suffix. */
  function Answer(labels: seq<string>, i: nat, lookup: string -> Lookup): Outcome
    requires i < |labels|
  {
    match lookup(Suffix(labels, i))
    case Failed(why) => Error(why)
    case NotFound => Nothing
    case Found(raw) =>
      if i == |labels| - 1 && PsdValue(raw) != "y" then Nothing else Record(raw, Suffix(labels, i))
  }

  /** Querying a list of places until the first answer. */
  function Visit(labels: seq<string>, plan: seq<nat>, lookup: string -> Lookup): (Outcome, seq<string>)
    requires forall k :: 0 <= k < |plan| ==> plan[k] < |labels|
  {
    if plan == [] then (Nothing, [])
    else
      var current := Suffix(labels, plan[0]);
      if !lookup(current).NotFound? then (Answer(labels, plan[0], lookup), [current])
      else
        var (outcome, queried) := Visit(labels, plan[1..], lookup);
        (outcome, [current] + queried)
  }

  // ---------------------------------------------------------------- what the walk finds

  /** Nothing is published at the first `k` places of a plan. */
  predicate MissesBefore(labels: seq<string>, plan: seq<nat>, k: nat, lookup: string -> Lookup)
    requires k <= |plan| && forall j :: 0 <= j < |plan| ==> plan[j] < |labels|
  {
    forall j :: 0 <= j < k ==> lookup(Suffix(labels, plan[j])).NotFound?
  }

  function Names(labels: seq<string>, plan: seq<nat>): (names: seq<string>)
    requires forall j :: 0 <= j < |plan| ==> plan[j] < |labels|
    ensures |names| == |plan| && forall j :: 0 <= j < |plan| ==> names[j] == Suffix(labels, plan[j])
  {
    seq(|plan|, j requires 0 <= j < |plan| => Suffix(labels, plan[j]))
  }

  /** The walk stops at the first place that answers, having queried the places up to it. */
  lemma {:induction false} VisitStopsAt(labels: seq<string>, plan: seq<nat>, k: nat, lookup: string -> Lookup)
    requires k < |plan| && forall j :: 0 <= j < |plan| ==> plan[j] < |labels|
    requires MissesBefore(labels, plan, k, lookup) && !lookup(Suffix(labels, plan[k])).NotFound?
    ensures Visit(labels, plan, lookup)
         == (Answer(labels, plan[k], lookup), Names(labels, plan[..k + 1]))
    decreases k
  {
    hide Suffix, Answer;
    if k > 0 {
      assert lookup(Suffix(labels, plan[0])).NotFound?;
      assert forall j :: 0 <= j < |plan| - 1 ==> plan[1..][j] == plan[j + 1];
      VisitStopsAt(labels, plan[1..], k - 1, lookup);
      assert Names(labels, plan[..k + 1]) == [Suffix(labels, plan[0])] + Names(labels, plan[1..][..k]);
    } else {
      assert Names(labels, plan[..1]) == [Suffix(labels, plan[0])];
    }
  }

  lemma {:induction false} VisitMissesAll(labels: seq<string>, plan: seq<nat>, lookup: string -> Lookup)
    requires forall j :: 0 <= j < |plan| ==> plan[j] < |labels|
    requires MissesBefore(labels, plan, |plan|, lookup)
    ensures Visit(labels, plan, lookup) == (Nothing, Names(labels, plan))
    decreases |plan|
  {
    hide Suffix;
    if plan != [] {
      assert lookup(Suffix(labels, plan[0])).NotFound?;
      assert forall j :: 0 <= j < |plan| - 1 ==> plan[1..][j] == plan[j + 1];
      VisitMissesAll(labels, plan[1..], lookup);
      assert Names(labels, plan) == [Suffix(labels, plan[0])] + Names(labels, plan[1..]);
    }
  }

  /** What is published at the places of a walk decides it: a record is the answer exactly when
      it is at the longest name queried that publishes anything, and is fit for its place. */
  lemma WalkDecided(labels: seq<string>, lookup: string -> Lookup, record: string, i: nat)
    requires IsLabels(labels) && i < |labels|
    ensures var plan := Plan(|labels|);
            Visit(labels, plan, lookup).0 == Record(record, Suffix(labels, i)) <==>
              exists k :: 0 <= k < |plan| && plan[k] == i && MissesBefore(labels, plan, k, lookup)
                && lookup(Suffix(labels, i)) == Found(record)
                && (i == |labels| - 1 ==> SpeaksForSuffix(record))
  {
    hide Visit, Suffix, MissesBefore, PsdValue, SpeaksForSuffix, Names;
    var plan := Plan(|labels|);
    NothingMissed(labels, plan, lookup);
    PsdExactly(record);
    var k := FirstAnswer(labels, plan, lookup, 0);
    if k < |plan| {
      VisitStopsAt(labels, plan, k, lookup);
      if Visit(labels, plan, lookup).0 == Record(record, Suffix(labels, i)) {
        SuffixDistinct(labels, plan[k], i);
      }
      forall j | 0 <= j < |plan| && MissesBefore(labels, plan, j, lookup) && plan[j] == i
                 && lookup(Suffix(labels, i)) == Found(record)
        ensures j == k
      {
        OnlyFirst(labels, plan, lookup, j, k);
      }
    } else {
      VisitMissesAll(labels, plan, lookup);
      forall j | 0 <= j < |plan|
        ensures lookup(Suffix(labels, plan[j])).NotFound?
      {
        MissesAt(labels, plan, |plan|, lookup, j);
      }
    }
  }

  /** The walk fails exactly with the error of the longest name queried that is not known to
      publish nothing. */
  lemma WalkFails(labels: seq<string>, lookup: string -> Lookup, why: string)
    requires IsLabels(labels)
    ensures var plan := Plan(|labels|);
            Visit(labels, plan, lookup).0 == Error(why) <==>
              exists k :: 0 <= k < |plan| && MissesBefore(labels, plan, k, lookup)
                && lookup(Suffix(labels, plan[k])) == Failed(why)
  {
    hide Visit, Suffix, MissesBefore, PsdValue, Names;
    var plan := Plan(|labels|);
    NothingMissed(labels, plan, lookup);
    var k := FirstAnswer(labels, plan, lookup, 0);
    forall j | 0 <= j < |plan| && MissesBefore(labels, plan, j, lookup) && lookup(Suffix(labels, plan[j])).Failed?
      ensures j == k
    {
      OnlyAnswer(labels, plan, lookup, j, k);
    }
    if k < |plan| {
      VisitStopsAt(labels, plan, k, lookup);
    } else {
      VisitMissesAll(labels, plan, lookup);
    }
  }

  /** The walk comes back empty-handed exactly when no name of the plan publishes anything, or
      the only one that does is a single label whose record does not say `psd=y`. */
  lemma WalkFindsNothing(labels: seq<string>, lookup: string -> Lookup)
    requires IsLabels(labels)
    ensures var plan, last := Plan(|labels|), lookup(Suffix(labels, |labels| - 1));
            Visit(labels, plan, lookup).0 == Nothing <==>
              MissesBefore(labels, plan, |plan|, lookup)
              || (MissesBefore(labels, plan, |plan| - 1, lookup) && last.Found? && !SpeaksForSuffix(last.record))
  {
    hide Visit, Suffix, MissesBefore, PsdValue, SpeaksForSuffix, Names;
    var plan, last := Plan(|labels|), lookup(Suffix(labels, |labels| - 1));
    NothingMissed(labels, plan, lookup);
    var k := FirstAnswer(labels, plan, lookup, 0);
    if last.Found? {
      PsdExactly(last.record);
      if MissesBefore(labels, plan, |plan| - 1, lookup) {
        OnlyAnswer(labels, plan, lookup, |plan| - 1, k);
      }
    }
    if k < |plan| {
      VisitStopsAt(labels, plan, k, lookup);
      if MissesBefore(labels, plan, |plan|, lookup) {
        MissesAt(labels, plan, |plan|, lookup, k);
      }
    } else {
      VisitMissesAll(labels, plan, lookup);
    }
  }

  /** Nothing before a place answers, that place does: it is the first that does. */
  lemma OnlyAnswer(labels: seq<string>, plan: seq<nat>, lookup: string -> Lookup, j: nat, k: nat)
    requires j < |plan| && k <= |plan| && forall j :: 0 <= j < |plan| ==> plan[j] < |labels|
    requires MissesBefore(labels, plan, j, lookup) && MissesBefore(labels, plan, k, lookup)
    requires !lookup(Suffix(labels, plan[j])).NotFound?
    requires k < |plan| ==> !lookup(Suffix(labels, plan[k])).NotFound?
    ensures j == k
  {
  }

  lemma MissesAt(labels: seq<string>, plan: seq<nat>, k: nat, lookup: string -> Lookup, j: nat)
    requires j < k <= |plan| && forall j :: 0 <= j < |plan| ==> plan[j] < |labels|
    requires MissesBefore(labels, plan, k, lookup)
    ensures lookup(Suffix(labels, plan[j])).NotFound?
  {
  }

  lemma OnlyFirst(labels: seq<string>, plan: seq<nat>, lookup: string -> Lookup, j: nat, k: nat)
    requires j < |plan| && k < |plan| && forall j :: 0 <= j < |plan| ==> plan[j] < |labels|
    requires MissesBefore(labels, plan, j, lookup) && MissesBefore(labels, plan, k, lookup)
    requires !lookup(Suffix(labels, plan[j])).NotFound? && !lookup(Suffix(labels, plan[k])).NotFound?
    ensures j == k
  {
  }

  /** The first place of a plan that answers, or its length. */
  ghost function FirstAnswer(labels: seq<string>, plan: seq<nat>, lookup: string -> Lookup, from: nat): (k: nat)
    requires from <= |plan| && forall j :: 0 <= j < |plan| ==> plan[j] < |labels|
    requires MissesBefore(labels, plan, from, lookup)
    ensures k <= |plan| && MissesBefore(labels, plan, k, lookup)
    ensures k < |plan| ==> !lookup(Suffix(labels, plan[k])).NotFound?
    decreases |plan| - from
  {
    if from < |plan| && lookup(Suffix(labels, plan[from])).NotFound? then FirstAnswer(labels, plan, lookup, from + 1) else from
  }

  /** Suffixes that start at different labels are different names. */
  lemma SuffixDistinct(labels: seq<string>, i: nat, j: nat)
    requires IsLabels(labels) && i < |labels| && j < |labels|
    requires Suffix(labels, i) == Suffix(labels, j)
    ensures i == j
  {
    SplitJoin(labels[i..], '.');
    SplitJoin(labels[j..], '.');
    assert |labels[i..]| == |labels| - i && |labels[j..]| == |labels| - j;
  }

  /** Every run: at most eight queries, the full name first and then ever shorter suffixes of
      at most seven labels, with no place of the plan skipped. */
  lemma WalkQueries(labels: seq<string>, lookup: string -> Lookup)
    requires IsLabels(labels)
    ensures var queried := Visit(labels, Plan(|labels|), lookup).1;
            && 1 <= |queried| <= |Plan(|labels|)| <= 8 && queried[0] == Suffix(labels, 0)
            && (forall k :: 0 < k < |queried| ==>
                  queried[k] == Suffix(labels, |labels| - Min(|labels| - 1, 7) + k - 1))
            && (MissesBefore(labels, Plan(|labels|), |Plan(|labels|)|, lookup) ==> |queried| == |Plan(|labels|)|)
  {
    hide Visit, Suffix, MissesBefore;
    var plan := Plan(|labels|);
    NothingMissed(labels, plan, lookup);
    var k := FirstAnswer(labels, plan, lookup, 0);
    if k < |plan| {
      VisitStopsAt(labels, plan, k, lookup);
      if MissesBefore(labels, plan, |plan|, lookup) {
        MissesAt(labels, plan, |plan|, lookup, k);
      }
    } else {
      VisitMissesAll(labels, plan, lookup);
    }
  }

  lemma NothingMissed(labels: seq<string>, plan: seq<nat>, lookup: string -> Lookup)
    requires forall j :: 0 <= j < |plan| ==> plan[j] < |labels|
    ensures MissesBefore(labels, plan, 0, lookup)
  {
  }
}
