/** The script a stale client runs: it reloads the page, a bounded number of times in a row. */
module StaleReload {
  import opened Basics
  import opened Text

  const MAX := 3
  const WINDOW := 30000

  /** What the session remembers: how many reloads, since when. */
  datatype Counter = Counter(n: int, t: int)

  /** How a run of the script left the page: reloaded through a fresh address, reloaded as it
      is, or left alone. */
  datatype Action = Replace | Reload | Nothing

  /** A page whose storage can or cannot be written. */
  class Page {
    var stored: Option<Counter>
    const writable: bool

    constructor (writable: bool)
      ensures this.writable == writable && stored == None
    {
      this.writable := writable;
      stored := None;
    }

    /** One run of the script at a time, on a browser that can or cannot rewrite addresses. */
    method Run(now: int, hasUrl: bool) returns (action: Action)
      modifies this
      ensures (stored, action) == Step(old(stored), now, writable, hasUrl)
    {
      var attempts, since, persisted := 0, now, false;
      if stored.Some? && now - stored.value.t <= WINDOW {
        attempts, since := stored.value.n, stored.value.t;
      }
      action := Nothing;
      if attempts < MAX {
        if writable {
          stored := Some(Counter(attempts + 1, since));
          persisted := true;
        }
        if hasUrl {
          action := Replace;
        } else if persisted {
          action := Reload;
        }
      }
    }
  }

  /** The counter a run goes by: the stored one while its window is open, else a fresh one. */
  function Current(stored: Option<Counter>, now: int): Counter {
    if stored.Some? && now - stored.value.t <= WINDOW then stored.value else Counter(0, now)
  }

  function Step(stored: Option<Counter>, now: int, writable: bool, hasUrl: bool): (Option<Counter>, Action) {
    var c := Current(stored, now);
    if c.n >= MAX then (stored, Nothing)
    else
      (if writable then Some(Counter(c.n + 1, c.t)) else stored,
       if hasUrl then Replace else if writable then Reload else Nothing)
  }

  /** A run counts itself while fewer than three reloads have been counted in the 30 seconds of
      the episode, and starts an episode of its own after them. It prefers a fresh address; the
      page as it is gets reloaded only on the strength of a count that could be written. */
  lemma RunDecides(stored: Option<Counter>, now: int, writable: bool, hasUrl: bool)
    ensures var (after, action) := Step(stored, now, writable, hasUrl);
            var going := stored.Some? && now <= stored.value.t + 30000;
            var used, since := if going then stored.value.n else 0, if going then stored.value.t else now;
            && (action == Replace <==> used < 3 && hasUrl)
            && (action == Reload <==> used < 3 && !hasUrl && writable)
            && (writable && used < 3 ==> after == Some(Counter(used + 1, since)))
            && (!writable || used >= 3 ==> after == stored)
  {
  }

  // ---------------------------------------------------------------- a session

  /** A run of the script: when, and whether the browser can rewrite addresses. */
  datatype Visit = Visit(now: int, hasUrl: bool)

  /** A reload issued: when, in the episode opened when, and the how-manieth of it. */
  datatype Issued = Issued(time: int, since: int, n: int)

  predicate Ordered(visits: seq<Visit>) {
    forall i, j :: 0 <= i < j < |visits| ==> visits[i].now <= visits[j].now
  }

  /** What the session remembers after a number of visits, its storage persisting. */
  function Stored(visits: seq<Visit>): Option<Counter> {
    if visits == [] then None
    else
      var n := |visits| - 1;
      Step(Stored(visits[..n]), visits[n].now, true, visits[n].hasUrl).0
  }

  /** The reloads issued over a number of visits. */
  function Reloads(visits: seq<Visit>): seq<Issued> {
    if visits == [] then []
    else
      var n := |visits| - 1;
      var before, now := Stored(visits[..n]), visits[n].now;
      var c := Current(before, now);
      Reloads(visits[..n])
      + if Step(before, now, true, visits[n].hasUrl).1.Nothing? then [] else [Issued(now, c.t, c.n + 1)]
  }

  // ---------------------------------------------------------------- how reloads follow each other

  predicate WellIssued(r: Issued) {
    1 <= r.n <= MAX && r.since <= r.time && (r.n == 1 ==> r.since == r.time)
  }

  /** A reload after another continues its episode, or opens one when its window has closed. */
  predicate Follows(a: Issued, b: Issued) {
    && a.time <= b.time
    && (|| (b.since == a.since && b.n == a.n + 1)
        || (b.n == 1 && b.time - a.since > WINDOW))
  }

  predicate Chained(rs: seq<Issued>) {
    && (forall i :: 0 <= i < |rs| ==> WellIssued(rs[i]))
    && forall i :: 0 <= i < |rs| - 1 ==> Follows(rs[i], rs[i + 1])
  }

  /** The session remembers exactly its last reload. */
  predicate Remembers(stored: Option<Counter>, rs: seq<Issued>) {
    if rs == [] then stored == None
    else stored == Some(Counter(rs[|rs| - 1].n, rs[|rs| - 1].since))
  }

  /** One more reload after the last one remembered keeps the chain. */
  lemma ChainExtends(rs: seq<Issued>, stored: Option<Counter>, now: int)
    requires Chained(rs) && Remembers(stored, rs) && forall r :: r in rs ==> r.time <= now
    requires Current(stored, now).n < MAX
    ensures var c := Current(stored, now);
            var more := rs + [Issued(now, c.t, c.n + 1)];
            Chained(more) && Remembers(Some(Counter(c.n + 1, c.t)), more)
  {
  }

  lemma {:induction false} SessionChained(visits: seq<Visit>)
    requires Ordered(visits)
    ensures Chained(Reloads(visits)) && Remembers(Stored(visits), Reloads(visits))
    ensures visits == [] ==> Reloads(visits) == []
    ensures forall r :: r in Reloads(visits) ==> r.time <= visits[|visits| - 1].now
    decreases |visits|
  {
    hide Chained, Remembers, Reloads, Stored;
    if visits == [] {
      NoVisits(visits);
      NothingChained();
    } else {
      var n := |visits| - 1;
      SessionChained(visits[..n]);
      var rs := Reloads(visits[..n]);
      forall r | r in rs
        ensures r.time <= visits[n].now
      {
        NoVisitsNoReloads(visits[..n]);
        assert n > 0 && visits[..n][n - 1] == visits[n - 1];
      }
      SessionSnoc(visits, n);
      assert visits[..n + 1] == visits;
      if Current(Stored(visits[..n]), visits[n].now).n < MAX {
        ChainExtends(rs, Stored(visits[..n]), visits[n].now);
      } else {
        assert rs + [] == rs;
      }
    }
  }

  lemma NothingChained()
    ensures Chained([]) && Remembers(None, [])
  {
  }

  lemma NoVisitsNoReloads(visits: seq<Visit>)
    ensures visits == [] ==> Reloads(visits) == []
  {
  }

  // ---------------------------------------------------------------- the bounds

  /** Six reloads in a row take more than the window. */
  lemma SixSpan(rs: seq<Issued>, k: nat)
    requires Chained(rs) && k + 5 < |rs|
    ensures rs[k + 5].time - rs[k].time > WINDOW
  {
    assert Follows(rs[k], rs[k + 1]) && Follows(rs[k + 1], rs[k + 2]) && Follows(rs[k + 2], rs[k + 3]);
    assert Follows(rs[k + 3], rs[k + 4]) && Follows(rs[k + 4], rs[k + 5]);
    assert WellIssued(rs[k]) && WellIssued(rs[k + 1]) && WellIssued(rs[k + 2]);
    assert WellIssued(rs[k + 3]) && WellIssued(rs[k + 4]) && WellIssued(rs[k + 5]);
  }

  lemma {:induction false} ChainedOrdered(rs: seq<Issued>, i: nat, j: nat)
    requires Chained(rs) && i <= j < |rs|
    ensures rs[i].time <= rs[j].time
    decreases j - i
  {
    if i < j {
      ChainedOrdered(rs, i, j - 1);
      assert Follows(rs[j - 1], rs[j - 1 + 1]);
    }
  }

  /** Which reloads are issued in a closed interval. */
  function During(rs: seq<Issued>, from: int, to: int): (flags: seq<bool>)
    ensures |flags| == |rs| && forall k :: 0 <= k < |rs| ==> flags[k] == (from <= rs[k].time <= to)
  {
    seq(|rs|, k requires 0 <= k < |rs| => from <= rs[k].time <= to)
  }

  /** Which reloads belong to the episode opened at a time. */
  function Episode(rs: seq<Issued>, since: int): (flags: seq<bool>)
    ensures |flags| == |rs| && forall k :: 0 <= k < |rs| ==> flags[k] == (rs[k].since == since)
  {
    seq(|rs|, k requires 0 <= k < |rs| => rs[k].since == since)
  }

  /** How many flags are raised. */
  function Count(flags: seq<bool>): nat {
    if flags == [] then 0 else Count(flags[..|flags| - 1]) + if flags[|flags| - 1] then 1 else 0
  }

  /** Flags raised only within so many places are no more than that. */
  lemma {:induction false} CountWithin(flags: seq<bool>, lo: nat, n: nat)
    requires forall k :: 0 <= k < |flags| && flags[k] ==> lo <= k < lo + n
    ensures Count(flags) <= n
    ensures |flags| <= lo ==> Count(flags) == 0
    ensures lo <= |flags| ==> Count(flags) <= |flags| - lo
    decreases |flags|
  {
    if flags != [] {
      CountWithin(flags[..|flags| - 1], lo, n);
      if |flags| > lo + n {
        assert !flags[|flags| - 1];
      }
    }
  }

  /** Over any session whose clock never goes back, at most five reloads fall in any closed
      interval as long as the window. */
  lemma FiveInAnyWindow(visits: seq<Visit>, from: int)
    requires Ordered(visits)
    ensures Count(During(Reloads(visits), from, from + 30000)) <= 5
  {
    hide Reloads, Chained;
    var rs := Reloads(visits);
    var s := During(rs, from, from + WINDOW);
    SessionChained(visits);
    var m := Find(s, true);
    forall k | 0 <= k < |s| && s[k]
      ensures m <= k < m + 5
    {
      if k >= m + 5 {
        SixSpan(rs, m);
        ChainedOrdered(rs, m + 5, k);
      }
    }
    CountWithin(s, m, 5);
  }

  lemma {:induction false} SameEpisode(rs: seq<Issued>, i: nat, j: nat)
    requires Chained(rs) && i <= j < |rs| && rs[i].since == rs[j].since
    ensures rs[j].n == rs[i].n + (j - i)
    decreases j - i
  {
    if i < j {
      assert Follows(rs[j - 1], rs[j - 1 + 1]) && WellIssued(rs[j - 1]) && WellIssued(rs[j]);
      SinceOrdered(rs, i, j - 1);
      SinceOrdered(rs, j - 1, j);
      SameEpisode(rs, i, j - 1);
    }
  }

  lemma {:induction false} SinceOrdered(rs: seq<Issued>, i: nat, j: nat)
    requires Chained(rs) && i <= j < |rs|
    ensures rs[i].since <= rs[j].since
    decreases j - i
  {
    if i < j {
      SinceOrdered(rs, i, j - 1);
      assert Follows(rs[j - 1], rs[j - 1 + 1]) && WellIssued(rs[j]);
    }
  }

  /** Over any such session, an episode issues at most three reloads. */
  lemma ThreeAnEpisode(visits: seq<Visit>, since: int)
    requires Ordered(visits)
    ensures Count(Episode(Reloads(visits), since)) <= 3
  {
    hide Reloads, Chained;
    var rs := Reloads(visits);
    var s := Episode(rs, since);
    SessionChained(visits);
    var m := Find(s, true);
    forall k | 0 <= k < |s| && s[k]
      ensures m <= k < m + 3
    {
      SameEpisode(rs, m, k);
      ChainedAt(rs, m);
      ChainedAt(rs, k);
    }
    CountWithin(s, m, 3);
  }

  lemma ChainedAt(rs: seq<Issued>, i: nat)
    requires Chained(rs) && i < |rs|
    ensures WellIssued(rs[i])
  {
  }

  lemma SessionSnoc(visits: seq<Visit>, n: nat)
    requires n < |visits|
    ensures var before, now := Stored(visits[..n]), visits[n].now;
            var c := Current(before, now);
            && Stored(visits[..n + 1]) == (if c.n >= MAX then before else Some(Counter(c.n + 1, c.t)))
            && Reloads(visits[..n + 1]) == Reloads(visits[..n]) + (if c.n >= MAX then [] else [Issued(now, c.t, c.n + 1)])
  {
    assert visits[..n + 1][..n] == visits[..n];
  }

  lemma NoVisits(visits: seq<Visit>)
    requires visits == []
    ensures Stored(visits) == None && Reloads(visits) == []
  {
  }

  /** The first three visits of an episode reload the page, the last two late in its window. */
  lemma FirstEpisode(visits: seq<Visit>)
    requires |visits| == 6 && visits[0].now == 0 && visits[1].now == WINDOW && visits[2].now == WINDOW
    ensures Reloads(visits[..3]) == [Issued(0, 0, 1), Issued(WINDOW, 0, 2), Issued(WINDOW, 0, 3)]
    ensures Stored(visits[..3]) == Some(Counter(3, 0))
  {
    hide Stored, Reloads;
    NoVisits(visits[..0]);
    SessionSnoc(visits, 0);
    SessionSnoc(visits, 1);
    SessionSnoc(visits, 2);
  }

  /** Three more visits just after the window open an episode of their own. */
  lemma SecondEpisode(visits: seq<Visit>)
    requires |visits| == 6 && Stored(visits[..3]) == Some(Counter(3, 0))
    requires forall i :: 3 <= i < 6 ==> visits[i].now == WINDOW + 1
    ensures Reloads(visits) == Reloads(visits[..3])
            + [Issued(WINDOW + 1, WINDOW + 1, 1), Issued(WINDOW + 1, WINDOW + 1, 2), Issued(WINDOW + 1, WINDOW + 1, 3)]
  {
    hide Stored, Reloads;
    SessionSnoc(visits, 3);
    SessionSnoc(visits, 4);
    SessionSnoc(visits, 5);
    assert visits[..6] == visits;
  }

  /** Five is reached: two reloads late in one episode and three of the next, in one window. */
  lemma {:induction false} FiveIsReached(visits: seq<Visit>)
    requires |visits| == 6 && visits[0].now == 0 && visits[1].now == WINDOW && visits[2].now == WINDOW
    requires forall i :: 3 <= i < 6 ==> visits[i].now == WINDOW + 1
    ensures Count(During(Reloads(visits), 30000, 60000)) == 5
  {
    hide Reloads, Stored;
    FirstEpisode(visits);
    SecondEpisode(visits);
    CountOfSix(During(Reloads(visits), WINDOW, 2 * WINDOW));
  }

  lemma CountOfSix(flags: seq<bool>)
    requires |flags| == 6 && !flags[0] && forall i :: 0 < i < 6 ==> flags[i]
    ensures Count(flags) == 5
  {
    hide Count;
    CountSnoc(flags, 0);
    CountSnoc(flags, 1);
    CountSnoc(flags, 2);
    CountSnoc(flags, 3);
    CountSnoc(flags, 4);
    CountSnoc(flags, 5);
    assert flags[..6] == flags;
  }

  lemma CountSnoc(flags: seq<bool>, n: nat)
    requires n < |flags|
    ensures Count(flags[..n + 1]) == Count(flags[..n]) + if flags[n] then 1 else 0
    ensures Count(flags[..0]) == 0
  {
    assert flags[..n + 1][..n] == flags[..n];
  }
}
