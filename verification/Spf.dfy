/** SPF include and redirect resolution: a depth-bounded depth-first search over an unbounded
    graph of domains, sharing one set of visited domains (sections 5.2 and 6.1 of RFC 7208). */
module Spf {
  import opened Basics
  import opened Text

  datatype Answer = Failed | Records(txt: seq<string>)

  /** The world the resolver asks: DNS, and the readings of one record. `problem` says what is
      wrong with a record, which only the main one must end on an "all" mechanism. */
  datatype World = World(
    lookup: string -> Answer,
    redirect: string -> string,
    includes: string -> seq<string>,
    problem: (string, bool) -> Option<string>)

  datatype Trouble = DepthExceeded | LookupFailed | NoRecord | MultipleRecords | Malformed(why: string)

  datatype Record = Record(domain: string, record: Option<string>, valid: bool, qualifier: Option<char>, trouble: Option<Trouble>)

  const MAX_DEPTH := 10

  // ---------------------------------------------------------------- one domain

  predicate IsSpf(txt: string) {
    HasPrefix(txt, "v=spf1")
  }

  function CountSpf(txt: seq<string>): nat {
    if txt == [] then 0 else CountSpf(txt[..|txt| - 1]) + if IsSpf(txt[|txt| - 1]) then 1 else 0
  }

  /** The last SPF record published, "" when there is none. */
  function LastSpf(txt: seq<string>): string {
    if txt == [] then "" else if IsSpf(txt[|txt| - 1]) then txt[|txt| - 1] else LastSpf(txt[..|txt| - 1])
  }

  predicate HasSuffix(s: string, suffix: string) {
    |s| >= |suffix| && s[|s| - |suffix|..] == suffix
  }

  function AllQualifier(record: string): Option<char> {
    if HasSuffix(record, " -all") then Some('-')
    else if HasSuffix(record, " ~all") then Some('~')
    else if HasSuffix(record, " +all") then Some('+')
    else if HasSuffix(record, " ?all") then Some('?')
    else if HasSuffix(record, " all") then Some('+')
    else None
  }

  /** The record reported for a domain that is looked up. */
  function Own(w: World, domain: string, main: bool): (r: Record)
    ensures r.domain == domain && r.trouble != Some(DepthExceeded)
  {
    match w.lookup(domain)
    case Failed => Record(domain, None, false, None, Some(LookupFailed))
    case Records(txt) =>
      if CountSpf(txt) == 0 then Record(domain, None, false, None, Some(NoRecord))
      else
        var spf := LastSpf(txt);
        if CountSpf(txt) > 1 then Record(domain, Some(spf), false, None, Some(MultipleRecords))
        else
          match w.problem(spf, main)
          case Some(why) => Record(domain, Some(spf), false, None, Some(Malformed(why)))
          case None => Record(domain, Some(spf), true, AllQualifier(spf), None)
  }

  /** The domains a domain's policy sends to: its redirect if it has one, else its includes. */
  function Successors(w: World, domain: string): seq<string> {
    match w.lookup(domain)
    case Failed => []
    case Records(txt) =>
      if CountSpf(txt) != 1 then []
      else
        var spf := LastSpf(txt);
        if w.redirect(spf) != "" then [w.redirect(spf)] else w.includes(spf)
  }

  function TooDeep(domain: string): Record {
    Record(domain, None, false, None, Some(DepthExceeded))
  }

  // ---------------------------------------------------------------- resolution

  /** The records of a domain and of everything it leads to, and the domains visited after it. */
  function Resolve(w: World, domain: string, visited: set<string>, depth: nat, main: bool): (seq<Record>, set<string>)
    requires depth <= MAX_DEPTH + 1
    decreases MAX_DEPTH + 1 - depth, 0
  {
    if depth > MAX_DEPTH then ([TooDeep(domain)], visited)
    else if domain in visited then ([], visited)
    else
      var (records, seen) := ResolveAll(w, Successors(w, domain), visited + {domain}, depth + 1);
      ([Own(w, domain, main)] + records, seen)
  }

  function ResolveAll(w: World, domains: seq<string>, visited: set<string>, depth: nat): (seq<Record>, set<string>)
    requires depth <= MAX_DEPTH + 1
    decreases MAX_DEPTH + 1 - depth, 1, |domains|
  {
    if domains == [] then ([], visited)
    else
      var n := |domains| - 1;
      var (before, seen) := ResolveAll(w, domains[..n], visited, depth);
      var (last, seen') := Resolve(w, domains[n], seen, depth, false);
      (before + last, seen')
  }

  /** The domains looked up for a list of records: those without the depth error, in order. */
  function Names(records: seq<Record>): seq<string> {
    if records == [] then []
    else (if records[0].trouble == Some(DepthExceeded) then [] else [records[0].domain]) + Names(records[1..])
  }

  /** The resolver, its visited set and the queries it has issued. */
  class Resolver {
    const world: World
    var visited: set<string>
    var queries: seq<string>

    constructor (w: World)
      ensures world == w && visited == {} && queries == []
    {
      world, visited, queries := w, {}, [];
    }

    method LookupTxt(domain: string) returns (a: Answer)
      modifies this`queries
      ensures a == world.lookup(domain) && queries == old(queries) + [domain]
    {
      queries := queries + [domain];
      a := world.lookup(domain);
    }

    /** Counts the SPF records of an answer and keeps the last. */
    method SelectSpf(txt: seq<string>) returns (spf: string, count: nat)
      ensures count == CountSpf(txt) && (count > 0 ==> spf == LastSpf(txt))
    {
      spf, count := "", 0;
      for i := 0 to |txt|
        invariant count == CountSpf(txt[..i]) && (count > 0 ==> spf == LastSpf(txt[..i]))
      {
        assert txt[..i + 1][..i] == txt[..i];
        if IsSpf(txt[i]) {
          spf, count := txt[i], count + 1;
        }
      }
      assert txt[..|txt|] == txt;
    }

    method ResolveSpfRecords(domain: string, depth: nat, main: bool) returns (results: seq<Record>)
      requires depth <= MAX_DEPTH + 1
      modifies this
      ensures (results, visited) == Resolve(world, domain, old(visited), depth, main)
      ensures queries == old(queries) + Names(results)
      decreases MAX_DEPTH + 1 - depth, 0
    {
      hide ResolveAll, CountSpf, LastSpf, Names, AllQualifier;
      NamesOne(domain);
      if depth > MAX_DEPTH {
        return [TooDeep(domain)];
      }
      if domain in visited {
        return [];
      }
      visited := visited + {domain};
      var answer := LookupTxt(domain);
      NamesOwn(world, domain, main);
      NothingToResolve(world, visited, depth + 1);
      if answer.Failed? {
        return [Record(domain, None, false, None, Some(LookupFailed))];
      }
      var spf, count := SelectSpf(answer.txt);
      if count == 0 {
        return [Record(domain, None, false, None, Some(NoRecord))];
      }
      if count > 1 {
        return [Record(domain, Some(spf), false, None, Some(MultipleRecords))];
      }
      var problem := world.problem(spf, main);
      var own := if problem.Some? then Record(domain, Some(spf), false, None, Some(Malformed(problem.value)))
                 else Record(domain, Some(spf), true, AllQualifier(spf), None);
      var more;
      if world.redirect(spf) != "" {
        more := FollowAll([world.redirect(spf)], depth + 1);
      } else {
        more := FollowAll(world.includes(spf), depth + 1);
      }
      NamesConcat([own], more);
      results := [own] + more;
    }

    /** Resolves a list of domains one after the other. */
    method FollowAll(domains: seq<string>, depth: nat) returns (results: seq<Record>)
      requires depth <= MAX_DEPTH + 1
      modifies this
      ensures (results, visited) == ResolveAll(world, domains, old(visited), depth)
      ensures queries == old(queries) + Names(results)
      decreases MAX_DEPTH + 1 - depth, 1
    {
      hide Resolve;
      results := [];
      for i := 0 to |domains|
        invariant (results, visited) == ResolveAll(world, domains[..i], old(visited), depth)
        invariant queries == old(queries) + Names(results)
      {
        assert domains[..i + 1][..i] == domains[..i];
        var found := ResolveSpfRecords(domains[i], depth, false);
        NamesConcat(results, found);
        results := results + found;
      }
      assert domains[..|domains|] == domains;
    }
  }

  /** The records reported for a domain: a fresh search, its depth at zero. */
  method CheckSpfRecords(w: World, domain: string) returns (results: seq<Record>, resolver: Resolver)
    ensures results == Check(w, domain).0 && resolver.visited == Check(w, domain).1
    ensures resolver.queries == Names(results)
  {
    resolver := new Resolver(w);
    results := resolver.ResolveSpfRecords(domain, 0, true);
  }

  function Check(w: World, domain: string): (seq<Record>, set<string>) {
    Resolve(w, domain, {}, 0, true)
  }

  lemma NamesOne(domain: string)
    ensures Names([]) == [] && Names([TooDeep(domain)]) == []
  {
  }

  lemma NamesOwn(w: World, domain: string, main: bool)
    ensures Names([Own(w, domain, main)]) == [domain]
  {
  }

  lemma NothingToResolve(w: World, visited: set<string>, depth: nat)
    requires depth <= MAX_DEPTH + 1
    ensures ResolveAll(w, [], visited, depth) == ([], visited)
    ensures forall r: Record :: [r] + [] == [r]
  {
  }

  lemma {:induction false} NamesConcat(a: seq<Record>, b: seq<Record>)
    ensures Names(a + b) == Names(a) + Names(b)
  {
    if a == [] {
      assert a + b == b;
    } else {
      assert (a + b)[1..] == a[1..] + b && (a + b)[0] == a[0];
      NamesConcat(a[1..], b);
    }
  }
}
