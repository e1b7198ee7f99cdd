/** What SPF resolution finds: every domain it should, once, in depth-first order. */
module SpfLaws {
  import opened Basics
  import opened Spf

  predicate HasDepthError(records: seq<Record>) {
    exists r :: r in records && r.trouble == Some(DepthExceeded)
  }

  lemma DepthErrorConcat(a: seq<Record>, b: seq<Record>)
    ensures HasDepthError(a + b) <==> HasDepthError(a) || HasDepthError(b)
  {
  }

  // ---------------------------------------------------------------- what a domain publishes

  /** The only text that is an SPF record. */
  predicate IsOnlySpf(txt: seq<string>, i: int) {
    0 <= i < |txt| && forall j :: 0 <= j < |txt| ==> ("v=spf1" <= txt[j] <==> j == i)
  }

  /** The domain publishes exactly one SPF record, and this is it. */
  ghost predicate Publishes(w: World, domain: string, record: string) {
    var a := w.lookup(domain);
    a.Records? && exists i :: IsOnlySpf(a.txt, i) && a.txt[i] == record
  }

  /** The domains a domain's policy sends to: its redirect if it has one, else its includes. */
  ghost function SendsTo(w: World, domain: string): seq<string> {
    if exists t :: Publishes(w, domain, t) then
      var t :| Publishes(w, domain, t);
      if w.redirect(t) == "" then w.includes(t) else [w.redirect(t)]
    else []
  }

  predicate NoSpf(txt: seq<string>) {
    forall j :: 0 <= j < |txt| ==> !("v=spf1" <= txt[j])
  }

  /** The last SPF record among the texts. */
  predicate IsLastSpf(txt: seq<string>, i: int) {
    0 <= i < |txt| && "v=spf1" <= txt[i] && forall j :: i < j < |txt| ==> !("v=spf1" <= txt[j])
  }

  lemma {:induction false} NoneCounted(txt: seq<string>)
    ensures CountSpf(txt) == 0 <==> NoSpf(txt)
    decreases |txt|
  {
    if txt != [] {
      NoneCounted(txt[..|txt| - 1]);
    }
  }

  lemma {:induction false} LastCounted(txt: seq<string>, i: int)
    requires IsLastSpf(txt, i)
    ensures LastSpf(txt) == txt[i]
    decreases |txt|
  {
    var n := |txt| - 1;
    if i < n {
      assert !("v=spf1" <= txt[n]);
      LastCounted(txt[..n], i);
    }
  }

  lemma {:induction false} OneCounted(txt: seq<string>)
    ensures CountSpf(txt) == 1 <==> exists i :: IsOnlySpf(txt, i)
    decreases |txt|
  {
    if txt != [] {
      var n := |txt| - 1;
      OneCounted(txt[..n]);
      NoneCounted(txt[..n]);
      if "v=spf1" <= txt[n] {
        assert NoSpf(txt[..n]) <==> IsOnlySpf(txt, n) by {
          assert forall j :: 0 <= j < n ==> txt[..n][j] == txt[j];
        }
        assert forall i :: IsOnlySpf(txt, i) ==> i == n;
      } else {
        assert forall i :: IsOnlySpf(txt, i) <==> IsOnlySpf(txt[..n], i) by {
          assert forall j :: 0 <= j < n ==> txt[..n][j] == txt[j];
        }
      }
    }
  }

  lemma OnlyIsLast(txt: seq<string>, i: int)
    requires IsOnlySpf(txt, i)
    ensures 0 <= i < |txt| && LastSpf(txt) == txt[i]
  {
    LastCounted(txt, i);
  }

  /** Whatever is published alone is what the selection keeps. */
  lemma PublishedIsKept(w: World, domain: string, txt: seq<string>)
    requires w.lookup(domain) == Records(txt)
    ensures forall t :: Publishes(w, domain, t) <==> CountSpf(txt) == 1 && t == LastSpf(txt)
  {
    hide CountSpf, LastSpf, IsOnlySpf;
    OneCounted(txt);
    forall i | IsOnlySpf(txt, i)
      ensures 0 <= i < |txt| && txt[i] == LastSpf(txt)
    {
      OnlyIsLast(txt, i);
    }
  }

  lemma SuccessorsAre(w: World, domain: string)
    ensures Successors(w, domain) == SendsTo(w, domain)
  {
    hide CountSpf, LastSpf;
    var a := w.lookup(domain);
    if a.Records? {
      PublishedIsKept(w, domain, a.txt);
      if CountSpf(a.txt) == 1 {
        assert Publishes(w, domain, LastSpf(a.txt));
      }
    }
  }

  // ---------------------------------------------------------------- accounting

  predicate Distinct(s: seq<string>) {
    forall i, j :: 0 <= i < j < |s| ==> s[i] != s[j]
  }

  function Elements(s: seq<string>): set<string> {
    set d | d in s
  }

  lemma {:induction false} DistinctSize(s: seq<string>)
    requires Distinct(s)
    ensures |Elements(s)| == |s|
  {
    if s != [] {
      var n := |s| - 1;
      DistinctSize(s[..n]);
      assert Elements(s) == Elements(s[..n]) + {s[n]};
      assert s[n] !in s[..n];
    }
  }

  /** The domains looked up are exactly those newly visited, each of them once. */
  ghost predicate Accounts(names: seq<string>, visited: set<string>, seen: set<string>) {
    Distinct(names) && Elements(names) !! visited && seen == visited + Elements(names)
  }

  lemma AccountsConcat(a: seq<string>, b: seq<string>, v0: set<string>, v1: set<string>, v2: set<string>)
    requires Accounts(a, v0, v1) && Accounts(b, v1, v2)
    ensures Accounts(a + b, v0, v2)
  {
    assert Elements(a + b) == Elements(a) + Elements(b);
    assert forall i :: 0 <= i < |a| ==> a[i] in Elements(a);
    assert forall i :: 0 <= i < |b| ==> b[i] in Elements(b);
  }

  lemma {:induction false} ResolveAccounts(w: World, domain: string, visited: set<string>, depth: nat, main: bool)
    requires depth <= MAX_DEPTH + 1
    ensures var (records, seen) := Resolve(w, domain, visited, depth, main);
            Accounts(Names(records), visited, seen)
    decreases MAX_DEPTH + 1 - depth, 0
  {
    hide Accounts, ResolveAll, Names, Own, Successors, SendsTo;
    SuccessorsAre(w, domain);
    NamesOne(domain);
    NamesOwn(w, domain, main);
    AccountsSmall(domain, visited);
    if depth <= MAX_DEPTH && domain !in visited {
      var domains := SendsTo(w, domain);
      ResolveAllAccounts(w, domains, visited + {domain}, depth + 1);
      var (records, seen) := ResolveAll(w, domains, visited + {domain}, depth + 1);
      NamesConcat([Own(w, domain, main)], records);
      AccountsConcat([domain], Names(records), visited, visited + {domain}, seen);
    }
  }

  lemma AccountsSmall(domain: string, visited: set<string>)
    ensures Accounts([], visited, visited)
    ensures domain !in visited ==> Accounts([domain], visited, visited + {domain})
  {
  }

  lemma {:induction false} ResolveAllAccounts(w: World, domains: seq<string>, visited: set<string>, depth: nat)
    requires depth <= MAX_DEPTH + 1
    ensures var (records, seen) := ResolveAll(w, domains, visited, depth);
            Accounts(Names(records), visited, seen)
    decreases MAX_DEPTH + 1 - depth, 1, |domains|
  {
    hide Accounts, Resolve, Names;
    if domains == [] {
      AccountsSmall("", visited);
      NamesOne("");
    } else {
      var n := |domains| - 1;
      var (before, seen) := ResolveAll(w, domains[..n], visited, depth);
      var (last, seen') := Resolve(w, domains[n], seen, depth, false);
      ResolveAllAccounts(w, domains[..n], visited, depth);
      ResolveAccounts(w, domains[n], seen, depth, false);
      NamesConcat(before, last);
      AccountsConcat(Names(before), Names(last), visited, seen, seen');
    }
  }

  /** In every run, depth errors or not: as many lookups as visited domains, and as many
      records without the depth error, each naming a domain of its own. */
  lemma EveryLookupCounts(w: World, start: string)
    ensures var (records, visited) := Check(w, start);
            Distinct(Names(records)) && Elements(Names(records)) == visited && |Names(records)| == |visited|
  {
    ResolveAccounts(w, start, {}, 0, true);
    DistinctSize(Names(Check(w, start).0));
  }

  // ---------------------------------------------------------------- depth-first order

  /** The textbook depth-first search: `out` lists the domains found from a stack of domains
      still to explore, none of them in `seen`, each followed by its successors first. */
  ghost predicate Preorder(w: World, todo: seq<string>, seen: set<string>, out: seq<string>)
    decreases |out|, |todo|
  {
    if todo == [] then out == []
    else if todo[0] in seen then Preorder(w, todo[1..], seen, out)
    else
      && out != [] && out[0] == todo[0]
      && Preorder(w, SendsTo(w, todo[0]) + todo[1..], seen + {todo[0]}, out[1..])
  }

  /** The search has one outcome at most. */
  lemma {:induction false} PreorderUnique(w: World, todo: seq<string>, seen: set<string>, a: seq<string>, b: seq<string>)
    requires Preorder(w, todo, seen, a) && Preorder(w, todo, seen, b)
    ensures a == b
    decreases |a|, |todo|
  {
    if todo != [] {
      if todo[0] in seen {
        PreorderUnique(w, todo[1..], seen, a, b);
      } else {
        PreorderUnique(w, SendsTo(w, todo[0]) + todo[1..], seen + {todo[0]}, a[1..], b[1..]);
        assert a == [a[0]] + a[1..] && b == [b[0]] + b[1..];
      }
    }
  }

  lemma {:induction false} ResolvePreorder(w: World, domain: string, visited: set<string>, depth: nat, main: bool,
                                           rest: seq<string>, out: seq<string>)
    requires depth <= MAX_DEPTH + 1
    requires !HasDepthError(Resolve(w, domain, visited, depth, main).0)
    requires Preorder(w, rest, Resolve(w, domain, visited, depth, main).1, out)
    ensures Preorder(w, [domain] + rest, visited, Names(Resolve(w, domain, visited, depth, main).0) + out)
    decreases MAX_DEPTH + 1 - depth, 0
  {
    hide ResolveAll, Names, Own, Successors, SendsTo, HasDepthError;
    SuccessorsAre(w, domain);
    assert ([domain] + rest)[1..] == rest;
    NamesOne(domain);
    if depth > MAX_DEPTH {
      TooDeepErrs(domain);
      assert false;
    } else if domain in visited {
      assert [] + out == out;
    } else {
      var domains := SendsTo(w, domain);
      var (records, seen) := ResolveAll(w, domains, visited + {domain}, depth + 1);
      var own := Own(w, domain, main);
      DepthErrorConcat([own], records);
      ResolveAllPreorder(w, domains, visited + {domain}, depth + 1, rest, out);
      NamesOwn(w, domain, main);
      NamesConcat([own], records);
      assert ([domain] + Names(records) + out)[1..] == Names(records) + out;
    }
  }

  lemma TooDeepErrs(domain: string)
    ensures HasDepthError([TooDeep(domain)])
  {
  }

  lemma {:induction false} ResolveAllPreorder(w: World, domains: seq<string>, visited: set<string>, depth: nat,
                                              rest: seq<string>, out: seq<string>)
    requires depth <= MAX_DEPTH + 1
    requires !HasDepthError(ResolveAll(w, domains, visited, depth).0)
    requires Preorder(w, rest, ResolveAll(w, domains, visited, depth).1, out)
    ensures Preorder(w, domains + rest, visited, Names(ResolveAll(w, domains, visited, depth).0) + out)
    decreases MAX_DEPTH + 1 - depth, 1, |domains|
  {
    hide Resolve, Names, HasDepthError, Preorder;
    if domains == [] {
      NamesOne("");
      assert domains + rest == rest && [] + out == out;
    } else {
      var n := |domains| - 1;
      var (before, seen) := ResolveAll(w, domains[..n], visited, depth);
      var (last, _) := Resolve(w, domains[n], seen, depth, false);
      DepthErrorConcat(before, last);
      ResolvePreorder(w, domains[n], seen, depth, false, rest, out);
      ResolveAllPreorder(w, domains[..n], visited, depth, [domains[n]] + rest, Names(last) + out);
      assert domains[..n] + ([domains[n]] + rest) == domains + rest;
      NamesConcat(before, last);
      assert Names(before) + (Names(last) + out) == Names(before) + Names(last) + out;
    }
  }

  /** Without a depth error, the records come out in depth-first order from the domain asked
      for. */
  lemma RecordsInPreorder(w: World, start: string)
    requires !HasDepthError(Check(w, start).0)
    ensures Preorder(w, [start], {}, Names(Check(w, start).0))
    ensures Names(Check(w, start).0)[..1] == [start]
  {
    hide Names, HasDepthError, ResolveAll;
    SuccessorsAre(w, start);
    ResolvePreorder(w, start, {}, 0, true, [], []);
    var (records, _) := Check(w, start);
    assert [start] + [] == [start] && Names(records) + [] == Names(records);
    NamesOwn(w, start, true);
    NamesConcat([Own(w, start, true)], ResolveAll(w, SendsTo(w, start), {} + {start}, 1).0);
  }

  predicate EndsOn(text: string, end: string) {
    |text| >= |end| && text[|text| - |end|..] == end
  }

  /** The qualifier of the "all" mechanism a record ends on, none when it ends on none. */
  predicate IsQualifier(record: string, q: Option<char>) {
    match q
    case Some(c) => c in {'-', '~', '+', '?'} && (EndsOn(record, [' ', c, 'a', 'l', 'l']) || (c == '+' && EndsOn(record, " all")))
    case None => !EndsOn(record, " all") && forall c :: c in {'-', '~', '+', '?'} ==> !EndsOn(record, [' ', c, 'a', 'l', 'l'])
  }

  /** What is to be said of a domain: that it could not be looked up, that it publishes no SPF
      record, that it publishes several, or what its only record is and what is wrong with it. */
  ghost predicate IsReport(w: World, domain: string, main: bool, r: Record) {
    match w.lookup(domain)
    case Failed => r == Record(domain, None, false, None, Some(LookupFailed))
    case Records(txt) =>
      || (NoSpf(txt) && r == Record(domain, None, false, None, Some(NoRecord)))
      || (exists i, j :: 0 <= i < j < |txt| && "v=spf1" <= txt[i] && IsLastSpf(txt, j)
            && r == Record(domain, Some(txt[j]), false, None, Some(MultipleRecords)))
      || (exists i :: IsOnlySpf(txt, i) && r.domain == domain && r.record == Some(txt[i])
            && match w.problem(txt[i], main)
               case Some(why) => !r.valid && r.qualifier == None && r.trouble == Some(Malformed(why))
               case None => r.valid && IsQualifier(txt[i], r.qualifier) && r.trouble == None)
  }

  lemma OwnReports(w: World, domain: string, main: bool)
    ensures IsReport(w, domain, main, Own(w, domain, main))
  {
    hide CountSpf, LastSpf, AllQualifier, IsQualifier, IsOnlySpf, IsLastSpf, NoSpf;
    var a := w.lookup(domain);
    if a.Records? {
      NoneCounted(a.txt);
      OneCounted(a.txt);
      QualifierRead(LastSpf(a.txt));
      if CountSpf(a.txt) == 1 {
        var i :| IsOnlySpf(a.txt, i);
        OnlyIsLast(a.txt, i);
      } else if CountSpf(a.txt) > 1 {
        var i, j := SeveralCounted(a.txt);
        LastCounted(a.txt, j);
      }
    }
  }

  lemma QualifierRead(record: string)
    ensures IsQualifier(record, AllQualifier(record))
  {
  }

  lemma {:induction false} SeveralCounted(txt: seq<string>) returns (i: int, j: int)
    requires CountSpf(txt) > 1
    ensures 0 <= i < j && IsLastSpf(txt, j) && "v=spf1" <= txt[i]
    decreases |txt|
  {
    var n := |txt| - 1;
    if "v=spf1" <= txt[n] {
      NoneCounted(txt[..n]);
      i :| 0 <= i < n && "v=spf1" <= txt[..n][i];
      j := n;
    } else {
      i, j := SeveralCounted(txt[..n]);
    }
  }

  /** The record is a depth error, or what is to be said of its domain. */
  ghost predicate Owned(w: World, r: Record, main: bool) {
    r == Record(r.domain, None, false, None, Some(DepthExceeded)) || IsReport(w, r.domain, main, r)
  }

  ghost predicate AllOwned(w: World, records: seq<Record>) {
    forall i :: 0 <= i < |records| ==> Owned(w, records[i], false)
  }

  /** Each record is the one its domain owns, the first one alone as the main record. */
  lemma {:induction false} RecordsOwned(w: World, domain: string, visited: set<string>, depth: nat, main: bool)
    requires depth <= MAX_DEPTH + 1
    ensures var records := Resolve(w, domain, visited, depth, main).0;
            records != [] ==> Owned(w, records[0], main) && AllOwned(w, records[1..])
    decreases MAX_DEPTH + 1 - depth, 0
  {
    hide ResolveAll, Own, Successors, SendsTo;
    SuccessorsAre(w, domain);
    if depth <= MAX_DEPTH && domain !in visited {
      var domains := SendsTo(w, domain);
      RecordsAllOwned(w, domains, visited + {domain}, depth + 1);
      OwnNames(w, domain, main);
      OwnReports(w, domain, main);
      assert ([Own(w, domain, main)] + ResolveAll(w, domains, visited + {domain}, depth + 1).0)[1..]
          == ResolveAll(w, domains, visited + {domain}, depth + 1).0;
    }
  }

  lemma OwnNames(w: World, domain: string, main: bool)
    ensures Own(w, domain, main).domain == domain
  {
  }

  lemma {:induction false} RecordsAllOwned(w: World, domains: seq<string>, visited: set<string>, depth: nat)
    requires depth <= MAX_DEPTH + 1
    ensures AllOwned(w, ResolveAll(w, domains, visited, depth).0)
    decreases MAX_DEPTH + 1 - depth, 1, |domains|
  {
    hide Resolve, Owned;
    if domains != [] {
      var n := |domains| - 1;
      var (before, seen) := ResolveAll(w, domains[..n], visited, depth);
      var last := Resolve(w, domains[n], seen, depth, false).0;
      RecordsAllOwned(w, domains[..n], visited, depth);
      RecordsOwned(w, domains[n], seen, depth, false);
      assert last != [] ==> forall i :: 0 < i < |last| ==> last[i] == last[1..][i - 1];
    }
  }

  // ---------------------------------------------------------------- completeness

  /** A way through the policies, each domain sending to the next. */
  ghost predicate IsPath(w: World, path: seq<string>) {
    path != [] && forall i :: 0 <= i < |path| - 1 ==> path[i + 1] in SendsTo(w, path[i])
  }

  ghost predicate Reachable(w: World, start: string, domain: string) {
    exists path :: IsPath(w, path) && path[0] == start && path[|path| - 1] == domain
  }

  /** Every domain visited in between has had all its successors visited. */
  ghost predicate Closed(w: World, visited: set<string>, seen: set<string>) {
    visited <= seen && forall d, e :: d in seen && d !in visited && e in SendsTo(w, d) ==> e in seen
  }

  lemma {:induction false} ResolveClosed(w: World, domain: string, visited: set<string>, depth: nat, main: bool)
    requires depth <= MAX_DEPTH + 1
    requires !HasDepthError(Resolve(w, domain, visited, depth, main).0)
    ensures Closed(w, visited, Resolve(w, domain, visited, depth, main).1)
    ensures domain in Resolve(w, domain, visited, depth, main).1
    decreases MAX_DEPTH + 1 - depth, 0
  {
    hide ResolveAll, Own, Successors, SendsTo, HasDepthError;
    SuccessorsAre(w, domain);
    if depth > MAX_DEPTH {
      TooDeepErrs(domain);
      assert false;
    } else if domain !in visited {
      var domains := SendsTo(w, domain);
      DepthErrorConcat([Own(w, domain, main)], ResolveAll(w, domains, visited + {domain}, depth + 1).0);
      ResolveAllClosed(w, domains, visited + {domain}, depth + 1);
    }
  }

  lemma {:induction false} ResolveAllClosed(w: World, domains: seq<string>, visited: set<string>, depth: nat)
    requires depth <= MAX_DEPTH + 1
    requires !HasDepthError(ResolveAll(w, domains, visited, depth).0)
    ensures Closed(w, visited, ResolveAll(w, domains, visited, depth).1)
    ensures forall d :: d in domains ==> d in ResolveAll(w, domains, visited, depth).1
    decreases MAX_DEPTH + 1 - depth, 1, |domains|
  {
    hide Resolve, Successors, SendsTo, HasDepthError;
    if domains != [] {
      var n := |domains| - 1;
      var (before, seen) := ResolveAll(w, domains[..n], visited, depth);
      DepthErrorConcat(before, Resolve(w, domains[n], seen, depth, false).0);
      ResolveAllClosed(w, domains[..n], visited, depth);
      ResolveClosed(w, domains[n], seen, depth, false);
      assert domains == domains[..n] + [domains[n]];
    }
  }

  lemma {:induction false} PathStaysIn(w: World, path: seq<string>, seen: set<string>)
    requires IsPath(w, path) && path[0] in seen && Closed(w, {}, seen)
    ensures path[|path| - 1] in seen
    decreases |path|
  {
    hide Successors, SendsTo;
    var n := |path| - 1;
    if n > 0 {
      assert path[..n][|path[..n]| - 1] == path[n - 1];
      PathStaysIn(w, path[..n], seen);
    }
  }

  /** Every newly visited domain lies at the end of a path from one of the domains given. */
  ghost predicate ReachedFrom(w: World, domains: set<string>, visited: set<string>, seen: set<string>) {
    forall d :: d in seen && d !in visited ==> exists s :: s in domains && Reachable(w, s, d)
  }

  lemma ReachableSelf(w: World, domain: string)
    ensures Reachable(w, domain, domain)
  {
    assert IsPath(w, [domain]);
  }

  lemma ReachableStep(w: World, domain: string, next: string, target: string)
    requires next in SendsTo(w, domain) && Reachable(w, next, target)
    ensures Reachable(w, domain, target)
  {
    var path :| IsPath(w, path) && path[0] == next && path[|path| - 1] == target;
    hide Successors, SendsTo;
    var longer := [domain] + path;
    assert forall i :: 0 < i < |longer| ==> longer[i] == path[i - 1];
    assert IsPath(w, longer);
  }

  lemma {:induction false} ResolveReaches(w: World, domain: string, visited: set<string>, depth: nat, main: bool)
    requires depth <= MAX_DEPTH + 1
    ensures ReachedFrom(w, {domain}, visited, Resolve(w, domain, visited, depth, main).1)
    decreases MAX_DEPTH + 1 - depth, 0
  {
    hide ResolveAll, Own, Successors, SendsTo, Reachable;
    SuccessorsAre(w, domain);
    if depth <= MAX_DEPTH && domain !in visited {
      var domains := SendsTo(w, domain);
      var seen := ResolveAll(w, domains, visited + {domain}, depth + 1).1;
      ResolveAllReaches(w, domains, visited + {domain}, depth + 1);
      forall d | d in seen && d !in visited
        ensures Reachable(w, domain, d)
      {
        if d == domain {
          ReachableSelf(w, domain);
        } else {
          var s :| s in Elements(domains) && Reachable(w, s, d);
          ReachableStep(w, domain, s, d);
        }
      }
      assert domain in {domain};
    }
  }

  lemma {:induction false} ResolveAllReaches(w: World, domains: seq<string>, visited: set<string>, depth: nat)
    requires depth <= MAX_DEPTH + 1
    ensures ReachedFrom(w, Elements(domains), visited, ResolveAll(w, domains, visited, depth).1)
    decreases MAX_DEPTH + 1 - depth, 1, |domains|
  {
    hide Resolve, Successors, SendsTo, Reachable;
    if domains != [] {
      var n := |domains| - 1;
      var seen := ResolveAll(w, domains[..n], visited, depth).1;
      ResolveAllReaches(w, domains[..n], visited, depth);
      ResolveReaches(w, domains[n], seen, depth, false);
      assert Elements(domains) == Elements(domains[..n]) + {domains[n]};
    }
  }

  /** Without a depth error, the domains visited are exactly those the start leads to. */
  lemma ResolutionComplete(w: World, start: string)
    requires !HasDepthError(Check(w, start).0)
    ensures forall d :: d in Check(w, start).1 <==> Reachable(w, start, d)
  {
    hide Resolve, Successors, SendsTo, HasDepthError;
    var seen := Check(w, start).1;
    ResolveClosed(w, start, {}, 0, true);
    ResolveReaches(w, start, {}, 0, true);
    forall d
      ensures d in seen <==> Reachable(w, start, d)
    {
      if Reachable(w, start, d) {
        var path :| IsPath(w, path) && path[0] == start && path[|path| - 1] == d;
        PathStaysIn(w, path, seen);
      }
    }
  }

  /** In particular, a visited domain has had its redirect visited if it has one, and all its
      includes if it has none. */
  lemma PolicyFollowed(w: World, start: string, domain: string, record: string)
    requires !HasDepthError(Check(w, start).0)
    requires domain in Check(w, start).1 && Publishes(w, domain, record)
    ensures w.redirect(record) != "" ==> w.redirect(record) in Check(w, start).1
    ensures w.redirect(record) == "" ==> forall d :: d in w.includes(record) ==> d in Check(w, start).1
  {
    hide Resolve, HasDepthError, Publishes;
    ResolveClosed(w, start, {}, 0, true);
    PublishedOnce(w, domain, record);
  }

  lemma PublishedOnce(w: World, domain: string, record: string)
    requires Publishes(w, domain, record)
    ensures SendsTo(w, domain) == if w.redirect(record) == "" then w.includes(record) else [w.redirect(record)]
  {
  }

  /** A start that redirects leads where its redirect does and nowhere else: none of its
      includes is followed. */
  lemma RedirectAlone(w: World, start: string, record: string, domain: string)
    requires !HasDepthError(Check(w, start).0) && Publishes(w, start, record) && w.redirect(record) != ""
    ensures domain in Check(w, start).1 <==> domain == start || Reachable(w, w.redirect(record), domain)
  {
    hide Check, HasDepthError, Publishes, SendsTo;
    var next := w.redirect(record);
    ResolutionComplete(w, start);
    PublishedOnce(w, start, record);
    ReachableSelf(w, start);
    if Reachable(w, next, domain) {
      ReachableStep(w, start, next, domain);
    }
    if Reachable(w, start, domain) && domain != start {
      var path :| IsPath(w, path) && path[0] == start && path[|path| - 1] == domain;
      assert forall i :: 0 <= i < |path| - 1 ==> path[1..][i] == path[i + 1];
      assert IsPath(w, path[1..]);
    }
  }

  // ---------------------------------------------------------------- when depth runs out

  /** A depth error is only ever reported for a chain of eleven sends through domains that are
      all different, but perhaps the last. */
  lemma {:induction false} DepthErrorHasChain(w: World, domain: string, visited: set<string>, depth: nat, main: bool,
                                              path: seq<string>)
    requires depth <= MAX_DEPTH + 1 && |path| == depth + 1 && IsPath(w, path) && path[depth] == domain
    requires Distinct(path[..depth]) && forall i :: 0 <= i < depth ==> path[i] in visited
    requires HasDepthError(Resolve(w, domain, visited, depth, main).0)
    ensures exists chain :: IsLongChain(w, path[0], chain)
    decreases MAX_DEPTH + 1 - depth, 0
  {
    hide ResolveAll, Own, Successors, SendsTo;
    SuccessorsAre(w, domain);
    if depth > MAX_DEPTH {
      assert IsLongChain(w, path[0], path);
    } else if domain !in visited {
      var domains := SendsTo(w, domain);
      var own := Own(w, domain, main);
      DepthErrorConcat([own], ResolveAll(w, domains, visited + {domain}, depth + 1).0);
      OwnNames(w, domain, main);
      assert Distinct(path) by {
        assert forall i :: 0 <= i < depth ==> path[..depth][i] == path[i];
      }
      ResolveAllHasChain(w, domains, visited + {domain}, depth + 1, path);
    }
  }

  /** Twelve domains from a start, each sending to the next, the first eleven different. */
  ghost predicate IsLongChain(w: World, start: string, chain: seq<string>) {
    |chain| == 12 && IsPath(w, chain) && chain[0] == start && Distinct(chain[..11])
  }

  lemma {:induction false} ResolveAllHasChain(w: World, domains: seq<string>, visited: set<string>, depth: nat, path: seq<string>)
    requires 0 < depth <= MAX_DEPTH + 1 && |path| == depth && IsPath(w, path) && Distinct(path)
    requires forall i :: 0 <= i < depth ==> path[i] in visited
    requires forall d :: d in domains ==> d in SendsTo(w, path[depth - 1])
    requires HasDepthError(ResolveAll(w, domains, visited, depth).0)
    ensures exists chain :: IsLongChain(w, path[0], chain)
    decreases MAX_DEPTH + 1 - depth, 1, |domains|
  {
    hide Resolve, Successors, SendsTo, IsLongChain, Distinct;
    if domains != [] {
      var n := |domains| - 1;
      var (before, seen) := ResolveAll(w, domains[..n], visited, depth);
      DepthErrorConcat(before, Resolve(w, domains[n], seen, depth, false).0);
      assert forall d :: d in domains[..n] ==> d in domains;
      if HasDepthError(before) {
        ResolveAllHasChain(w, domains[..n], visited, depth, path);
      } else {
        ResolveAllKeeps(w, domains[..n], visited, depth);
        var longer := path + [domains[n]];
        assert longer[..depth] == path && longer[depth] == domains[n] && domains[n] in domains;
        forall i | 0 <= i < depth
          ensures longer[i + 1] in SendsTo(w, longer[i])
        {
          assert i + 1 < depth ==> path[i + 1] in SendsTo(w, path[i]);
        }
        DepthErrorHasChain(w, domains[n], seen, depth, false, longer);
      }
    }
  }

  /** The bound is met: eleven sends one after the other through twelve different domains, each
      sending to the next alone, are one too many. */
  lemma LongWayRefused(w: World, path: seq<string>)
    requires |path| == 12 && Distinct(path)
    requires forall i :: 0 <= i < 11 ==> SendsTo(w, path[i]) == [path[i + 1]]
    ensures HasDepthError(Check(w, path[0]).0)
  {
    hide Resolve, HasDepthError, SendsTo;
    assert Elements(path[..0]) == {};
    LongWayFrom(w, path, 0, true);
  }

  lemma {:induction false} LongWayFrom(w: World, path: seq<string>, depth: nat, main: bool)
    requires |path| == 12 && Distinct(path) && depth <= 11
    requires forall i :: 0 <= i < 11 ==> SendsTo(w, path[i]) == [path[i + 1]]
    ensures HasDepthError(Resolve(w, path[depth], Elements(path[..depth]), depth, main).0)
    decreases 11 - depth
  {
    hide ResolveAll, HasDepthError, SendsTo, Successors, Own;
    if depth == 11 {
      TooDeepErrs(path[11]);
    } else {
      var d, visited := path[depth], Elements(path[..depth]);
      assert d !in visited;
      assert visited + {d} == Elements(path[..depth + 1]);
      SuccessorsAre(w, d);
      LongWayFrom(w, path, depth + 1, false);
      OneResolved(w, path[depth + 1], visited + {d}, depth + 1);
      DepthErrorConcat([Own(w, d, main)], ResolveAll(w, [path[depth + 1]], visited + {d}, depth + 1).0);
    }
  }

  lemma OneResolved(w: World, domain: string, visited: set<string>, depth: nat)
    requires depth <= MAX_DEPTH + 1
    ensures ResolveAll(w, [domain], visited, depth) == Resolve(w, domain, visited, depth, false)
  {
    hide Resolve;
    assert [domain][..0] == [];
    NothingToResolve(w, visited, depth);
    assert [] + Resolve(w, domain, visited, depth, false).0 == Resolve(w, domain, visited, depth, false).0;
  }

  lemma ResolveAllKeeps(w: World, domains: seq<string>, visited: set<string>, depth: nat)
    requires depth <= MAX_DEPTH + 1
    ensures visited <= ResolveAll(w, domains, visited, depth).1
  {
    ResolveAllAccounts(w, domains, visited, depth);
  }

  /** Resolution is complete whenever no chain of distinct domains is longer than the bound. */
  lemma ShallowIsComplete(w: World, start: string)
    requires forall chain :: !IsLongChain(w, start, chain)
    ensures !HasDepthError(Check(w, start).0)
    ensures forall d :: d in Check(w, start).1 <==> Reachable(w, start, d)
  {
    if HasDepthError(Check(w, start).0) {
      assert IsPath(w, [start]) && [start][..0] == [];
      DepthErrorHasChain(w, start, {}, 0, true, [start]);
    }
    ResolutionComplete(w, start);
  }
}
