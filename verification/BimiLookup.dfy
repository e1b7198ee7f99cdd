/** Discovery of the BIMI record of a domain: its own, else its organizational domain's, and
    then the one its local-part selectors may reserve for the sender. */
module BimiLookup {
  import opened Basics
  import opened Text
  import opened BimiRecord
  import opened LocalPart
  import opened BimiParse

  datatype Answer = NoName | Failed(why: string) | Texts(txt: seq<string>)

  /** The resolver and the public suffix list. */
  datatype World = World(lookup: string -> Answer, organizational: string -> string)

  datatype Location = Location(name: string, domain: string, txt: seq<string>, bimi: seq<string>)

  datatype Outcome = Error(why: string) | NoRecord | Found(record: Record)

  // ---------------------------------------------------------------- one location

  /** A name as queried: absolute. */
  function Absolute(name: string): string {
    if name == "" || name[|name| - 1] == '.' then name else name + "."
  }

  function NameAt(domain: string, selector: string): string {
    selector + "._bimi." + domain
  }

  predicate IsBimi(text: string) {
    HasVersion(Tags(text))
  }

  function BimiIn(txt: seq<string>): seq<string> {
    if txt == [] then []
    else BimiIn(txt[..|txt| - 1]) + if IsBimi(txt[|txt| - 1]) then [txt[|txt| - 1]] else []
  }

  function AnswerAt(w: World, domain: string, selector: string): Answer {
    w.lookup(Absolute(NameAt(domain, selector)))
  }

  function Published(w: World, domain: string, selector: string): seq<string> {
    var a := AnswerAt(w, domain, selector);
    if a.Texts? then a.txt else []
  }

  function Locate(w: World, domain: string, selector: string): Location {
    var txt := Published(w, domain, selector);
    Location(NameAt(domain, selector), domain, txt, BimiIn(txt))
  }

  /** One query: a name that does not exist holds nothing, any other failure is an error. */
  method LookupLocation(w: World, domain: string, selector: string) returns (loc: Location, error: Option<string>)
    ensures error.Some? <==> AnswerAt(w, domain, selector).Failed?
    ensures error.Some? ==> error.value == AnswerAt(w, domain, selector).why
    ensures loc == Locate(w, domain, selector)
  {
    hide IsBimi;
    var name := NameAt(domain, selector);
    var a := w.lookup(Absolute(name));
    match a
    case NoName => return Location(name, domain, [], []), None;
    case Failed(why) => return Location(name, domain, [], []), Some(why);
    case Texts(txt) =>
      var bimi := [];
      for i := 0 to |txt|
        invariant bimi == BimiIn(txt[..i])
      {
        assert txt[..i + 1][..i] == txt[..i];
        if IsBimi(txt[i]) {
          bimi := bimi + [txt[i]];
        }
      }
      assert txt[..|txt|] == txt;
      return Location(name, domain, txt, bimi), None;
  }

  // ---------------------------------------------------------------- the record of a location

  /** The version a text opens with, "" when it opens with none. */
  function LeadingVersion(text: string): string {
    var r := TrimSpace(text);
    if !HasPrefix(r, "v=") then ""
    else
      var v := r[2..];
      v[..Min(Find(v, ';'), Min(Find(v, ' '), Find(v, '\t')))]
  }

  /** The text whose error says most: the first with a version, else the first. */
  function MostTelling(txt: seq<string>): (t: string)
    requires txt != []
    ensures t in txt
  {
    if LeadingVersion(txt[0]) != "" then txt[0]
    else if exists i :: 0 <= i < |txt| && LeadingVersion(txt[i]) != "" then
      assert |txt| > 1 && exists i :: 0 <= i < |txt[1..]| && LeadingVersion(txt[1..][i]) != "" by {
        var i :| 0 <= i < |txt| && LeadingVersion(txt[i]) != "";
        assert txt[1..][i - 1] == txt[i];
      }
      MostTelling(txt[1..])
    else txt[0]
  }

  /** Several records at one name leave the domain without a usable one. */
  function Several(domain: string, selector: string, loc: Location): Record {
    Record(selector, selector, domain, loc.domain, Join(loc.bimi, "\n"), "", "", false, [], "",
           false, Some(SeveralRecords(|loc.bimi|)))
  }

  /** The record a location settles discovery with, before any local-part selector. */
  function Settled(domain: string, selector: string, loc: Location): Record
    requires loc.bimi != []
  {
    if |loc.bimi| == 1 then Read(domain, selector, loc.bimi[0]).(recordDomain := loc.domain)
    else Several(domain, selector, loc)
  }

  // ---------------------------------------------------------------- the local-part step

  /** The selector a record found at a location sends the local-part to, if it sends it anywhere
      that has not been queried yet. */
  function Derived(rec: Record, localPart: string): Option<string> {
    if localPart == "" || !rec.valid || !rec.hasPrefixes then None
    else
      var d := Normalize(localPart);
      if d.None? || !Matches(rec.prefixes, d.value) || EqualFold(d.value, rec.selector) then None else d
  }

  /** The record a local-part selector leads to, if exactly one valid one is published there. */
  function Refined(w: World, rec: Record, loc: Location, localPart: string): Record {
    var d := Derived(rec, localPart);
    if d.None? || AnswerAt(w, loc.domain, d.value).Failed? then rec
    else
      var there := Locate(w, loc.domain, d.value);
      if |there.bimi| != 1 then rec
      else
        var r := Read(rec.domain, d.value, there.bimi[0]);
        if !r.valid then rec
        else r.(requestedSelector := rec.requestedSelector, recordDomain := loc.domain)
  }

  method ApplyLocalPartSelector(w: World, rec: Record, loc: Location, localPart: string)
    returns (r: Record, queried: seq<string>)
    ensures r == Refined(w, rec, loc, localPart)
    ensures queried == if Derived(rec, localPart).Some? then [NameAt(loc.domain, Derived(rec, localPart).value)] else []
  {
    hide Read, Normalize, Matches, Lower;
    queried := [];
    if localPart == "" || !rec.valid || !rec.hasPrefixes {
      return rec, queried;
    }
    var derived := NormalizeLocalPart(localPart);
    if derived.None? {
      return rec, queried;
    }
    var matches := MatchesLocalPart(rec.hasPrefixes, rec.prefixes, derived.value);
    if !matches || EqualFold(derived.value, rec.selector) {
      return rec, queried;
    }
    queried := [NameAt(loc.domain, derived.value)];
    var there, error := LookupLocation(w, loc.domain, derived.value);
    if error.Some? || |there.bimi| != 1 {
      return rec, queried;
    }
    r := ParseRecord(rec.domain, derived.value, there.bimi[0]);
    if !r.valid {
      return rec, queried;
    }
    r := r.(requestedSelector := rec.requestedSelector, recordDomain := loc.domain);
  }

  // ---------------------------------------------------------------- discovery

  function NormalizeDomain(domain: string): string {
    var d := TrimSpace(domain);
    Lower(if d != "" && d[|d| - 1] == '.' then d[..|d| - 1] else d)
  }

  /** The organizational domain to fall back to, when there is another one. */
  function Fallback(w: World, domain: string): Option<string> {
    var org := w.organizational(domain);
    if org == "" || org == NormalizeDomain(domain) then None else Some(org)
  }

  /** The locations discovery visits: the domain's own, and its organizational domain's only
      when the domain's own holds no BIMI record. */
  function Visited(w: World, domain: string, selector: string): seq<Location> {
    var own := Locate(w, domain, selector);
    var org := Fallback(w, domain);
    [own] + if own.bimi == [] && org.Some? then [Locate(w, org.value, selector)] else []
  }

  /** The resolver error discovery stops on, if it meets one. */
  function Fails(w: World, domain: string, selector: string): Option<string> {
    var org := Fallback(w, domain);
    if AnswerAt(w, domain, selector).Failed? then Some(AnswerAt(w, domain, selector).why)
    else if Locate(w, domain, selector).bimi == [] && org.Some? && AnswerAt(w, org.value, selector).Failed? then
      Some(AnswerAt(w, org.value, selector).why)
    else None
  }

  /** The first location that publishes a BIMI record. */
  function FirstBimi(locations: seq<Location>): (r: Option<Location>)
    ensures r.Some? ==> r.value in locations && r.value.bimi != []
    ensures r.None? ==> forall i :: 0 <= i < |locations| ==> locations[i].bimi == []
  {
    if locations == [] then None else if locations[0].bimi != [] then Some(locations[0]) else FirstBimi(locations[1..])
  }

  function FirstText(locations: seq<Location>): (r: Option<Location>)
    ensures r.Some? ==> r.value in locations && r.value.txt != []
  {
    if locations == [] then None else if locations[0].txt != [] then Some(locations[0]) else FirstText(locations[1..])
  }

  /** What discovery answers for a sender, its local-part "" when it is not known. */
  function Discover(w: World, domain: string, selector: string, localPart: string): Outcome {
    var failure := Fails(w, domain, selector);
    if failure.Some? then Error(failure.value)
    else
      var locations := Visited(w, domain, selector);
      var loc := FirstBimi(locations);
      if loc.Some? then
        var rec := Settled(domain, selector, loc.value);
        Found(if |loc.value.bimi| == 1 then Refined(w, rec, loc.value, localPart) else rec)
      else
        var other := FirstText(locations);
        if other.None? then NoRecord
        else Found(Read(domain, selector, MostTelling(other.value.txt)).(recordDomain := other.value.domain))
  }

  method PickMostTelling(txt: seq<string>) returns (t: string)
    requires txt != []
    ensures t == MostTelling(txt)
  {
    hide LeadingVersion;
    assert txt[0..] == txt;
    for i := 0 to |txt|
      invariant forall k :: 0 <= k < i ==> LeadingVersion(txt[k]) == ""
      invariant (exists k :: 0 <= k < |txt| && LeadingVersion(txt[k]) != "") ==> i < |txt| && MostTelling(txt) == MostTelling(txt[i..])
    {
      assert txt[i..][0] == txt[i];
      if LeadingVersion(txt[i]) != "" {
        return txt[i];
      }
      assert txt[i..][1..] == txt[i + 1..];
      if exists k :: 0 <= k < |txt| && LeadingVersion(txt[k]) != "" {
        ghost var k :| 0 <= k < |txt| && LeadingVersion(txt[k]) != "";
        assert txt[i..][k - i] == txt[k];
      }
    }
    return txt[0];
  }

  /** The names discovery queries, in order. */
  function Queries(w: World, domain: string, selector: string, localPart: string): seq<string> {
    var own, org := Locate(w, domain, selector), Fallback(w, domain);
    var loc := FirstBimi(Visited(w, domain, selector));
    [NameAt(domain, selector)]
    + (if !AnswerAt(w, domain, selector).Failed? && own.bimi == [] && org.Some? then [NameAt(org.value, selector)] else [])
    + if Fails(w, domain, selector).None? && loc.Some? && |loc.value.bimi| == 1
      then RefinementQuery(Settled(domain, selector, loc.value), loc.value, localPart) else []
  }

  function RefinementQuery(rec: Record, loc: Location, localPart: string): seq<string> {
    var d := Derived(rec, localPart);
    if d.Some? then [NameAt(loc.domain, d.value)] else []
  }

  /** Visits the domain's own location, and its organizational domain's when that one is empty. */
  method VisitLocations(w: World, domain: string, selector: string)
    returns (locations: seq<Location>, error: Option<string>, queried: seq<string>)
    ensures error == Fails(w, domain, selector)
    ensures error.None? ==> locations == Visited(w, domain, selector)
    ensures queried == [NameAt(domain, selector)]
      + if !AnswerAt(w, domain, selector).Failed? && Locate(w, domain, selector).bimi == [] && Fallback(w, domain).Some?
        then [NameAt(Fallback(w, domain).value, selector)] else []
  {
    hide Locate, AnswerAt, NameAt, NormalizeDomain;
    locations, queried := [], [NameAt(domain, selector)];
    var own;
    own, error := LookupLocation(w, domain, selector);
    if error.Some? {
      return;
    }
    locations := [own];
    if |own.bimi| == 0 {
      var org := w.organizational(domain);
      if org != "" && org != NormalizeDomain(domain) {
        var inherited;
        inherited, error := LookupLocation(w, org, selector);
        queried := queried + [NameAt(org, selector)];
        if error.Some? {
          return;
        }
        locations := locations + [inherited];
      }
    }
  }

  /** Discovery as carried out, with the names it queries. */
  method LookupForLocalPart(w: World, domain: string, selector: string, localPart: string)
    returns (outcome: Outcome, queried: seq<string>)
    ensures outcome == Discover(w, domain, selector, localPart)
    ensures queried == Queries(w, domain, selector, localPart)
  {
    hide Locate, AnswerAt, NameAt, Read, Refined, Visited, Fails, Fallback, Derived, LeadingVersion, MostTelling;
    var locations, error;
    locations, error, queried := VisitLocations(w, domain, selector);
    if error.Some? {
      return Error(error.value), queried;
    }
    for i := 0 to |locations|
      invariant FirstBimi(locations) == FirstBimi(locations[i..])
    {
      var loc := locations[i];
      assert locations[i..][0] == loc && locations[i..][1..] == locations[i + 1..];
      if |loc.bimi| == 0 {
        continue;
      }
      if |loc.bimi| == 1 {
        var rec := ParseRecord(domain, selector, loc.bimi[0]);
        rec := rec.(recordDomain := loc.domain);
        var more;
        rec, more := ApplyLocalPartSelector(w, rec, loc, localPart);
        return Found(rec), queried + more;
      }
      return Found(Several(domain, selector, loc)), queried;
    }
    for i := 0 to |locations|
      invariant FirstText(locations) == FirstText(locations[i..])
    {
      var loc := locations[i];
      assert locations[i..][0] == loc && locations[i..][1..] == locations[i + 1..];
      if |loc.txt| > 0 {
        var telling := PickMostTelling(loc.txt);
        var rec := ParseRecord(domain, selector, telling);
        return Found(rec.(recordDomain := loc.domain)), queried;
      }
    }
    return NoRecord, queried;
  }

  // ---------------------------------------------------------------- what discovery promises

  /** At most three queries: the domain's own location first, the organizational domain's only
      after an empty one, a derived selector's only after a record was found. */
  lemma QueriesBounded(w: World, domain: string, selector: string, localPart: string)
    ensures var q := Queries(w, domain, selector, localPart);
            && 1 <= |q| <= 3 && q[0] == NameAt(domain, selector)
            && (Locate(w, domain, selector).bimi != [] ==>
                  |q| <= 2 && (|q| == 2 ==> Normalize(localPart).Some? && q[1] == NameAt(domain, Normalize(localPart).value)))
            && (|q| == 3 ==> Fallback(w, domain).Some? && q[1] == NameAt(Fallback(w, domain).value, selector))
  {
    hide NameAt, Read, Fallback, Normalize, Matches, Fails;
  }

  /** A lookup that fails at the domain's own location is the end of it: nothing else is asked,
      the organizational domain least of all. */
  lemma FailureIsFinal(w: World, domain: string, selector: string, localPart: string)
    requires AnswerAt(w, domain, selector).Failed?
    ensures Queries(w, domain, selector, localPart) == [NameAt(domain, selector)]
    ensures Discover(w, domain, selector, localPart) == Error(AnswerAt(w, domain, selector).why)
  {
  }

  /** A domain that publishes a BIMI record of its own is never answered for by another: what
      it publishes, usable or not, is what is found. */
  lemma OwnRecordWins(w: World, domain: string, selector: string, localPart: string)
    requires !AnswerAt(w, domain, selector).Failed? && Locate(w, domain, selector).bimi != []
    ensures var r := Discover(w, domain, selector, localPart);
            r.Found? && r.record.recordDomain == domain
  {
    hide NameAt, Read, Fallback, Derived;
  }

  /** Knowing the sender never costs the record found without it: the answer is that record, or
      a valid one at the same domain under the selector derived from the local-part. */
  lemma RefinementSafe(w: World, domain: string, selector: string, localPart: string)
    ensures var base, r := Discover(w, domain, selector, ""), Discover(w, domain, selector, localPart);
            || r == base
            || (&& base.Found? && base.record.valid && base.record.hasPrefixes
                && r.Found? && r.record.valid
                && r.record.domain == base.record.domain && r.record.recordDomain == base.record.recordDomain
                && r.record.requestedSelector == selector
                && Normalize(localPart) == Some(r.record.selector)
                && Matches(base.record.prefixes, r.record.selector)
                && !EqualFold(r.record.selector, selector))
  {
    hide Fails, Visited, FirstText, MostTelling, Normalize, Matches, Locate, AnswerAt, Verdict, Tags, Duplicates, PrefixesOf;
    hide EqualFold, FirstValue, HasTag, MalformedTags;
    var loc := FirstBimi(Visited(w, domain, selector));
  }
}
