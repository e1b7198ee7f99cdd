/** What discovery answers, case by case, in terms of what the names queried hold. */
module BimiDiscovery {
  import opened Basics
  import opened Text
  import opened BimiRecord
  import opened LocalPart
  import opened BimiParse
  import opened BimiLookup
  import opened BimiLaws

  // ---------------------------------------------------------------- what a name holds

  /** The name queried for a selector of a domain, with its root dot. */
  function QueryName(domain: string, selector: string): string {
    selector + "._bimi." + domain + if domain == "" || domain[|domain| - 1] == '.' then "" else "."
  }

  function TextsOf(a: Answer): seq<string> {
    if a.Texts? then a.txt else []
  }

  /** The BIMI records among some texts: those whose first tag is the version. */
  function Records(txt: seq<string>): seq<string> {
    if txt == [] then []
    else (if OpensOnVersion(Tags(txt[0])) then [txt[0]] else []) + Records(txt[1..])
  }

  lemma {:induction false} RecordsConcat(a: seq<string>, b: seq<string>)
    ensures Records(a + b) == Records(a) + Records(b)
    decreases |a|
  {
    hide OpensOnVersion, Tags;
    if a == [] {
      assert a + b == b;
    } else {
      assert (a + b)[1..] == a[1..] + b;
      RecordsConcat(a[1..], b);
    }
  }

  lemma {:induction false} RecordsFound(txt: seq<string>)
    ensures BimiIn(txt) == Records(txt)
    decreases |txt|
  {
    hide Tags;
    if txt != [] {
      var n := |txt| - 1;
      RecordsFound(txt[..n]);
      RecordsConcat(txt[..n], [txt[n]]);
      assert txt == txt[..n] + [txt[n]];
    }
  }

  lemma LocationHolds(w: World, domain: string, selector: string)
    ensures var a := w.lookup(QueryName(domain, selector));
            && AnswerAt(w, domain, selector) == a
            && Locate(w, domain, selector) == Location(selector + "._bimi." + domain, domain, TextsOf(a), Records(TextsOf(a)))
  {
    hide Records, BimiIn;
    var name := selector + "._bimi." + domain;
    assert name[|name| - 1] == if domain == "" then '.' else domain[|domain| - 1];
    assert name + "" == name;
    RecordsFound(TextsOf(w.lookup(QueryName(domain, selector))));
  }

  // ---------------------------------------------------------------- the domain fallen back to

  /** Domains are compared without their case, the blanks around them and their root dot. */
  lemma DomainCompared(left: string, spelled: string, root: string, right: string)
    requires AllSpace(left) && AllSpace(right) && Trimmed(spelled) && spelled != ""
    requires root == "." || (root == "" && spelled[|spelled| - 1] != '.')
    ensures NormalizeDomain(left + spelled + root + right) == Lower(spelled)
  {
    hide TrimSpace, Lower, AllSpace, NormalizeDomain;
    var name := spelled + root;
    TrimPadded(left, name, right);
    assert left + name + right == left + spelled + root + right;
    RootOff(left + name + right, spelled, root);
  }

  lemma RootOff(domain: string, spelled: string, root: string)
    requires TrimSpace(domain) == spelled + root && spelled != ""
    requires root == "." || (root == "" && spelled[|spelled| - 1] != '.')
    ensures NormalizeDomain(domain) == Lower(spelled)
  {
    hide TrimSpace, Lower;
    assert (spelled + root)[..|spelled|] == spelled && (root == "" ==> spelled + root == spelled);
  }

  // ---------------------------------------------------------------- discovery without a sender

  /** One record is read, several are refused together. */
  function SettledBy(domain: string, selector: string, found: string, records: seq<string>): Record
    requires records != []
  {
    if |records| == 1 then Read(domain, selector, records[0]).(recordDomain := found)
    else Record(selector, selector, domain, found, Join(records, "\n"), "", "", false, [], "", false, Some(SeveralRecords(|records|)))
  }

  /** A domain that publishes records is answered by them, or by what refuses them; one that
      publishes none inherits its organizational domain's; with none at either, whatever other
      text is there is reported, the domain's own first. */
  lemma DiscoveryExactly(w: World, domain: string, selector: string)
    ensures var org := w.organizational(domain);
            var own, up := w.lookup(QueryName(domain, selector)), w.lookup(QueryName(org, selector));
            var inherits := org != "" && org != NormalizeDomain(domain);
            var ours, theirs := Records(TextsOf(own)), Records(TextsOf(up));
            Discover(w, domain, selector, "") ==
              if own.Failed? then Error(own.why)
              else if ours != [] then Found(SettledBy(domain, selector, domain, ours))
              else if inherits && up.Failed? then Error(up.why)
              else if inherits && theirs != [] then Found(SettledBy(domain, selector, org, theirs))
              else if TextsOf(own) != [] then Found(Read(domain, selector, MostTelling(TextsOf(own))).(recordDomain := domain))
              else if inherits && TextsOf(up) != [] then Found(Read(domain, selector, MostTelling(TextsOf(up))).(recordDomain := org))
              else NoRecord
  {
    hide AnswerAt, Locate, Read, Records, MostTelling, NormalizeDomain, QueryName, FirstBimi, FirstText;
    LocationHolds(w, domain, selector);
    LocationHolds(w, w.organizational(domain), selector);
    FirstOfFew(Visited(w, domain, selector));
  }

  lemma FirstOfFew(locations: seq<Location>)
    requires 1 <= |locations| <= 2
    ensures FirstBimi(locations) == if locations[0].bimi != [] then Some(locations[0])
                                    else if |locations| == 2 && locations[1].bimi != [] then Some(locations[1]) else None
    ensures FirstText(locations) == if locations[0].txt != [] then Some(locations[0])
                                    else if |locations| == 2 && locations[1].txt != [] then Some(locations[1]) else None
  {
    assert locations[1..] == if |locations| == 2 then [locations[1]] else [];
    if |locations| == 2 {
      assert [locations[1]][1..] == [];
    }
  }

  // ---------------------------------------------------------------- discovery for a sender

  /** The record asks for senders like this one to be looked up at this selector. */
  predicate Asks(rec: Record, localPart: string, derived: string) {
    && localPart != "" && rec.valid && rec.hasPrefixes
    && Normalize(localPart) == Some(derived) && derived != Lower(rec.selector)
    && (rec.prefixes == [] || exists i :: 0 <= i < |rec.prefixes| && Lower(rec.prefixes[i]) <= derived)
  }

  /** The record found without a sender is replaced exactly when it asks for it and the one
      record published at the derived selector of the same domain is valid. */
  lemma RefinementExactly(w: World, domain: string, selector: string, localPart: string)
    ensures var base, r := Discover(w, domain, selector, ""), Discover(w, domain, selector, localPart);
            && (!base.Found? ==> r == base)
            && (base.Found? ==>
                  var rec, d := base.record, Normalize(localPart);
                  if d.None? || !Asks(rec, localPart, d.value) then r == base
                  else
                    var there := w.lookup(QueryName(rec.recordDomain, d.value));
                    var records := Records(TextsOf(there));
                    r == if !there.Failed? && |records| == 1 && Read(domain, d.value, records[0]).valid
                         then Found(Read(domain, d.value, records[0]).(requestedSelector := selector, recordDomain := rec.recordDomain))
                         else base)
  {
    hide Fails, Visited, FirstText, MostTelling, Normalize, Matches, Locate, AnswerAt, Verdict, Tags, Duplicates, PrefixesOf;
    hide EqualFold, FirstValue, HasTag, MalformedTags, Records, QueryName, Asks;
    var base := Discover(w, domain, selector, "");
    var loc := FirstBimi(Visited(w, domain, selector));
    var d := Normalize(localPart);
    if base.Found? && d.Some? {
      FirstTextInvalid(w, domain, selector);
      AsksDerived(base.record, localPart);
      LocationHolds(w, base.record.recordDomain, d.value);
    }
  }

  lemma {:induction false} NoneAmong(txt: seq<string>, text: string)
    requires BimiIn(txt) == [] && text in txt
    ensures !IsBimi(text)
    decreases |txt|
  {
    hide IsBimi;
    var n := |txt| - 1;
    assert txt == txt[..n] + [txt[n]];
    if text != txt[n] {
      NoneAmong(txt[..n], text);
    }
  }

  /** What is reported for want of a BIMI record is not a valid one. */
  lemma OtherTextInvalid(w: World, domain: string, selector: string, loc: Location)
    requires loc in Visited(w, domain, selector) && loc.bimi == [] && loc.txt != []
    ensures !Read(domain, selector, MostTelling(loc.txt)).valid
  {
    hide Tags, MalformedTags, Duplicates, PrefixesOf, LeadingVersion, FirstValue, HasTag, FirstInvalid;
    NoneAmong(loc.txt, MostTelling(loc.txt));
  }

  lemma FirstTextInvalid(w: World, domain: string, selector: string)
    ensures var locations := Visited(w, domain, selector);
            FirstBimi(locations).None? && FirstText(locations).Some? ==>
              !Read(domain, selector, MostTelling(FirstText(locations).value.txt)).valid
  {
    hide Read, MostTelling, Locate;
    var locations := Visited(w, domain, selector);
    if FirstBimi(locations).None? && FirstText(locations).Some? {
      OtherTextInvalid(w, domain, selector, FirstText(locations).value);
    }
  }

  lemma AsksDerived(rec: Record, localPart: string)
    requires Normalize(localPart).Some?
    ensures var d := Normalize(localPart);
            Derived(rec, localPart) == if Asks(rec, localPart, d.value) then d else None
  {
    hide Normalize, Lower, Canonical;
    NormalizeCanonical(localPart);
    CanonicalLower(Normalize(localPart).value);
  }

  lemma CanonicalLower(s: string)
    requires Canonical(s)
    ensures Lower(s) == s
  {
  }

  // ---------------------------------------------------------------- the most telling text

  /** The text opens on this version: "v=", then the version up to a semicolon, a blank or the
      end. */
  predicate OpensOn(text: string, version: string) {
    var t := TrimSpace(text);
    && "v=" + version <= t
    && (forall i :: 0 <= i < |version| ==> version[i] !in {';', ' ', '\t'})
    && (|t| > 2 + |version| ==> t[2 + |version|] in {';', ' ', '\t'})
  }

  lemma VersionExactly(text: string, version: string)
    requires version != ""
    ensures LeadingVersion(text) == version <==> OpensOn(text, version)
  {
    hide TrimSpace;
    var t := TrimSpace(text);
    if "v=" <= t {
      VersionCut(t[2..], version);
      assert "v=" + version <= t <==> version <= t[2..] by {
        assert t == "v=" + t[2..];
      }
    }
  }

  lemma VersionCut(v: string, version: string)
    ensures v[..Min(Find(v, ';'), Min(Find(v, ' '), Find(v, '\t')))] == version <==>
              && version <= v
              && (forall i :: 0 <= i < |version| ==> version[i] !in {';', ' ', '\t'})
              && (|v| > |version| ==> v[|version|] in {';', ' ', '\t'})
  {
    hide Find;
    var n := Min(Find(v, ';'), Min(Find(v, ' '), Find(v, '\t')));
    assert forall i :: 0 <= i < n ==> v[i] !in {';', ' ', '\t'};
    assert n < |v| ==> v[n] in {';', ' ', '\t'};
    if version <= v {
      assert forall i :: 0 <= i < |version| ==> version[i] == v[i];
    }
  }

  /** The text picked is the first that opens on a version, else the first of all. */
  lemma {:induction false} MostTellingExactly(txt: seq<string>)
    requires txt != []
    ensures (forall i :: 0 <= i < |txt| ==> LeadingVersion(txt[i]) == "") ==> MostTelling(txt) == txt[0]
    ensures forall i :: 0 <= i < |txt| && LeadingVersion(txt[i]) != "" && (forall j :: 0 <= j < i ==> LeadingVersion(txt[j]) == "")
              ==> MostTelling(txt) == txt[i]
    decreases |txt|
  {
    hide LeadingVersion;
    if |txt| > 1 {
      MostTellingExactly(txt[1..]);
      assert forall i :: 0 < i < |txt| ==> txt[i] == txt[1..][i - 1];
    }
  }
}
