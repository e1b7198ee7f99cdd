/** Reading a BIMI record: its fields, and the one reason it is refused for, if it is. */
module BimiParse {
  import opened Basics
  import opened Text
  import opened BimiRecord
  import opened LocalPart

  datatype Trouble =
    | NotBimi
    | TagWithoutValue(text: string)
    | DuplicateTags(names: seq<string>)
    | NoLogo
    | BadPrefix(prefix: string)
    | SeveralRecords(count: nat)

  datatype Record = Record(
    selector: string, requestedSelector: string, domain: string, recordDomain: string, text: string,
    logoUrl: string, vmcUrl: string, hasPrefixes: bool, prefixes: seq<string>, avatar: string,
    valid: bool, trouble: Option<Trouble>)

  predicate HasVersion(tags: seq<Tag>) {
    tags != [] && tags[0] == Tag("v", "BIMI1")
  }

  /** The prefixes of the first lps tag, none without one. */
  function PrefixesOf(tags: seq<Tag>): seq<string> {
    if HasTag(tags, "lps") then Prefixes(FirstValue(tags, "lps")) else []
  }

  /** What makes a record valid: the version first, nothing but tags, no name twice, a logo, and
      prefixes of one to sixty-three letters, digits or dashes. */
  predicate WellFormed(text: string) {
    var tags := Tags(text);
    && HasVersion(tags)
    && AllTags(text)
    && DistinctNames(tags)
    && HasTag(tags, "l")
    && forall i :: 0 <= i < |PrefixesOf(tags)| ==> IsSelectorText(PrefixesOf(tags)[i])
  }

  /** The reason a record is refused for, given the names it repeats. */
  function Verdict(tags: seq<Tag>, malformed: seq<string>, duplicates: seq<string>): Option<Trouble> {
    var bad := FirstInvalid(PrefixesOf(tags));
    if !HasVersion(tags) then Some(NotBimi)
    else if malformed != [] then Some(TagWithoutValue(malformed[0]))
    else if duplicates != [] then Some(DuplicateTags(duplicates))
    else if !HasTag(tags, "l") then Some(NoLogo)
    else if bad.Some? then Some(BadPrefix(bad.value))
    else None
  }

  /** The names a list repeats, in the order of their first repetition. */
  function Duplicates(tags: seq<Tag>): (r: seq<string>)
    ensures forall name :: name in r <==> Repeated(tags, name)
    ensures forall i, j :: 0 <= i < j < |r| ==> r[i] != r[j]
  {
    if tags == [] then []
    else
      var n := |tags| - 1;
      var before := Duplicates(tags[..n]);
      assert forall name :: Repeated(tags, name) <==> Repeated(tags[..n], name) || (tags[n].name == name && HasTag(tags[..n], name)) by {
        DuplicatesStep(tags);
      }
      if HasTag(tags[..n], tags[n].name) && tags[n].name !in before then before + [tags[n].name] else before
  }

  lemma DuplicatesStep(tags: seq<Tag>)
    requires tags != []
    ensures var n := |tags| - 1;
            forall name :: Repeated(tags, name) <==> Repeated(tags[..n], name) || (tags[n].name == name && HasTag(tags[..n], name))
  {
  }

  /** The record a text spells, found for a domain and selector. */
  function Read(domain: string, selector: string, text: string): Record {
    var tags := Tags(text);
    var trouble := Verdict(tags, MalformedTags(text), Duplicates(tags));
    Record(selector, selector, domain, domain, text,
           FirstValue(tags, "l"), FirstValue(tags, "a"), HasTag(tags, "lps"), PrefixesOf(tags), FirstValue(tags, "avp"),
           trouble.None?, trouble)
  }

  /** A record is valid exactly when it is well formed. */
  lemma ValidExactly(domain: string, selector: string, text: string)
    ensures Read(domain, selector, text).valid <==> WellFormed(text)
  {
    hide Tags, MalformedTags, Duplicates, PrefixesOf, HasTag, DistinctNames, AllTags;
    var tags := Tags(text);
    MalformedExactly(text);
    DuplicatesExactly(tags);
  }

  lemma MalformedExactly(text: string)
    ensures MalformedTags(text) == [] <==> AllTags(text)
  {
    MalformedInNone(Split(text, ';'));
  }

  lemma {:induction false} DuplicatesExactly(tags: seq<Tag>)
    ensures Duplicates(tags) == [] <==> DistinctNames(tags)
  {
    hide Duplicates;
    if !DistinctNames(tags) {
      var i, j :| 0 <= i < j < |tags| && tags[i].name == tags[j].name;
      assert Repeated(tags, tags[i].name);
    }
    if Duplicates(tags) != [] {
      assert Repeated(tags, Duplicates(tags)[0]);
    }
  }

  /** Reads the tags one by one, keeping the first value of each name. */
  method ParseRecord(domain: string, selector: string, text: string) returns (rec: Record)
    ensures rec == Read(domain, selector, text)
  {
    hide Tags, MalformedTags, Prefixes, FirstInvalid, Split, FirstValue, HasTag, Duplicates;
    var tags, malformed := SplitTagList(text);
    var seen: set<string>, duplicates: seq<string> := {}, [];
    var logo, vmc, avatar, lps, prefixes := "", "", "", false, [];
    NoTagsYet();
    assert tags[..0] == [];
    for i := 0 to |tags|
      invariant forall name :: name in seen <==> HasTag(tags[..i], name)
      invariant duplicates == Duplicates(tags[..i])
      invariant logo == FirstValue(tags[..i], "l") && vmc == FirstValue(tags[..i], "a")
      invariant avatar == FirstValue(tags[..i], "avp")
      invariant lps == HasTag(tags[..i], "lps") && prefixes == PrefixesOf(tags[..i])
    {
      var t := tags[i];
      TagStep(tags, i);
      if t.name in seen {
        if t.name !in duplicates {
          duplicates := duplicates + [t.name];
        }
        continue;
      }
      seen := seen + {t.name};
      if t.name == "l" {
        logo := t.value;
      } else if t.name == "a" {
        vmc := t.value;
      } else if t.name == "lps" {
        lps := true;
        prefixes := ParseLocalPartPrefixes(t.value);
      } else if t.name == "avp" {
        avatar := t.value;
      }
    }
    assert tags[..|tags|] == tags;
    var bad := FirstInvalid(prefixes);
    var trouble := None;
    if !HasVersion(tags) {
      trouble := Some(NotBimi);
    } else if |malformed| > 0 {
      trouble := Some(TagWithoutValue(malformed[0]));
    } else if |duplicates| > 0 {
      trouble := Some(DuplicateTags(duplicates));
    } else if "l" !in seen {
      trouble := Some(NoLogo);
    } else if bad.Some? {
      trouble := Some(BadPrefix(bad.value));
    }
    rec := Record(selector, selector, domain, domain, text, logo, vmc, lps, prefixes, avatar, trouble.None?, trouble);
  }

  lemma NoTagsYet()
    ensures forall name :: !HasTag([], name) && FirstValue([], name) == ""
    ensures PrefixesOf([]) == [] && Duplicates([]) == []
  {
  }

  /** What one more tag changes: the first of its name sets the value, a later one repeats it. */
  lemma TagStep(tags: seq<Tag>, i: nat)
    requires i < |tags|
    ensures forall name :: HasTag(tags[..i + 1], name) <==> HasTag(tags[..i], name) || tags[i].name == name
    ensures forall name :: FirstValue(tags[..i + 1], name) ==
              if HasTag(tags[..i], name) then FirstValue(tags[..i], name) else if tags[i].name == name then tags[i].value else ""
    ensures forall name :: !HasTag(tags[..i], name) ==> FirstValue(tags[..i], name) == ""
    ensures Duplicates(tags[..i + 1]) ==
              if HasTag(tags[..i], tags[i].name) && tags[i].name !in Duplicates(tags[..i])
              then Duplicates(tags[..i]) + [tags[i].name] else Duplicates(tags[..i])
  {
    hide HasTag, FirstValue;
    assert tags[..i + 1] == tags[..i] + [tags[i]] && tags[..i + 1][..i] == tags[..i];
    forall name
      ensures HasTag(tags[..i + 1], name) <==> HasTag(tags[..i], name) || tags[i].name == name
      ensures FirstValue(tags[..i + 1], name) ==
                if HasTag(tags[..i], name) then FirstValue(tags[..i], name) else if tags[i].name == name then tags[i].value else ""
      ensures !HasTag(tags[..i], name) ==> FirstValue(tags[..i], name) == ""
    {
      FirstValueSnoc(tags[..i], tags[i], name);
      if !HasTag(tags[..i], name) {
        FirstValueAbsent(tags[..i], name);
      }
    }
  }

  lemma {:induction false} FirstValueAbsent(tags: seq<Tag>, name: string)
    requires !HasTag(tags, name)
    ensures FirstValue(tags, name) == ""
  {
    if tags != [] {
      HasTagCons(tags, name);
      FirstValueAbsent(tags[1..], name);
    }
  }
}
