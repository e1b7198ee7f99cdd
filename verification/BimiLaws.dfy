/** What a BIMI record says field by field, which selector a local-part gives, and what
    discovery answers, case by case. */
module BimiLaws {
  import opened Basics
  import opened Text
  import opened BimiRecord
  import opened LocalPart
  import opened BimiParse

  // ---------------------------------------------------------------- the tag list, part by part

  lemma {:induction false} TagsInConcat(a: seq<string>, b: seq<string>)
    ensures TagsIn(a + b) == TagsIn(a) + TagsIn(b) && MalformedIn(a + b) == MalformedIn(a) + MalformedIn(b)
    decreases |b|
  {
    hide ReadPart;
    if b == [] {
      assert a + b == a;
    } else {
      var n := |b| - 1;
      assert (a + b)[..|a + b| - 1] == a + b[..n];
      TagsInConcat(a, b[..n]);
    }
  }

  lemma {:induction false} JoinConcat(a: seq<string>, b: seq<string>, sep: string)
    requires a != [] && b != []
    ensures Join(a + b, sep) == Join(a, sep) + sep + Join(b, sep)
    decreases |a|
  {
    assert (a + b)[1..] == a[1..] + b;
    if |a| > 1 {
      JoinConcat(a[1..], b, sep);
    } else {
      assert a + b == [a[0]] + b;
    }
  }

  lemma SplitConcat(a: string, b: string, sep: char)
    ensures Split(a + [sep] + b, sep) == Split(a, sep) + Split(b, sep)
  {
    hide Split;
    JoinConcat(Split(a, sep), Split(b, sep), [sep]);
    SplitJoin(Split(a, sep) + Split(b, sep), sep);
  }

  /** Two records joined by a semicolon hold the tags of the one, then those of the other. */
  lemma RecordsJoined(a: string, b: string)
    ensures Tags(a + ";" + b) == Tags(a) + Tags(b)
    ensures MalformedTags(a + ";" + b) == MalformedTags(a) + MalformedTags(b)
  {
    hide Split, TagsIn, MalformedIn;
    SplitConcat(a, b, ';');
    TagsInConcat(Split(a, ';'), Split(b, ';'));
  }

  lemma {:induction false} SplitAlone(s: string, sep: char)
    requires sep !in s
    ensures Split(s, sep) == [s]
  {
    SplitJoin([s], sep);
  }

  /** A part is the tag its first equals sign makes of it, malformed when it has none, and
      nothing when it is blank. */
  lemma OnePart(part: string, j: nat)
    requires ';' !in part
    ensures j < |part| && part[j] == '=' && '=' !in part[..j] ==>
              Tags(part) == [Tag(TrimSpace(part[..j]), TrimSpace(part[j + 1..]))] && MalformedTags(part) == []
    ensures '=' !in part ==> Tags(part) == [] && MalformedTags(part) == if AllSpace(part) then [] else [TrimSpace(part)]
  {
    hide Split, TrimSpace, Cut;
    SplitAlone(part, ';');
    assert [part][..0] == [] && TagsIn([]) == [] && MalformedIn([]) == [];
    if j < |part| && part[j] == '=' && '=' !in part[..j] {
      CutPlace(part, '=', j);
      NotBlank(part, j);
    }
  }

  // ---------------------------------------------------------------- the record, field by field

  predicate IsFirst(tags: seq<Tag>, i: int) {
    0 <= i < |tags| && forall j :: 0 <= j < i ==> tags[j].name != tags[i].name
  }

  lemma {:induction false} FirstValueAt(tags: seq<Tag>, i: int)
    requires IsFirst(tags, i)
    ensures FirstValue(tags, tags[i].name) == tags[i].value && HasTag(tags, tags[i].name)
    decreases |tags|
  {
    if i > 0 {
      assert tags[0].name != tags[i].name;
      assert forall j :: 0 <= j < i - 1 ==> tags[1..][j] == tags[j + 1];
      FirstValueAt(tags[1..], i - 1);
    }
  }

  /** The prefixes a value lists: none when it is blank, else its parts between commas, trimmed. */
  predicate ListsPrefixes(value: string, prefixes: seq<string>) {
    if AllSpace(value) then prefixes == []
    else
      var parts := Split(value, ',');
      |prefixes| == |parts| && forall i :: 0 <= i < |parts| ==> prefixes[i] == TrimSpace(parts[i])
  }

  /** The first tag of each of four names sets a field of its own. */
  lemma FieldsRead(domain: string, selector: string, text: string, i: int)
    requires IsFirst(Tags(text), i)
    ensures var t, r := Tags(text)[i], Read(domain, selector, text);
            && (t.name == "l" ==> r.logoUrl == t.value)
            && (t.name == "a" ==> r.vmcUrl == t.value)
            && (t.name == "avp" ==> r.avatar == t.value)
            && (t.name == "lps" ==> r.hasPrefixes && ListsPrefixes(t.value, r.prefixes))
  {
    hide Tags, Verdict, TrimSpace, Split;
    FirstValueAt(Tags(text), i);
  }

  /** A field whose tag is missing is empty; the others are those of the request. */
  lemma FieldsAbsent(domain: string, selector: string, text: string)
    ensures var tags, r := Tags(text), Read(domain, selector, text);
            && r.selector == selector && r.requestedSelector == selector
            && r.domain == domain && r.recordDomain == domain && r.text == text
            && (NoTag(tags, "l") ==> r.logoUrl == "")
            && (NoTag(tags, "a") ==> r.vmcUrl == "")
            && (NoTag(tags, "avp") ==> r.avatar == "")
            && (NoTag(tags, "lps") ==> !r.hasPrefixes && r.prefixes == [])
  {
    hide Tags, Verdict, FirstValue;
    var tags := Tags(text);
    forall name | NoTag(tags, name)
      ensures FirstValue(tags, name) == "" && !HasTag(tags, name)
    {
      FirstValueAbsent(tags, name);
    }
  }

  predicate NoTag(tags: seq<Tag>, name: string) {
    forall i :: 0 <= i < |tags| ==> tags[i].name != name
  }

  predicate OpensOnVersion(tags: seq<Tag>) {
    tags != [] && tags[0].name == "v" && tags[0].value == "BIMI1"
  }

  /** What is wrong with a record, in the order in which it is looked for. */
  lemma TroubleExactly(domain: string, selector: string, text: string)
    ensures var tags, malformed, r := Tags(text), MalformedTags(text), Read(domain, selector, text);
            && (r.trouble == Some(NotBimi) <==> !OpensOnVersion(tags))
            && (OpensOnVersion(tags) && malformed != [] ==> r.trouble == Some(TagWithoutValue(malformed[0])))
            && (OpensOnVersion(tags) && malformed == [] && Duplicates(tags) != [] ==> r.trouble == Some(DuplicateTags(Duplicates(tags))))
            && (OpensOnVersion(tags) && malformed == [] && DistinctNames(tags) ==>
                  && (r.trouble == Some(NoLogo) <==> NoTag(tags, "l"))
                  && (r.trouble.Some? && r.trouble != Some(NoLogo) ==> BadPrefixAt(r.prefixes, r.trouble)))
            && (r.trouble == None ==> forall i :: 0 <= i < |r.prefixes| ==> IsPrefixText(r.prefixes[i]))
  {
    hide Tags, MalformedTags, Duplicates, Prefixes, FirstInvalid;
    DuplicatesExactly(Tags(text));
  }

  /** The trouble is the first prefix that is not one of 1 to 63 letters, digits or dashes. */
  predicate BadPrefixAt(prefixes: seq<string>, trouble: Option<Trouble>) {
    exists i :: 0 <= i < |prefixes| && trouble == Some(BadPrefix(prefixes[i])) && !IsPrefixText(prefixes[i])
      && forall j :: 0 <= j < i ==> IsPrefixText(prefixes[j])
  }

  predicate IsPrefixText(s: string) {
    1 <= |s| <= 63 && forall i :: 0 <= i < |s| ==>
      s[i] == '-' || '0' <= s[i] <= '9' || 'A' <= s[i] <= 'Z' || 'a' <= s[i] <= 'z'
  }

  /** The names a longer list repeats are those a shorter one does, then others. */
  lemma {:induction false} DuplicatesGrow(tags: seq<Tag>, n: nat)
    requires n <= |tags|
    ensures Duplicates(tags[..n]) <= Duplicates(tags)
    decreases |tags|
  {
    hide HasTag;
    if n < |tags| {
      assert tags[..|tags| - 1][..n] == tags[..n];
      DuplicatesGrow(tags[..|tags| - 1], n);
    } else {
      assert tags[..n] == tags;
    }
  }

  // ---------------------------------------------------------------- the selector, word by word

  /** The text with each of the three dash characters written as a dash. */
  function Dashed(s: string): (r: string)
    ensures |r| == |s|
    ensures forall i :: 0 <= i < |s| ==> r[i] == if s[i] in {'-', '.', '_'} then '-' else s[i]
  {
    seq(|s|, i requires 0 <= i < |s| => if s[i] in {'-', '.', '_'} then '-' else s[i])
  }

  function NonEmpty(parts: seq<string>): seq<string> {
    if parts == [] then []
    else NonEmpty(parts[..|parts| - 1]) + if parts[|parts| - 1] == "" then [] else [parts[|parts| - 1]]
  }

  /** The words of a text: what its dashes, however written, separate. */
  function WordsOf(s: string): seq<string> {
    NonEmpty(Split(Dashed(s), '-'))
  }

  /** One more character lengthens the last part, or opens one when it is the separator. */
  lemma SplitSnoc(s: string, sep: char, c: char)
    ensures var parts := Split(s, sep);
            Split(s + [c], sep) == if c == sep then parts + [""] else parts[..|parts| - 1] + [parts[|parts| - 1] + [c]]
  {
    hide Split;
    var parts := Split(s, sep);
    var n := |parts| - 1;
    if c == sep {
      SplitAlone("", sep);
      SplitConcat(s, "", sep);
      assert s + [sep] + "" == s + [c];
    } else {
      var longer := parts[..n] + [parts[n] + [c]];
      assert parts == parts[..n] + [parts[n]];
      if n > 0 {
        JoinConcat(parts[..n], [parts[n]], [sep]);
        JoinConcat(parts[..n], [parts[n] + [c]], [sep]);
      }
      assert Join(longer, [sep]) == s + [c];
      SplitJoin(longer, sep);
    }
  }

  lemma {:induction false} NonEmptyWords(parts: seq<string>, sep: char)
    requires forall i :: 0 <= i < |parts| ==> sep !in parts[i]
    ensures forall i :: 0 <= i < |NonEmpty(parts)| ==> NonEmpty(parts)[i] != "" && sep !in NonEmpty(parts)[i]
    decreases |parts|
  {
    if parts != [] {
      NonEmptyWords(parts[..|parts| - 1], sep);
    }
  }

  lemma {:induction false} JoinEnds(words: seq<string>, sep: string)
    requires words != [] && words[|words| - 1] != ""
    ensures Join(words, sep) != "" && Join(words, sep)[|Join(words, sep)| - 1] == words[|words| - 1][|words[|words| - 1]| - 1]
    decreases |words|
  {
    if |words| > 1 {
      JoinEnds(words[1..], sep);
    }
  }

  /** What folding makes of some parts: the words among them joined by dashes, and a dash more
      when a word came before an empty last part. */
  function Folding(parts: seq<string>): string
    requires parts != []
  {
    Join(NonEmpty(parts), "-") + if NonEmpty(parts) != [] && parts[|parts| - 1] == "" then "-" else ""
  }

  lemma {:induction false} FoldedWords(s: string)
    ensures Fold(s) == Folding(Split(Dashed(s), '-'))
    decreases |s|
  {
    hide Split, Fold, Folding;
    if s == "" {
      FoldNothing();
    } else {
      var n := |s| - 1;
      FoldedWords(s[..n]);
      FoldStep(s);
      var c := Dashed(s)[n];
      assert Dashed(s) == Dashed(s[..n]) + [c];
      SplitSnoc(Dashed(s[..n]), '-', c);
      var parts := Split(Dashed(s[..n]), '-');
      if c == '-' {
        FoldDash(parts);
      } else {
        FoldLetter(parts, c);
      }
    }
  }

  lemma FoldNothing()
    ensures Fold("") == Folding(Split(Dashed(""), '-'))
  {
    SplitAlone("", '-');
    assert Dashed("") == "" && [""][..0] == [];
  }

  lemma FoldStep(s: string)
    requires s != ""
    ensures var n := |s| - 1;
            var b, c := Fold(s[..n]), Dashed(s)[n];
            Fold(s) == if c == '-' && (b == "" || b[|b| - 1] == '-') then b else b + [c]
  {
  }

  lemma NonEmptySnoc(parts: seq<string>, part: string)
    ensures NonEmpty(parts + [part]) == if part == "" then NonEmpty(parts) else NonEmpty(parts) + [part]
  {
    assert (parts + [part])[..|parts|] == parts;
    assert NonEmpty(parts) + [] == NonEmpty(parts);
  }

  lemma FoldDash(parts: seq<string>)
    requires parts != [] && forall i :: 0 <= i < |parts| ==> '-' !in parts[i]
    ensures var b := Folding(parts);
            Folding(parts + [""]) == if b == "" || b[|b| - 1] == '-' then b else b + "-"
  {
    hide Join, NonEmpty;
    var words := NonEmpty(parts);
    NonEmptySnoc(parts, "");
    NonEmptyWords(parts, '-');
    JoinFew([], "");
    if words != [] {
      JoinEnds(words, "-");
      assert words[|words| - 1] != "" && '-' !in words[|words| - 1];
      assert Join(words, "-") + "" == Join(words, "-");
    }
  }

  lemma FoldLetter(parts: seq<string>, c: char)
    requires parts != [] && c != '-'
    ensures Folding(parts[..|parts| - 1] + [parts[|parts| - 1] + [c]]) == Folding(parts) + [c]
  {
    hide Join, NonEmpty;
    var n := |parts| - 1;
    var before, last := NonEmpty(parts[..n]), parts[n];
    assert parts == parts[..n] + [last];
    NonEmptySnoc(parts[..n], last);
    NonEmptySnoc(parts[..n], last + [c]);
    JoinFew(before, last);
    JoinFew(before, last + [c]);
    assert last == "" ==> last + [c] == [c];
    assert Join(before, "-") + "-" + last + [c] == Join(before, "-") + "-" + (last + [c]);
  }

  lemma JoinFew(before: seq<string>, word: string)
    ensures Join([], "-") == ""
    ensures Join(before + [word], "-") == if before == [] then word else Join(before, "-") + "-" + word
  {
    if before == [] {
      assert before + [word] == [word];
    } else {
      JoinConcat(before, [word], "-");
    }
  }

  /** The selector of a local-part: the words of its mailbox, in lower case, a dash between two
      of them, when that makes 1 to 63 letters, digits and dashes; none otherwise. */
  lemma SelectorExactly(localPart: string)
    ensures var selector := Join(WordsOf(localPart[..Find(localPart, '+')]), "-");
            Normalize(localPart) == if IsPrefixText(selector) then Some(Lower(selector)) else None
  {
    hide Fold, Split, Join, Lower, NonEmpty;
    JoinFew([], "");
    var mailbox := localPart[..Find(localPart, '+')];
    var words := WordsOf(mailbox);
    FoldedWords(mailbox);
    NonEmptyWords(Split(Dashed(mailbox), '-'), '-');
    if words != [] {
      JoinEnds(words, "-");
      assert words[|words| - 1] != "" && '-' !in words[|words| - 1];
    }
    assert TrimDash(Fold(mailbox)) == Join(words, "-");
  }
}
