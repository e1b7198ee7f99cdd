/** BIMI records: a list of "name=value" tags, and what makes a record valid. */
module BimiRecord {
  import opened Text

  datatype Tag = Tag(name: string, value: string)

  // ---------------------------------------------------------------- the tag list

  /** What one part between semicolons is: nothing, a tag, or text without an equals sign. */
  datatype Part = Blank | Pair(tag: Tag) | Malformed(text: string)

  function ReadPart(spec: string): Part {
    if TrimSpace(spec) == "" then Blank
    else
      var h := Cut(spec, '=');
      if h.found then Pair(Tag(TrimSpace(h.before), TrimSpace(h.after))) else Malformed(TrimSpace(spec))
  }

  function TagsIn(parts: seq<string>): seq<Tag> {
    if parts == [] then []
    else
      var n := |parts| - 1;
      var part := ReadPart(parts[n]);
      TagsIn(parts[..n]) + if part.Pair? then [part.tag] else []
  }

  function MalformedIn(parts: seq<string>): seq<string> {
    if parts == [] then []
    else
      var n := |parts| - 1;
      var part := ReadPart(parts[n]);
      MalformedIn(parts[..n]) + if part.Malformed? then [part.text] else []
  }

  /** The tags of a record, in order. */
  function Tags(record: string): seq<Tag> {
    TagsIn(Split(record, ';'))
  }

  /** The parts of a record that are no tag. */
  function MalformedTags(record: string): seq<string> {
    MalformedIn(Split(record, ';'))
  }

  method SplitTagList(record: string) returns (tags: seq<Tag>, malformed: seq<string>)
    ensures tags == Tags(record) && malformed == MalformedTags(record)
  {
    hide TrimSpace, Cut, Split;
    var parts := Split(record, ';');
    tags, malformed := [], [];
    for i := 0 to |parts|
      invariant tags == TagsIn(parts[..i]) && malformed == MalformedIn(parts[..i])
    {
      assert parts[..i + 1][..i] == parts[..i];
      if TrimSpace(parts[i]) == "" {
        continue;
      }
      var h := Cut(parts[i], '=');
      if !h.found {
        malformed := malformed + [TrimSpace(parts[i])];
        continue;
      }
      tags := tags + [Tag(TrimSpace(h.before), TrimSpace(h.after))];
    }
    assert parts[..|parts|] == parts;
  }

  /** Every part of the record that is not blank has an equals sign. */
  predicate AllTags(record: string) {
    var parts := Split(record, ';');
    forall i :: 0 <= i < |parts| ==> AllSpace(parts[i]) || '=' in parts[i]
  }

  lemma {:induction false} MalformedInNone(parts: seq<string>)
    ensures MalformedIn(parts) == [] <==> forall i :: 0 <= i < |parts| ==> AllSpace(parts[i]) || '=' in parts[i]
  {
    hide Cut, TrimSpace;
    if parts != [] {
      var n := |parts| - 1;
      MalformedInNone(parts[..n]);
      assert forall i :: 0 <= i < n ==> parts[..n][i] == parts[i];
    }
  }

  // ---------------------------------------------------------------- printing a tag list

  /** A tag the syntax can carry: no separator in it and no blanks around its halves. */
  predicate Printable(t: Tag) {
    '=' !in t.name && ';' !in t.name && ';' !in t.value && Trimmed(t.name) && Trimmed(t.value)
  }

  function PrintTag(t: Tag): string {
    t.name + "=" + t.value
  }

  function PrintAll(tags: seq<Tag>): (parts: seq<string>)
    ensures |parts| == |tags| && forall i :: 0 <= i < |tags| ==> parts[i] == PrintTag(tags[i])
  {
    seq(|tags|, i requires 0 <= i < |tags| => PrintTag(tags[i]))
  }

  function Print(tags: seq<Tag>): string {
    Join(PrintAll(tags), ";")
  }

  lemma NotBlank(s: string, i: nat)
    requires i < |s| && !IsSpace(s[i])
    ensures !AllSpace(s)
  {
  }

  /** The folding white space allowed around a name and a value is no part of them. */
  lemma FoldingIgnored(t: Tag, a: string, b: string, c: string, d: string)
    requires Printable(t) && AllSpace(a) && AllSpace(b) && AllSpace(c) && AllSpace(d)
    ensures ReadPart(a + t.name + b + "=" + (c + t.value + d)) == Pair(t)
  {
    hide TrimSpace, Cut;
    var left, right := a + t.name + b, c + t.value + d;
    var spec := left + "=" + right;
    assert '=' !in left by {
      assert forall i :: 0 <= i < |a| ==> IsSpace(a[i]);
      assert forall i :: 0 <= i < |b| ==> IsSpace(b[i]);
    }
    CutAt(left, '=', right);
    assert left + ['='] + right == spec && spec[|left|] == '=';
    NotBlank(spec, |left|);
    TrimPadded(a, t.name, b);
    TrimPadded(c, t.value, d);
  }

  lemma PrintedPart(t: Tag)
    requires Printable(t)
    ensures ReadPart(PrintTag(t)) == Pair(t)
  {
    hide ReadPart;
    FoldingIgnored(t, "", "", "", "");
    assert "" + t.name + "" + "=" + ("" + t.value + "") == PrintTag(t);
  }

  lemma {:induction false} PrintedParts(tags: seq<Tag>)
    requires forall i :: 0 <= i < |tags| ==> Printable(tags[i])
    ensures TagsIn(PrintAll(tags)) == tags && MalformedIn(PrintAll(tags)) == []
    decreases |tags|
  {
    hide ReadPart, Printable;
    if tags != [] {
      var n := |tags| - 1;
      PrintedParts(tags[..n]);
      PrintedPart(tags[n]);
      assert PrintAll(tags)[..n] == PrintAll(tags[..n]);
      assert tags == tags[..n] + [tags[n]];
    }
  }

  /** Reading a printed tag list gives the list back, and nothing malformed. */
  lemma SplitInvertsPrint(tags: seq<Tag>)
    requires forall i :: 0 <= i < |tags| ==> Printable(tags[i])
    ensures Tags(Print(tags)) == tags && MalformedTags(Print(tags)) == []
  {
    hide Split, TagsIn, MalformedIn;
    if tags == [] {
      PrintNothing();
    } else {
      var parts := PrintAll(tags);
      forall i | 0 <= i < |parts|
        ensures ';' !in parts[i]
      {
        assert Printable(tags[i]);
      }
      SplitJoin(parts, ';');
      PrintedParts(tags);
    }
  }

  lemma PrintNothing()
    ensures Print([]) == "" && Tags("") == [] && MalformedTags("") == []
  {
  }

  // ---------------------------------------------------------------- tags by name

  predicate HasTag(tags: seq<Tag>, name: string) {
    exists i :: 0 <= i < |tags| && tags[i].name == name
  }

  /** The value of the first tag with this name, "" without one. */
  function FirstValue(tags: seq<Tag>, name: string): string {
    if tags == [] then "" else if tags[0].name == name then tags[0].value else FirstValue(tags[1..], name)
  }

  predicate DistinctNames(tags: seq<Tag>) {
    forall i, j :: 0 <= i < j < |tags| ==> tags[i].name != tags[j].name
  }

  /** The name belongs to two tags at least. */
  predicate Repeated(tags: seq<Tag>, name: string) {
    exists i, j :: 0 <= i < j < |tags| && tags[i].name == name && tags[j].name == name
  }

  lemma {:induction false} FirstValueSnoc(tags: seq<Tag>, t: Tag, name: string)
    ensures HasTag(tags + [t], name) <==> HasTag(tags, name) || t.name == name
    ensures FirstValue(tags + [t], name) ==
              if HasTag(tags, name) then FirstValue(tags, name) else if t.name == name then t.value else ""
  {
    var all := tags + [t];
    assert forall i :: 0 <= i < |tags| ==> all[i] == tags[i];
    assert all[|tags|] == t;
    if tags == [] {
      assert all[1..] == [];
    } else {
      assert all[1..] == tags[1..] + [t];
      FirstValueSnoc(tags[1..], t, name);
      HasTagCons(tags, name);
    }
  }

  lemma HasTagCons(tags: seq<Tag>, name: string)
    requires tags != []
    ensures HasTag(tags, name) <==> tags[0].name == name || HasTag(tags[1..], name)
  {
  }

}
