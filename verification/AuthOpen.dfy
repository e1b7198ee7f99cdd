/** The liberties the grammar takes: a method may be written with blanks around the characters
    that bind its words, with values bare or quoted, and in any case. */
module AuthOpen {
  import opened Basics
  import opened Text
  import opened AuthScan
  import opened AuthParse
  import opened AuthRoundTrip

  // ---------------------------------------------------------------- gluing groups of words

  function Concat(words: seq<Word>): string {
    if words == [] then "" else Concat(words[..|words| - 1]) + words[|words| - 1].text
  }

  /** Words each of which binds to the next. */
  predicate Bound(words: seq<Word>) {
    forall i :: 0 < i < |words| ==> Binds(words[i - 1], words[i])
  }

  /** A group of bound words that nothing before it binds to is one item. */
  lemma {:induction false} GlueGroup(before: seq<Word>, group: seq<Word>)
    requires group != [] && Bound(group)
    requires before != [] ==> !Binds(before[|before| - 1], group[0])
    ensures Glue(before + group) == Glue(before) + [Concat(group)]
    decreases |group|
  {
    hide Binds, Glue, Concat;
    var all, n := before + group, |group| - 1;
    GlueSnoc(all, |all| - 1);
    assert all[..|all|] == all && all[..|all| - 1] == before + group[..n];
    ConcatSnoc(group);
    if n == 0 {
      assert before + group[..0] == before;
      assert "" + group[0].text == group[0].text;
      assert before != [] ==> all[|all| - 2] == before[|before| - 1];
    } else {
      GlueGroup(before, group[..n]);
      assert all[|all| - 2] == group[n - 1] && all[|all| - 1] == group[n];
      assert Bound(group[..n]) && Binds(group[n - 1], group[n]);
      var items := Glue(before + group[..n]);
      assert items[|items| - 1 := items[|items| - 1] + group[n].text] == Glue(before) + [Concat(group)];
    }
  }

  lemma ConcatSnoc(words: seq<Word>)
    requires words != []
    ensures Concat(words) == (if |words| == 1 then "" else Concat(words[..|words| - 1])) + words[|words| - 1].text
  {
    assert |words| == 1 ==> words[..0] == [];
  }

  // ---------------------------------------------------------------- an item written openly

  /** A clause "key=value" and the words it is written as. */
  datatype Item = Item(words: seq<Spelled>, key: string, value: string)

  function TextOf(item: Item): string {
    item.key + "=" + item.value
  }

  /** Where a word begins in the text of its item. */
  function Offset(item: Item, j: nat): nat
    requires j <= |item.words|
  {
    |Concat(AllRead(item.words[..j]))|
  }

  /** A text that still waits for a word: a key, or the front of one. */
  predicate Waits(text: string) {
    text != "" &&
    var n := |text| - 1;
    if text[n] == '=' then '=' !in text[..n] else text[n] in {'.', '/'} && '=' !in text
  }

  /** A text that opens a property: a key with a dot in it, and an equals sign. */
  predicate OpensProperty(text: string) {
    exists e :: 0 <= e < |text| && text[e] == '=' && '=' !in text[..e] && '.' in text[..e]
  }

  /** The item is broken into words next to a character that binds them, none of them after its
      equals sign but right behind it; and a value that stands alone is not taken for a key. */
  ghost predicate IsOpen(item: Item) {
    var ws, t, e := item.words, TextOf(item), |item.key|;
    && Spellable(ws) && Concat(AllRead(ws)) == t
    && item.key != "" && item.key[0] !in {'=', '.', '/'} && '=' !in item.key && Trimmed(item.value)
    && (forall j :: 0 <= j < |ws| - 1 ==> ws[j].Bare?)
    && (forall j :: 0 < j < |ws| ==>
          && 0 < Offset(item, j) <= e + 1
          && (t[Offset(item, j) - 1] in {'=', '.', '/'} || t[Offset(item, j)] in {'=', '.', '/'}))
    && var last := ws[|ws| - 1];
       if Offset(item, |ws| - 1) <= e then last.Valued? || item.value != ""
       else !OpensProperty(item.value) && (last.Valued? || !Waits(item.value))
  }

  /** An item in five words: both characters of "ptype.name=value", or of "name/version=result",
      with blanks on either side, the value bare or quoted. */
  function Apart(left: string, op: char, right: string, value: string, quoted: bool): Item {
    Item([Bare(left), Bare([op]), Bare(right), Bare("="), if quoted then Valued("", value) else Bare(value)],
         left + [op] + right, value)
  }

  lemma ApartIsOpen(left: string, op: char, right: string, value: string, quoted: bool)
    requires op in {'.', '/'} && IsToken(left) && IsToken(right) && '=' !in left && '=' !in right
    requires left[0] !in {'.', '/'} && Trimmed(value) && !OpensProperty(value)
    requires quoted || (IsToken(value) && !Waits(value))
    ensures IsOpen(Apart(left, op, right, value, quoted))
  {
    hide OpensProperty, Waits, IsToken, Offset, Trimmed, Concat, AllRead;
    var item := Apart(left, op, right, value, quoted);
    TokenFilled(left);
    ApartOffsets(left, op, right, value, quoted);
    OpIsToken(op);
    assert forall j :: 0 <= j < 5 ==> CanSpell(item.words[j]);
    assert TextOf(item)[|left|] == op && TextOf(item)[|left| + 1 + |right|] == '=';
  }

  lemma OpIsToken(op: char)
    requires op in {'.', '/', '='}
    ensures IsToken([op]) && IsToken("=")
  {
  }

  lemma TokenFilled(s: string)
    requires IsToken(s)
    ensures s != ""
  {
  }

  lemma ApartOffsets(left: string, op: char, right: string, value: string, quoted: bool)
    requires left != "" && op in {'.', '/'}
    ensures var item := Apart(left, op, right, value, quoted);
            && Concat(AllRead(item.words)) == TextOf(item)
            && Offset(item, 1) == |left| && Offset(item, 2) == |left| + 1 && Offset(item, 3) == |left| + 1 + |right|
            && Offset(item, 4) == |item.key| + 1
  {
    hide Concat;
    var item := Apart(left, op, right, value, quoted);
    ConcatFive(item.words);
    assert "" + value == value;
    assert left + [op] + right + "=" + value == TextOf(item);
  }

  lemma ConcatFive(ws: seq<Spelled>)
    requires |ws| == 5
    ensures Concat(AllRead(ws[..1])) == AsRead(ws[0]).text
    ensures Concat(AllRead(ws[..2])) == AsRead(ws[0]).text + AsRead(ws[1]).text
    ensures Concat(AllRead(ws[..3])) == AsRead(ws[0]).text + AsRead(ws[1]).text + AsRead(ws[2]).text
    ensures Concat(AllRead(ws[..4])) == AsRead(ws[0]).text + AsRead(ws[1]).text + AsRead(ws[2]).text + AsRead(ws[3]).text
    ensures Concat(AllRead(ws)) == AsRead(ws[0]).text + AsRead(ws[1]).text + AsRead(ws[2]).text + AsRead(ws[3]).text + AsRead(ws[4]).text
  {
    hide AsRead, Concat;
    ConcatStep(ws, 0);
    ConcatStep(ws, 1);
    ConcatStep(ws, 2);
    ConcatStep(ws, 3);
    ConcatStep(ws, 4);
    assert ws[..5] == ws;
  }

  lemma ConcatStep(ws: seq<Spelled>, j: nat)
    requires j < |ws|
    ensures Concat(AllRead(ws[..j + 1])) == (if j == 0 then "" else Concat(AllRead(ws[..j]))) + AsRead(ws[j]).text
  {
    hide AsRead;
    assert AllRead(ws[..j + 1])[..j] == AllRead(ws[..j]);
    ConcatSnoc(AllRead(ws[..j + 1]));
  }

  // ---------------------------------------------------------------- an item read as one

  lemma {:induction false} ConcatPrefix(words: seq<Word>, j: nat)
    requires j <= |words|
    ensures Concat(words[..j]) <= Concat(words)
    decreases |words|
  {
    if j < |words| {
      assert words[..|words| - 1][..j] == words[..j];
      ConcatPrefix(words[..|words| - 1], j);
    } else {
      assert words[..j] == words;
    }
  }

  /** The text of a word stands in the text of its item where the word begins. */
  lemma WordAt(item: Item, j: nat)
    requires IsOpen(item) && j < |item.words|
    ensures var t, w := TextOf(item), AsRead(item.words[j]).text;
            && Offset(item, j + 1) == Offset(item, j) + |w| <= |t|
            && w == t[Offset(item, j)..Offset(item, j + 1)]
    ensures Offset(item, 0) == 0 && Offset(item, |item.words|) == |TextOf(item)|
  {
    hide Concat, AsRead, Spellable, Waits, OpensProperty, AllRead;
    OffsetEnds(item);
    WordInside(item.words, j);
  }

  lemma OffsetEnds(item: Item)
    ensures Offset(item, 0) == 0 && Offset(item, |item.words|) == |Concat(AllRead(item.words))|
  {
    assert item.words[..|item.words|] == item.words;
  }

  lemma WordInside(ws: seq<Spelled>, j: nat)
    requires j < |ws|
    ensures var t, w := Concat(AllRead(ws)), AsRead(ws[j]).text;
            var from, to := Concat(AllRead(ws[..j])), Concat(AllRead(ws[..j + 1]));
            to == from + w && to <= t
  {
    hide Concat, AsRead;
    var words := AllRead(ws);
    assert AllRead(ws[..j]) == words[..j] && AllRead(ws[..j + 1]) == words[..j + 1];
    assert words[..j + 1][..j] == words[..j];
    ConcatSnoc(words[..j + 1]);
    ConcatNothing();
    ConcatPrefix(words, j + 1);
    assert j == 0 ==> words[..j] == [];
  }

  lemma ConcatNothing()
    ensures Concat([]) == ""
  {
  }

  lemma WordFilled(w: Spelled)
    requires CanSpell(w) && w.Bare?
    ensures AsRead(w).text != "" && !AsRead(w).quoted && AsRead(w).text == w.text
  {
  }

  /** A word behind the equals sign is the last, and is the value. */
  lemma ValueAlone(item: Item, j: nat)
    requires IsOpen(item) && 0 < j < |item.words| && Offset(item, j) == |item.key| + 1
    ensures j == |item.words| - 1 && AsRead(item.words[j]).text == item.value
  {
    hide Offset, AsRead, Waits, OpensProperty, Concat;
    WordAt(item, j);
    if j < |item.words| - 1 {
      WordFilled(item.words[j]);
    }
  }

  lemma StartsExactly(w: Word)
    ensures StartsProperty(w) <==> OpensProperty(w.text)
  {
    var t := w.text;
    if OpensProperty(t) {
      var e :| 0 <= e < |t| && t[e] == '=' && '=' !in t[..e] && '.' in t[..e];
      CutPlace(t, '=', e);
    }
    if StartsProperty(w) {
      var e := |Cut(t, '=').before|;
      assert t[e] == '=' && t[..e] == Cut(t, '=').before;
    }
  }

  lemma WaitsExactly(text: string)
    ensures Waits(text) <==> exists next :: BindsToNext(Word(text, false), next)
    ensures forall next :: BindsToNext(Word(text, false), next) ==> Waits(text)
    ensures Waits(text) ==> forall next :: !StartsProperty(next) ==> BindsToNext(Word(text, false), next)
  {
    if Waits(text) {
      var n := |text| - 1;
      assert !StartsProperty(Word("", false));
      assert BindsToNext(Word(text, false), Word("", false));
    }
    forall next | BindsToNext(Word(text, false), next)
      ensures Waits(text)
    {
      var n := |text| - 1;
      if text[n] == '=' {
        assert Find(text, '=') == n;
      }
    }
  }

  /** Each word of an item binds to the next. */
  lemma ItemBound(item: Item)
    requires IsOpen(item)
    ensures Bound(AllRead(item.words))
  {
    hide Offset, AsRead, Waits, OpensProperty, Concat, Binds;
    forall j | 0 < j < |item.words|
      ensures Binds(AsRead(item.words[j - 1]), AsRead(item.words[j]))
    {
      WordsBind(item, j);
    }
  }

  lemma WordsBind(item: Item, j: nat)
    requires IsOpen(item) && 0 < j < |item.words|
    ensures Binds(AsRead(item.words[j - 1]), AsRead(item.words[j]))
  {
    hide Offset, AsRead, BindsToNext, BindsToPrevious, Spellable, Concat, Waits, OpensProperty;
    if TextOf(item)[Offset(item, j) - 1] in {'=', '.', '/'} {
      BindsForward(item, j);
    } else {
      BindsBack(item, j);
    }
  }

  lemma BindsBack(item: Item, j: nat)
    requires IsOpen(item) && 0 < j < |item.words|
    requires Offset(item, j) < |TextOf(item)| && TextOf(item)[Offset(item, j)] in {'=', '.', '/'}
    ensures BindsToPrevious(AsRead(item.words[j]))
  {
    hide Offset, AsRead, Spellable, Concat, Waits, OpensProperty;
    WordAt(item, j);
    if AsRead(item.words[j]).text == "" {
      EmptyIsLast(item, j);
    }
  }

  lemma BindsForward(item: Item, j: nat)
    requires IsOpen(item) && 0 < j < |item.words|
    requires TextOf(item)[Offset(item, j) - 1] in {'=', '.', '/'}
    ensures BindsToNext(AsRead(item.words[j - 1]), AsRead(item.words[j]))
  {
    hide Offset, AsRead, Concat, BindsToNext, StartsProperty, Waits, OpensProperty, AllRead;
    var a, b := AsRead(item.words[j - 1]), AsRead(item.words[j]);
    WordAt(item, j - 1);
    WordFilled(item.words[j - 1]);
    FrontWaits(item, Offset(item, j - 1), Offset(item, j));
    WaitsExactly(a.text);
    StartsExactly(b);
    assert a == Word(a.text, false);
    if Offset(item, j) == |item.key| + 1 {
      ValueAlone(item, j);
    } else {
      KeyWaits(item, Offset(item, j - 1), Offset(item, j), b);
    }
  }

  /** A piece of the key, its equals sign perhaps included, that ends on a binding character. */
  lemma FrontWaits(item: Item, from: nat, to: nat)
    requires IsOpen(item) && from < to <= |item.key| + 1 && TextOf(item)[to - 1] in {'=', '.', '/'}
    ensures Waits(TextOf(item)[from..to])
  {
    hide Offset, Spellable, Concat, OpensProperty, AllRead, Trimmed;
    var t, text := TextOf(item), TextOf(item)[from..to];
    assert forall k :: from <= k < to && k < |item.key| ==> text[k - from] == item.key[k] && item.key[k] != '=';
  }

  lemma KeyWaits(item: Item, from: nat, to: nat, next: Word)
    requires IsOpen(item) && from < to <= |item.key| && TextOf(item)[to - 1] in {'=', '.', '/'}
    ensures BindsToNext(Word(TextOf(item)[from..to], false), next)
  {
    hide Offset, Spellable, Concat, OpensProperty, AllRead, Trimmed, StartsProperty;
    var text := TextOf(item)[from..to];
    assert forall k :: from <= k < to ==> text[k - from] == item.key[k] && item.key[k] != '=';
  }

  lemma EmptyIsLast(item: Item, j: nat)
    requires IsOpen(item) && j < |item.words| && AsRead(item.words[j]).text == ""
    ensures j == |item.words| - 1 && Offset(item, j) == |TextOf(item)|
  {
    hide Offset, AsRead, Waits, OpensProperty, Concat;
    WordAt(item, j);
    if item.words[j].Bare? {
      WordFilled(item.words[j]);
    }
  }

  // ---------------------------------------------------------------- items one after the other

  /** The last word of an item waits for nothing. */
  lemma ItemCloses(item: Item, next: Word)
    requires IsOpen(item)
    ensures !BindsToNext(AsRead(item.words[|item.words| - 1]), next)
  {
    hide Offset, Concat, BindsToNext, StartsProperty, OpensProperty, AllRead;
    var n := |item.words| - 1;
    var w := AsRead(item.words[n]);
    WordAt(item, n);
    QuotedCloses(w, next);
    if !w.quoted {
      assert w == Word(w.text, false);
      WaitsExactly(w.text);
      if n > 0 && Offset(item, n) == |item.key| + 1 {
        ValueAlone(item, n);
        assert !Waits(item.value);
      } else {
        ValueCarried(item, Offset(item, n));
        assert w.text == TextOf(item)[Offset(item, n)..];
      }
    }
  }

  lemma QuotedCloses(w: Word, next: Word)
    ensures w.quoted ==> !BindsToNext(w, next)
  {
  }

  lemma ValueCarried(item: Item, from: nat)
    requires from <= |item.key| && item.value != ""
    ensures !Waits(TextOf(item)[from..])
  {
    var text := TextOf(item)[from..];
    assert text[|item.key| - from] == '=' && |item.key| - from < |text| - 1;
    assert text[..|text| - 1][|item.key| - from] == '=';
  }

  /** The first word of an item binds to nothing before it. */
  lemma ItemOpens(item: Item)
    requires IsOpen(item)
    ensures !BindsToPrevious(AsRead(item.words[0]))
  {
    hide Offset, Concat, OpensProperty, AllRead, AsRead, Waits;
    WordAt(item, 0);
  }

  function WordsOf(items: seq<Item>): seq<Spelled> {
    if items == [] then [] else WordsOf(items[..|items| - 1]) + items[|items| - 1].words
  }

  function TextsOf(items: seq<Item>): (r: seq<string>)
    ensures |r| == |items| && forall i :: 0 <= i < |items| ==> r[i] == TextOf(items[i])
  {
    seq(|items|, i requires 0 <= i < |items| => TextOf(items[i]))
  }

  ghost predicate AllOpen(items: seq<Item>) {
    forall i :: 0 <= i < |items| ==> IsOpen(items[i])
  }

  predicate EndsWith(ws: seq<Spelled>, last: seq<Spelled>) {
    last != [] && |ws| >= |last| && ws[|ws| - 1] == last[|last| - 1]
  }

  lemma {:induction false} OpenSpellable(items: seq<Item>)
    requires AllOpen(items) && items != []
    ensures Spellable(WordsOf(items)) && EndsWith(WordsOf(items), items[|items| - 1].words)
    decreases |items|
  {
    hide IsOpen, CanSpell;
    var n := |items| - 1;
    OpenWords(items[n]);
    if n > 0 {
      OpenSpellable(items[..n]);
    } else {
      assert items[..0] == [] && WordsOf(items) == [] + items[0].words == items[0].words;
    }
  }

  /** However its items are broken into words, a list of items is glued back into them. */
  lemma {:induction false} GlueOpen(items: seq<Item>)
    requires AllOpen(items)
    ensures Glue(AllRead(WordsOf(items))) == TextsOf(items)
    decreases |items|
  {
    hide Glue, IsOpen, AsRead, Binds, TextOf, Spellable, WordsOf;
    if items == [] {
      GlueNothing();
    } else {
      var n := |items| - 1;
      var before, item := WordsOf(items[..n]), items[n];
      GlueOpen(items[..n]);
      OpenWords(item);
      WordsSnoc(items);
      ItemBound(item);
      if n > 0 {
        OpenSpellable(items[..n]);
        ItemsApart(items[n - 1], item);
        assert items[..n][n - 1] == items[n - 1];
        assert AllRead(before)[|before| - 1] == AsRead(items[n - 1].words[|items[n - 1].words| - 1]);
      } else {
        GlueNothing();
        assert items[..0] == [];
      }
      GlueGroup(AllRead(before), AllRead(item.words));
      assert TextsOf(items) == TextsOf(items[..n]) + [TextOf(item)];
    }
  }

  lemma WordsSnoc(items: seq<Item>)
    requires items != []
    ensures var n := |items| - 1;
            AllRead(WordsOf(items)) == AllRead(WordsOf(items[..n])) + AllRead(items[n].words)
  {
    hide AllRead;
    var n := |items| - 1;
    ReadConcat(WordsOf(items[..n]), items[n].words);
  }

  lemma ReadConcat(a: seq<Spelled>, b: seq<Spelled>)
    ensures AllRead(a + b) == AllRead(a) + AllRead(b)
  {
    hide AsRead;
  }

  lemma GlueNothing()
    ensures Glue([]) == [] && WordsOf([]) == [] && AllRead([]) == []
  {
  }

  lemma OpenWords(item: Item)
    requires IsOpen(item)
    ensures item.words != [] && Spellable(item.words) && Concat(AllRead(item.words)) == TextOf(item)
  {
    hide Concat, Offset;
  }

  lemma ItemsApart(item: Item, next: Item)
    requires IsOpen(item) && IsOpen(next)
    ensures item.words != [] && next.words != []
    ensures !Binds(AsRead(item.words[|item.words| - 1]), AsRead(next.words[0]))
  {
    hide IsOpen, BindsToNext, BindsToPrevious, AsRead;
    OpenWords(item);
    OpenWords(next);
    ItemCloses(item, AsRead(next.words[0]));
    ItemOpens(next);
  }

  // ---------------------------------------------------------------- a method written openly

  predicate IsDigits(s: string) {
    s != "" && forall i :: 0 <= i < |s| ==> '0' <= s[i] <= '9'
  }

  /** The items of a method: its methodspec, its reason if it gives one, its properties in order,
      keys and result in any case. */
  ghost predicate SpellsMethod(items: seq<Item>, m: Method) {
    && items != [] && AllOpen(items)
    && SpellsSpec(items[0], m)
    && var rest := items[1..];
       if rest != [] && Lower(rest[0].key) == "reason" then rest[0].value == m.reason && SpellsAll(rest[1..], m.properties)
       else m.reason == "" && SpellsAll(rest, m.properties)
  }

  ghost predicate SpellsSpec(item: Item, m: Method) {
    && m.name != "" && Trimmed(m.name) && '/' !in m.name && Lower(item.value) == m.result
    && (m.version == "" || IsDigits(m.version))
    && Lower(item.key) == m.name + if m.version == "" then "" else "/" + m.version
  }

  ghost predicate SpellsAll(items: seq<Item>, ps: seq<Property>) {
    |items| == |ps| && forall i :: 0 <= i < |items| ==> SpellsProperty(items[i], ps[i])
  }

  ghost predicate SpellsProperty(item: Item, p: Property) {
    && p.name != "" && '.' !in p.ptype && item.value == p.value && Trimmed(item.key)
    && Lower(item.key) == (if p.ptype == "" then p.name else p.ptype + "." + p.name)
    && (p.ptype == "" ==> '.' !in p.name && p.name != "reason")
  }

  lemma ItemCut(item: Item)
    requires IsOpen(item)
    ensures Cut(TextOf(item), '=') == Halves(item.key, item.value, true)
    ensures TrimSpace(item.value) == item.value && '=' in TextOf(item)
  {
    hide Offset, Concat, OpensProperty, Waits, AllRead, Cut, TrimSpace;
    CutAt(item.key, '=', item.value);
    TrimFixed(item.value);
    assert TextOf(item)[|item.key|] == '=';
    assert item.key + ['='] + item.value == TextOf(item);
  }

  lemma LowerPlain(s: string)
    ensures Trimmed(Lower(s)) <==> Trimmed(s)
    ensures forall c :: c in {'/', '.', '='} ==> (c in Lower(s) <==> c in s)
    ensures forall i :: 0 <= i < |s| && '0' <= Lower(s)[i] <= '9' ==> s[i] == Lower(s)[i]
    ensures forall n :: 0 <= n <= |s| ==> Lower(s)[..n] == Lower(s[..n]) && Lower(s)[n..] == Lower(s[n..])
  {
    hide Lower;
    forall n | 0 <= n <= |s|
      ensures Lower(s)[..n] == Lower(s[..n]) && Lower(s)[n..] == Lower(s[n..])
    {
    }
  }

  lemma PropertyRead(item: Item, p: Property)
    requires IsOpen(item) && SpellsProperty(item, p)
    ensures ReadClause(TextOf(item)) == Prop(p)
  {
    hide IsOpen, TextOf, Cut, Lower, TrimSpace;
    ItemCut(item);
    TrimFixed(item.key);
    var key := Lower(item.key);
    if p.ptype == "" {
      CutNone(key, '.');
    } else {
      CutAt(p.ptype, '.', p.name);
      assert p.ptype + ['.'] + p.name == key;
      assert '.' in key && '.' !in "reason";
    }
  }

  lemma ReasonRead(item: Item)
    requires IsOpen(item) && Lower(item.key) == "reason"
    ensures ReadClause(TextOf(item)) == Reason(item.value)
  {
    hide IsOpen, TextOf, Cut, Lower, TrimSpace;
    ItemCut(item);
    LowerPlain(item.key);
    TrimFixed(item.key);
  }

  lemma {:induction false} PropertiesRead(before: seq<string>, items: seq<Item>, ps: seq<Property>)
    requires AllOpen(items) && SpellsAll(items, ps)
    ensures Clauses(before + TextsOf(items)) == (Clauses(before).0, Clauses(before).1 + ps)
    decreases |items|
  {
    hide IsOpen, SpellsProperty, ReadClause, TextOf;
    var all := before + TextsOf(items);
    if items == [] {
      assert all == before && Clauses(before).1 + ps == Clauses(before).1;
    } else {
      var n := |items| - 1;
      PropertiesRead(before, items[..n], ps[..n]);
      PropertyRead(items[n], ps[n]);
      assert all[..|all| - 1] == before + TextsOf(items[..n]) && all[|all| - 1] == TextOf(items[n]);
      assert Clauses(before).1 + ps[..n] + [ps[n]] == Clauses(before).1 + ps;
    }
  }

  lemma ClausesFew(item: string)
    ensures Clauses([]) == ("", [])
    ensures ReadClause(item).Reason? ==> Clauses([item]) == (ReadClause(item).value, [])
  {
    hide ReadClause;
    assert [item][..0] == [];
  }

  lemma ReasonFirst(item: Item, rest: seq<Item>, ps: seq<Property>)
    requires IsOpen(item) && Lower(item.key) == "reason" && AllOpen(rest) && SpellsAll(rest, ps)
    ensures Clauses([TextOf(item)] + TextsOf(rest)) == (item.value, ps)
  {
    hide IsOpen, SpellsAll, AllOpen, ReadClause, TextOf, Lower, Clauses;
    ReasonRead(item);
    ClausesFew(TextOf(item));
    PropertiesRead([TextOf(item)], rest, ps);
    assert [] + ps == ps;
  }

  lemma NoReason(rest: seq<Item>, ps: seq<Property>)
    requires AllOpen(rest) && SpellsAll(rest, ps)
    ensures Clauses(TextsOf(rest)) == ("", ps)
  {
    hide IsOpen, SpellsAll, AllOpen, ReadClause, TextOf, Clauses;
    ClausesFew("");
    PropertiesRead([], rest, ps);
    assert [] + TextsOf(rest) == TextsOf(rest) && [] + ps == ps;
  }

  lemma ClausesRead(items: seq<Item>, m: Method)
    requires SpellsMethod(items, m)
    ensures Clauses(TextsOf(items)[1..]) == (m.reason, m.properties)
  {
    hide IsOpen, SpellsAll, SpellsSpec, TextOf, Lower, Clauses;
    var rest := items[1..];
    assert TextsOf(items)[1..] == TextsOf(rest);
    if rest != [] && Lower(rest[0].key) == "reason" {
      assert TextsOf(rest) == [TextOf(rest[0])] + TextsOf(rest[1..]);
      ReasonFirst(rest[0], rest[1..], m.properties);
    } else {
      NoReason(rest, m.properties);
    }
  }

  lemma KeyParts(key: string, name: string, version: string)
    requires Lower(key) == name + "/" + version && '/' !in name && IsDigits(version)
    ensures var n := |name|;
            && n < |key| && key[n] == '/' && '/' !in key[..n] && Lower(key[..n]) == name && key[n + 1..] == version
  {
    hide Lower;
    var n := |name|;
    LowerPlain(key);
    assert Lower(key)[n] == '/' && Lower(key)[..n] == name && Lower(key)[n + 1..] == version;
    forall i | 0 <= i < |version|
      ensures key[n + 1 + i] == version[i]
    {
      assert Lower(key)[n + 1 + i] == version[i];
    }
    LowerPlain(key[..n]);
  }

  lemma SpecRead(item: Item, m: Method)
    requires IsOpen(item) && SpellsSpec(item, m)
    ensures CutVersion(item.key) == (m.name, m.version)
  {
    hide IsOpen, Cut, Lower, TrimSpace;
    var key, n := item.key, |m.name|;
    if m.version == "" {
      assert Lower(key) == m.name;
      LowerPlain(key);
      CutNone(key, '/');
      TrimFixed(key);
    } else {
      KeyParts(key, m.name, m.version);
      LowerPlain(key[..n]);
      CutPlace(key, '/', n);
      TrimFixed(key[..n]);
      TrimFixed(m.version);
    }
  }

  /** A method written openly is read as the method it is: its words may be broken around every
      character that binds them, its values bare or quoted, its keys and its result in any case. */
  lemma MethodOpen(items: seq<Item>, m: Method, written: Segment)
    requires SpellsMethod(items, m)
    ensures ReadMethod(Glue(AllRead(WordsOf(items))), written) == Some(m.(comments := written.comments, raw := written.raw))
  {
    hide IsOpen, TextOf, Cut, Lower, TrimSpace, SpellsAll, Glue, AllRead, WordsOf, Clauses, CutVersion;
    GlueOpen(items);
    ItemCut(items[0]);
    SpecRead(items[0], m);
    ClausesRead(items, m);
  }

  // ---------------------------------------------------------------- a field written openly

  /** A line of a field, between two semicolons: "none" in any case, or a method. */
  datatype Line = NoneLine(word: string) | MethodLine(items: seq<Item>, said: Method)

  ghost predicate IsLine(l: Line) {
    match l
    case NoneLine(word) => Lower(word) == "none"
    case MethodLine(items, m) => SpellsMethod(items, m)
  }

  function LineWords(l: Line): seq<Spelled> {
    match l
    case NoneLine(word) => [Bare(word)]
    case MethodLine(items, _) => WordsOf(items)
  }

  /** The methods of some lines, with the text each was written as. */
  ghost function MethodsIn(lines: seq<Line>): seq<Method>
    requires forall i :: 0 <= i < |lines| ==> LineWords(lines[i]) != []
  {
    if lines == [] then []
    else
      var n := |lines| - 1;
      var l := lines[n];
      MethodsIn(lines[..n]) + if l.NoneLine? then [] else [l.said.(comments := [], raw := SpellAll(LineWords(l)))]
  }

  predicate HasNone(lines: seq<Line>) {
    exists i :: 0 <= i < |lines| && lines[i].NoneLine?
  }

  lemma LineSpellable(l: Line)
    requires IsLine(l)
    ensures Spellable(LineWords(l))
  {
    hide IsOpen, SpellsSpec, SpellsAll, WordsOf, Spellable;
    if l.MethodLine? {
      OpenSpellable(l.items);
    } else {
      NoneIsToken(l.word);
    }
  }

  lemma NoneIsToken(word: string)
    requires Lower(word) == "none"
    ensures Spellable([Bare(word)]) && Glue(AllRead([Bare(word)])) == [word]
  {
    hide Lower, Glue;
    forall i | 0 <= i < |word|
      ensures IsTokenChar(word[i])
    {
      assert Lower(word)[i] in {'n', 'o', 'e'};
    }
    GlueApart(AllRead([Bare(word)]));
  }

  lemma LineRead(l: Line)
    requires IsLine(l)
    ensures LineWords(l) != []
    ensures var segment := AsSegment(LineWords(l));
            if l.NoneLine? then SaysNone(segment)
            else !SaysNone(segment)
                 && ReadMethod(Glue(segment.words), segment) == Some(l.said.(comments := [], raw := SpellAll(LineWords(l))))
  {
    hide IsOpen, SpellsSpec, SpellsAll, WordsOf, Glue, AllRead, ReadMethod, Spellable, TextOf, Lower;
    LineSpellable(l);
    SpellableSome(LineWords(l));
    AsSegmentWords(LineWords(l));
    match l
    case NoneLine(word) =>
      NoneIsToken(word);
    case MethodLine(items, m) =>
      MethodOpen(items, m, AsSegment(LineWords(l)));
      GlueOpen(items);
      ItemCut(items[0]);
      NotNone(TextOf(items[0]));
  }

  lemma SpellableSome(ws: seq<Spelled>)
    requires Spellable(ws)
    ensures ws != []
  {
  }

  lemma {:induction false} LinesRead(lines: seq<Line>, segments: seq<Segment>)
    requires |segments| == |lines|
    requires forall i :: 0 <= i < |lines| ==> IsLine(lines[i]) && LineWords(lines[i]) != [] && segments[i] == AsSegment(LineWords(lines[i]))
    ensures MethodsOf(segments) == MethodsIn(lines)
    ensures AnyNone(segments) <==> HasNone(lines)
    decreases |lines|
  {
    hide Glue, SaysNone, ReadMethod, IsLine, AsSegment, LineWords, AnyNone;
    if lines == [] {
      NoMethods(segments);
    } else {
      var n := |lines| - 1;
      LinesRead(lines[..n], segments[..n]);
      LineRead(lines[n]);
      AnyNoneSnoc(segments);
      assert HasNone(lines) <==> HasNone(lines[..n]) || lines[n].NoneLine? by {
        assert forall i :: 0 <= i < n ==> lines[..n][i] == lines[i];
      }
    }
  }

  function AllWords(lines: seq<Line>): (r: seq<seq<Spelled>>)
    ensures |r| == |lines| && forall i :: 0 <= i < |lines| ==> r[i] == LineWords(lines[i])
  {
    seq(|lines|, i requires 0 <= i < |lines| => LineWords(lines[i]))
  }

  /** The words of a field: those of its identifier and version, then those of its lines. */
  function FieldWords(id: string, version: string, lines: seq<Line>): seq<seq<Spelled>> {
    [SpellHead(Header(id, version, false, []))] + AllWords(lines)
  }

  lemma FieldScanned(id: string, version: string, lines: seq<Line>)
    requires IsToken(id) && (version == "" || IsNumber(version))
    requires forall i :: 0 <= i < |lines| ==> IsLine(lines[i]) && LineWords(lines[i]) != []
    ensures var words := FieldWords(id, version, lines);
            var segments := Scan(SpellField(words));
            && |segments| == |words| && segments[0] == AsSegment(words[0])
            && forall i :: 0 <= i < |lines| ==> segments[1..][i] == AsSegment(LineWords(lines[i]))
  {
    hide Scan, AsSegment, SpellHead, SpellField, IsLine, LineWords, Spellable, IsToken, IsNumber;
    var words := FieldWords(id, version, lines);
    HeadSpellable(id, version);
    forall i | 0 <= i < |words|
      ensures Spellable(words[i])
    {
      if i > 0 {
        LineSpellable(lines[i - 1]);
      }
    }
    FieldRead(words, "");
    assert "" + SpellField(words) == SpellField(words);
  }

  lemma HeadSpellable(id: string, version: string)
    requires IsToken(id) && (version == "" || IsNumber(version))
    ensures Spellable(SpellHead(Header(id, version, false, [])))
  {
    hide Spellable, SpellHead, IsToken, IsNumber;
    HeadReread(Header(id, version, false, []));
  }

  /** A field written openly is read as the header it spells: the identifier and its version,
      whether a line says none, and every method, in order. */
  lemma FieldOpen(id: string, version: string, lines: seq<Line>)
    requires IsToken(id) && (version == "" || (IsNumber(version) && !SwallowsVersion(id)))
    requires forall i :: 0 <= i < |lines| ==> IsLine(lines[i]) && LineWords(lines[i]) != []
    ensures Parse(SpellField(FieldWords(id, version, lines))) == Some(Header(id, version, HasNone(lines), MethodsIn(lines)))
  {
    hide Scan, AsSegment, Glue, SpellHead, MethodsOf, AnyNone, SwallowsVersion, SpellField, IsLine, LineWords, HasNone, IsToken;
    hide MethodsIn, Spellable;
    var h := Header(id, version, false, []);
    HeadReread(h);
    AsSegmentWords(SpellHead(h));
    FieldScanned(id, version, lines);
    LinesRead(lines, Scan(SpellField(FieldWords(id, version, lines)))[1..]);
  }
}
