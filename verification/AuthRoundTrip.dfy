/** Writing a header down and reading it back gives the same header. */
module AuthRoundTrip {
  import opened Basics
  import opened Text
  import opened AuthScan
  import opened AuthParse
  import opened AuthSegments
  import opened AuthComments

  // ---------------------------------------------------------------- writing words

  /** A word as spelled in a field: bare text, and possibly a quoted string after it. */
  datatype Spelled = Bare(text: string) | Valued(text: string, value: string)

  predicate IsTokenChar(c: char) {
    !IsSpace(c) && c != '(' && c != '"' && c != ';'
  }

  predicate IsToken(s: string) {
    s != "" && forall i :: 0 <= i < |s| ==> IsTokenChar(s[i])
  }

  function Escape(v: string): string {
    if v == "" then ""
    else if v[0] == '"' || v[0] == '\\' then ['\\', v[0]] + Escape(v[1..])
    else [v[0]] + Escape(v[1..])
  }

  function Quote(v: string): string {
    "\"" + Escape(v) + "\""
  }

  function Spell(w: Spelled): string {
    if w.Bare? then w.text else w.text + Quote(w.value)
  }

  function AsRead(w: Spelled): Word {
    if w.Bare? then Word(w.text, false) else Word(w.text + w.value, true)
  }

  /** The words of one segment, a blank between two of them. */
  function SpellAll(ws: seq<Spelled>): string
    requires ws != []
  {
    if |ws| == 1 then Spell(ws[0]) else Spell(ws[0]) + " " + SpellAll(ws[1..])
  }

  function AllRead(ws: seq<Spelled>): (r: seq<Word>)
    ensures |r| == |ws|
    ensures forall i :: 0 <= i < |ws| ==> r[i] == AsRead(ws[i])
  {
    seq(|ws|, i requires 0 <= i < |ws| => AsRead(ws[i]))
  }

  /** A word holds no blank outside its quotes, and something unless it is quoted. */
  predicate CanSpell(w: Spelled) {
    IsToken(w.text) || (w.Valued? && w.text == "")
  }

  predicate Spellable(ws: seq<Spelled>) {
    ws != [] && forall i :: 0 <= i < |ws| ==> CanSpell(ws[i])
  }

  // ---------------------------------------------------------------- reading words back

  lemma {:induction false} UntilEscaped(v: string, rest: string)
    ensures Until(Escape(v) + "\"" + rest, '"') == Stop(v, |Escape(v)|, true)
  {
    hide Until;
    var s := Escape(v) + "\"" + rest;
    if v == "" {
      UntilHere(s, '"');
    } else {
      UntilEscaped(v[1..], rest);
      var tail := Escape(v[1..]) + "\"" + rest;
      if v[0] == '"' || v[0] == '\\' {
        assert s == ['\\', v[0]] + tail && s[2..] == tail;
        UntilStep(s, '"');
        assert [v[0]] + v[1..] == v;
      } else {
        assert s == [v[0]] + tail && s[1..] == tail;
        UntilStep(s, '"');
        assert [v[0]] + v[1..] == v;
      }
    }
  }

  lemma QuotedRead(v: string, rest: string, c: Cursor)
    requires c.depth == 0
    ensures ScanFrom(Quote(v) + rest, c)
         == ScanFrom(rest, c.(read := c.read + v, quoted := true, raw := c.raw + Quote(v)))
  {
    hide ScanFrom, Escape, Until;
    var s := Quote(v) + rest;
    assert s[0] == '"' && s[1..] == Escape(v) + "\"" + rest;
    UntilEscaped(v, rest);
    ScanQuoted(s, c);
    var used := |Escape(v)| + 1;
    assert s[..1 + used] == Quote(v) && s[1 + used..] == rest;
  }

  lemma {:induction false} TokenRead(t: string, rest: string, c: Cursor)
    requires c.depth == 0 && forall i :: 0 <= i < |t| ==> IsTokenChar(t[i])
    ensures ScanFrom(t + rest, c) == ScanFrom(rest, c.(read := c.read + t, raw := c.raw + t))
  {
    hide ScanFrom;
    if t == "" {
      assert t + rest == rest && c.read + t == c.read && c.raw + t == c.raw;
    } else {
      var s := t + rest;
      assert s[0] == t[0] && s[1..] == t[1..] + rest;
      ScanPlain(s, c);
      TokenRead(t[1..], rest, PlainChar(c, t[0]));
      assert c.read + [t[0]] + t[1..] == c.read + t && c.raw + [t[0]] + t[1..] == c.raw + t;
    }
  }

  /** The cursor once a spelled word has been read and before it is ended. */
  function Loaded(c: Cursor, w: Spelled): Cursor {
    c.(read := AsRead(w).text, quoted := AsRead(w).quoted, raw := c.raw + Spell(w))
  }

  /** One spelled word leaves the cursor with the word read and not yet ended. */
  lemma WordRead(w: Spelled, rest: string, c: Cursor)
    requires c.depth == 0 && c.read == "" && !c.quoted && CanSpell(w)
    ensures ScanFrom(Spell(w) + rest, c) == ScanFrom(rest, Loaded(c, w))
  {
    hide ScanFrom, Quote;
    assert c.read + w.text == w.text;
    if w.Bare? {
      TokenRead(w.text, rest, c);
    } else {
      assert Spell(w) + rest == w.text + (Quote(w.value) + rest);
      TokenRead(w.text, Quote(w.value) + rest, c);
      QuotedRead(w.value, rest, c.(read := w.text, raw := c.raw + w.text));
      assert c.raw + w.text + Quote(w.value) == c.raw + Spell(w);
    }
  }

  lemma LoadedDepth(c: Cursor, w: Spelled)
    ensures Loaded(c, w).depth == c.depth
  {
  }

  lemma LoadedEnds(c: Cursor, w: Spelled)
    requires c.depth == 0 && CanSpell(w)
    ensures Finish(Loaded(c, w)) == Segment(c.words + [AsRead(w)], c.comments, TrimSpace(c.raw + Spell(w)))
    ensures PlainChar(Loaded(c, w), ' ')
         == c.(words := c.words + [AsRead(w)], read := "", quoted := false, raw := c.raw + Spell(w) + " ")
  {
    hide TrimSpace, Spell;
  }

  /** The words of a segment, up to the semicolon or the end of the field. */
  lemma {:induction false} WordsRead(ws: seq<Spelled>, rest: string, c: Cursor)
    requires c.depth == 0 && c.read == "" && !c.quoted && Spellable(ws)
    requires rest == "" || rest[0] == ';'
    ensures ScanFrom(SpellAll(ws) + rest, c)
         == [Segment(c.words + AllRead(ws), c.comments, TrimSpace(c.raw + SpellAll(ws)))]
            + (if rest == "" then [] else Scan(rest[1..]))
    decreases |ws|
  {
    hide ScanFrom, Spell, TrimSpace, PlainChar, Finish, AsRead;
    LoadedEnds(c, ws[0]);
    var c1 := Loaded(c, ws[0]);
    if |ws| == 1 {
      WordRead(ws[0], rest, c);
      assert AllRead(ws) == [AsRead(ws[0])];
      if rest == "" {
        ScanEmpty(c1);
      } else {
        ScanSemicolon(rest, c1);
      }
    } else {
      MoreWords(ws, rest, c);
    }
  }

  lemma SpellAllSteps(ws: seq<Spelled>)
    requires |ws| > 1
    ensures SpellAll(ws) == Spell(ws[0]) + " " + SpellAll(ws[1..])
    ensures AllRead(ws) == [AsRead(ws[0])] + AllRead(ws[1..])
  {
  }

  lemma {:induction false} MoreWords(ws: seq<Spelled>, rest: string, c: Cursor)
    requires c.depth == 0 && c.read == "" && !c.quoted && Spellable(ws) && |ws| > 1
    requires rest == "" || rest[0] == ';'
    ensures ScanFrom(SpellAll(ws) + rest, c)
         == [Segment(c.words + AllRead(ws), c.comments, TrimSpace(c.raw + SpellAll(ws)))]
            + (if rest == "" then [] else Scan(rest[1..]))
    decreases |ws|, 0
  {
    hide ScanFrom, Scan, Spell, SpellAll, AllRead, TrimSpace, PlainChar, Finish, AsRead, Loaded;
    SpellAllSteps(ws);
    var w, tail := AsRead(ws[0]), SpellAll(ws[1..]);
    var more := " " + (tail + rest);
    assert SpellAll(ws) + rest == Spell(ws[0]) + more;
    WordRead(ws[0], more, c);
    LoadedDepth(c, ws[0]);
    ScanPlain(more, Loaded(c, ws[0]));
    LoadedEnds(c, ws[0]);
    var c2 := PlainChar(Loaded(c, ws[0]), ' ');
    assert more[1..] == tail + rest;
    WordsRead(ws[1..], rest, c2);
    assert c.words + [w] + AllRead(ws[1..]) == c.words + AllRead(ws);
    assert c2.raw + tail == c.raw + SpellAll(ws);
  }

  lemma {:induction false} SpellAllEnds(ws: seq<Spelled>)
    requires Spellable(ws)
    ensures var s := SpellAll(ws); s != "" && Trimmed(s)
    decreases |ws|
  {
    hide Escape;
    var w := ws[0];
    assert CanSpell(w);
    if w.text != "" {
      assert IsTokenChar(w.text[0]) && IsTokenChar(w.text[|w.text| - 1]);
    }
    if |ws| > 1 {
      SpellAllEnds(ws[1..]);
    }
  }

  // ---------------------------------------------------------------- fields of spelled segments

  function SpellField(segments: seq<seq<Spelled>>): string
    requires segments != [] && forall i :: 0 <= i < |segments| ==> segments[i] != []
  {
    if |segments| == 1 then SpellAll(segments[0])
    else SpellAll(segments[0]) + "; " + SpellField(segments[1..])
  }

  function AsSegment(ws: seq<Spelled>): Segment
    requires ws != []
  {
    Segment(AllRead(ws), [], SpellAll(ws))
  }

  /** A field written segment by segment is scanned back into those segments. */
  lemma {:induction false} FieldRead(segments: seq<seq<Spelled>>, lead: string)
    requires segments != [] && forall i :: 0 <= i < |segments| ==> segments[i] != [] && Spellable(segments[i])
    requires lead == "" || lead == " "
    ensures Scan(lead + SpellField(segments))
         == seq(|segments|, i requires 0 <= i < |segments| => AsSegment(segments[i]))
    decreases |segments|
  {
    hide Scan, Spellable, SpellAll, AsSegment;
    var ws := segments[0];
    var rest := if |segments| == 1 then "" else "; " + SpellField(segments[1..]);
    assert lead + SpellField(segments) == lead + (SpellAll(ws) + rest);
    SegmentRead(ws, rest, lead);
    if |segments| > 1 {
      FieldRead(segments[1..], " ");
      assert rest[1..] == " " + SpellField(segments[1..]);
    }
  }

  lemma SegmentRead(ws: seq<Spelled>, rest: string, lead: string)
    requires ws != [] && Spellable(ws) && (lead == "" || lead == " ")
    requires rest == "" || rest[0] == ';'
    ensures Scan(lead + (SpellAll(ws) + rest)) == [AsSegment(ws)] + (if rest == "" then [] else Scan(rest[1..]))
  {
    hide ScanFrom, Scan, Spellable, SpellAll, AllRead, TrimSpace;
    LeadRead(lead, SpellAll(ws) + rest);
    WordsRead(ws, rest, FRESH.(raw := lead));
    SpellAllEnds(ws);
    TrimPadded(lead, SpellAll(ws), "");
    assert lead + SpellAll(ws) + "" == lead + SpellAll(ws);
    assert [] + AllRead(ws) == AllRead(ws);
  }

  lemma LeadRead(lead: string, s: string)
    requires lead == "" || lead == " "
    ensures Scan(lead + s) == ScanFrom(s, FRESH.(raw := lead))
  {
    hide ScanFrom;
    if lead == "" {
      assert lead + s == s;
    } else {
      assert (lead + s)[1..] == s;
      ScanPlain(lead + s, FRESH);
      assert "" + [' '] == " ";
    }
  }

  // ---------------------------------------------------------------- writing a header

  function KeyOf(p: Property): string {
    if p.ptype == "" then p.name else p.ptype + "." + p.name
  }

  function SpellProperties(ps: seq<Property>): (ws: seq<Spelled>)
    ensures |ws| == |ps|
    ensures forall i :: 0 <= i < |ps| ==> ws[i] == Valued(KeyOf(ps[i]) + "=", ps[i].value)
  {
    seq(|ps|, i requires 0 <= i < |ps| => Valued(KeyOf(ps[i]) + "=", ps[i].value))
  }

  /** The methodspec: the method, the version of itself it names, its result. */
  function MethodSpec(m: Method): string {
    m.name + (if m.version == "" then "" else "/" + m.version) + "=" + m.result
  }

  function SpellMethod(m: Method): (ws: seq<Spelled>)
    ensures ws != []
  {
    [Bare(MethodSpec(m))]
    + (if m.reason == "" then [] else [Valued("reason=", m.reason)])
    + SpellProperties(m.properties)
  }

  function SpellMethods(ms: seq<Method>): (r: seq<seq<Spelled>>)
    ensures |r| == |ms|
    ensures forall i :: 0 <= i < |ms| ==> r[i] == SpellMethod(ms[i])
  {
    seq(|ms|, i requires 0 <= i < |ms| => SpellMethod(ms[i]))
  }

  function SpellHead(h: Header): (ws: seq<Spelled>)
    ensures ws != []
  {
    [Bare(h.authservId)] + if h.version == "" then [] else [Bare(h.version)]
  }

  function SpellHeader(h: Header): (r: seq<seq<Spelled>>)
    ensures r != [] && forall i :: 0 <= i < |r| ==> r[i] != []
  {
    [SpellHead(h)] + (if h.none then [[Bare("none")]] else []) + SpellMethods(h.methods)
  }

  /** A header as a field: "id 1; none; dkim/1=pass reason=\"...\" header.d=\"...\"". */
  function Print(h: Header): string {
    SpellField(SpellHeader(h))
  }

  // ---------------------------------------------------------------- headers that can be written

  predicate IsLower(s: string) {
    Lower(s) == s
  }

  /** A property the field can name: a lower-case key that binds to nothing before it, that is
      not the reason clause, and a value with no blanks around it, empty or not. */
  predicate Writable(p: Property) {
    && IsToken(p.name) && IsLower(KeyOf(p)) && '=' !in KeyOf(p) && Trimmed(p.value)
    && (if p.ptype == "" then '.' !in p.name && p.name != "reason" && p.name[0] != '/'
        else IsToken(p.ptype) && '.' !in p.ptype && p.ptype[0] != '/')
  }

  predicate WritableMethod(m: Method) {
    && IsToken(m.name) && IsLower(m.name) && '=' !in m.name && '/' !in m.name
    && (m.version == "" || IsNumber(m.version))
    && IsToken(m.result) && IsLower(m.result)
    && Trimmed(m.reason)
    && forall i :: 0 <= i < |m.properties| ==> Writable(m.properties[i])
  }

  /** What reading back a written method gives: the method, with no comment and the text it
      was written as. */
  function Reread(m: Method): Method {
    m.(comments := [], raw := SpellAll(SpellMethod(m)))
  }

  function RereadAll(ms: seq<Method>): (r: seq<Method>)
    ensures |r| == |ms|
    ensures forall i :: 0 <= i < |ms| ==> r[i] == Reread(ms[i])
  {
    seq(|ms|, i requires 0 <= i < |ms| => Reread(ms[i]))
  }

  predicate WritableHeader(h: Header) {
    && IsToken(h.authservId)
    && (h.version == "" || IsNumber(h.version))
    && forall i :: 0 <= i < |h.methods| ==> WritableMethod(h.methods[i])
  }

  // ---------------------------------------------------------------- reading a header back

  function Texts(words: seq<Word>): (r: seq<string>)
    ensures |r| == |words| && forall i :: 0 <= i < |words| ==> r[i] == words[i].text
  {
    seq(|words|, i requires 0 <= i < |words| => words[i].text)
  }

  /** Words none of which binds to its neighbour are items of their own. */
  lemma {:induction false} GlueApart(words: seq<Word>)
    requires forall i :: 0 < i < |words| ==> !Binds(words[i - 1], words[i])
    ensures Glue(words) == Texts(words)
    decreases |words|
  {
    hide Binds;
    if words != [] {
      var n := |words| - 1;
      GlueApart(words[..n]);
      assert Texts(words) == Texts(words[..n]) + [words[n].text];
    }
  }

  lemma ReadProperty(p: Property)
    requires Writable(p)
    ensures ReadClause(KeyOf(p) + "=" + p.value) == Prop(p)
  {
    hide Cut, TrimSpace, Lower;
    var key := KeyOf(p);
    CutAt(key, '=', p.value);
    assert key + ['='] + p.value == key + "=" + p.value;
    KeyTrimmed(p);
    TrimFixed(key);
    TrimFixed(p.value);
    if p.ptype == "" {
      CutNone(key, '.');
    } else {
      CutAt(p.ptype, '.', p.name);
      assert p.ptype + ['.'] + p.name == key;
      assert '.' in key && '.' !in "reason";
    }
  }

  lemma CutNone(s: string, c: char)
    requires c !in s
    ensures Cut(s, c) == Halves(s, "", false)
  {
  }

  lemma KeyTrimmed(p: Property)
    requires Writable(p)
    ensures Trimmed(KeyOf(p))
  {
  }

  lemma ReadReason(reason: string)
    requires Trimmed(reason)
    ensures ReadClause("reason=" + reason) == Reason(reason)
  {
    hide Cut, TrimSpace;
    CutAt("reason", '=', reason);
    assert "reason" + ['='] + reason == "reason=" + reason;
    TrimFixed("reason");
    TrimFixed(reason);
    assert Lower("reason") == "reason";
  }

  /** The clauses of a written method, read from the texts of its words. */
  lemma {:induction false} ReadProperties(ps: seq<Property>, before: seq<string>, items: seq<string>)
    requires forall i :: 0 <= i < |ps| ==> Writable(ps[i])
    requires |items| == |ps| && forall i :: 0 <= i < |ps| ==> items[i] == KeyOf(ps[i]) + "=" + ps[i].value
    ensures Clauses(before + items) == (Clauses(before).0, Clauses(before).1 + ps)
    decreases |ps|
  {
    hide Writable, ReadClause, KeyOf;
    var all := before + items;
    if ps == [] {
      assert all == before && Clauses(before).1 + ps == Clauses(before).1;
    } else {
      var n := |ps| - 1;
      ReadProperties(ps[..n], before, items[..n]);
      ReadProperty(ps[n]);
      assert all[..|all| - 1] == before + items[..n] && all[|all| - 1] == items[n];
      assert Clauses(before).1 + ps[..n] + [ps[n]] == Clauses(before).1 + ps;
    }
  }

  function ReasonText(reason: string): seq<string> {
    if reason == "" then [] else ["reason=" + reason]
  }

  lemma ReasonAlone(before: seq<string>, reason: string)
    requires before == ReasonText(reason)
    requires ReadClause("reason=" + reason) == Reason(reason)
    ensures Clauses(before) == (reason, [])
  {
  }

  /** The texts of a written method's words: its methodspec, then its clauses. */
  lemma MethodTexts(m: Method)
    ensures Texts(AllRead(SpellMethod(m)))
         == [MethodSpec(m)] + ReasonText(m.reason) + Texts(AllRead(SpellProperties(m.properties)))
  {
  }

  lemma PropertyTexts(ps: seq<Property>)
    ensures var texts := Texts(AllRead(SpellProperties(ps)));
            |texts| == |ps| && forall i :: 0 <= i < |ps| ==> texts[i] == KeyOf(ps[i]) + "=" + ps[i].value
  {
  }

  lemma ReadClauses(m: Method)
    requires WritableMethod(m)
    ensures Clauses(Texts(AllRead(SpellMethod(m)))[1..]) == (m.reason, m.properties)
  {
    hide Writable, ReadClause, AllRead, AsRead, SpellMethod, SpellProperties, Texts, Clauses, IsToken, IsLower;
    hide Trimmed, ReasonText, MethodSpec, KeyOf;
    MethodTexts(m);
    PropertyTexts(m.properties);
    ReadReason(m.reason);
    ReasonAlone(ReasonText(m.reason), m.reason);
    var tail := Texts(AllRead(SpellProperties(m.properties)));
    ReadProperties(m.properties, ReasonText(m.reason), tail);
    assert Texts(AllRead(SpellMethod(m)))[1..] == ReasonText(m.reason) + tail;
    assert [] + m.properties == m.properties;
  }

  /** No word of a written method binds to its neighbour: every word but the first ends on a
      quoted string or carries its value, and none opens on a gluing character. */
  lemma MethodWordsApart(m: Method, i: nat)
    requires WritableMethod(m) && 0 < i < |SpellMethod(m)|
    ensures !Binds(AllRead(SpellMethod(m))[i - 1], AllRead(SpellMethod(m))[i])
  {
    hide AllRead, StartsProperty, KeyOf, MethodSpec, Writable;
    var ws := SpellMethod(m);
    var w, next := AsRead(ws[i - 1]), AsRead(ws[i]);
    assert !BindsToPrevious(next) by {
      if m.reason != "" && i == 1 {
        assert next.text[0] == 'r';
      } else {
        var p := m.properties[if m.reason == "" then i - 1 else i - 2];
        assert Writable(p) && next.text == KeyOf(p) + "=" + p.value;
        KeyOpens(p);
      }
    }
    if i == 1 {
      SpecFinished(m, next);
    }
  }

  lemma KeyOpens(p: Property)
    requires Writable(p)
    ensures KeyOf(p) != "" && !IsGlue(KeyOf(p)[0])
  {
  }

  lemma SpecFinished(m: Method, next: Word)
    requires WritableMethod(m)
    ensures !BindsToNext(Word(MethodSpec(m), false), next)
  {
    hide StartsProperty, IsNumber, IsToken;
    var spec := MethodSpec(m);
    var head := m.name + (if m.version == "" then "" else "/" + m.version);
    assert |m.result| > 0 by { TokenNonEmpty(m.result); }
    assert spec == head + ['='] + m.result && spec[|head|] == '=';
    assert Find(spec, '=') <= |head|;
  }

  lemma TokenNonEmpty(s: string)
    requires IsToken(s)
    ensures s != ""
  {
  }

  lemma SpecIsToken(m: Method)
    requires WritableMethod(m)
    ensures IsToken(MethodSpec(m)) && '=' !in m.name + (if m.version == "" then "" else "/" + m.version)
  {
  }

  lemma ReadSpec(m: Method)
    requires WritableMethod(m)
    ensures var h := Cut(MethodSpec(m), '=');
            h.found && CutVersion(h.before) == (m.name, m.version) && Lower(TrimSpace(h.after)) == m.result
  {
    hide TrimSpace, Cut, Lower, IsNumber, Writable, IsSpace;
    SpecIsToken(m);
    var v := if m.version == "" then "" else "/" + m.version;
    CutAt(m.name + v, '=', m.result);
    assert m.name + v + ['='] + m.result == MethodSpec(m);
    TokenTrimmed(m.result);
    TokenTrimmed(m.name);
    TrimFixed(m.result);
    TrimFixed(m.name);
    if m.version == "" {
      assert m.name + v == m.name;
      CutNone(m.name, '/');
    } else {
      CutAt(m.name, '/', m.version);
      assert m.name + ['/'] + m.version == m.name + v;
      NumberTrimmed(m.version);
      TrimFixed(m.version);
    }
  }

  lemma TokenTrimmed(s: string)
    requires IsToken(s)
    ensures Trimmed(s)
  {
  }

  lemma NumberTrimmed(s: string)
    requires IsNumber(s)
    ensures Trimmed(s) && IsToken(s)
  {
  }

  lemma MethodReread(m: Method)
    requires WritableMethod(m)
    ensures ReadMethod(Glue(AllRead(SpellMethod(m))), AsSegment(SpellMethod(m))) == Some(Reread(m))
    ensures !SaysNone(AsSegment(SpellMethod(m)))
  {
    hide Cut, CutVersion, Clauses, TrimSpace, Glue, SpellMethod, Spell, SpellAll, Lower, WritableMethod;
    var words := AllRead(SpellMethod(m));
    forall i | 0 < i < |words|
      ensures !Binds(words[i - 1], words[i])
    {
      MethodWordsApart(m, i);
    }
    GlueApart(words);
    ReadClauses(m);
    ReadSpec(m);
    SpecNamed(m);
    assert '=' in MethodSpec(m);
    NotNone(MethodSpec(m));
  }

  lemma SpecNamed(m: Method)
    requires WritableMethod(m)
    ensures m.name != "" && SpellMethod(m)[0] == Bare(MethodSpec(m))
  {
  }

  lemma NotNone(s: string)
    requires '=' in s
    ensures !EqualFold(s, "none")
  {
  }

  lemma {:induction false} MethodsReread(ms: seq<Method>, segments: seq<Segment>)
    requires |segments| == |ms|
    requires forall i :: 0 <= i < |ms| ==> WritableMethod(ms[i]) && segments[i] == AsSegment(SpellMethod(ms[i]))
    ensures MethodsOf(segments) == RereadAll(ms)
    ensures !AnyNone(segments)
    decreases |ms|
  {
    hide Glue, SaysNone, ReadMethod, WritableMethod, AsSegment, Reread, SpellMethod, AllRead, RereadAll, AnyNone;
    if ms == [] {
      NoMethods(segments);
    } else {
      var n := |ms| - 1;
      MethodsReread(ms[..n], segments[..n]);
      MethodReread(ms[n]);
      AsSegmentWords(SpellMethod(ms[n]));
      AnyNoneSnoc(segments);
      assert RereadAll(ms) == RereadAll(ms[..n]) + [Reread(ms[n])];
    }
  }

  lemma NoMethods(segments: seq<Segment>)
    requires segments == []
    ensures MethodsOf(segments) == RereadAll([]) && !AnyNone(segments)
  {
  }

  lemma AsSegmentWords(ws: seq<Spelled>)
    requires ws != []
    ensures AsSegment(ws).words == AllRead(ws)
  {
  }

  lemma MethodSpellable(m: Method)
    requires WritableMethod(m)
    ensures Spellable(SpellMethod(m))
  {
    hide IsLower, KeyOf, IsToken, Writable;
    assert IsToken("reason=") by { ReasonIsToken(); }
    var ws := SpellMethod(m);
    SpecIsToken(m);
    forall i | 0 <= i < |ws|
      ensures CanSpell(ws[i])
    {
      if i > 0 && !(m.reason != "" && i == 1) {
        var p := m.properties[if m.reason == "" then i - 1 else i - 2];
        assert Writable(p) && ws[i].text == KeyOf(p) + "=";
        KeyIsToken(p);
      }
    }
  }

  lemma ReasonIsToken()
    ensures IsToken("reason=")
  {
  }

  lemma KeyIsToken(p: Property)
    requires Writable(p)
    ensures IsToken(KeyOf(p) + "=")
  {
  }

  // ---------------------------------------------------------------- the round trip

  /** An identifier that still waits for a word after it, so that the version of the field
      would be read as part of it. */
  predicate SwallowsVersion(id: string) {
    id != "" &&
    var last := id[|id| - 1];
    if last == '.' || last == '/' then '=' !in id
    else last == '=' && Find(id, '=') == |id| - 1
  }

  lemma HeadReread(h: Header)
    requires WritableHeader(h)
    ensures var head := Glue(AllRead(SpellHead(h)));
            if h.version == "" then head == [h.authservId]
            else if SwallowsVersion(h.authservId) then head == [h.authservId + h.version]
            else head == [h.authservId, h.version]
    ensures Spellable(SpellHead(h))
  {
    hide Glue, IsToken, BindsToNext;
    var words := AllRead(SpellHead(h));
    if h.version == "" {
      GlueApart(words);
    } else {
      NumberTrimmed(h.version);
      assert words == [Word(h.authservId, false), Word(h.version, false)];
      assert words[..0] == [] && words[..2] == words;
      GlueSnoc(words, 0);
      GlueSnoc(words, 1);
      NoItems();
      VersionBinds(h.authservId, h.version);
    }
  }

  lemma NoItems()
    ensures Glue([]) == []
  {
  }

  /** A version binds to an identifier only while the identifier waits for a word. */
  lemma VersionBinds(id: string, version: string)
    requires IsNumber(version)
    ensures Binds(Word(id, false), Word(version, false)) <==> SwallowsVersion(id)
  {
  }

  lemma SegmentsReread(h: Header)
    requires WritableHeader(h)
    ensures Scan(Print(h)) == [AsSegment(SpellHead(h))]
            + (if h.none then [AsSegment([Bare("none")])] else [])
            + seq(|h.methods|, i requires 0 <= i < |h.methods| => AsSegment(SpellMethod(h.methods[i])))
  {
    hide Scan, AsSegment, Spellable, SpellHead, SpellMethod, SpellField, WritableMethod, SpellMethods, Glue, AllRead, IsToken;
    var all := SpellHeader(h);
    HeadReread(h);
    NoneSpellable();
    var skip := if h.none then 2 else 1;
    forall i | 0 <= i < |all|
      ensures Spellable(all[i])
    {
      if i >= skip {
        assert all[i] == SpellMethod(h.methods[i - skip]);
        MethodSpellable(h.methods[i - skip]);
      }
    }
    FieldRead(all, "");
    assert "" + SpellField(all) == SpellField(all);
  }

  /** A method written on its own, without an identifier before it, is read back too. */
  lemma MethodRoundTrip(m: Method)
    requires WritableMethod(m)
    ensures ParseMethod(SpellAll(SpellMethod(m))) == Some(Reread(m))
  {
    hide Scan, Glue, SpellMethod, SpellAll, AsSegment, AllRead, WritableMethod, Spellable, ReadMethod, Reread;
    var ws := SpellMethod(m);
    MethodSpellable(m);
    SegmentRead(ws, "", "");
    assert "" + (SpellAll(ws) + "") == SpellAll(ws);
    MethodReread(m);
    AsSegmentWords(ws);
  }

  lemma NoneSpellable()
    ensures Spellable([Bare("none")])
    ensures SaysNone(AsSegment([Bare("none")]))
  {
  }

  /** Writing a header and reading it back gives every identifier, version, result, reason and
      property again, in order and empty values included, exactly unless the identifier ends
      on a character that binds the version to it. */
  lemma RoundTrip(h: Header)
    requires WritableHeader(h)
    ensures Parse(Print(h)) == Some(h.(methods := RereadAll(h.methods)))
       <==> h.version == "" || !SwallowsVersion(h.authservId)
  {
    hide Scan, AsSegment, Glue, SpellHead, SpellMethod, MethodsOf, AnyNone, WritableMethod, SwallowsVersion, Print;
    SegmentsReread(h);
    HeadReread(h);
    AsSegmentWords(SpellHead(h));
    var segments := Scan(Print(h));
    var none := if h.none then [AsSegment([Bare("none")])] else [];
    var methods := seq(|h.methods|, i requires 0 <= i < |h.methods| => AsSegment(SpellMethod(h.methods[i])));
    assert segments[0] == AsSegment(SpellHead(h)) && segments[1..] == none + methods;
    MethodsReread(h.methods, methods);
    MethodsOfConcat(none, methods);
    NoneSegments(h.none);
    var read := HeaderOf(segments);
    assert read.Some? && read.value.none == h.none && read.value.methods == RereadAll(h.methods) by {
      assert [] + RereadAll(h.methods) == RereadAll(h.methods);
    }
    if h.version != "" && SwallowsVersion(h.authservId) {
      assert |read.value.authservId| == |h.authservId| + |h.version|;
    }
  }

  /** One header that is not read back: the version becomes part of the identifier. */
  lemma VersionSwallowed()
    ensures var h := Header("a.", "1", false, []);
            WritableHeader(h) && Parse(Print(h)) != Some(h.(methods := RereadAll(h.methods)))
  {
    hide Parse, Print;
    var h := Header("a.", "1", false, []);
    assert IsToken("a.") && IsNumber("1");
    assert SwallowsVersion("a.");
    RoundTrip(h);
  }

  lemma NoneSegments(none: bool)
    ensures var s := if none then [AsSegment([Bare("none")])] else [];
            MethodsOf(s) == [] && (AnyNone(s) <==> none)
  {
  }
}
