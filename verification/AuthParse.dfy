/** The reader of Authentication-Results fields: words are glued into the elements of the
    grammar, and every segment after the first is read as one method. */
module AuthParse {
  import opened Basics
  import opened Text
  import opened AuthScan

  /** One `ptype.property=pvalue` clause. */
  datatype Property = Property(ptype: string, name: string, value: string)

  datatype Method = Method(
    name: string, version: string, result: string, reason: string,
    properties: seq<Property>, comments: seq<string>, raw: string)

  datatype Header = Header(authservId: string, version: string, none: bool, methods: seq<Method>)

  // ---------------------------------------------------------------- gluing words

  predicate IsGlue(c: char) {
    c == '=' || c == '.' || c == '/'
  }

  predicate BindsToPrevious(w: Word) {
    w.text != "" && IsGlue(w.text[0])
  }

  /** A word opening a propspec of its own, written with its ptype. */
  predicate StartsProperty(w: Word) {
    '=' in w.text && '.' in Cut(w.text, '=').before
  }

  /** A word ending on a character that still waits for what the grammar owes it. */
  predicate BindsToNext(w: Word, next: Word) {
    && !w.quoted
    && w.text != ""
    && var last := w.text[|w.text| - 1];
       if last == '.' || last == '/' then '=' !in w.text
       else last == '=' && Find(w.text, '=') == |w.text| - 1 && !StartsProperty(next)
  }

  predicate Binds(w: Word, next: Word) {
    BindsToNext(w, next) || BindsToPrevious(next)
  }

  /** The elements of the grammar: each word opens one, unless it is bound to the word before. */
  function Glue(words: seq<Word>): (items: seq<string>)
    ensures |items| <= |words| && (items == [] <==> words == [])
  {
    if words == [] then []
    else
      var n := |words| - 1;
      var items := Glue(words[..n]);
      if n > 0 && Binds(words[n - 1], words[n]) then
        items[..|items| - 1] + [items[|items| - 1] + words[n].text]
      else
        items + [words[n].text]
  }

  lemma GlueSnoc(words: seq<Word>, i: nat)
    requires i < |words|
    ensures var items := Glue(words[..i]);
            Glue(words[..i + 1]) ==
              if i > 0 && Binds(words[i - 1], words[i])
              then items[|items| - 1 := items[|items| - 1] + words[i].text]
              else items + [words[i].text]
  {
    hide Binds;
    assert words[..i + 1][..i] == words[..i];
  }

  method GlueWords(words: seq<Word>) returns (items: seq<string>)
    ensures items == Glue(words)
  {
    hide BindsToNext, BindsToPrevious, Glue;
    items := [];
    var bindNext := false;
    for i := 0 to |words|
      invariant items == Glue(words[..i])
      invariant bindNext <==> i > 0 && BindsToNext(words[i - 1], if i < |words| then words[i] else Word("", false))
    {
      GlueSnoc(words, i);
      var w := words[i];
      if (bindNext || BindsToPrevious(w)) && |items| > 0 {
        items := items[|items| - 1 := items[|items| - 1] + w.text];
      } else {
        items := items + [w.text];
      }
      var next := if i + 1 < |words| then words[i + 1] else Word("", false);
      bindNext := BindsToNext(w, next);
    }
    assert words[..|words|] == words;
  }

  // ---------------------------------------------------------------- reading a method

  predicate IsNumber(s: string) {
    s != "" && forall i :: 0 <= i < |s| ==> IsDigit(s[i])
  }

  /** A method and the version of itself it was run under, "" when it names none. */
  function CutVersion(name: string): (string, string) {
    var h := Cut(name, '/');
    var version := TrimSpace(h.after);
    (Lower(TrimSpace(h.before)), if h.found && IsNumber(version) then version else "")
  }

  /** What one item after the methodspec says. */
  datatype Clause = Nothing | Reason(value: string) | Prop(property: Property)

  function ReadClause(item: string): Clause {
    var h := Cut(item, '=');
    if !h.found then Nothing
    else
      var key, value := Lower(TrimSpace(h.before)), TrimSpace(h.after);
      if key == "reason" then Reason(value)
      else
        var k := Cut(key, '.');
        var ptype, name := if k.found then k.before else "", if k.found then k.after else key;
        if name == "" then Nothing else Prop(Property(ptype, name, value))
  }

  /** The reason and the properties a list of items states: the last reason, every property. */
  function Clauses(items: seq<string>): (string, seq<Property>) {
    if items == [] then ("", [])
    else
      var n := |items| - 1;
      var (reason, properties) := Clauses(items[..n]);
      match ReadClause(items[n])
      case Nothing => (reason, properties)
      case Reason(value) => (value, properties)
      case Prop(property) => (reason, properties + [property])
  }

  function ReadMethod(items: seq<string>, written: Segment): Option<Method> {
    if items == [] || '=' !in items[0] then None
    else
      var h := Cut(items[0], '=');
      var (name, version) := CutVersion(h.before);
      if name == "" then None
      else
        var (reason, properties) := Clauses(items[1..]);
        Some(Method(name, version, Lower(TrimSpace(h.after)), reason, properties, written.comments, written.raw))
  }

  method ReadResinfo(items: seq<string>, written: Segment) returns (r: Option<Method>)
    ensures r == ReadMethod(items, written)
  {
    hide Cut, Lower, TrimSpace;
    if |items| == 0 {
      return None;
    }
    var h := Cut(items[0], '=');
    if !h.found {
      return None;
    }
    var (name, version) := CutVersion(h.before);
    if name == "" {
      return None;
    }
    var reason, properties := "", [];
    ghost var rest := items[1..];
    for i := 1 to |items|
      invariant (reason, properties) == Clauses(rest[..i - 1])
    {
      assert rest[..i][..i - 1] == rest[..i - 1];
      assert rest[..i][i - 1] == items[i];
      var clause := Cut(items[i], '=');
      if !clause.found {
        continue;
      }
      var key, value := Lower(TrimSpace(clause.before)), TrimSpace(clause.after);
      if key == "reason" {
        reason := value;
        continue;
      }
      var k := Cut(key, '.');
      var ptype, property := k.before, k.after;
      if !k.found {
        ptype, property := "", key;
      }
      if property == "" {
        continue;
      }
      properties := properties + [Property(ptype, property, value)];
    }
    assert rest[..|items| - 1] == rest;
    r := Some(Method(name, version, Lower(TrimSpace(h.after)), reason, properties, written.comments, written.raw));
  }

  // ---------------------------------------------------------------- reading a field

  /** A segment saying that no authentication was done. */
  predicate SaysNone(s: Segment) {
    var items := Glue(s.words);
    |items| == 1 && EqualFold(items[0], "none")
  }

  /** The methods of the segments that can be read, in order. */
  function MethodsOf(segments: seq<Segment>): seq<Method> {
    if segments == [] then []
    else
      var n := |segments| - 1;
      var methods := MethodsOf(segments[..n]);
      var r := ReadMethod(Glue(segments[n].words), segments[n]);
      if SaysNone(segments[n]) || r.None? then methods else methods + [r.value]
  }

  predicate AnyNone(segments: seq<Segment>) {
    exists i :: 0 <= i < |segments| && SaysNone(segments[i])
  }

  /** The header a list of segments spells, if it names an authentication service. */
  function HeaderOf(segments: seq<Segment>): Option<Header>
    requires segments != []
  {
    var head := Glue(segments[0].words);
    if head == [] then None
    else
      var version := if |head| > 1 && IsNumber(head[1]) then head[1] else "";
      Some(Header(head[0], version, AnyNone(segments[1..]), MethodsOf(segments[1..])))
  }

  function Parse(value: string): Option<Header> {
    HeaderOf(Scan(value))
  }

  method ParseField(value: string) returns (r: Option<Header>)
    ensures r == Parse(value)
  {
    hide Scan, Glue, ReadMethod;
    var segments := ScanField(value);
    var head := GlueWords(segments[0].words);
    if |head| == 0 {
      return None;
    }
    var version := "";
    if |head| > 1 && IsNumber(head[1]) {
      version := head[1];
    }
    var none, methods := false, [];
    ghost var rest := segments[1..];
    for i := 1 to |segments|
      invariant methods == MethodsOf(rest[..i - 1])
      invariant none == AnyNone(rest[..i - 1])
    {
      assert rest[..i][..i - 1] == rest[..i - 1];
      assert rest[..i][i - 1] == rest[i - 1] == segments[i];
      AnyNoneSnoc(rest[..i]);
      var items := GlueWords(segments[i].words);
      if |items| == 1 && EqualFold(items[0], "none") {
        none := true;
        continue;
      }
      var m := ReadResinfo(items, segments[i]);
      if m.Some? {
        methods := methods + [m.value];
      }
    }
    assert rest[..|segments| - 1] == rest;
    return Some(Header(head[0], version, none, methods));
  }

  lemma AnyNoneSnoc(s: seq<Segment>)
    requires s != []
    ensures AnyNone(s) <==> AnyNone(s[..|s| - 1]) || SaysNone(s[|s| - 1])
  {
  }

  /** Reads a single method, written without the authserv-id. */
  function ParseMethod(value: string): Option<Method> {
    var segments := Scan(value);
    ReadMethod(Glue(segments[0].words), segments[0])
  }
}
