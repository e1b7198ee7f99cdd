/** The scanner of Authentication-Results field values: it cuts a field into segments at its
    semicolons, reading comments and quoted strings whole (section 2.2 of RFC 8601). */
module AuthScan {
  import opened Basics
  import opened Text

  /** One word of the field, and whether a quoted string is what ended it. */
  datatype Word = Word(text: string, quoted: bool)

  /** One piece of the field between two semicolons. */
  datatype Segment = Segment(words: seq<Word>, comments: seq<string>, raw: string)

  /** The scanner between two characters. `raw` is the text read since the segment opened. */
  datatype Cursor = Cursor(
    words: seq<Word>, comments: seq<string>, raw: string,
    read: string, quoted: bool, comment: string, depth: nat)

  const FRESH := Cursor([], [], "", "", false, "", 0)

  predicate IsBlank(c: char) {
    c == ' ' || c == '\t' || c == '\r' || c == '\n'
  }

  /** Ends the word being read, if one is. */
  function EndWord(c: Cursor): Cursor {
    if c.read != "" || c.quoted then
      c.(words := c.words + [Word(c.read, c.quoted)], read := "", quoted := false)
    else c
  }

  function Finish(c: Cursor): Segment {
    Segment(EndWord(c).words, c.comments, TrimSpace(c.raw))
  }

  /** The text up to the first `stop` no backslash precedes, with the quoted pairs before it
      resolved; the whole text when there is none. A dangling backslash stands for nothing. */
  datatype Stop = Stop(text: string, at: nat, found: bool)

  function Until(t: string, stop: char): (r: Stop)
    ensures r.at <= |t|
    ensures r.found ==> r.at < |t| && t[r.at] == stop
    ensures !r.found ==> r.at == |t|
    decreases |t|
  {
    if t == "" then Stop("", 0, false)
    else if t[0] == stop then Stop("", 0, true)
    else if t[0] == '\\' then
      if |t| == 1 then Stop("", 1, false)
      else
        var r := Until(t[2..], stop);
        Stop([t[1]] + r.text, 2 + r.at, r.found)
    else
      var r := Until(t[1..], stop);
      Stop([t[0]] + r.text, 1 + r.at, r.found)
  }

  /** What a quoted string contributes, and how much of the text after its opening quote it
      takes: up to its closing quote, or, when nobody closed it, up to the end of its segment. */
  datatype Quoted = Quoted(content: string, used: nat)

  function QuotedAt(t: string): (q: Quoted)
    ensures q.used <= |t|
  {
    var close := Until(t, '"');
    if close.found then Quoted(close.text, close.at + 1)
    else
      var cut := Until(t, ';');
      Quoted(cut.text, cut.at)
  }

  /** One character inside a comment. */
  function CommentChar(c: Cursor, ch: char): Cursor
    requires c.depth > 0
  {
    var c := c.(raw := c.raw + [ch]);
    if ch == '(' then c.(depth := c.depth + 1, comment := c.comment + [ch])
    else if ch == ')' && c.depth == 1 then
      c.(depth := 0, comments := c.comments + [c.comment], comment := "")
    else if ch == ')' then c.(depth := c.depth - 1, comment := c.comment + [ch])
    else c.(comment := c.comment + [ch])
  }

  /** One character at the top level that is neither a quote nor a semicolon. */
  function PlainChar(c: Cursor, ch: char): Cursor {
    var c := c.(raw := c.raw + [ch]);
    if ch == '(' then EndWord(c).(depth := 1)
    else if IsBlank(ch) then EndWord(c)
    else c.(read := c.read + [ch])
  }

  /** The segments of the text `s` that follows what the cursor has read. */
  function ScanFrom(s: string, c: Cursor): (segments: seq<Segment>)
    ensures |segments| >= 1
    decreases |s|
  {
    if s == "" then [Finish(c)]
    else if c.depth > 0 then
      if s[0] != '\\' then ScanFrom(s[1..], CommentChar(c, s[0]))
      else if |s| == 1 then ScanFrom("", c.(raw := c.raw + s))
      else ScanFrom(s[2..], c.(raw := c.raw + s[..2], comment := c.comment + [s[1]]))
    else if s[0] == '"' then
      var q := QuotedAt(s[1..]);
      ScanFrom(s[1 + q.used..], c.(raw := c.raw + s[..1 + q.used], read := c.read + q.content, quoted := true))
    else if s[0] == ';' then [Finish(c)] + ScanFrom(s[1..], FRESH)
    else ScanFrom(s[1..], PlainChar(c, s[0]))
  }

  /** The segments of a whole field value. */
  function Scan(value: string): (segments: seq<Segment>)
    ensures |segments| >= 1
  {
    ScanFrom(value, FRESH)
  }

  // ---------------------------------------------------------------- the scanning loops

  /** What `Until` answers once the first `p` characters are known to hold no `stop` and to
      stand for `content`. */
  ghost function Ahead(t: string, content: string, p: nat, stop: char): Stop {
    if p <= |t| then
      var r := Until(t[p..], stop);
      Stop(content + r.text, p + r.at, r.found)
    else Stop(content, |t|, false)
  }

  lemma AheadStart(t: string, stop: char)
    ensures Ahead(t, "", 0, stop) == Until(t, stop)
  {
  }

  /** One turn of the reading loop moves the characters it reads into the content. */
  lemma AheadStep(t: string, content: string, p: nat, stop: char)
    requires p < |t| && stop != '\\'
    ensures t[p] == stop ==> Ahead(t, content, p, stop) == Stop(content, p, true)
    ensures t[p] != stop && t[p] != '\\' ==>
              Ahead(t, content, p, stop) == Ahead(t, content + [t[p]], p + 1, stop)
    ensures t[p] == '\\' && p + 1 < |t| ==>
              Ahead(t, content, p, stop) == Ahead(t, content + [t[p + 1]], p + 2, stop)
    ensures t[p] == '\\' && p + 1 == |t| ==>
              Ahead(t, content, p, stop) == Ahead(t, content, p + 2, stop)
  {
  }

  lemma AheadEnd(t: string, content: string, p: nat, stop: char)
    requires p >= |t|
    ensures Ahead(t, content, p, stop) == Stop(content, |t|, false)
  {
  }

  /** Reads the quoted string opened at `open` in one pass, remembering where an unclosed one
      is to be cut. The answer is the index of the last character taken. */
  method ReadQuoted(value: string, open: nat) returns (content: string, last: nat)
    requires open < |value|
    ensures content == QuotedAt(value[open + 1..]).content
    ensures last == open + QuotedAt(value[open + 1..]).used
         || last == |value| == open + QuotedAt(value[open + 1..]).used + 1
  {
    hide Until, Ahead;
    ghost var t := value[open + 1..];
    AheadStart(t, '"');
    AheadStart(t, ';');
    var cut, end := -1, 0;
    content := "";
    var i := open + 1;
    while i < |value|
      invariant open < i <= |value| + 1
      invariant Until(t, '"') == Ahead(t, content, i - open - 1, '"')
      invariant cut < 0 ==> Until(t, ';') == Ahead(t, content, i - open - 1, ';')
      invariant cut >= 0 ==> cut <= |content| && open < end < |value|
                             && Until(t, ';') == Stop(content[..cut], end - open - 1, true)
    {
      var c := value[i];
      AheadStep(t, content, i - open - 1, '"');
      AheadStep(t, content, i - open - 1, ';');
      if c == '"' {
        return content, i;
      } else if c == '\\' {
        i := i + 1;
        if i < |value| {
          content := content + [value[i]];
        }
      } else {
        if c == ';' && cut < 0 {
          cut, end := |content|, i;
        }
        content := content + [c];
      }
      i := i + 1;
    }
    AheadEnd(t, content, i - open - 1, '"');
    if cut < 0 {
      AheadEnd(t, content, i - open - 1, ';');
      return content, |value|;
    }
    return content[..cut], end - 1;
  }

  /** The segments still to come when the scan stands at index `i` of a segment opened at
      `start`, with everything but the raw text of the segment in `c`. */
  ghost function Rest(value: string, start: nat, i: nat, c: Cursor): seq<Segment>
    requires start <= i && start <= |value|
  {
    var at := Min(i, |value|);
    ScanFrom(value[at..], c.(raw := value[start..at]))
  }

  lemma RestStart(value: string)
    ensures Scan(value) == Rest(value, 0, 0, FRESH)
  {
  }

  lemma RestEnd(value: string, start: nat, i: nat, c: Cursor)
    requires start <= |value| <= i
    ensures Rest(value, start, i, c) == [Finish(c.(raw := value[start..]))]
  {
    assert value[|value|..] == "" && value[start..|value|] == value[start..];
  }

  lemma ScanQuoted(s: string, c: Cursor)
    requires s != "" && c.depth == 0 && s[0] == '"'
    ensures var q := QuotedAt(s[1..]);
            ScanFrom(s, c) == ScanFrom(s[1 + q.used..],
              c.(raw := c.raw + s[..1 + q.used], read := c.read + q.content, quoted := true))
  {
  }

  lemma UntilHere(x: string, stop: char)
    requires x != "" && x[0] == stop
    ensures Until(x, stop) == Stop("", 0, true)
  {
  }

  lemma UntilStep(s: string, stop: char)
    requires s != "" && s[0] != stop
    ensures s[0] == '\\' && |s| > 1 ==>
              var r := Until(s[2..], stop); Until(s, stop) == Stop([s[1]] + r.text, 2 + r.at, r.found)
    ensures s == ['\\'] ==> Until(s, stop) == Stop("", 1, false)
    ensures s[0] != '\\' ==>
              var r := Until(s[1..], stop); Until(s, stop) == Stop([s[0]] + r.text, 1 + r.at, r.found)
  {
  }

  lemma ScanInComment(s: string, c: Cursor)
    requires s != "" && c.depth > 0
    ensures s[0] != '\\' ==> ScanFrom(s, c) == ScanFrom(s[1..], CommentChar(c, s[0]))
    ensures s[0] == '\\' && |s| > 1 ==>
              ScanFrom(s, c) == ScanFrom(s[2..], c.(raw := c.raw + s[..2], comment := c.comment + [s[1]]))
    ensures s[0] == '\\' && |s| == 1 ==> ScanFrom(s, c) == ScanFrom("", c.(raw := c.raw + s))
  {
  }

  lemma RestInComment(value: string, start: nat, i: nat, c: Cursor)
    requires start <= i < |value| && c.depth > 0
    ensures value[i] != '\\' ==>
              Rest(value, start, i, c) == Rest(value, start, i + 1, CommentChar(c, value[i]).(raw := c.raw))
    ensures value[i] == '\\' && i + 1 < |value| ==>
              Rest(value, start, i, c) == Rest(value, start, i + 2, c.(comment := c.comment + [value[i + 1]]))
    ensures value[i] == '\\' && i + 1 == |value| ==>
              Rest(value, start, i, c) == Rest(value, start, i + 2, c)
  {
    hide ScanFrom;
    var s, raw := value[i..], value[start..i];
    ScanInComment(s, c.(raw := raw));
    Slices(value, start, i, 1);
    if value[i] != '\\' {
      assert s[..1] == [value[i]];
    } else if i + 1 < |value| {
      Slices(value, start, i, 2);
    } else {
      assert s[..1] == s;
    }
  }

  lemma RestPlain(value: string, start: nat, i: nat, c: Cursor)
    requires start <= i < |value| && c.depth == 0 && value[i] != '"' && value[i] != ';'
    ensures Rest(value, start, i, c) == Rest(value, start, i + 1, PlainChar(c, value[i]).(raw := c.raw))
  {
    var s, raw := value[i..], value[start..i];
    assert s[0] == value[i] && s[1..] == value[i + 1..];
    assert raw + [value[i]] == value[start..i + 1];
  }

  lemma RestSemicolon(value: string, start: nat, i: nat, c: Cursor)
    requires start <= i < |value| && c.depth == 0 && value[i] == ';'
    ensures Rest(value, start, i, c)
         == [Finish(c.(raw := value[start..i]))] + Rest(value, i + 1, i + 1, FRESH)
  {
    var s := value[i..];
    assert s[0] == value[i] && s[1..] == value[i + 1..];
    assert value[i + 1..i + 1] == "";
  }

  lemma RestQuoted(value: string, start: nat, i: nat, c: Cursor, last: nat)
    requires start <= i < |value| && c.depth == 0 && value[i] == '"'
    requires last == i + QuotedAt(value[i + 1..]).used
          || last == |value| == i + QuotedAt(value[i + 1..]).used + 1
    ensures Rest(value, start, i, c) == Rest(value, start, last + 1,
              c.(read := c.read + QuotedAt(value[i + 1..]).content, quoted := true))
  {
    hide ScanFrom, QuotedAt;
    var s, raw := value[i..], value[start..i];
    var q := QuotedAt(value[i + 1..]);
    assert s[1..] == value[i + 1..];
    ScanQuoted(s, c.(raw := raw));
    Slices(value, start, i, 1 + q.used);
  }

  method AppendWord(words: seq<Word>, read: string, quoted: bool)
    returns (words': seq<Word>, read': string, quoted': bool)
    ensures !quoted' && read' == ""
    ensures words' == if read != "" || quoted then words + [Word(read, quoted)] else words
  {
    words', read', quoted' := words, read, quoted;
    if read != "" || quoted {
      words', read', quoted' := words + [Word(read, quoted)], "", false;
    }
  }

  lemma Regroup<T>(a: seq<T>, x: T, b: seq<T>)
    ensures a + [x] + b == a + ([x] + b)
  {
  }

  /** The scanning loop: one index walks the field and always advances. */
  method ScanField(value: string) returns (segments: seq<Segment>)
    ensures segments == Scan(value)
  {
    hide ScanFrom, QuotedAt, Rest, Scan, TrimSpace, Until, Min;
    segments := [];
    var words: seq<Word>, comments: seq<string>, read, quoted := [], [], "", false;
    var comment, depth: nat, start := "", 0, 0;
    var i := 0;
    RestStart(value);
    while i < |value|
      invariant 0 <= start <= |value| && start <= i <= |value| + 1
      invariant depth == 0 ==> comment == ""
      invariant Scan(value) ==
                segments + Rest(value, start, i, Cursor(words, comments, "", read, quoted, comment, depth))
      decreases |value| - i
    {
      var c := value[i];
      ghost var before, known := Cursor(words, comments, "", read, quoted, comment, depth), segments;
      ghost var began := start;
      if depth > 0 {
        RestInComment(value, start, i, before);
        if c == '\\' {
          i := i + 1;
          if i < |value| {
            comment := comment + [value[i]];
          }
        } else {
          depth := if c == '(' then depth + 1 else if c == ')' then depth - 1 else depth;
          if depth == 0 {
            comments := comments + [comment];
            comment := "";
          } else {
            comment := comment + [c];
          }
        }
      } else if c == '"' {
        var content, last := ReadQuoted(value, i);
        RestQuoted(value, start, i, before, last);
        i, read, quoted := last, read + content, true;
      } else if c == ';' {
        RestSemicolon(value, start, i, before);
        words, read, quoted := AppendWord(words, read, quoted);
        segments := segments + [Segment(words, comments, TrimSpace(value[start..i]))];
        words, comments, start := [], [], i + 1;
        Regroup(known, Finish(before.(raw := value[began..i])), Rest(value, i + 1, i + 1, FRESH));
      } else {
        RestPlain(value, start, i, before);
        if c == '(' {
          depth := 1;
          words, read, quoted := AppendWord(words, read, quoted);
        } else if IsBlank(c) {
          words, read, quoted := AppendWord(words, read, quoted);
        } else {
          read := read + [c];
        }
      }
      i := i + 1;
    }
    RestEnd(value, start, i, Cursor(words, comments, "", read, quoted, comment, depth));
    words, read, quoted := AppendWord(words, read, quoted);
    segments := segments + [Segment(words, comments, TrimSpace(value[start..]))];
  }
}
