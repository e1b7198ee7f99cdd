/** A comment stands for a blank: replacing one by the other changes no verdict of the field. */
module AuthComments {
  import opened Basics
  import opened Text
  import opened AuthScan
  import opened AuthParse
  import opened AuthSegments

  // ---------------------------------------------------------------- the grammar of comments

  /** A piece of a comment: a character, a quoted pair, or a comment of its own. */
  datatype Piece = Plain(ch: char) | Pair(ch: char) | Nested(inner: seq<Piece>)

  predicate WellFormed(pieces: seq<Piece>) {
    forall i :: 0 <= i < |pieces| ==>
      match pieces[i]
      case Plain(ch) => ch != '(' && ch != ')' && ch != '\\'
      case Pair(_) => true
      case Nested(inner) => WellFormed(inner)
  }

  /** A piece as written. */
  function Spelling(piece: Piece): string
    decreases piece, 0
  {
    match piece
    case Plain(ch) => [ch]
    case Pair(ch) => ['\\', ch]
    case Nested(inner) => "(" + Written(inner) + ")"
  }

  /** The comment as written, without its outer parentheses. */
  function Written(pieces: seq<Piece>): string
    decreases pieces, 1
  {
    if pieces == [] then "" else Spelling(pieces[0]) + Written(pieces[1..])
  }

  /** What a piece says: quoted pairs resolved, inner parentheses kept. */
  function Saying(piece: Piece): string
    decreases piece, 0
  {
    match piece
    case Plain(ch) => [ch]
    case Pair(ch) => [ch]
    case Nested(inner) => "(" + Content(inner) + ")"
  }

  /** What the comment says. */
  function Content(pieces: seq<Piece>): string
    decreases pieces, 1
  {
    if pieces == [] then "" else Saying(pieces[0]) + Content(pieces[1..])
  }

  // ---------------------------------------------------------------- reading a comment

  /** The cursor after a part of a comment written as `text` and saying `said`. */
  function Inside(c: Cursor, text: string, said: string): Cursor {
    c.(comment := c.comment + said, raw := c.raw + text)
  }

  lemma InsideTwice(c: Cursor, t1: string, s1: string, t2: string, s2: string)
    ensures Inside(Inside(c, t1, s1), t2, s2) == Inside(c, t1 + t2, s1 + s2)
    ensures Inside(c, "", "") == c
  {
  }

  /** Inside a comment, any well-formed content is read to its end and set aside. */
  lemma {:induction false} CommentRead(pieces: seq<Piece>, rest: string, c: Cursor)
    requires WellFormed(pieces) && c.depth > 0
    ensures ScanFrom(Written(pieces) + rest, c) == ScanFrom(rest, Inside(c, Written(pieces), Content(pieces)))
    decreases pieces, 1
  {
    hide ScanFrom, Spelling, Saying;
    if pieces == [] {
      assert "" + rest == rest;
      InsideTwice(c, "", "", "", "");
    } else {
      var p, tail := pieces[0], pieces[1..];
      assert Written(pieces) + rest == Spelling(p) + (Written(tail) + rest);
      PieceRead(p, Written(tail) + rest, c);
      CommentRead(tail, rest, Inside(c, Spelling(p), Saying(p)));
      InsideTwice(c, Spelling(p), Saying(p), Written(tail), Content(tail));
    }
  }

  lemma {:induction false} PieceRead(p: Piece, after: string, c: Cursor)
    requires WellFormed([p]) && c.depth > 0
    ensures ScanFrom(Spelling(p) + after, c) == ScanFrom(after, Inside(c, Spelling(p), Saying(p)))
    decreases p, 0
  {
    hide ScanFrom, Written, Content;
    var s := Spelling(p) + after;
    assert [p][0] == p;
    ScanInComment(s, c);
    match p
    case Plain(ch) =>
      assert s[0] == ch && s[1..] == after;
    case Pair(ch) =>
      assert s[0] == '\\' && s[1] == ch && s[2..] == after && s[..2] == ['\\', ch];
    case Nested(inner) =>
      var close := ")" + after;
      assert s[0] == '(' && s[1..] == Written(inner) + close;
      var c1 := CommentChar(c, '(');
      CommentRead(inner, close, c1);
      var c2 := Inside(c1, Written(inner), Content(inner));
      ScanInComment(close, c2);
      assert close[0] == ')' && close[1..] == after;
      assert c1 == Inside(c, "(", "(").(depth := c.depth + 1);
      InsideTwice(c, "(", "(", Written(inner), Content(inner));
      InsideTwice(c, "(" + Written(inner), "(" + Content(inner), ")", ")");
      assert CommentChar(c2, ')') == Inside(c, Spelling(p), Saying(p));
  }

  /** A whole comment at the top level ends the word before it and is recorded as said. */
  lemma CommentAtTop(pieces: seq<Piece>, rest: string, c: Cursor)
    requires WellFormed(pieces) && c.depth == 0 && c.comment == ""
    ensures ScanFrom("(" + Written(pieces) + ")" + rest, c)
         == ScanFrom(rest, EndWord(c).(comments := c.comments + [Content(pieces)],
                                       raw := c.raw + "(" + Written(pieces) + ")"))
  {
    hide ScanFrom, Written, Content;
    var close := ")" + rest;
    var s := "(" + Written(pieces) + ")" + rest;
    assert s[0] == '(' && s[1..] == Written(pieces) + close;
    ScanPlain(s, c);
    var c1 := PlainChar(c, '(');
    CommentRead(pieces, close, c1);
    var c2 := Inside(c1, Written(pieces), Content(pieces));
    ScanInComment(close, c2);
    assert close[0] == ')' && close[1..] == rest;
    assert c2.comment == Content(pieces);
    assert c2.raw + ")" == c.raw + "(" + Written(pieces) + ")";
  }

  lemma ScanPlain(s: string, c: Cursor)
    requires s != "" && c.depth == 0 && s[0] != '"' && s[0] != ';'
    ensures ScanFrom(s, c) == ScanFrom(s[1..], PlainChar(c, s[0]))
  {
  }

  // ---------------------------------------------------------------- what comments leave alone

  /** The same words, cut at the same places; comments and raw text may differ. */
  ghost predicate SameWords(s: seq<Segment>, t: seq<Segment>) {
    |s| == |t| && forall i :: 0 <= i < |s| ==> s[i].words == t[i].words
  }

  ghost predicate Similar(c: Cursor, d: Cursor) {
    c.words == d.words && c.read == d.read && c.quoted == d.quoted && c.depth == d.depth
  }

  lemma SimilarSteps(c: Cursor, d: Cursor, ch: char)
    requires Similar(c, d)
    ensures c.depth > 0 ==> Similar(CommentChar(c, ch), CommentChar(d, ch))
    ensures Similar(PlainChar(c, ch), PlainChar(d, ch)) || c.depth > 0
    ensures Finish(c).words == Finish(d).words
  {
  }

  lemma {:induction false} SimilarScan(s: string, c: Cursor, d: Cursor)
    requires Similar(c, d)
    ensures SameWords(ScanFrom(s, c), ScanFrom(s, d))
    decreases |s|
  {
    hide ScanFrom, QuotedAt, CommentChar, PlainChar, Finish;
    SimilarSteps(c, d, if s == "" then ' ' else s[0]);
    if s == "" {
      ScanEmpty(c);
      ScanEmpty(d);
    } else if c.depth > 0 {
      ScanInComment(s, c);
      ScanInComment(s, d);
      if s[0] != '\\' {
        SimilarScan(s[1..], CommentChar(c, s[0]), CommentChar(d, s[0]));
      } else if |s| == 1 {
        SimilarScan("", c.(raw := c.raw + s), d.(raw := d.raw + s));
      } else {
        SimilarScan(s[2..], c.(raw := c.raw + s[..2], comment := c.comment + [s[1]]),
                    d.(raw := d.raw + s[..2], comment := d.comment + [s[1]]));
      }
    } else if s[0] == '"' {
      ScanQuoted(s, c);
      ScanQuoted(s, d);
      var q := QuotedAt(s[1..]);
      SimilarScan(s[1 + q.used..], c.(raw := c.raw + s[..1 + q.used], read := c.read + q.content, quoted := true),
                  d.(raw := d.raw + s[..1 + q.used], read := d.read + q.content, quoted := true));
    } else if s[0] == ';' {
      ScanSemicolon(s, c);
      ScanSemicolon(s, d);
    } else {
      ScanPlain(s, c);
      ScanPlain(s, d);
      SimilarScan(s[1..], PlainChar(c, s[0]), PlainChar(d, s[0]));
    }
  }

  lemma ScanEmpty(c: Cursor)
    ensures ScanFrom("", c) == [Finish(c)]
  {
  }

  lemma ScanSemicolon(s: string, c: Cursor)
    requires s != "" && c.depth == 0 && s[0] == ';'
    ensures ScanFrom(s, c) == [Finish(c)] + ScanFrom(s[1..], FRESH)
  {
  }

  lemma QuotedAtExtends(t: string, x: string)
    requires Until(t, '"').found
    ensures QuotedAt(t + x) == QuotedAt(t) && QuotedAt(t).used == Until(t, '"').at + 1
  {
    UntilExtends(t, x, '"');
  }

  lemma PlainCharCalm(c: Cursor, ch: char)
    ensures PlainChar(c, ch).depth == (if ch == '(' then 1 else c.depth)
    ensures PlainChar(c, ch).comment == c.comment
  {
  }

  /** Two continuations that read alike from the top level read alike after any settled text. */
  lemma {:induction false} AfterSettled(a: string, x: string, y: string, c: Cursor)
    requires Settles(a, c.depth, true) && (c.depth == 0 ==> c.comment == "")
    requires forall d: Cursor :: d.depth == 0 && d.comment == "" ==> SameWords(ScanFrom(x, d), ScanFrom(y, d))
    ensures SameWords(ScanFrom(a + x, c), ScanFrom(a + y, c))
    decreases |a|
  {
    hide ScanFrom, SameWords, QuotedAt, PlainChar, Finish, Until;
    PlainCharCalm(c, if a == "" then ' ' else a[0]);
    var s, t := a + x, a + y;
    if a == "" {
      assert s == x && t == y;
    } else if c.depth > 0 {
      ScanInComment(s, c);
      ScanInComment(t, c);
      var n := if a[0] == '\\' then 2 else 1;
      PrefixSlices(a, x, n);
      PrefixSlices(a, y, n);
      assert s[n - 1] == a[n - 1] == t[n - 1];
      AfterSettled(a[n..], x, y, if n == 1 then CommentChar(c, a[0])
                                 else c.(raw := c.raw + a[..2], comment := c.comment + [a[1]]));
    } else if a[0] == '"' {
      var q := QuotedAt(a[1..]);
      PrefixSlices(a, x, 1);
      PrefixSlices(a, y, 1);
      QuotedAtExtends(a[1..], x);
      QuotedAtExtends(a[1..], y);
      ScanQuoted(s, c);
      ScanQuoted(t, c);
      PrefixSlices(a, x, 1 + q.used);
      PrefixSlices(a, y, 1 + q.used);
      assert a[1 + q.used..] == a[1..][q.used..];
      AfterSettled(a[1 + q.used..], x, y,
        c.(raw := c.raw + a[..1 + q.used], read := c.read + q.content, quoted := true));
    } else {
      PrefixSlices(a, x, 1);
      PrefixSlices(a, y, 1);
      if a[0] == ';' {
        ScanSemicolon(s, c);
        ScanSemicolon(t, c);
        AfterSettled(a[1..], x, y, FRESH);
        SameWordsCons(Finish(c), ScanFrom(a[1..] + x, FRESH), ScanFrom(a[1..] + y, FRESH));
      } else {
        ScanPlain(s, c);
        ScanPlain(t, c);
        AfterSettled(a[1..], x, y, PlainChar(c, a[0]));
      }
    }
  }

  lemma SameWordsCons(head: Segment, s: seq<Segment>, t: seq<Segment>)
    requires SameWords(s, t)
    ensures SameWords([head] + s, [head] + t)
  {
  }

  /** At the top level a comment and a blank are read alike. */
  lemma CommentLikeBlank(blank: char, pieces: seq<Piece>, b: string, c: Cursor)
    requires IsBlank(blank) && WellFormed(pieces) && c.depth == 0 && c.comment == ""
    ensures SameWords(ScanFrom([blank] + b, c), ScanFrom("(" + Written(pieces) + ")" + b, c))
  {
    hide ScanFrom;
    var s := [blank] + b;
    assert s[1..] == b;
    ScanPlain(s, c);
    CommentAtTop(pieces, b, c);
    SimilarScan(b, PlainChar(c, blank), EndWord(c).(comments := c.comments + [Content(pieces)],
                                                    raw := c.raw + "(" + Written(pieces) + ")"));
  }

  // ---------------------------------------------------------------- what a reader is told

  /** The verdict of a method, without the prose written beside it. */
  function Verdict(m: Method): Method {
    m.(comments := [], raw := "")
  }

  function Verdicts(methods: seq<Method>): (r: seq<Method>)
    ensures |r| == |methods|
  {
    seq(|methods|, i requires 0 <= i < |methods| => Verdict(methods[i]))
  }

  function Reading(h: Option<Header>): Option<Header> {
    if h.None? then None else Some(h.value.(methods := Verdicts(h.value.methods)))
  }

  lemma VerdictsSnoc(methods: seq<Method>, m: Method)
    ensures Verdicts(methods + [m]) == Verdicts(methods) + [Verdict(m)]
  {
  }

  lemma SameVerdict(items: seq<string>, s: Segment, t: Segment)
    ensures ReadMethod(items, s).Some? <==> ReadMethod(items, t).Some?
    ensures ReadMethod(items, s).Some? ==>
              Verdict(ReadMethod(items, s).value) == Verdict(ReadMethod(items, t).value)
  {
  }

  lemma {:induction false} SameWordsSameMethods(s: seq<Segment>, t: seq<Segment>)
    requires SameWords(s, t)
    ensures Verdicts(MethodsOf(s)) == Verdicts(MethodsOf(t))
    ensures AnyNone(s) <==> AnyNone(t)
  {
    hide Glue, ReadMethod;
    if s != [] {
      var n := |s| - 1;
      SameWordsSameMethods(s[..n], t[..n]);
      AnyNoneSnoc(s);
      AnyNoneSnoc(t);
      var items := Glue(s[n].words);
      SameVerdict(items, s[n], t[n]);
      var m, m' := ReadMethod(items, s[n]), ReadMethod(items, t[n]);
      if m.Some? {
        VerdictsSnoc(MethodsOf(s[..n]), m.value);
        VerdictsSnoc(MethodsOf(t[..n]), m'.value);
      }
    }
  }

  lemma SameWordsSameReading(s: seq<Segment>, t: seq<Segment>)
    requires s != [] && SameWords(s, t)
    ensures Reading(HeaderOf(s)) == Reading(HeaderOf(t))
  {
    hide Glue, MethodsOf, AnyNone;
    assert s[0].words == t[0].words;
    assert SameWords(s[1..], t[1..]);
    SameWordsSameMethods(s[1..], t[1..]);
  }

  /** Replacing a top-level blank by a comment, nested ones and quoted pairs included, changes
      nothing of what the field reports. */
  lemma CommentsTransparent(a: string, blank: char, pieces: seq<Piece>, b: string)
    requires Settles(a, 0, true) && blank in {' ', '\t', '\r', '\n'} && WellFormed(pieces)
    ensures Reading(Parse(a + [blank] + b)) == Reading(Parse(a + "(" + Written(pieces) + ")" + b))
  {
    hide ScanFrom, HeaderOf, Reading;
    var x, y := [blank] + b, "(" + Written(pieces) + ")" + b;
    forall d: Cursor | d.depth == 0 && d.comment == ""
      ensures SameWords(ScanFrom(x, d), ScanFrom(y, d))
    {
      CommentLikeBlank(blank, pieces, b, d);
    }
    AfterSettled(a, x, y, FRESH);
    assert a + x == a + [blank] + b && a + y == a + "(" + Written(pieces) + ")" + b;
    SameWordsSameReading(ScanFrom(a + x, FRESH), ScanFrom(a + y, FRESH));
  }
}
