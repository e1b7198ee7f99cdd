/** What the scanner promises about a field as a whole: segments are read independently of
    each other, and a comment stands for a blank. */
module AuthSegments {
  import opened Basics
  import opened AuthScan
  import opened AuthParse

  // ---------------------------------------------------------------- how a text ends

  /** The text ends on a backslash that pairs with nothing. */
  predicate Dangling(t: string)
    decreases |t|
  {
    t != "" && if t[0] == '\\' then |t| == 1 || Dangling(t[2..]) else Dangling(t[1..])
  }

  /** Read from `depth` open comments on, the text leaves no comment open and no backslash
      dangling in an open quote; with `closed` it also closes every quote it opens. */
  predicate Settles(s: string, depth: nat, closed: bool)
    decreases |s|
  {
    if s == "" then depth == 0
    else if depth > 0 then
      if s[0] == '\\' then |s| > 1 && Settles(s[2..], depth, closed)
      else Settles(s[1..], if s[0] == '(' then depth + 1 else if s[0] == ')' then depth - 1 else depth, closed)
    else if s[0] == '"' then
      var t := s[1..];
      var close := Until(t, '"');
      if close.found then Settles(t[close.at + 1..], 0, closed)
      else !closed && !Dangling(t) && Settles(t[Until(t, ';').at..], 0, closed)
    else Settles(s[1..], if s[0] == '(' then 1 else 0, closed)
  }

  lemma {:induction false} UntilExtends(t: string, x: string, stop: char)
    requires Until(t, stop).found
    ensures Until(t + x, stop) == Until(t, stop)
    decreases |t|
  {
    hide Until;
    var s := t + x;
    if t[0] == stop {
      UntilHere(t, stop);
      UntilHere(s, stop);
    } else {
      UntilStep(t, stop);
      UntilStep(s, stop);
      if t[0] == '\\' {
        assert |t| > 1 by { assert |t| == 1 ==> t == ['\\']; }
        assert s[2..] == t[2..] + x && s[1] == t[1];
        UntilExtends(t[2..], x, stop);
      } else {
        assert s[1..] == t[1..] + x;
        UntilExtends(t[1..], x, stop);
      }
    }
  }

  lemma DanglingStep(t: string)
    requires t != ""
    ensures t[0] != '\\' ==> Dangling(t) == Dangling(t[1..])
    ensures t[0] == '\\' ==> if |t| == 1 then Dangling(t) else Dangling(t) == Dangling(t[2..])
  {
  }

  lemma {:induction false} UntilPast(t: string, x: string, stop: char)
    requires !Until(t, stop).found && !Dangling(t)
    ensures var r := Until(x, stop);
            Until(t + x, stop) == Stop(Until(t, stop).text + r.text, |t| + r.at, r.found)
    decreases |t|
  {
    hide Until, Dangling;
    var s := t + x;
    if t == "" {
      assert s == x;
      UntilNothing(stop);
    } else {
      if t[0] == stop {
        UntilHere(t, stop);
      }
      DanglingStep(t);
      UntilStep(t, stop);
      UntilStep(s, stop);
      var n := if t[0] == '\\' then 2 else 1;
      assert s[n..] == t[n..] + x && s[n - 1] == t[n - 1];
      UntilPast(t[n..], x, stop);
    }
  }

  lemma UntilNothing(stop: char)
    ensures Until("", stop) == Stop("", 0, false)
  {
  }

  lemma {:induction false} UntilAbsent(t: string, stop: char)
    requires stop !in t
    ensures !Until(t, stop).found
    decreases |t|
  {
  }

  /** A quoted string takes the same part of a text whether or not more text follows, as long
      as what follows cannot close it. */
  lemma QuotedAtSame(t: string, b: string)
    requires Until(t, '"').found || (!Dangling(t) && '"' !in b)
    ensures QuotedAt(t + ";" + b) == QuotedAt(t)
  {
    hide Until, Dangling;
    var x := ";" + b;
    assert t + ";" + b == t + x;
    if Until(t, '"').found {
      UntilExtends(t, x, '"');
    } else {
      UntilAbsent(x, '"');
      UntilPast(t, x, '"');
      if Until(t, ';').found {
        UntilExtends(t, x, ';');
      } else {
        UntilPast(t, x, ';');
        UntilHere(x, ';');
      }
    }
  }

  // ---------------------------------------------------------------- segments are independent

  /** A field cut at a semicolon reads as its two halves, whatever the second half holds. */
  lemma {:induction false} ScanFromSplits(a: string, b: string, c: Cursor, closed: bool)
    requires Settles(a, c.depth, closed) && (closed || '"' !in b)
    ensures ScanFrom(a + ";" + b, c) == ScanFrom(a, c) + Scan(b)
    decreases |a|
  {
    var s := a + ";" + b;
    if a == "" {
      assert s[0] == ';' && s[1..] == b;
    } else if c.depth > 0 {
      InCommentSplits(a, b, c, closed);
    } else if a[0] == '"' {
      QuoteSplits(a, b, c, closed);
    } else {
      assert s[0] == a[0] && s[1..] == a[1..] + ";" + b;
      if a[0] == ';' {
        ScanFromSplits(a[1..], b, FRESH, closed);
        assert [Finish(c)] + (ScanFrom(a[1..], FRESH) + Scan(b)) == [Finish(c)] + ScanFrom(a[1..], FRESH) + Scan(b);
      } else {
        ScanFromSplits(a[1..], b, PlainChar(c, a[0]), closed);
      }
    }
  }

  lemma {:induction false} InCommentSplits(a: string, b: string, c: Cursor, closed: bool)
    requires a != "" && c.depth > 0
    requires Settles(a, c.depth, closed) && (closed || '"' !in b)
    ensures ScanFrom(a + ";" + b, c) == ScanFrom(a, c) + Scan(b)
    decreases |a|, 0
  {
    hide ScanFrom, Scan;
    var s := a + ";" + b;
    ScanInComment(s, c);
    ScanInComment(a, c);
    assert s[0] == a[0];
    if a[0] == '\\' {
      assert s[1] == a[1] && s[..2] == a[..2] && s[2..] == a[2..] + ";" + b;
      ScanFromSplits(a[2..], b, c.(raw := c.raw + a[..2], comment := c.comment + [a[1]]), closed);
    } else {
      assert s[1..] == a[1..] + ";" + b;
      ScanFromSplits(a[1..], b, CommentChar(c, a[0]), closed);
    }
  }

  lemma {:induction false} QuoteSplits(a: string, b: string, c: Cursor, closed: bool)
    requires a != "" && c.depth == 0 && a[0] == '"'
    requires Settles(a, 0, closed) && (closed || '"' !in b)
    ensures ScanFrom(a + ";" + b, c) == ScanFrom(a, c) + Scan(b)
    decreases |a|, 0
  {
    hide ScanFrom, Scan, Until, Dangling;
    var s, t := a + ";" + b, a[1..];
    var q := QuotedAt(t);
    assert s[0] == a[0] && s[1..] == t + ";" + b;
    QuotedAtSame(t, b);
    ScanQuoted(s, c);
    ScanQuoted(a, c);
    assert s[..1 + q.used] == a[..1 + q.used];
    assert s[1 + q.used..] == a[1 + q.used..] + ";" + b;
    assert a[1 + q.used..] == t[q.used..];
    ScanFromSplits(a[1 + q.used..], b,
      c.(raw := c.raw + a[..1 + q.used], read := c.read + q.content, quoted := true), closed);
  }

  /** Two fields joined by a semicolon, the first of which closes its quotes and comments. */
  lemma SegmentsIndependent(a: string, b: string)
    requires Settles(a, 0, true)
    ensures Scan(a + ";" + b) == Scan(a) + Scan(b)
  {
    ScanFromSplits(a, b, FRESH, true);
  }

  /** A quote nobody closed costs nothing after the next semicolon, as long as nothing after
      it can be taken for its closing quote. */
  lemma UnclosedQuoteContained(a: string, b: string)
    requires Settles(a, 0, false) && '"' !in b
    ensures Scan(a + ";" + b) == Scan(a) + Scan(b)
  {
    ScanFromSplits(a, b, FRESH, false);
  }

  /** In particular, a quote opened at the top level and followed by neither quote, semicolon
      nor backslash is contained in its segment. */
  lemma {:induction false} TrailingQuoteSettles(p: string, t: string, depth: nat)
    requires Settles(p, depth, true)
    requires forall i :: 0 <= i < |t| ==> t[i] != '"' && t[i] != ';' && t[i] != '\\'
    ensures Settles(p + "\"" + t, depth, false)
    decreases |p|
  {
    hide Settles, Until;
    var s := p + "\"" + t;
    if p == "" {
      assert s[0] == '"' && s[1..] == t;
      UntilAbsent(t, '"');
      UntilAbsent(t, ';');
      NotDangling(t);
      SettlesEmpty(depth, true);
      SettlesEmpty(0, false);
      SettlesStep(s, depth, false);
      assert t[|t|..] == "";
    } else {
      SettlesStep(p, depth, true);
      SettlesStep(s, depth, false);
      assert s[0] == p[0];
      if depth == 0 && p[0] == '"' {
        var close := Until(p[1..], '"');
        var rest := p[1..][close.at + 1..];
        UntilExtends(p[1..], "\"" + t, '"');
        assert s[1..] == p[1..] + ("\"" + t);
        assert s[1..][close.at + 1..] == rest + "\"" + t;
        TrailingQuoteSettles(rest, t, 0);
      } else {
        var n := if depth > 0 && p[0] == '\\' then 2 else 1;
        assert s[n..] == p[n..] + "\"" + t;
        TrailingQuoteSettles(p[n..], t, DepthAfter(p[0], depth));
      }
    }
  }

  lemma SettlesEmpty(depth: nat, closed: bool)
    ensures Settles("", depth, closed) <==> depth == 0
  {
  }

  /** How many comments are open after a character that opens no quote. */
  function DepthAfter(c: char, depth: nat): nat {
    if c == '(' then depth + 1 else if c == ')' && depth > 0 then depth - 1 else depth
  }

  lemma SettlesStep(s: string, depth: nat, closed: bool)
    requires s != ""
    ensures depth > 0 && s[0] == '\\' ==> (Settles(s, depth, closed) <==> |s| > 1 && Settles(s[2..], depth, closed))
    ensures depth == 0 && s[0] == '"' ==>
              var t := s[1..];
              (Settles(s, depth, closed) <==>
                 if Until(t, '"').found then Settles(t[Until(t, '"').at + 1..], 0, closed)
                 else !closed && !Dangling(t) && Settles(t[Until(t, ';').at..], 0, closed))
    ensures !(depth > 0 && s[0] == '\\') && !(depth == 0 && s[0] == '"') ==>
              (Settles(s, depth, closed) <==> Settles(s[1..], DepthAfter(s[0], depth), closed))
  {
    hide Until, Dangling;
  }

  lemma {:induction false} NotDangling(t: string)
    requires forall i :: 0 <= i < |t| ==> t[i] != '\\'
    ensures !Dangling(t)
    decreases |t|
  {
    if t != "" {
      NotDangling(t[1..]);
    }
  }

  lemma {:induction false} MethodsOfConcat(s: seq<Segment>, t: seq<Segment>)
    ensures MethodsOf(s + t) == MethodsOf(s) + MethodsOf(t)
    ensures AnyNone(s + t) <==> AnyNone(s) || AnyNone(t)
  {
    hide SaysNone, ReadMethod, Glue;
    if t == [] {
      assert s + t == s;
    } else {
      var n := |t| - 1;
      MethodsOfConcat(s, t[..n]);
      assert (s + t)[..|s + t| - 1] == s + t[..n];
      assert (s + t)[|s + t| - 1] == t[n];
      AnyNoneSnoc(s + t);
      AnyNoneSnoc(t);
    }
  }

  /** A method that closes its quotes and comments, or whose last quote nobody closes, costs
      nothing but itself: those before and after it are the ones read without it. */
  lemma MethodsAroundSurvive(a: string, m: string, b: string, closed: bool)
    requires Settles(a, 0, true) && Parse(a).Some?
    requires Settles(m, 0, closed) && (closed || '"' !in b)
    ensures Parse(a + ";" + b).Some? && Parse(a + ";" + m + ";" + b).Some?
    ensures Parse(a + ";" + b).value.methods == Parse(a).value.methods + MethodsOf(Scan(b))
    ensures Parse(a + ";" + m + ";" + b).value.methods
         == Parse(a).value.methods + MethodsOf(Scan(m)) + MethodsOf(Scan(b))
    ensures Parse(a + ";" + m + ";" + b).value.authservId == Parse(a).value.authservId
  {
    hide Scan, MethodsOf, AnyNone, Glue, Settles;
    ParseJoined(a, b);
    if closed {
      SegmentsIndependent(m, b);
    } else {
      UnclosedQuoteContained(m, b);
    }
    ParseJoined(a, m + ";" + b);
    MethodsOfConcat(Scan(m), Scan(b));
    assert a + ";" + (m + ";" + b) == a + ";" + m + ";" + b;
  }

  lemma ParseJoined(a: string, b: string)
    requires Settles(a, 0, true) && Parse(a).Some?
    ensures Parse(a + ";" + b) == Some(Parse(a).value.(
              none := Parse(a).value.none || AnyNone(Scan(b)),
              methods := Parse(a).value.methods + MethodsOf(Scan(b))))
  {
    hide Scan, MethodsOf, AnyNone, Glue, Settles, IsNumber;
    SegmentsIndependent(a, b);
    var s, t := Scan(a), Scan(b);
    assert (s + t)[0] == s[0] && (s + t)[1..] == s[1..] + t;
    MethodsOfConcat(s[1..], t);
  }
}
