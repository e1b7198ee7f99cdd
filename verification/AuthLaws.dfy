/** What the reader makes of fields the grammar does not foresee: quotes and comments nobody
    closed, methods and clauses that cannot be read, and the rules by which they are told. */
module AuthLaws {
  import opened Basics
  import opened Text
  import opened AuthScan
  import opened AuthParse
  import opened AuthSegments
  import opened AuthComments

  // ---------------------------------------------------------------- what nobody closed

  predicate Plain(t: string) {
    forall i :: 0 <= i < |t| ==> t[i] !in {'"', ';', '\\'}
  }

  lemma {:induction false} UntilPlain(t: string, rest: string, stop: char)
    requires Plain(t) && stop in {'"', ';'} && (rest == "" || rest[0] == stop)
    ensures Until(t + rest, stop) == Stop(t, |t|, rest != "")
    decreases |t|
  {
    hide Until;
    var s := t + rest;
    if t == "" {
      assert s == rest;
      if rest == "" {
        UntilEmpty(stop);
      } else {
        UntilHere(rest, stop);
      }
    } else {
      assert s[1..] == t[1..] + rest && s[0] == t[0];
      UntilStep(s, stop);
      UntilPlain(t[1..], rest, stop);
      assert [t[0]] + t[1..] == t;
    }
  }

  lemma UntilEmpty(stop: char)
    ensures Until("", stop) == Stop("", 0, false)
  {
  }

  lemma QuoteEnds(t: string, b: string, c: Cursor)
    requires Plain(t) && '"' !in b && (b == "" || b[0] == ';') && c.depth == 0
    ensures SameWords(ScanFrom("\"" + t + b, c), ScanFrom("\"" + t + "\"" + b, c))
  {
    hide ScanFrom, Until;
    var x, y := "\"" + t + b, "\"" + t + "\"" + b;
    assert x[1..] == t + b && y[1..] == t + ("\"" + b);
    UntilAbsent(t + b, '"');
    UntilPlain(t, b, ';');
    UntilPlain(t, "\"" + b, '"');
    ScanQuoted(x, c);
    ScanQuoted(y, c);
    assert x[1 + |t|..] == b && y[2 + |t|..] == b;
    var read := c.(read := c.read + t, quoted := true);
    SimilarScan(b, read.(raw := c.raw + x[..1 + |t|]), read.(raw := c.raw + y[..2 + |t|]));
  }

  /** A quoted string nobody closed reads as if it were closed where its segment ends. */
  lemma UnclosedQuoteRead(a: string, t: string, b: string)
    requires Settles(a, 0, true) && Plain(t) && '"' !in b && (b == "" || b[0] == ';')
    ensures Reading(Parse(a + "\"" + t + b)) == Reading(Parse(a + "\"" + t + "\"" + b))
  {
    hide ScanFrom, HeaderOf, Reading, SameWords;
    var x, y := "\"" + t + b, "\"" + t + "\"" + b;
    forall d: Cursor | d.depth == 0 && d.comment == ""
      ensures SameWords(ScanFrom(x, d), ScanFrom(y, d))
    {
      QuoteEnds(t, b, d);
    }
    AfterSettled(a, x, y, FRESH);
    assert a + x == a + "\"" + t + b && a + y == a + "\"" + t + "\"" + b;
    SameWordsSameReading(ScanFrom(a + x, FRESH), ScanFrom(a + y, FRESH));
  }

  lemma {:induction false} CommentSwallows(t: string, c: Cursor)
    requires c.depth > 0 && c.read == "" && !c.quoted && ')' !in t
    ensures |ScanFrom(t, c)| == 1 && ScanFrom(t, c)[0].words == c.words
    decreases |t|
  {
    hide ScanFrom;
    if t == "" {
      ScanEmpty(c);
    } else {
      ScanInComment(t, c);
      if t[0] != '\\' {
        CommentSwallows(t[1..], CommentChar(c, t[0]));
      } else if |t| == 1 {
        CommentSwallows("", c.(raw := c.raw + t));
      } else {
        CommentSwallows(t[2..], c.(raw := c.raw + t[..2], comment := c.comment + [t[1]]));
      }
    }
  }

  /** A comment nobody closed takes the rest of the field with it, and nothing before it. */
  lemma UnclosedCommentRead(a: string, t: string)
    requires Settles(a, 0, true) && ')' !in t
    ensures Reading(Parse(a + "(" + t)) == Reading(Parse(a))
  {
    hide ScanFrom, HeaderOf, Reading;
    var x := "(" + t;
    forall d: Cursor | d.depth == 0 && d.comment == ""
      ensures SameWords(ScanFrom(x, d), ScanFrom("", d))
    {
      assert x[1..] == t;
      ScanPlain(x, d);
      CommentSwallows(t, PlainChar(d, '('));
      ScanEmpty(d);
    }
    AfterSettled(a, x, "", FRESH);
    assert a + x == a + "(" + t && a + "" == a;
    SameWordsSameReading(ScanFrom(a + x, FRESH), ScanFrom(a + "", FRESH));
  }

  // ---------------------------------------------------------------- what a clause says

  /** An item with no equals sign says nothing; one whose key is "reason", in any case, gives the
      reason; any other is a property, unless it names none. */
  lemma ClauseExactly(key: string, value: string)
    requires '=' !in key
    ensures ReadClause(key) == Nothing
    ensures var k, v := Lower(TrimSpace(key)), TrimSpace(value);
            var read := ReadClause(key + "=" + value);
            && (k == "reason" ==> read == Reason(v))
            && (k != "reason" && '.' !in k ==> read == if k == "" then Nothing else Prop(Property("", k, v)))
            && forall j :: 0 <= j < |k| && k[j] == '.' && '.' !in k[..j] ==>
                 read == if j == |k| - 1 then Nothing else Prop(Property(k[..j], k[j + 1..], v))
  {
    hide Cut, Lower, TrimSpace;
    assert key + ['='] + value == key + "=" + value;
    CutAt(key, '=', value);
    CutAbsent(key, '=');
    var k := Lower(TrimSpace(key));
    if '.' !in k {
      CutAbsent(k, '.');
    }
    forall j | 0 <= j < |k| && k[j] == '.' && '.' !in k[..j]
      ensures Cut(k, '.') == Halves(k[..j], k[j + 1..], true) && k != "reason"
    {
      CutPlace(k, '.', j);
      assert '.' !in "reason";
    }
  }

  lemma CutAbsent(s: string, c: char)
    requires c !in s
    ensures Cut(s, c) == Halves(s, "", false)
  {
  }

  /** Properties come in the order of their clauses; the last reason given is the reason. */
  lemma ClausesAdd(items: seq<string>, item: string)
    ensures Clauses([]) == ("", [])
    ensures var (reason, properties) := Clauses(items);
            Clauses(items + [item]) ==
              (if ReadClause(item).Reason? then ReadClause(item).value else reason,
               properties + if ReadClause(item).Prop? then [ReadClause(item).property] else [])
  {
    hide ReadClause;
    assert (items + [item])[..|items|] == items;
    assert Clauses(items).1 + [] == Clauses(items).1;
  }

  // ---------------------------------------------------------------- what a method says

  predicate IsVersion(s: string) {
    s != "" && forall i :: 0 <= i < |s| ==> '0' <= s[i] <= '9'
  }

  /** Without an equals sign in its first item, or a name before it, there is no method. */
  lemma NoMethodRead(name: string, version: string, result: string, rest: seq<string>, written: Segment)
    requires '=' !in name && '=' !in version && '/' !in name && AllSpace(name)
    ensures ReadMethod([], written) == None
    ensures ReadMethod([name + version] + rest, written) == None
    ensures ReadMethod([name + "=" + result] + rest, written) == None
    ensures ReadMethod([name + "/" + version + "=" + result] + rest, written) == None
  {
    hide Cut, Lower, TrimSpace, Clauses;
    SpecCut(name, version, result);
    assert '=' !in name + version;
    assert Lower(TrimSpace(name)) == "" by {
      assert TrimSpace(name) == "";
    }
  }

  lemma SpecCut(name: string, version: string, result: string)
    requires '=' !in name && '=' !in version && '/' !in name
    ensures Cut(name + "=" + result, '=') == Halves(name, result, true) && '=' in name + "=" + result
    ensures Cut(name + "/" + version + "=" + result, '=') == Halves(name + "/" + version, result, true)
    ensures '=' in name + "/" + version + "=" + result
    ensures Cut(name, '/') == Halves(name, "", false) && Cut(name + "/" + version, '/') == Halves(name, version, true)
  {
    hide Cut;
    CutAt(name, '=', result);
    CutAt(name + "/" + version, '=', result);
    CutAt(name, '/', version);
    CutAbsent(name, '/');
    assert name + ['='] + result == name + "=" + result && (name + "=" + result)[|name|] == '=';
    assert name + "/" + version + ['='] + result == name + "/" + version + "=" + result;
    assert (name + "/" + version + "=" + result)[|name + "/" + version|] == '=';
    assert name + ['/'] + version == name + "/" + version;
  }

  /** A method is its name and its result, in lower case and trimmed, the version of itself when
      a slash and a number follow its name, and what its clauses say. */
  lemma MethodReadExactly(name: string, version: string, result: string, rest: seq<string>, written: Segment)
    requires '=' !in name && '=' !in version && '/' !in name && !AllSpace(name)
    ensures var (reason, properties) := Clauses(rest);
            var v := TrimSpace(version);
            var m := Method(Lower(TrimSpace(name)), "", Lower(TrimSpace(result)), reason, properties, written.comments, written.raw);
            && ReadMethod([name + "=" + result] + rest, written) == Some(m)
            && ReadMethod([name + "/" + version + "=" + result] + rest, written)
                 == Some(m.(version := if IsVersion(v) then v else ""))
  {
    hide Cut, Lower, TrimSpace, Clauses;
    SpecCut(name, version, result);
    assert TrimSpace(name) != "" && |Lower(TrimSpace(name))| == |TrimSpace(name)|;
    assert ([name + "=" + result] + rest)[1..] == rest;
    assert ([name + "/" + version + "=" + result] + rest)[1..] == rest;
  }

  // ---------------------------------------------------------------- what a field says

  /** The first segment names the service, and the version when a number comes next. */
  lemma HeadExactly(s: Segment)
    ensures var head := Glue(s.words);
            if head == [] then HeaderOf([s]) == None
            else HeaderOf([s]) == Some(Header(head[0], if |head| > 1 && IsVersion(head[1]) then head[1] else "", false, []))
  {
    hide Glue, ReadMethod;
    assert [s][1..] == [];
  }

  /** Each further segment says that nothing was checked, adds the method it is read as, or, when
      it cannot be read, changes nothing. */
  lemma SegmentAdds(segments: seq<Segment>, s: Segment)
    requires segments != []
    ensures var before, after := HeaderOf(segments), HeaderOf(segments + [s]);
            var items := Glue(s.words);
            var m := ReadMethod(items, s);
            if before.None? then after == None
            else if |items| == 1 && Lower(items[0]) == "none" then after == Some(before.value.(none := true))
            else after == Some(before.value.(methods := before.value.methods + if m.Some? then [m.value] else []))
  {
    hide Glue, ReadMethod, Lower;
    var rest := segments[1..];
    var more := rest + [s];
    assert (segments + [s])[0] == segments[0] && (segments + [s])[1..] == more && more[..|rest|] == rest;
    AnyNoneSnoc(more);
    LowerNone();
    assert MethodsOf(rest) + [] == MethodsOf(rest);
  }

  lemma LowerNone()
    ensures Lower("none") == "none"
  {
  }
}
