/** The refinement: reading the tokens of a tree, the stack machine ends where the recursive
    walk says, with every open element below untouched. */
module SvgRefinement {
  import opened Basics
  import opened Text
  import opened SvgProfile
  import opened SvgMachine
  import opened SvgTree

  // ---------------------------------------------------------------- frames and roles

  /** The machine stands where the walk stands. */
  predicate Stands(c: Cursor, role: Role) {
    match role
    case Document => c.stack == []
    case Skipped => Top(c).Some? && Top(c).value.skip && Top(c).value.elem.None?
    case Kept(name, elem) =>
      && Top(c).Some?
      && var f := Top(c).value;
         !f.skip && f.elem == Some(elem) && f.name == name && f.metadata == (name == "metadata")
  }

  /** What an open element learns from one of its children. */
  function Told(p: Profile, un: bool, role: Role, f: Frame, node: Node): Frame {
    if node.TextNode? && role.Kept? && role.elem.allowsText then f.(text := f.text + node.text)
    else if IsFirst(p, un, role, node) then CountFirst(CountChild(f))
    else if IsCounted(un, role, node) then CountChild(f)
    else f
  }

  function ToldAll(p: Profile, un: bool, role: Role, f: Frame, nodes: seq<Node>): Frame
    decreases |nodes|
  {
    if nodes == [] then f else ToldAll(p, un, role, Told(p, un, role, f, nodes[0]), nodes[1..])
  }

  lemma ToldFields(p: Profile, un: bool, role: Role, f: Frame, node: Node)
    ensures Told(p, un, role, f, node) ==
              f.(children := f.children + if IsCounted(un, role, node) then 1 else 0,
                 firstCount := f.firstCount + (if IsFirst(p, un, role, node) then 1 else 0),
                 firstIndex := if IsFirst(p, un, role, node) && f.firstIndex < 0 then f.children else f.firstIndex,
                 text := f.text + if node.TextNode? && role.Kept? && role.elem.allowsText then node.text else "")
    ensures IsFirst(p, un, role, node) ==> IsCounted(un, role, node)
  {
  }

  /** What an element has counted at its end is what its children are. */
  lemma {:induction false} ToldAllCounts(p: Profile, un: bool, role: Role, f: Frame, nodes: seq<Node>)
    requires f.firstIndex >= 0 <==> f.firstCount > 0
    requires f.firstIndex >= -1
    ensures var g := ToldAll(p, un, role, f, nodes);
            && g == f.(children := g.children, firstCount := g.firstCount, firstIndex := g.firstIndex, text := g.text)
            && g.children == f.children + CountedIn(un, role, nodes)
            && g.firstCount == f.firstCount + FirstsIn(p, un, role, nodes)
            && g.text == f.text + TextIn(role, nodes)
            && g.firstIndex == if f.firstIndex >= 0 then f.firstIndex
                               else if FirstAt(p, un, role, nodes) < 0 then -1
                               else f.children + FirstAt(p, un, role, nodes)
    decreases |nodes|
  {
    hide IsFirst, IsCounted, Told;
    if nodes != [] {
      ToldFields(p, un, role, f, nodes[0]);
      ToldAllCounts(p, un, role, Told(p, un, role, f, nodes[0]), nodes[1..]);
    } else {
      assert f.text + TextIn(role, nodes) == f.text;
    }
  }

  /** The machine after the tokens of a node. */
  function AfterNode(p: Profile, c: Cursor, role: Role, node: Node): Cursor
    requires Stands(c, role)
  {
    var c1 := if c.stack == [] then c else SetTop(c, Told(p, c.unnamespaced, role, Top(c).value, node));
    c1.(metadataWarned := c.metadataWarned || Mentions(Walk(p, c.unnamespaced, role, node)),
        colours := c.colours + Colours(p, c.unnamespaced, role, node))
  }

  function AfterAll(p: Profile, c: Cursor, role: Role, nodes: seq<Node>): Cursor
    requires Stands(c, role)
  {
    var c1 := if c.stack == [] then c else SetTop(c, ToldAll(p, c.unnamespaced, role, Top(c).value, nodes));
    c1.(metadataWarned := c.metadataWarned || Mentions(WalkAll(p, c.unnamespaced, role, nodes)),
        colours := c.colours + ColoursAll(p, c.unnamespaced, role, nodes))
  }

  /** Running over a node does what the walk says: the same reports, and nothing below the
      innermost open element touched. */
  ghost predicate Agrees(p: Profile, c: Cursor, role: Role, node: Node)
    requires HasRoot(p) && Stands(c, role)
  {
    Run(p, c, Tokens(node)) ==
      (AfterNode(p, c, role, node), Once(Walk(p, c.unnamespaced, role, node), c.metadataWarned))
  }

  ghost predicate AgreesAll(p: Profile, c: Cursor, role: Role, nodes: seq<Node>)
    requires HasRoot(p) && Stands(c, role)
  {
    Run(p, c, Serialize(nodes)) ==
      (AfterAll(p, c, role, nodes), Once(WalkAll(p, c.unnamespaced, role, nodes), c.metadataWarned))
  }

  // ---------------------------------------------------------------- runs

  lemma RunOne(p: Profile, c: Cursor, t: Located)
    requires HasRoot(p)
    ensures Run(p, c, [t]) == Step(p, c, t)
  {
    hide Step;
    assert [t][..0] == [];
    assert Run(p, c, []) == (c, []);
    assert [] + Step(p, c, t).1 == Step(p, c, t).1;
  }

  lemma {:induction false} RunConcat(p: Profile, c: Cursor, a: seq<Located>, b: seq<Located>)
    requires HasRoot(p)
    ensures var (c1, before) := Run(p, c, a);
            var (c2, after) := Run(p, c1, b);
            Run(p, c, a + b) == (c2, before + after)
    decreases |b|
  {
    hide Step, HasRoot;
    if b == [] {
      assert a + b == a;
      assert Run(p, c, a).1 + [] == Run(p, c, a).1;
    } else {
      var n := |b| - 1;
      assert (a + b)[..|a + b| - 1] == a + b[..n] && (a + b)[|a + b| - 1] == b[n];
      RunConcat(p, c, a, b[..n]);
      var (c1, before) := Run(p, c, a);
      var (c2, after) := Run(p, c1, b[..n]);
      var last := Step(p, c2, b[n]).1;
      assert (before + after) + last == before + (after + last);
    }
  }

  // ---------------------------------------------------------------- leaves

  lemma LeafSteps(p: Profile, c: Cursor, role: Role, node: Node)
    requires HasRoot(p) && Stands(c, role) && !node.ElemNode?
    ensures var reports := Walk(p, c.unnamespaced, role, node);
            && Step(p, c, Tokens(node)[0]).1 == reports
            && Once(reports, c.metadataWarned) == reports && !Mentions(reports)
  {
    hide HasRoot, IsDoctype, Once;
    var reports := Walk(p, c.unnamespaced, role, node);
    assert |reports| <= 1 && !Mentions(reports);
    OncePlain(reports, c.metadataWarned);
  }

  lemma LeafAgrees(p: Profile, c: Cursor, role: Role, node: Node)
    requires HasRoot(p) && Stands(c, role) && !node.ElemNode?
    ensures Agrees(p, c, role, node)
  {
    hide HasRoot, IsDoctype, Walk, Run, Once, Mentions, TextReports;
    RunOne(p, c, Tokens(node)[0]);
    LeafSteps(p, c, role, node);
    assert c.colours + {} == c.colours;
    if c.stack != [] {
      assert c.stack[..|c.stack| - 1] + [Top(c).value] == c.stack;
    }
  }

  // ---------------------------------------------------------------- elements

  /** The machine just inside an element. */
  function Inside(p: Profile, c: Cursor, role: Role, name: Name, attrs: seq<Attr>): Cursor
    requires Stands(c, role)
  {
    var v := Judge(p, c.unnamespaced, role, name);
    var node := ElemNode(name, attrs, 0, [], 0);
    var c1 := if c.stack == [] then c else SetTop(c, Told(p, c.unnamespaced, role, Top(c).value, node));
    Push(c1, if v.Accepted? then OpenFrame(name.local, v.elem, name.local == "metadata") else SkippedFrame(name.local))
      .(metadataWarned := c.metadataWarned || v.Tolerated?,
        colours := c.colours + if v.Accepted? then AllColours(v.elem, attrs) else {})
  }

  lemma JudgeWording(p: Profile, un: bool, role: Role, name: Name)
    ensures var v := Judge(p, un, role, name);
            v.Rejected? ==> v.wording != MetadataHoldsElements && Grade(v.wording) == Error
  {
  }

  lemma StartReports(p: Profile, c: Cursor, role: Role, name: Name, attrs: seq<Attr>, line: nat)
    requires HasRoot(p) && Stands(c, role) && c.rootSeen
    ensures var v := Judge(p, c.unnamespaced, role, name);
            OnStart(p, c, name, attrs, line).1 ==
              if v.Tolerated? && c.metadataWarned then [] else OpeningReports(p, v, name, attrs, line)
  {
    hide HasRoot, ElementReports, AllColours;
  }

  lemma StartCursor(p: Profile, c: Cursor, role: Role, name: Name, attrs: seq<Attr>, line: nat)
    requires HasRoot(p) && Stands(c, role) && c.rootSeen
    ensures OnStart(p, c, name, attrs, line).0 == Inside(p, c, role, name, attrs)
  {
    hide HasRoot, PlaceElement, AllColours;
    assert c.colours + {} == c.colours;
    if role.Skipped? || IsForeignMetadata(c.unnamespaced, role, name) {
      if c.stack != [] {
        assert c.stack[..|c.stack| - 1] + [Top(c).value] == c.stack;
      }
    } else {
      PlaceCursor(p, c, role, name, attrs, line);
    }
  }

  /** How the machine places an element is how the profile judges it. */
  lemma PlacementJudged(p: Profile, un: bool, role: Role, f: Option<Frame>, name: Name)
    requires f.Some? == !role.Document? && (role.Kept? ==> f.Some? && f.value.elem == Some(role.elem))
    requires !role.Skipped? && !IsForeignMetadata(un, role, name)
    ensures var v, local := Judge(p, un, role, name), name.local;
            && (v.Accepted? <==> InSvgNamespace(un, name) && local in p.elements && !PlacementOf(f, local).Misplaced?)
            && (v.Accepted? ==> v.elem == p.elements[local])
            && !v.Tolerated? && (role.Document? ==> PlacementOf(f, local).Anywhere?)
    ensures forall attrs, line, nodes, close ::
              var node := ElemNode(name, attrs, line, nodes, close);
              (IsFirst(p, un, role, node) <==>
                 role.Kept? && Judge(p, un, role, name).Accepted? && PlacementOf(f, name.local).First?)
              && (IsCounted(un, role, node) <==> role.Kept?)
  {
  }

  lemma SetTopTwice(c: Cursor, f: Frame, g: Frame)
    requires c.stack != []
    ensures SetTop(c, f).stack != [] && Top(SetTop(c, f)) == Some(f)
    ensures SetTop(SetTop(c, f), g) == SetTop(c, g)
  {
  }

  lemma PlaceCursor(p: Profile, c: Cursor, role: Role, name: Name, attrs: seq<Attr>, line: nat)
    requires HasRoot(p) && Stands(c, role) && !role.Skipped? && !IsForeignMetadata(c.unnamespaced, role, name)
    ensures var c1 := if c.stack == [] then c else SetTop(c, CountChild(Top(c).value));
            PlaceElement(p, c1, name, attrs, line).0 == Inside(p, c, role, name, attrs)
  {
    hide HasRoot, ElementReports, AllColours, Judge, IsFirst, IsCounted, PlacementOf, InSvgNamespace, IsForeignMetadata;
    assert c.colours + {} == c.colours;
    if role.Kept? {
      var f := CountChild(Top(c).value);
      PlacementJudged(p, c.unnamespaced, role, Some(f), name);
      SetTopTwice(c, f, CountFirst(f));
    } else {
      PlacementJudged(p, c.unnamespaced, role, None, name);
    }
  }

  lemma InsideStands(p: Profile, c: Cursor, role: Role, name: Name, attrs: seq<Attr>)
    requires Stands(c, role)
    ensures Stands(Inside(p, c, role, name, attrs), RoleOf(Judge(p, c.unnamespaced, role, name), name.local))
  {
  }

  lemma StartAgrees(p: Profile, c: Cursor, role: Role, name: Name, attrs: seq<Attr>, line: nat)
    requires HasRoot(p) && Stands(c, role) && c.rootSeen
    ensures var v := Judge(p, c.unnamespaced, role, name);
            OnStart(p, c, name, attrs, line) ==
              (Inside(p, c, role, name, attrs), Once(OpeningReports(p, v, name, attrs, line), c.metadataWarned))
    ensures Stands(Inside(p, c, role, name, attrs), RoleOf(Judge(p, c.unnamespaced, role, name), name.local))
  {
    hide OnStart, Inside, Judge, OpeningReports, Once, HasRoot, Grade, Graded, Mentions;
    StartReports(p, c, role, name, attrs, line);
    StartCursor(p, c, role, name, attrs, line);
    InsideStands(p, c, role, name, attrs);
    JudgeWording(p, c.unnamespaced, role, name);
    OpeningOnce(p, Judge(p, c.unnamespaced, role, name), name, attrs, line, c.metadataWarned);
  }

  /** What the end of an element does after its content: its frame is popped and judged. */
  lemma EndPops(p: Profile, c: Cursor, role: Role, nodes: seq<Node>, line: nat)
    requires HasRoot(p) && Stands(c, role) && c.stack != []
    ensures Step(p, AfterAll(p, c, role, nodes), At(End, line)) ==
              (c.(stack := c.stack[..|c.stack| - 1],
                  metadataWarned := c.metadataWarned || Mentions(WalkAll(p, c.unnamespaced, role, nodes)),
                  colours := c.colours + ColoursAll(p, c.unnamespaced, role, nodes)),
               ClosingReports(ToldAll(p, c.unnamespaced, role, Top(c).value, nodes), line))
  {
    hide HasRoot, ToldAll, WalkAll, ColoursAll, Mentions, ClosingReports, Stands;
    var below := c.stack[..|c.stack| - 1];
    assert forall f: Frame :: (below + [f])[..|below|] == below;
  }

  lemma InsideTop(p: Profile, c: Cursor, role: Role, name: Name, attrs: seq<Attr>)
    requires Stands(c, role)
    ensures var c1, v := Inside(p, c, role, name, attrs), Judge(p, c.unnamespaced, role, name);
            && c1.stack != []
            && Top(c1).value == (if v.Accepted? then OpenFrame(name.local, v.elem, name.local == "metadata") else SkippedFrame(name.local))
            && c1.stack[..|c1.stack| - 1] ==
                 (if c.stack == [] then c
                  else SetTop(c, Told(p, c.unnamespaced, role, Top(c).value, ElemNode(name, attrs, 0, [], 0)))).stack
  {
  }

  /** The machine at the end of an element: the frame popped is what its children made it. */
  lemma EndAgrees(p: Profile, c: Cursor, role: Role, name: Name, attrs: seq<Attr>, nodes: seq<Node>, line: nat)
    requires HasRoot(p) && Stands(c, role)
    requires Stands(Inside(p, c, role, name, attrs), RoleOf(Judge(p, c.unnamespaced, role, name), name.local))
    ensures var inner := RoleOf(Judge(p, c.unnamespaced, role, name), name.local);
            var c1 := Inside(p, c, role, name, attrs);
            Step(p, AfterAll(p, c1, inner, nodes), At(End, line)).1 == ContentOf(p, c.unnamespaced, inner, nodes, line)
  {
    hide HasRoot, Judge, Inside, Stands, AfterAll, Step, FirstChildReports, ContentReports;
    var un, c1 := c.unnamespaced, Inside(p, c, role, name, attrs);
    var inner := RoleOf(Judge(p, un, role, name), name.local);
    InsideKeeps(p, c, role, name, attrs);
    InsideTop(p, c, role, name, attrs);
    EndPops(p, c1, inner, nodes, line);
    ToldAllCounts(p, un, inner, Top(c1).value, nodes);
    assert "" + TextIn(inner, nodes) == TextIn(inner, nodes);
  }

  lemma ContentPlain(p: Profile, un: bool, role: Role, nodes: seq<Node>, line: nat)
    ensures !Mentions(ContentOf(p, un, role, nodes, line)) && Graded(ContentOf(p, un, role, nodes, line))
  {
    hide FirstsIn, FirstAt, TextIn, TrimSpace;
  }

  /** A subtree speaks of foreign metadata when its element is such, or something below it is. */
  lemma WalkMentions(p: Profile, un: bool, role: Role, node: Node)
    requires node.ElemNode?
    ensures var v := Judge(p, un, role, node.name);
            Mentions(Walk(p, un, role, node)) <==>
              v.Tolerated? || Mentions(WalkAll(p, un, RoleOf(v, node.name.local), node.children))
  {
    hide Mentions, Judge, OpeningReports, ContentOf, WalkAll, Grade, Graded;
    var v := Judge(p, un, role, node.name);
    var inner := RoleOf(v, node.name.local);
    var opening := OpeningReports(p, v, node.name, node.attrs, node.openLine);
    var content := ContentOf(p, un, inner, node.children, node.closeLine);
    JudgeWording(p, un, role, node.name);
    OpeningOnce(p, v, node.name, node.attrs, node.openLine, false);
    ContentPlain(p, un, inner, node.children, node.closeLine);
    MentionsConcat(opening + WalkAll(p, un, inner, node.children), content);
    MentionsConcat(opening, WalkAll(p, un, inner, node.children));
  }

  /** The machine after an element: what it told its parent, and the colours it painted with. */
  lemma PoppedAgrees(p: Profile, c: Cursor, role: Role, node: Node)
    requires HasRoot(p) && Stands(c, role) && node.ElemNode?
    requires Stands(Inside(p, c, role, node.name, node.attrs),
                    RoleOf(Judge(p, c.unnamespaced, role, node.name), node.name.local))
    ensures var inner := RoleOf(Judge(p, c.unnamespaced, role, node.name), node.name.local);
            var c1 := Inside(p, c, role, node.name, node.attrs);
            Step(p, AfterAll(p, c1, inner, node.children), At(End, node.closeLine)).0 == AfterNode(p, c, role, node)
  {
    hide HasRoot, ToldAll, Walk, WalkAll, ColoursAll, AllColours, Mentions, Judge, RoleOf, Step, AfterAll, Told, ClosingReports, Stands, Inside;
    var un, v := c.unnamespaced, Judge(p, c.unnamespaced, role, node.name);
    var inner := RoleOf(v, node.name.local);
    InsideKeeps(p, c, role, node.name, node.attrs);
    InsideTop(p, c, role, node.name, node.attrs);
    EndPops(p, Inside(p, c, role, node.name, node.attrs), inner, node.children, node.closeLine);
    WalkMentions(p, un, role, node);
    ToldByName(p, un, role, node);
    var own := if v.Accepted? then AllColours(v.elem, node.attrs) else {};
    assert c.colours + own + ColoursAll(p, un, inner, node.children)
        == c.colours + (own + ColoursAll(p, un, inner, node.children));
  }

  lemma ToldByName(p: Profile, un: bool, role: Role, node: Node)
    requires node.ElemNode?
    ensures forall f :: Told(p, un, role, f, node) == Told(p, un, role, f, ElemNode(node.name, node.attrs, 0, [], 0))
  {
  }

  // ---------------------------------------------------------------- whole subtrees

  lemma {:induction false} NodeAgrees(p: Profile, c: Cursor, role: Role, node: Node)
    requires HasRoot(p) && Stands(c, role) && c.rootSeen
    ensures Agrees(p, c, role, node)
    decreases node, 0
  {
    hide HasRoot, Step, Run, AfterNode, AfterAll, Judge, Once, Mentions, OpeningReports, ContentOf, WalkAll, Serialize;
    hide RoleOf;
    if !node.ElemNode? {
      LeafAgrees(p, c, role, node);
    } else {
      var ElemNode(name, attrs, openLine, children, closeLine) := node;
      var un, w := c.unnamespaced, c.metadataWarned;
      var v := Judge(p, un, role, name);
      var inner := RoleOf(v, name.local);
      var c1 := Inside(p, c, role, name, attrs);
      var opening, content := OpeningReports(p, v, name, attrs, openLine), ContentOf(p, un, inner, children, closeLine);
      var middle := WalkAll(p, un, inner, children);
      StartAgrees(p, c, role, name, attrs, openLine);
      StartSteps(p, c, name, attrs, openLine);
      InsideKeeps(p, c, role, name, attrs);
      ForestAgrees(p, c1, inner, children);
      EndAgrees(p, c, role, name, attrs, children, closeLine);
      PoppedAgrees(p, c, role, node);
      RunOne(p, c, At(Start(name, attrs), openLine));
      RunConcat(p, c, [At(Start(name, attrs), openLine)], Serialize(children));
      RunOne(p, AfterAll(p, c1, inner, children), At(End, closeLine));
      RunConcat(p, c, [At(Start(name, attrs), openLine)] + Serialize(children), [At(End, closeLine)]);
      JudgeWording(p, un, role, name);
      OpeningOnce(p, v, name, attrs, openLine, w);
      ContentPlain(p, un, inner, children, closeLine);
      OnceConcat(opening, middle, w);
      OnceConcat(opening + middle, content, w);
      OncePlain(content, w || Mentions(opening + middle));
    }
  }

  lemma StartSteps(p: Profile, c: Cursor, name: Name, attrs: seq<Attr>, line: nat)
    requires HasRoot(p)
    ensures Step(p, c, At(Start(name, attrs), line)) == OnStart(p, c, name, attrs, line)
  {
  }

  lemma InsideKeeps(p: Profile, c: Cursor, role: Role, name: Name, attrs: seq<Attr>)
    requires Stands(c, role)
    ensures var c1, v := Inside(p, c, role, name, attrs), Judge(p, c.unnamespaced, role, name);
            && c1.unnamespaced == c.unnamespaced && c1.rootSeen == c.rootSeen
            && c1.rootIsSvg == c.rootIsSvg
            && c1.metadataWarned == (c.metadataWarned || v.Tolerated?)
            && c1.colours == c.colours + if v.Accepted? then AllColours(v.elem, attrs) else {}
  {
  }

  lemma {:induction false} ForestAgrees(p: Profile, c: Cursor, role: Role, nodes: seq<Node>)
    requires HasRoot(p) && Stands(c, role) && c.rootSeen
    ensures AgreesAll(p, c, role, nodes)
    decreases nodes, 1
  {
    hide HasRoot, Step, Tokens, Walk, Once, Mentions, Colours, Told, Run;
    if nodes == [] {
      EmptyAgrees(p, c, role);
    } else {
      var un := c.unnamespaced;
      NodeAgrees(p, c, role, nodes[0]);
      var c1 := AfterNode(p, c, role, nodes[0]);
      StandsAfter(p, c, role, nodes[0]);
      ForestAgrees(p, c1, role, nodes[1..]);
      RunConcat(p, c, Tokens(nodes[0]), Serialize(nodes[1..]));
      OnceConcat(Walk(p, un, role, nodes[0]), WalkAll(p, un, role, nodes[1..]), c.metadataWarned);
      AfterTwice(p, c, role, nodes);
    }
  }

  lemma EmptyAgrees(p: Profile, c: Cursor, role: Role)
    requires HasRoot(p) && Stands(c, role)
    ensures AgreesAll(p, c, role, [])
  {
    hide HasRoot;
    assert c.colours + {} == c.colours;
    if c.stack != [] {
      assert c.stack[..|c.stack| - 1] + [Top(c).value] == c.stack;
    }
  }

  lemma StandsAfter(p: Profile, c: Cursor, role: Role, node: Node)
    requires Stands(c, role)
    ensures Stands(AfterNode(p, c, role, node), role)
    ensures AfterNode(p, c, role, node).rootSeen == c.rootSeen
    ensures AfterNode(p, c, role, node).unnamespaced == c.unnamespaced
  {
    hide Walk, Colours, Mentions;
  }

  lemma AfterTwice(p: Profile, c: Cursor, role: Role, nodes: seq<Node>)
    requires nodes != [] && Stands(c, role) && Stands(AfterNode(p, c, role, nodes[0]), role)
    ensures AfterAll(p, AfterNode(p, c, role, nodes[0]), role, nodes[1..]) == AfterAll(p, c, role, nodes)
  {
    hide Walk, Colours, Mentions, Told;
    var un := c.unnamespaced;
    MentionsConcat(Walk(p, un, role, nodes[0]), WalkAll(p, un, role, nodes[1..]));
    var first, rest := Colours(p, un, role, nodes[0]), ColoursAll(p, un, role, nodes[1..]);
    assert c.colours + first + rest == c.colours + (first + rest);
    if c.stack != [] {
      var below, f := c.stack[..|c.stack| - 1], Told(p, un, role, Top(c).value, nodes[0]);
      assert (below + [f])[..|below|] == below;
    }
  }

  /** Every open element below the innermost one is untouched by a subtree, and as many are
      open after it as before. */
  lemma StackNeutral(p: Profile, c: Cursor, role: Role, nodes: seq<Node>)
    requires HasRoot(p) && Stands(c, role) && c.rootSeen
    ensures var c' := Run(p, c, Serialize(nodes)).0;
            && |c'.stack| == |c.stack|
            && (c.stack != [] ==> c'.stack[..|c.stack| - 1] == c.stack[..|c.stack| - 1])
            && (role.Skipped? ==> c'.stack == c.stack && c'.colours == c.colours)
  {
    hide HasRoot, Run, WalkAll, ToldAll, Serialize, Mentions;
    ForestAgrees(p, c, role, nodes);
    if role.Skipped? {
      SkippedTellsNothing(p, c.unnamespaced, Top(c).value, nodes);
    }
  }

  /** All a skipped subtree can be reported for is a directive or a processing instruction. */
  predicate IsProlog(r: Report) {
    r.wording.DoctypeNotAllowed? || r.wording.ProcInstNotAllowed?
  }

  lemma {:induction false} SkippedReports(p: Profile, un: bool, nodes: seq<Node>)
    ensures forall r :: r in WalkAll(p, un, Skipped, nodes) ==> IsProlog(r)
    decreases nodes
  {
    if nodes != [] {
      if nodes[0].ElemNode? {
        SkippedReports(p, un, nodes[0].children);
      }
      SkippedReports(p, un, nodes[1..]);
    }
  }

  lemma {:induction false} SkippedTellsNothing(p: Profile, un: bool, f: Frame, nodes: seq<Node>)
    ensures ToldAll(p, un, Skipped, f, nodes) == f
    ensures ColoursAll(p, un, Skipped, nodes) == {}
    decreases nodes
  {
    if nodes != [] {
      if nodes[0].ElemNode? {
        SkippedTellsNothing(p, un, f, nodes[0].children);
      }
      SkippedTellsNothing(p, un, f, nodes[1..]);
    }
  }
}
