/** Whole documents: the validator reports what the recursive walk does, and reports no error
    exactly when the document conforms to the profile. */
module SvgDocument {
  import opened SvgProfile
  import opened SvgMachine
  import opened SvgTree
  import opened SvgRefinement

  // ---------------------------------------------------------------- the walk over a document

  /** The profile fixes the root element to <svg>. */
  function JudgeRoot(p: Profile, name: Name): Verdict
    requires HasRoot(p)
  {
    if name.local == "svg" then Accepted(p.elements["svg"], false) else Rejected(WrongRoot(name.local))
  }

  /** The root declares no SVG namespace, so its descendants may leave theirs out. */
  predicate Unnamespaced(root: Node)
    requires root.ElemNode?
  {
    root.name.local == "svg" && root.name.space != SVG_NS
  }

  function RootRole(p: Profile, root: Node): Role
    requires HasRoot(p) && root.ElemNode?
  {
    RoleOf(JudgeRoot(p, root.name), root.name.local)
  }

  function RootOpening(p: Profile, name: Name, attrs: seq<Attr>, line: nat): seq<Report>
    requires HasRoot(p)
  {
    (if name.local == "svg" && name.space != SVG_NS then [Report(Error, WrongRootNamespace(name.space), line)] else [])
    + OpeningReports(p, JudgeRoot(p, name), name, attrs, line)
  }

  function WalkRoot(p: Profile, root: Node): seq<Report>
    requires HasRoot(p) && root.ElemNode?
  {
    RootOpening(p, root.name, root.attrs, root.openLine)
    + WalkAll(p, Unnamespaced(root), RootRole(p, root), root.children)
    + ContentOf(p, Unnamespaced(root), RootRole(p, root), root.children, root.closeLine)
  }

  /** Every report of a document: its prologue, its root, and what follows the root. */
  function WalkDocument(p: Profile, nodes: seq<Node>): seq<Report>
    requires HasRoot(p)
  {
    if nodes == [] then []
    else if nodes[0].ElemNode? then WalkRoot(p, nodes[0]) + WalkAll(p, Unnamespaced(nodes[0]), Document, nodes[1..])
    else Walk(p, false, Document, nodes[0]) + WalkDocument(p, nodes[1..])
  }

  function RootColours(p: Profile, root: Node): set<string>
    requires HasRoot(p) && root.ElemNode?
  {
    (if root.name.local == "svg" then AllColours(p.elements["svg"], root.attrs) else {})
    + ColoursAll(p, Unnamespaced(root), RootRole(p, root), root.children)
  }

  function DocumentColours(p: Profile, nodes: seq<Node>): set<string>
    requires HasRoot(p)
  {
    if nodes == [] then {}
    else if nodes[0].ElemNode? then RootColours(p, nodes[0]) + ColoursAll(p, Unnamespaced(nodes[0]), Document, nodes[1..])
    else DocumentColours(p, nodes[1..])
  }

  predicate HasElement(nodes: seq<Node>) {
    exists i :: 0 <= i < |nodes| && nodes[i].ElemNode?
  }

  predicate RootIsSvg(nodes: seq<Node>) {
    nodes != [] && if nodes[0].ElemNode? then nodes[0].name.local == "svg" else RootIsSvg(nodes[1..])
  }

  // ---------------------------------------------------------------- the root element

  /** The machine just inside the root. */
  function InsideRoot(p: Profile, c: Cursor, name: Name, attrs: seq<Attr>): Cursor
    requires HasRoot(p)
  {
    var svg := name.local == "svg";
    Push(c, if svg then OpenFrame("svg", p.elements["svg"], false) else SkippedFrame(name.local))
      .(rootSeen := true, rootIsSvg := c.rootIsSvg || svg, unnamespaced := c.unnamespaced || (svg && name.space != SVG_NS),
        colours := c.colours + if svg then AllColours(p.elements["svg"], attrs) else {})
  }

  predicate Untouched(c: Cursor) {
    c.stack == [] && !c.rootSeen && !c.rootIsSvg && !c.unnamespaced && !c.metadataWarned && c.colours == {}
  }

  lemma RootStarts(p: Profile, c: Cursor, name: Name, attrs: seq<Attr>, line: nat)
    requires HasRoot(p) && Untouched(c)
    ensures OnStart(p, c, name, attrs, line) == (InsideRoot(p, c, name, attrs), RootOpening(p, name, attrs, line))
    ensures Stands(InsideRoot(p, c, name, attrs), RoleOf(JudgeRoot(p, name), name.local))
    ensures !Mentions(RootOpening(p, name, attrs, line)) && Graded(RootOpening(p, name, attrs, line))
  {
    hide ElementReports, AllColours, Mentions, Graded, Grade;
    var own := OpeningReports(p, JudgeRoot(p, name), name, attrs, line);
    assert [] + own == own && c.colours + {} == c.colours;
    assert name.local == "svg" ==> own == ElementReports(p, "svg", p.elements["svg"], attrs, line);
    RootPlain(p, name, attrs, line);
  }

  lemma RootPlain(p: Profile, name: Name, attrs: seq<Attr>, line: nat)
    requires HasRoot(p)
    ensures !Mentions(RootOpening(p, name, attrs, line)) && Graded(RootOpening(p, name, attrs, line))
  {
    hide OpeningReports;
    var v := JudgeRoot(p, name);
    OpeningOnce(p, v, name, attrs, line, false);
    var wrong := if name.local == "svg" && name.space != SVG_NS then [Report(Error, WrongRootNamespace(name.space), line)] else [];
    MentionsConcat(wrong, OpeningReports(p, v, name, attrs, line));
  }

  /** The machine after the root element and everything in it. */
  function AfterRoot(p: Profile, c: Cursor, root: Node): Cursor
    requires HasRoot(p) && root.ElemNode?
  {
    InsideRoot(p, c, root.name, root.attrs).(stack := [], metadataWarned := Mentions(WalkRoot(p, root)),
                                            colours := RootColours(p, root))
  }

  lemma RootEndReports(p: Profile, c: Cursor, root: Node)
    requires HasRoot(p) && Untouched(c) && root.ElemNode?
    requires Stands(InsideRoot(p, c, root.name, root.attrs), RootRole(p, root))
    ensures var c2 := AfterAll(p, InsideRoot(p, c, root.name, root.attrs), RootRole(p, root), root.children);
            ContentOf(p, Unnamespaced(root), RootRole(p, root), root.children, root.closeLine)
              == Step(p, c2, At(End, root.closeLine)).1
  {
    hide WalkAll, ColoursAll, AllColours, FirstChildReports, ContentReports, Mentions, FirstAt, FirstsIn, TextIn, HasRoot;
    var c1 := InsideRoot(p, c, root.name, root.attrs);
    var role, un := RootRole(p, root), Unnamespaced(root);
    ToldAllCounts(p, un, role, Top(c1).value, root.children);
    assert "" + TextIn(role, root.children) == TextIn(role, root.children);
  }

  lemma RootEndCursor(p: Profile, c: Cursor, root: Node)
    requires HasRoot(p) && Untouched(c) && root.ElemNode?
    requires Stands(InsideRoot(p, c, root.name, root.attrs), RootRole(p, root))
    ensures var c2 := AfterAll(p, InsideRoot(p, c, root.name, root.attrs), RootRole(p, root), root.children);
            Step(p, c2, At(End, root.closeLine)).0 == AfterRoot(p, c, root)
  {
    hide WalkAll, ColoursAll, AllColours, ClosingReports, Mentions, RootOpening, ContentOf, ToldAll, HasRoot, Graded;
    var c1 := InsideRoot(p, c, root.name, root.attrs);
    var role, un := RootRole(p, root), Unnamespaced(root);
    assert c1.stack == [Top(c1).value];
    assert c1.colours + ColoursAll(p, un, role, root.children) == RootColours(p, root);
    var opening, middle := RootOpening(p, root.name, root.attrs, root.openLine), WalkAll(p, un, role, root.children);
    var content := ContentOf(p, un, role, root.children, root.closeLine);
    RootStarts(p, c, root.name, root.attrs, root.openLine);
    ContentPlain(p, un, role, root.children, root.closeLine);
    MentionsConcat(opening + middle, content);
    MentionsConcat(opening, middle);
  }

  /** Running over the root element and its content does what the walk says. */
  lemma RootAgrees(p: Profile, c: Cursor, root: Node)
    requires HasRoot(p) && Untouched(c) && root.ElemNode?
    ensures Run(p, c, Tokens(root)) == (AfterRoot(p, c, root), Once(WalkRoot(p, root), false))
  {
    hide HasRoot, Step, Run, AfterAll, AfterRoot, Once, Mentions, RootOpening, ContentOf, WalkAll, Serialize, Graded;
    hide InsideRoot, Stands;
    var ElemNode(name, attrs, openLine, children, closeLine) := root;
    var role, un, c1 := RootRole(p, root), Unnamespaced(root), InsideRoot(p, c, name, attrs);
    var opening, middle := RootOpening(p, name, attrs, openLine), WalkAll(p, un, role, children);
    var content := ContentOf(p, un, role, children, closeLine);
    RootStarts(p, c, name, attrs, openLine);
    StartSteps(p, c, name, attrs, openLine);
    RootKeeps(p, c, name, attrs);
    ForestAgrees(p, c1, role, children);
    RootEndReports(p, c, root);
    RootEndCursor(p, c, root);
    RunOne(p, c, At(Start(name, attrs), openLine));
    RunConcat(p, c, [At(Start(name, attrs), openLine)], Serialize(children));
    RunOne(p, AfterAll(p, c1, role, children), At(End, closeLine));
    RunConcat(p, c, [At(Start(name, attrs), openLine)] + Serialize(children), [At(End, closeLine)]);
    ContentPlain(p, un, role, children, closeLine);
    OncePlain(opening, false);
    OnceConcat(opening, middle, false);
    OnceConcat(opening + middle, content, false);
    OncePlain(content, Mentions(opening + middle));
  }

  lemma RootKeeps(p: Profile, c: Cursor, name: Name, attrs: seq<Attr>)
    requires HasRoot(p) && Untouched(c)
    ensures var c1 := InsideRoot(p, c, name, attrs);
            && c1.rootSeen && !c1.metadataWarned
            && c1.unnamespaced == (name.local == "svg" && name.space != SVG_NS)
            && c1.rootIsSvg == (name.local == "svg")
  {
  }

  // ---------------------------------------------------------------- whole documents

  lemma {:induction false} DocumentAgrees(p: Profile, c: Cursor, nodes: seq<Node>)
    requires HasRoot(p) && Untouched(c)
    ensures var (c', reports) := Run(p, c, Serialize(nodes));
            && reports == Once(WalkDocument(p, nodes), false)
            && c'.rootSeen == HasElement(nodes) && c'.rootIsSvg == RootIsSvg(nodes)
            && c'.colours == DocumentColours(p, nodes)
    decreases |nodes|
  {
    hide HasRoot, Step, Tokens, Walk, Once, Mentions, Colours, RootColours, WalkRoot, Told;
    if nodes == [] {
      NothingOnce();
    } else if nodes[0].ElemNode? {
      AfterTheRoot(p, c, nodes);
    } else {
      LeafAgrees(p, c, Document, nodes[0]);
      LeafBefore(p, c, nodes[0]);
      DocumentAgrees(p, c, nodes[1..]);
      RunConcat(p, c, Tokens(nodes[0]), Serialize(nodes[1..]));
      OnceConcat(Walk(p, false, Document, nodes[0]), WalkDocument(p, nodes[1..]), false);
      HasElementCons(nodes);
    }
  }

  lemma NothingOnce()
    ensures Once([], false) == []
  {
  }

  /** Nothing before the root leaves a trace in the machine. */
  lemma LeafBefore(p: Profile, c: Cursor, node: Node)
    requires HasRoot(p) && Untouched(c) && !node.ElemNode?
    ensures AfterNode(p, c, Document, node) == c && !Mentions(Walk(p, false, Document, node))
  {
    hide IsDoctype;
  }

  lemma HasElementCons(nodes: seq<Node>)
    requires nodes != []
    ensures HasElement(nodes) <==> nodes[0].ElemNode? || HasElement(nodes[1..])
  {
  }

  lemma AfterTheRoot(p: Profile, c: Cursor, nodes: seq<Node>)
    requires HasRoot(p) && Untouched(c) && nodes != [] && nodes[0].ElemNode?
    ensures var (c', reports) := Run(p, c, Serialize(nodes));
            && reports == Once(WalkDocument(p, nodes), false)
            && c'.rootSeen == HasElement(nodes) && c'.rootIsSvg == RootIsSvg(nodes)
            && c'.colours == DocumentColours(p, nodes)
  {
    hide HasRoot, Step, Tokens, WalkAll, Once, Mentions, ColoursAll, RootColours, WalkRoot, Run, ToldAll;
    var root, rest := nodes[0], nodes[1..];
    RootAgrees(p, c, root);
    RootKeeps(p, c, root.name, root.attrs);
    var c1 := AfterRoot(p, c, root);
    ForestAgrees(p, c1, Document, rest);
    RunConcat(p, c, Tokens(root), Serialize(rest));
    OnceConcat(WalkRoot(p, root), WalkAll(p, Unnamespaced(root), Document, rest), false);
    assert HasElement(nodes);
  }

  /** The problem list of a document: the reports of the recursive walk, the whole-document
      checks after them, merged. */
  function DocumentReports(p: Profile, nodes: seq<Node>, lastLine: nat): seq<Report>
    requires HasRoot(p)
  {
    Once(WalkDocument(p, nodes), false)
    + FinalReports(HasElement(nodes), RootIsSvg(nodes), DocumentColours(p, nodes), lastLine)
  }

  /** The one-pass machine, started on the tokens of any document, makes the reports of the
      recursive walk: same wording, severity, line and order. */
  lemma MachineRefinesWalk(p: Profile, nodes: seq<Node>, lastLine: nat)
    requires HasRoot(p)
    ensures var (c, reports) := Run(p, START, Serialize(nodes));
            reports + FinalReports(c.rootSeen, c.rootIsSvg, c.colours, lastLine) == DocumentReports(p, nodes, lastLine)
  {
    hide Run, Once, FinalReports;
    DocumentAgrees(p, START, nodes);
  }
}
