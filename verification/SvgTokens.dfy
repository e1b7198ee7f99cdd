/** What the machine says of single tokens, whatever document they come from: at which line, in
    which order, and of directives and processing instructions, exactly when. */
module SvgTokens {
  import opened Text
  import opened SvgProfile
  import opened SvgMachine
  import opened SvgTree
  import opened SvgDocument
  import opened SvgVerdict
  import opened SvgCauses

  // ---------------------------------------------------------------- directives and instructions

  /** The wording of a DOCTYPE declaration, or of a processing instruction. */
  predicate OfToken(w: Wording) {
    w.DoctypeNotAllowed? || w.ProcInstNotAllowed?
  }

  /** How often a token gives cause for such a wording. */
  function TokenDue(t: Token, w: Wording): nat {
    match t
    case Directive(text) => One(w.DoctypeNotAllowed? && "DOCTYPE" <= TrimSpace(text))
    case ProcInst(target) => One(w.ProcInstNotAllowed? && w.target == target && target != "xml")
    case _ => 0
  }

  function TokensDue(tokens: seq<Located>, w: Wording): nat {
    if tokens == [] then 0 else TokensDue(tokens[..|tokens| - 1], w) + TokenDue(tokens[|tokens| - 1].token, w)
  }

  lemma {:induction false} AttrsSilent(p: Profile, local: string, elem: Element, attrs: seq<Attr>, w: Wording)
    requires OfToken(w)
    ensures ElementDue(p, local, elem, attrs, w) == 0
    decreases |attrs|
  {
    hide NameOf, Declares, Fits;
    if attrs != [] {
      AttrsSilent(p, local, elem, attrs[..|attrs| - 1], w);
    }
  }

  lemma ElementSilent(p: Profile, local: string, elem: Element, attrs: seq<Attr>, line: nat, first: seq<Report>, w: Wording)
    requires OfToken(w) && |first| <= 1 && (first != [] ==> first[0].wording != w)
    ensures Occurrences(first, w) == 0 && Occurrences(first + ElementReports(p, local, elem, attrs, line), w) == 0
  {
    hide Occurrences, ElementReports, ElementDue;
    FewCaused(first, w);
    ElementCaused(p, local, elem, attrs, line, w);
    AttrsSilent(p, local, elem, attrs, w);
    OccurrencesConcat(first, ElementReports(p, local, elem, attrs, line), w);
  }

  lemma PlacedSilent(p: Profile, c: Cursor, name: Name, attrs: seq<Attr>, line: nat, w: Wording)
    requires OfToken(w)
    ensures Occurrences(PlaceElement(p, c, name, attrs, line).1, w) == 0
  {
    hide Occurrences, ElementReports, AllColours;
    if InSvgNamespace(c.unnamespaced, name) && name.local in p.elements && !PlacementOf(Top(c), name.local).Misplaced? {
      var font := if PlacementOf(Top(c), name.local).Font? then [Report(Warning, UnreachableElement(name.local), line)] else [];
      ElementSilent(p, name.local, p.elements[name.local], attrs, line, font, w);
    } else {
      FewCaused(PlaceElement(p, c, name, attrs, line).1, w);
    }
  }

  lemma RootSilent(p: Profile, c: Cursor, name: Name, attrs: seq<Attr>, line: nat, w: Wording)
    requires HasRoot(p) && OfToken(w)
    ensures Occurrences(PlaceRoot(p, c, name, attrs, line).1, w) == 0
  {
    hide Occurrences, ElementReports, AllColours;
    if name.local == "svg" {
      var wrong := if name.space != SVG_NS then [Report(Error, WrongRootNamespace(name.space), line)] else [];
      ElementSilent(p, "svg", p.elements["svg"], attrs, line, wrong, w);
    } else {
      FewCaused(PlaceRoot(p, c, name, attrs, line).1, w);
    }
  }

  lemma StartSilent(p: Profile, c: Cursor, name: Name, attrs: seq<Attr>, line: nat, w: Wording)
    requires HasRoot(p) && OfToken(w)
    ensures Occurrences(OnStart(p, c, name, attrs, line).1, w) == 0
  {
    hide Occurrences, PlaceElement, PlaceRoot, InSvgNamespace;
    var parent := Top(c);
    if (parent.Some? && parent.value.skip) || (parent.Some? && parent.value.metadata && !InSvgNamespace(c.unnamespaced, name)) {
      FewCaused(OnStart(p, c, name, attrs, line).1, w);
    } else {
      var c1 := if parent.Some? then SetTop(c, CountChild(parent.value)) else c;
      RootSilent(p, c1, name, attrs, line, w);
      PlacedSilent(p, c1, name, attrs, line, w);
    }
  }

  lemma StepDue(p: Profile, c: Cursor, t: Located, w: Wording)
    requires HasRoot(p) && OfToken(w)
    ensures Occurrences(Step(p, c, t).1, w) == TokenDue(t.token, w)
  {
    hide Occurrences, OnStart, FirstChildReports, ContentReports, HasRoot;
    match t.token
    case Start(name, attrs) => StartSilent(p, c, name, attrs, t.line, w);
    case End =>
      if c.stack != [] {
        ClosingSilent(c.stack[|c.stack| - 1], t.line, w);
      } else {
        FewCaused([], w);
      }
    case _ => FewCaused(Step(p, c, t).1, w);
  }

  lemma ClosingSilent(f: Frame, line: nat, w: Wording)
    requires OfToken(w)
    ensures Occurrences(ClosingReports(f, line), w) == 0
  {
    hide Occurrences;
    if f.skip || f.elem.None? {
      FewCaused([], w);
    } else {
      var first := FirstChildReports(f.name, f.elem.value.firstChild, f.firstCount, f.firstIndex, line);
      FewCaused(first, w);
      FewCaused(ContentReports(f.name, f.text, line), w);
      OccurrencesConcat(first, ContentReports(f.name, f.text, line), w);
    }
  }

  lemma {:induction false} RunDue(p: Profile, c: Cursor, tokens: seq<Located>, w: Wording)
    requires HasRoot(p) && OfToken(w)
    ensures Occurrences(Run(p, c, tokens).1, w) == TokensDue(tokens, w)
    decreases |tokens|
  {
    hide Occurrences, Step, TokenDue, HasRoot;
    if tokens == [] {
      FewCaused([], w);
    } else {
      var n := |tokens| - 1;
      var (c1, before) := Run(p, c, tokens[..n]);
      RunDue(p, c, tokens[..n], w);
      StepDue(p, c1, tokens[n], w);
      OccurrencesConcat(before, Step(p, c1, tokens[n]).1, w);
    }
  }

  /** For every list of tokens, a tree's or not: a DOCTYPE declaration, or an instruction other
      than the XML declaration, is listed exactly when a token is one, with how many are. */
  lemma TokensListed(p: Profile, tokens: seq<Located>, lastLine: nat, w: Wording)
    requires HasRoot(p) && OfToken(w)
    ensures var (c, reports) := Run(p, START, tokens);
            var problems := Merge(reports + FinalReports(c.rootSeen, c.rootIsSvg, c.colours, lastLine));
            var i := IndexOf(problems, w);
            && (i < |problems| <==> TokensDue(tokens, w) > 0)
            && (i < |problems| ==> problems[i].count == TokensDue(tokens, w))
  {
    hide Occurrences, Run, Merge, IndexOf, HasRoot;
    var (c, reports) := Run(p, START, tokens);
    var final := FinalReports(c.rootSeen, c.rootIsSvg, c.colours, lastLine);
    RunDue(p, START, tokens, w);
    FewCaused(final, w);
    OccurrencesConcat(reports, final, w);
    CountedExactly(reports + final, w);
  }

  lemma CountedExactly(reports: seq<Report>, w: Wording)
    ensures var problems := Merge(reports);
            var i := IndexOf(problems, w);
            && (i < |problems| <==> Occurrences(reports, w) > 0)
            && (i < |problems| ==> problems[i].count == Occurrences(reports, w))
  {
    hide Occurrences, Merge, IndexOf, FirstReport;
    MergeSummarises(reports);
    var i := IndexOf(Merge(reports), w);
    if i < |Merge(reports)| {
      assert StandsFor(Merge(reports)[i], reports);
    }
  }

  /** No document with such a node anywhere in it conforms, skipped parts included. */
  predicate Holds(node: Node, w: Wording)
    decreases node, 0
  {
    match node
    case DirNode(text, _) => w.DoctypeNotAllowed? && "DOCTYPE" <= TrimSpace(text)
    case ProcNode(target, _) => w.ProcInstNotAllowed? && w.target == target && target != "xml"
    case ElemNode(_, _, _, children, _) => AnyHolds(children, w)
    case _ => false
  }

  predicate AnyHolds(nodes: seq<Node>, w: Wording)
    decreases nodes, 1
  {
    nodes != [] && (Holds(nodes[0], w) || AnyHolds(nodes[1..], w))
  }

  lemma {:induction false} HoldsDue(p: Profile, un: bool, role: Role, node: Node, w: Wording)
    requires OfToken(w)
    ensures Holds(node, w) <==> NodeDue(p, un, role, node, w) > 0
    decreases node, 0
  {
    hide Taken, ElementDue, TrimSpace;
    if node.ElemNode? {
      var name := node.name;
      DueParts(p, un, role, node, w);
      if Taken(p, un, role, name) {
        TakenKnown(p, un, role, name);
        AttrsSilent(p, name.local, p.elements[name.local], node.attrs, w);
        AnyHoldsDue(p, un, Kept(name.local, p.elements[name.local]), node.children, w);
      } else {
        AnyHoldsDue(p, un, Skipped, node.children, w);
      }
    }
  }

  lemma TakenKnown(p: Profile, un: bool, role: Role, name: Name)
    requires Taken(p, un, role, name)
    ensures name.local in p.elements
  {
  }

  lemma {:induction false} AnyHoldsDue(p: Profile, un: bool, role: Role, nodes: seq<Node>, w: Wording)
    requires OfToken(w)
    ensures AnyHolds(nodes, w) <==> AllDue(p, un, role, nodes, w) > 0
    decreases nodes, 1
  {
    hide Holds, NodeDue;
    if nodes != [] {
      HoldsDue(p, un, role, nodes[0], w);
      AnyHoldsDue(p, un, role, nodes[1..], w);
    }
  }

  lemma {:induction false} DocumentHolds(p: Profile, nodes: seq<Node>, w: Wording)
    requires HasRoot(p) && OfToken(w)
    ensures AnyHolds(nodes, w) <==> DocumentDue(p, nodes, w) > 0
    decreases |nodes|
  {
    hide Holds, NodeDue, AllDue, ElementDue;
    if nodes != [] {
      if nodes[0].ElemNode? {
        var root := nodes[0];
        RootHolds(p, root, w);
        AnyHoldsDue(p, root.name.local == "svg" && !RootDeclares(root), Document, nodes[1..], w);
      } else {
        HoldsDue(p, false, Document, nodes[0], w);
        DocumentHolds(p, nodes[1..], w);
      }
    }
  }

  lemma RootHolds(p: Profile, root: Node, w: Wording)
    requires HasRoot(p) && OfToken(w) && root.ElemNode?
    ensures Holds(root, w) <==> RootDue(p, root, w) > 0
  {
    hide AnyHolds, AllDue, ElementDue;
    var svg := p.elements["svg"];
    AttrsSilent(p, "svg", svg, root.attrs, w);
    AnyHoldsDue(p, false, Skipped, root.children, w);
    AnyHoldsDue(p, !RootDeclares(root), Kept("svg", svg), root.children, w);
  }

  /** The grammar and the causes are two readings of the profile that agree: a document conforms
      exactly when nothing in it gives cause for an error. */
  lemma ConformsExactly(p: Profile, nodes: seq<Node>)
    requires HasRoot(p)
    ensures DocumentConforms(p, nodes) <==>
              forall w :: !IsAdvice(w) ==> DocumentDue(p, nodes, w) + WholeDue(p, nodes, w) == 0
  {
    hide DocumentConforms, DocumentDue, WholeDue, Merge, DocumentReports, IndexOf, HasRoot, IsAdvice;
    var problems := Merge(DocumentReports(p, nodes, 0));
    ConformanceDecided(p, nodes, 0);
    forall w
      ensures IndexOf(problems, w) < |problems| <==> DocumentDue(p, nodes, w) + WholeDue(p, nodes, w) > 0
      ensures IndexOf(problems, w) < |problems| ==> problems[IndexOf(problems, w)].severity == if IsAdvice(w) then Warning else Error
    {
      ProblemsExactly(p, nodes, 0, w);
    }
    forall i | 0 <= i < |problems|
      ensures problems[IndexOf(problems, problems[i].wording)].severity == problems[i].severity
      ensures IndexOf(problems, problems[i].wording) < |problems|
    {
      MergeSummarises(DocumentReports(p, nodes, 0));
      SummaryDistinct(problems, DocumentReports(p, nodes, 0), i, IndexOf(problems, problems[i].wording));
    }
    if HasError(problems) {
      var i :| 0 <= i < |problems| && problems[i].severity == Error;
      assert !IsAdvice(problems[i].wording);
    }
  }

  /** In particular, a DOCTYPE or an instruction anywhere refuses the document. */
  lemma HoldingRefuses(p: Profile, nodes: seq<Node>, w: Wording)
    requires HasRoot(p) && OfToken(w) && AnyHolds(nodes, w)
    ensures !DocumentConforms(p, nodes)
  {
    hide DocumentConforms, AnyHolds, DocumentDue, WholeDue, HasRoot;
    DocumentHolds(p, nodes, w);
    ConformsExactly(p, nodes);
    assert !IsAdvice(w);
  }

  // ---------------------------------------------------------------- at which line

  predicate AtLine(reports: seq<Report>, line: nat) {
    forall r :: r in reports ==> r.line == line
  }

  lemma {:induction false} PaintAtLine(targets: seq<string>, name: string, local: string, line: nat)
    ensures AtLine(PaintReports(targets, name, local, line), line)
  {
    if targets != [] {
      PaintAtLine(targets[1..], name, local, line);
    }
  }

  lemma AttrAtLine(p: Profile, local: string, elem: Element, a: Attr, line: nat)
    ensures AtLine(AttrReports(p, local, elem, a, line), line)
  {
    hide PaintReports, Targets, ValueAllowed, CheckedName, QualifiedName, IsLocal, IsDeclaration;
    PaintAtLine(Targets(p, a.value), CheckedName(a), local, line);
  }

  lemma {:induction false} AttrsAtLine(p: Profile, local: string, elem: Element, attrs: seq<Attr>, line: nat)
    ensures AtLine(AllAttrReports(p, local, elem, attrs, line), line)
    decreases |attrs|
  {
    hide AttrReports;
    if attrs != [] {
      AttrsAtLine(p, local, elem, attrs[..|attrs| - 1], line);
      AttrAtLine(p, local, elem, attrs[|attrs| - 1], line);
    }
  }

  lemma {:induction false} MissingAtLine(local: string, names: seq<string>, attrs: seq<Attr>, line: nat)
    ensures AtLine(MissingReports(local, names, attrs, line), line)
    decreases |names|
  {
    hide Carries;
    if names != [] {
      MissingAtLine(local, names[..|names| - 1], attrs, line);
    }
  }

  lemma ElementAtLine(p: Profile, local: string, elem: Element, attrs: seq<Attr>, line: nat)
    ensures AtLine(ElementReports(p, local, elem, attrs, line), line)
  {
    hide AllAttrReports, MissingReports;
    AttrsAtLine(p, local, elem, attrs, line);
    MissingAtLine(local, Required(p, local), attrs, line);
  }

  lemma StartAtLine(p: Profile, c: Cursor, name: Name, attrs: seq<Attr>, line: nat)
    requires HasRoot(p)
    ensures AtLine(OnStart(p, c, name, attrs, line).1, line)
  {
    hide ElementReports, AllColours, InSvgNamespace, PlacementOf;
    ElementAtLine(p, "svg", p.elements["svg"], attrs, line);
    if name.local in p.elements {
      ElementAtLine(p, name.local, p.elements[name.local], attrs, line);
    }
  }

  /** Everything said on reading a token is said of the line of that token. */
  lemma StepSaysItsLine(p: Profile, c: Cursor, t: Located)
    requires HasRoot(p)
    ensures AtLine(Step(p, c, t).1, t.line)
  {
    hide OnStart, HasRoot, TrimSpace;
    match t.token
    case Start(name, attrs) => StartAtLine(p, c, name, attrs, t.line);
    case _ =>
  }

  // ---------------------------------------------------------------- in which order

  /** The stages of looking at an attribute. */
  function Stage(w: Wording): nat {
    match w
    case XlinkHref(_) => 0
    case AttributeNotAllowed(_, _) => 1
    case WrongEnum(_, _, _) => 1
    case WrongPattern(_, _, _, _) => 1
    case AttributeDiscouraged(_, _) => 2
    case ExternalReference(_, _) => 3
    case ExternalPaint(_, _, _) => 4
    case _ => 5
  }

  predicate Staged(reports: seq<Report>, low: nat, high: nat) {
    && (forall i :: 0 <= i < |reports| ==> low <= Stage(reports[i].wording) <= high)
    && forall i, j :: 0 <= i < j < |reports| ==> Stage(reports[i].wording) <= Stage(reports[j].wording)
  }

  lemma StagedConcat(a: seq<Report>, b: seq<Report>, low: nat, mid: nat, high: nat)
    requires Staged(a, low, mid) && Staged(b, mid, high) && low <= mid <= high
    ensures Staged(a + b, low, high)
  {
    hide Stage;
  }

  lemma {:induction false} PaintStaged(targets: seq<string>, name: string, local: string, line: nat)
    ensures Staged(PaintReports(targets, name, local, line), 4, 4)
  {
    if targets != [] {
      PaintStaged(targets[1..], name, local, line);
    }
  }

  lemma FewStaged(reports: seq<Report>, stage: nat)
    requires |reports| <= 1 && (reports != [] ==> Stage(reports[0].wording) == stage)
    ensures Staged(reports, stage, stage)
  {
  }

  /** Of one attribute: its old spelling, then its name or its value, then that it is discouraged,
      then where it refers to. */
  lemma AttrStaged(p: Profile, local: string, elem: Element, a: Attr, line: nat)
    ensures Staged(AttrReports(p, local, elem, a, line), 0, 4)
  {
    hide PaintReports, Targets, ValueAllowed, QualifiedName, IsLocal, IsDeclaration, Staged, CheckedName;
    FewStaged([], 0);
    Widened([], 0, 0, 4);
    if !IsDeclaration(a) {
      var name := CheckedName(a);
      var xlink := if QualifiedName(a.name) == "xlink:href" then [Report(Warning, XlinkHref(local), line)] else [];
      FewStaged(xlink, 0);
      var rest := [Report(Error, AttributeNotAllowed(name, local), line)];
      if name in elem.attrs {
        var wrong := ValueReports(p, local, name, a.value, elem.attrs[name], line);
        var discouraged := if wrong == [] && name in DISCOURAGED_ATTRS
                           then [Report(Warning, AttributeDiscouraged(name, local), line)] else [];
        var external := if name == "href" && !IsLocal(a.value) then [Report(Error, ExternalReference(a.value, local), line)] else [];
        var paint := PaintReports(Targets(p, a.value), name, local, line);
        FewStaged(wrong, 1);
        FewStaged(discouraged, 2);
        FewStaged(external, 3);
        PaintStaged(Targets(p, a.value), name, local, line);
        Widened(wrong, 1, 1, 2);
        Widened(discouraged, 2, 2, 3);
        Widened(external, 3, 3, 4);
        StagedConcat(wrong, discouraged, 1, 2, 3);
        StagedConcat(wrong + discouraged, external, 1, 3, 4);
        StagedConcat(wrong + discouraged + external, paint, 1, 4, 4);
        rest := wrong + discouraged + external + paint;
      } else {
        FewStaged(rest, 1);
        Widened(rest, 1, 1, 4);
      }
      Widened(xlink, 0, 0, 1);
      StagedConcat(xlink, rest, 0, 1, 4);
    }
  }

  lemma Widened(reports: seq<Report>, low: nat, mid: nat, high: nat)
    requires Staged(reports, low, mid) && mid <= high
    ensures Staged(reports, low, high)
  {
  }

  /** Attributes are reported in the order in which they are written, targets and required names
      in theirs. */
  lemma {:induction false} AttrsInOrder(p: Profile, local: string, elem: Element, a: seq<Attr>, b: seq<Attr>, line: nat)
    ensures AllAttrReports(p, local, elem, a + b, line) == AllAttrReports(p, local, elem, a, line) + AllAttrReports(p, local, elem, b, line)
    decreases |b|
  {
    hide AttrReports;
    if b == [] {
      assert a + b == a;
    } else {
      assert (a + b)[..|a + b| - 1] == a + b[..|b| - 1];
      AttrsInOrder(p, local, elem, a, b[..|b| - 1], line);
    }
  }

  lemma {:induction false} TargetsInOrder(a: seq<string>, b: seq<string>, name: string, local: string, line: nat)
    ensures PaintReports(a + b, name, local, line) == PaintReports(a, name, local, line) + PaintReports(b, name, local, line)
    decreases |a|
  {
    hide IsLocal;
    if a == [] {
      assert a + b == b;
    } else {
      assert (a + b)[1..] == a[1..] + b;
      TargetsInOrder(a[1..], b, name, local, line);
    }
  }

  lemma {:induction false} MissingInOrder(local: string, a: seq<string>, b: seq<string>, attrs: seq<Attr>, line: nat)
    ensures MissingReports(local, a + b, attrs, line) == MissingReports(local, a, attrs, line) + MissingReports(local, b, attrs, line)
    decreases |b|
  {
    hide Carries;
    if b == [] {
      assert a + b == a;
    } else {
      assert (a + b)[..|a + b| - 1] == a + b[..|b| - 1];
      MissingInOrder(local, a, b[..|b| - 1], attrs, line);
    }
  }
}
