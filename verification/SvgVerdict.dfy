/** What the problem list means: how reports are merged, and when a document conforms. */
module SvgVerdict {
  import opened Text
  import opened SvgProfile
  import opened SvgMachine
  import opened SvgTree
  import opened SvgRefinement
  import opened SvgDocument

  // ---------------------------------------------------------------- merging

  /** How many reports carry a wording. */
  function Occurrences(reports: seq<Report>, w: Wording): nat {
    if reports == [] then 0
    else Occurrences(reports[..|reports| - 1], w) + if reports[|reports| - 1].wording == w then 1 else 0
  }

  /** Where a wording is first reported, or the number of reports. */
  function FirstReport(reports: seq<Report>, w: Wording): (i: nat)
    ensures i <= |reports|
    ensures i < |reports| ==> reports[i].wording == w
    ensures forall k :: 0 <= k < i ==> reports[k].wording != w
  {
    var wordings := seq(|reports|, k requires 0 <= k < |reports| => reports[k].wording);
    var i := Find(wordings, w);
    assert forall k :: 0 <= k < i ==> wordings[k] == reports[k].wording;
    i
  }

  function TotalCount(problems: seq<Problem>): nat {
    if problems == [] then 0 else TotalCount(problems[..|problems| - 1]) + problems[|problems| - 1].count
  }

  /** A problem stands for all the reports of its wording, the first of which it quotes. */
  ghost predicate StandsFor(problem: Problem, reports: seq<Report>) {
    && problem.count == Occurrences(reports, problem.wording) > 0
    && var i := FirstReport(reports, problem.wording);
       i < |reports| && problem.severity == reports[i].severity && problem.line == reports[i].line
  }

  /** The problem list says what the reports do: one entry a wording, in the order in which
      wordings are first reported, with the count, severity and line of its reports. */
  ghost predicate Summarises(problems: seq<Problem>, reports: seq<Report>) {
    && (forall i :: 0 <= i < |problems| ==> StandsFor(problems[i], reports))
    && (forall i, j :: 0 <= i < j < |problems| ==>
          FirstReport(reports, problems[i].wording) < FirstReport(reports, problems[j].wording))
    && (forall w :: Occurrences(reports, w) > 0 ==> IndexOf(problems, w) < |problems|)
  }

  lemma FirstReportSnoc(reports: seq<Report>, r: Report, w: Wording)
    ensures FirstReport(reports + [r], w) ==
              if FirstReport(reports, w) < |reports| then FirstReport(reports, w)
              else if r.wording == w then |reports| else |reports| + 1
  {
    hide FirstReport;
    var more := reports + [r];
    var i, j := FirstReport(reports, w), FirstReport(more, w);
    assert i < |reports| ==> more[i].wording == w;
    assert j < |reports| ==> reports[j].wording == w;
    assert more[|reports|] == r;
  }

  lemma OccurrencesSnoc(reports: seq<Report>, r: Report, w: Wording)
    ensures Occurrences(reports + [r], w) == Occurrences(reports, w) + if r.wording == w then 1 else 0
  {
  }

  lemma {:induction false} OccurrencesFirst(reports: seq<Report>, w: Wording)
    ensures Occurrences(reports, w) > 0 <==> FirstReport(reports, w) < |reports|
  {
    if reports != [] {
      var n := |reports| - 1;
      OccurrencesFirst(reports[..n], w);
      FirstReportSnoc(reports[..n], reports[n], w);
      assert reports[..n] + [reports[n]] == reports;
    }
  }

  lemma {:induction false} TotalAt(problems: seq<Problem>, i: nat, q: Problem)
    requires i < |problems| && q.count == problems[i].count + 1
    ensures TotalCount(problems[i := q]) == TotalCount(problems) + 1
  {
    var n := |problems| - 1;
    if i < n {
      TotalAt(problems[..n], i, q);
      assert problems[i := q][..n] == problems[..n][i := q];
    } else {
      assert problems[i := q][..n] == problems[..n];
    }
  }

  lemma SummaryDistinct(problems: seq<Problem>, reports: seq<Report>, i: nat, j: nat)
    requires Summarises(problems, reports) && i < |problems| && j < |problems|
    ensures problems[i].wording == problems[j].wording <==> i == j
  {
  }

  lemma StandsForMore(problem: Problem, reports: seq<Report>, r: Report)
    requires StandsFor(problem, reports)
    ensures r.wording != problem.wording ==> StandsFor(problem, reports + [r])
    ensures r.wording == problem.wording ==> StandsFor(problem.(count := problem.count + 1), reports + [r])
    ensures FirstReport(reports + [r], problem.wording) == FirstReport(reports, problem.wording)
  {
    hide Occurrences, FirstReport;
    OccurrencesSnoc(reports, r, problem.wording);
    FirstReportSnoc(reports, r, problem.wording);
  }

  lemma {:induction false} NewStandsFor(reports: seq<Report>, r: Report)
    requires Occurrences(reports, r.wording) == 0
    ensures StandsFor(Problem(r.wording, r.severity, r.line, 1), reports + [r])
    ensures FirstReport(reports + [r], r.wording) == |reports|
  {
    OccurrencesSnoc(reports, r, r.wording);
    FirstReportSnoc(reports, r, r.wording);
    OccurrencesFirst(reports, r.wording);
  }

  /** Counting one more report of a known wording: every problem stands for its reports still. */
  lemma KnownStandsFor(problems: seq<Problem>, reports: seq<Report>, r: Report, i: nat)
    requires Summarises(problems, reports) && IndexOf(problems, r.wording) < |problems| && i < |problems|
    ensures StandsFor(MergeOne(problems, r)[i], reports + [r])
    ensures FirstReport(reports + [r], problems[i].wording) == FirstReport(reports, problems[i].wording)
    ensures MergeOne(problems, r)[i].wording == problems[i].wording
  {
    hide StandsFor, Occurrences, FirstReport;
    StandsForMore(problems[i], reports, r);
    SummaryDistinct(problems, reports, i, IndexOf(problems, r.wording));
  }

  lemma MergeOneKnown(problems: seq<Problem>, reports: seq<Report>, r: Report)
    requires Summarises(problems, reports) && IndexOf(problems, r.wording) < |problems|
    ensures Summarises(MergeOne(problems, r), reports + [r])
  {
    hide StandsFor, Occurrences, FirstReport, IndexOf, MergeOne;
    var merged, more := MergeOne(problems, r), reports + [r];
    assert |merged| == |problems| by { MergeOneLength(problems, r); }
    forall i | 0 <= i < |merged|
      ensures StandsFor(merged[i], more)
      ensures FirstReport(more, merged[i].wording) == FirstReport(reports, problems[i].wording)
      ensures merged[i].wording == problems[i].wording
    {
      KnownStandsFor(problems, reports, r, i);
    }
    forall w | Occurrences(more, w) > 0
      ensures IndexOf(merged, w) < |merged|
    {
      OccurrencesSnoc(reports, r, w);
      var i := IndexOf(problems, w);
      assert merged[i].wording == w;
    }
  }

  lemma MergeOneLength(problems: seq<Problem>, r: Report)
    ensures |MergeOne(problems, r)| == |problems| + if IndexOf(problems, r.wording) < |problems| then 0 else 1
  {
  }

  lemma MergeOneNew(problems: seq<Problem>, reports: seq<Report>, r: Report)
    requires Summarises(problems, reports) && IndexOf(problems, r.wording) == |problems|
    ensures Summarises(MergeOne(problems, r), reports + [r])
  {
    hide StandsFor, Occurrences, FirstReport, IndexOf;
    var merged, more := MergeOne(problems, r), reports + [r];
    NewStandsFor(reports, r);
    forall i | 0 <= i < |problems|
      ensures StandsFor(merged[i], more)
      ensures FirstReport(more, merged[i].wording) == FirstReport(reports, problems[i].wording) < |reports|
    {
      StandsForMore(problems[i], reports, r);
      StandsForWithin(problems[i], reports);
    }
    forall w | Occurrences(more, w) > 0
      ensures IndexOf(merged, w) < |merged|
    {
      OccurrencesSnoc(reports, r, w);
      var i := IndexOf(problems, w);
      assert merged[i].wording == w;
    }
  }

  lemma StandsForWithin(problem: Problem, reports: seq<Report>)
    requires StandsFor(problem, reports)
    ensures FirstReport(reports, problem.wording) < |reports|
  {
  }

  /** The problem list of a run of reports summarises them, and its counts add up to how many
      reports there were. */
  lemma {:induction false} MergeSummarises(reports: seq<Report>)
    ensures Summarises(Merge(reports), reports)
    ensures TotalCount(Merge(reports)) == |reports|
    decreases |reports|
  {
    hide Summarises, MergeOne;
    if reports == [] {
      NothingSummarised();
    } else {
      var n := |reports| - 1;
      var problems, r := Merge(reports[..n]), reports[n];
      MergeSummarises(reports[..n]);
      assert reports[..n] + [r] == reports;
      MergeOneTotal(problems, r);
      if IndexOf(problems, r.wording) < |problems| {
        MergeOneKnown(problems, reports[..n], r);
      } else {
        MergeOneNew(problems, reports[..n], r);
      }
    }
  }

  lemma NothingSummarised()
    ensures Summarises([], [])
  {
  }

  lemma MergeOneTotal(problems: seq<Problem>, r: Report)
    ensures TotalCount(MergeOne(problems, r)) == TotalCount(problems) + 1
  {
    hide TotalCount;
    var i := IndexOf(problems, r.wording);
    if i < |problems| {
      TotalAt(problems, i, problems[i].(count := problems[i].count + 1));
    } else {
      TotalSnoc(problems, Problem(r.wording, r.severity, r.line, 1));
    }
  }

  lemma TotalSnoc(problems: seq<Problem>, q: Problem)
    ensures TotalCount(problems + [q]) == TotalCount(problems) + q.count
  {
  }

  // ---------------------------------------------------------------- errors

  predicate HasError(problems: seq<Problem>) {
    exists i :: 0 <= i < |problems| && problems[i].severity == Error
  }

  /** Merging hides no error: the list holds an error exactly when one was reported. */
  lemma MergeKeepsErrors(reports: seq<Report>)
    requires Graded(reports)
    ensures HasError(Merge(reports)) <==> !NoError(reports)
  {
    hide Merge, Occurrences;
    var problems := Merge(reports);
    MergeSummarises(reports);
    if HasError(problems) {
      var i :| 0 <= i < |problems| && problems[i].severity == Error;
      assert StandsFor(problems[i], reports);
      assert reports[FirstReport(reports, problems[i].wording)] in reports;
    }
    if !NoError(reports) {
      var r :| r in reports && r.severity == Error;
      var k :| 0 <= k < |reports| && reports[k] == r;
      OccurrencesFirst(reports, r.wording);
      assert FirstReport(reports, r.wording) <= k;
      var i := IndexOf(problems, r.wording);
      assert StandsFor(problems[i], reports);
      assert reports[FirstReport(reports, r.wording)] in reports;
    }
  }

  // ---------------------------------------------------------------- the profile as a grammar

  /** The element may stand here: inside a skipped subtree, as foreign metadata, or as an SVG
      element of the profile where the content model, or the tolerance for fonts, has it. */
  predicate Permitted(p: Profile, un: bool, role: Role, name: Name) {
    || role.Skipped?
    || IsForeignMetadata(un, role, name)
    || (&& InSvgNamespace(un, name)
        && name.local in p.elements
        && (role.Document? || name.local in role.elem.children || name.local == role.elem.firstChild
            || name.local in FONT_ELEMENTS))
  }

  /** The mandatory child comes once and first, and titles and descriptions say something. */
  predicate ContentConforms(p: Profile, un: bool, role: Role, nodes: seq<Node>) {
    role.Kept? ==>
      && (role.elem.firstChild != "" ==> FirstsIn(p, un, role, nodes) == 1 && FirstAt(p, un, role, nodes) == 0)
      && (role.name == "title" || role.name == "desc" ==> !AllSpace(TextIn(role, nodes)))
  }

  predicate Conforms(p: Profile, un: bool, role: Role, node: Node)
    decreases node, 0
  {
    match node
    case TextNode(text, _) => !role.Kept? || role.elem.allowsText || AllSpace(text)
    case ProcNode(target, _) => target == "xml"
    case DirNode(text, _) => !IsDoctype(text)
    case CommentNode(_) => true
    case ElemNode(name, attrs, _, children, _) =>
      var v := Judge(p, un, role, name);
      var inner := RoleOf(v, name.local);
      && Permitted(p, un, role, name)
      && (v.Accepted? ==> AttrsConform(p, name.local, v.elem, attrs))
      && AllConform(p, un, inner, children)
      && ContentConforms(p, un, inner, children)
  }

  predicate AllConform(p: Profile, un: bool, role: Role, nodes: seq<Node>)
    decreases nodes, 1
  {
    nodes == [] || (Conforms(p, un, role, nodes[0]) && AllConform(p, un, role, nodes[1..]))
  }

  /** A document of the profile: one <svg> root in the SVG namespace, itself and everything
      around it conforming. */
  predicate DocumentConforms(p: Profile, nodes: seq<Node>)
    requires HasRoot(p)
  {
    nodes != [] &&
    if !nodes[0].ElemNode? then Conforms(p, false, Document, nodes[0]) && DocumentConforms(p, nodes[1..])
    else
      var root, svg := nodes[0], p.elements["svg"];
      && root.name == Name(SVG_NS, "svg")
      && AttrsConform(p, "svg", svg, root.attrs)
      && AllConform(p, false, Kept("svg", svg), root.children)
      && ContentConforms(p, false, Kept("svg", svg), root.children)
      && AllConform(p, false, Document, nodes[1..])
  }

  // ---------------------------------------------------------------- conforming is raising no error

  lemma OpeningNoError(p: Profile, un: bool, role: Role, name: Name, attrs: seq<Attr>, line: nat)
    ensures var v := Judge(p, un, role, name);
            (Permitted(p, un, role, name) && (v.Accepted? ==> AttrsConform(p, name.local, v.elem, attrs)))
              <==> NoError(OpeningReports(p, v, name, attrs, line))
  {
    hide ElementReports, AttrsConform, NoError;
    var v := Judge(p, un, role, name);
    if v.Accepted? {
      var font := if v.font then [Report(Warning, UnreachableElement(name.local), line)] else [];
      ElementNoError(p, name.local, v.elem, attrs, line);
      NoErrorConcat(font, ElementReports(p, name.local, v.elem, attrs, line));
      Singles(font);
    } else {
      Singles(OpeningReports(p, v, name, attrs, line));
    }
  }

  lemma ContentNoError(p: Profile, un: bool, role: Role, nodes: seq<Node>, line: nat)
    ensures NoError(ContentOf(p, un, role, nodes, line)) <==> ContentConforms(p, un, role, nodes)
  {
  }

  /** Any subtree, anywhere: no error is reported in it exactly when it conforms. */
  lemma {:induction false} ConformsNoError(p: Profile, un: bool, role: Role, node: Node)
    ensures NoError(Walk(p, un, role, node)) <==> Conforms(p, un, role, node)
    decreases node, 0
  {
    hide NoError, OpeningReports, ContentOf, ContentConforms, Permitted, AttrsConform, IsDoctype, Judge, WalkAll, AllConform;
    if node.ElemNode? {
      var v := Judge(p, un, role, node.name);
      var inner := RoleOf(v, node.name.local);
      var opening := OpeningReports(p, v, node.name, node.attrs, node.openLine);
      var middle := WalkAll(p, un, inner, node.children);
      OpeningNoError(p, un, role, node.name, node.attrs, node.openLine);
      AllConformNoError(p, un, inner, node.children);
      ContentNoError(p, un, inner, node.children, node.closeLine);
      NoErrorConcat(opening, middle);
      NoErrorConcat(opening + middle, ContentOf(p, un, inner, node.children, node.closeLine));
    } else {
      Singles(Walk(p, un, role, node));
    }
  }

  lemma {:induction false} AllConformNoError(p: Profile, un: bool, role: Role, nodes: seq<Node>)
    ensures NoError(WalkAll(p, un, role, nodes)) <==> AllConform(p, un, role, nodes)
    decreases nodes, 1
  {
    hide NoError, Walk, Conforms;
    if nodes == [] {
      Singles([]);
    } else {
      ConformsNoError(p, un, role, nodes[0]);
      AllConformNoError(p, un, role, nodes[1..]);
      NoErrorConcat(Walk(p, un, role, nodes[0]), WalkAll(p, un, role, nodes[1..]));
    }
  }

  /** Every report of a walk has the severity its wording always has. */
  lemma {:induction false} WalkGraded(p: Profile, un: bool, role: Role, node: Node)
    ensures Graded(Walk(p, un, role, node))
    decreases node, 0
  {
    hide Graded, OpeningReports, ContentOf, IsDoctype, Judge, WalkAll, Grade;
    if node.ElemNode? {
      var v := Judge(p, un, role, node.name);
      var inner := RoleOf(v, node.name.local);
      var opening := OpeningReports(p, v, node.name, node.attrs, node.openLine);
      var middle := WalkAll(p, un, inner, node.children);
      JudgeWording(p, un, role, node.name);
      OpeningOnce(p, v, node.name, node.attrs, node.openLine, false);
      AllGraded(p, un, inner, node.children);
      ContentPlain(p, un, inner, node.children, node.closeLine);
      MentionsConcat(opening, middle);
      MentionsConcat(opening + middle, ContentOf(p, un, inner, node.children, node.closeLine));
    } else {
      LeafGraded(p, un, role, node);
    }
  }

  lemma LeafGraded(p: Profile, un: bool, role: Role, node: Node)
    requires !node.ElemNode?
    ensures Graded(Walk(p, un, role, node))
  {
  }

  lemma {:induction false} AllGraded(p: Profile, un: bool, role: Role, nodes: seq<Node>)
    ensures Graded(WalkAll(p, un, role, nodes))
    decreases nodes, 1
  {
    hide Walk;
    if nodes != [] {
      WalkGraded(p, un, role, nodes[0]);
      AllGraded(p, un, role, nodes[1..]);
      MentionsConcat(Walk(p, un, role, nodes[0]), WalkAll(p, un, role, nodes[1..]));
    }
  }

  lemma {:induction false} DocumentGraded(p: Profile, nodes: seq<Node>)
    requires HasRoot(p)
    ensures Graded(WalkDocument(p, nodes))
    decreases |nodes|
  {
    hide Walk, WalkAll, HasRoot, ContentOf, RootOpening;
    if nodes != [] {
      if nodes[0].ElemNode? {
        var root := nodes[0];
        var role, un := RootRole(p, root), Unnamespaced(root);
        var opening := RootOpening(p, root.name, root.attrs, root.openLine);
        RootStarts(p, START, root.name, root.attrs, root.openLine);
        AllGraded(p, un, role, root.children);
        ContentPlain(p, un, role, root.children, root.closeLine);
        MentionsConcat(opening, WalkAll(p, un, role, root.children));
        MentionsConcat(opening + WalkAll(p, un, role, root.children), ContentOf(p, un, role, root.children, root.closeLine));
        AllGraded(p, un, Document, nodes[1..]);
        MentionsConcat(WalkRoot(p, root), WalkAll(p, un, Document, nodes[1..]));
      } else {
        WalkGraded(p, false, Document, nodes[0]);
        DocumentGraded(p, nodes[1..]);
        MentionsConcat(Walk(p, false, Document, nodes[0]), WalkDocument(p, nodes[1..]));
      }
    }
  }

  /** Saying a warning once leaves every error said. */
  lemma {:induction false} OnceKeepsErrors(reports: seq<Report>, warned: bool)
    requires Graded(reports)
    ensures Graded(Once(reports, warned)) && (NoError(Once(reports, warned)) <==> NoError(reports))
  {
    hide Grade, NoError;
    if reports == [] {
    } else {
      var r, rest := reports[0], reports[1..];
      var metadata := r.wording == MetadataHoldsElements;
      assert reports == [r] + rest;
      MentionsConcat([r], rest);
      OnceKeepsErrors(rest, warned || metadata);
      NoErrorConcat([r], rest);
      var kept := if metadata && warned then [] else [r];
      NoErrorConcat(kept, Once(rest, warned || metadata));
      MentionsConcat(kept, Once(rest, warned || metadata));
      Singles([r]);
      Singles(kept);
      assert r in reports;
      MetadataIsWarning();
    }
  }

  lemma MetadataIsWarning()
    ensures Grade(MetadataHoldsElements) == Warning
  {
  }

  lemma RootNoError(p: Profile, root: Node)
    requires HasRoot(p) && root.ElemNode?
    ensures var svg := p.elements["svg"];
            (&& root.name == Name(SVG_NS, "svg")
             && AttrsConform(p, "svg", svg, root.attrs)
             && AllConform(p, false, Kept("svg", svg), root.children)
             && ContentConforms(p, false, Kept("svg", svg), root.children))
            <==> NoError(WalkRoot(p, root))
  {
    hide NoError, ContentOf, ContentConforms, AttrsConform, WalkAll, AllConform, ElementReports;
    var role, un := RootRole(p, root), Unnamespaced(root);
    var own := OpeningReports(p, JudgeRoot(p, root.name), root.name, root.attrs, root.openLine);
    var wrong := if un then [Report(Error, WrongRootNamespace(root.name.space), root.openLine)] else [];
    var opening := RootOpening(p, root.name, root.attrs, root.openLine);
    Singles(wrong);
    NoErrorConcat(wrong, own);
    if root.name.local == "svg" {
      var reports := ElementReports(p, "svg", p.elements["svg"], root.attrs, root.openLine);
      ElementNoError(p, "svg", p.elements["svg"], root.attrs, root.openLine);
      assert own == reports;
    } else {
      Singles(own);
    }
    AllConformNoError(p, un, role, root.children);
    ContentNoError(p, un, role, root.children, root.closeLine);
    NoErrorConcat(opening, WalkAll(p, un, role, root.children));
    NoErrorConcat(opening + WalkAll(p, un, role, root.children), ContentOf(p, un, role, root.children, root.closeLine));
  }

  lemma {:induction false} DocumentNoError(p: Profile, nodes: seq<Node>)
    requires HasRoot(p)
    ensures DocumentConforms(p, nodes) <==> HasElement(nodes) && NoError(WalkDocument(p, nodes))
    decreases |nodes|
  {
    hide NoError, Walk, WalkAll, WalkRoot, Conforms, AllConform, ContentConforms, AttrsConform, HasRoot, HasElement;
    if nodes == [] {
      NoElements();
    } else if nodes[0].ElemNode? {
      HasElementCons(nodes);
      RootNoError(p, nodes[0]);
      AllConformNoError(p, Unnamespaced(nodes[0]), Document, nodes[1..]);
      NoErrorConcat(WalkRoot(p, nodes[0]), WalkAll(p, Unnamespaced(nodes[0]), Document, nodes[1..]));
    } else {
      HasElementCons(nodes);
      ConformsNoError(p, false, Document, nodes[0]);
      DocumentNoError(p, nodes[1..]);
      NoErrorConcat(Walk(p, false, Document, nodes[0]), WalkDocument(p, nodes[1..]));
    }
  }

  lemma NoElements()
    ensures !HasElement([])
  {
  }

  /** The problem list of a document holds an error exactly when the document departs from the
      profile, warnings for tolerated constructs notwithstanding. */
  lemma ConformanceDecided(p: Profile, nodes: seq<Node>, lastLine: nat)
    requires HasRoot(p)
    ensures HasError(Merge(DocumentReports(p, nodes, lastLine))) <==> !DocumentConforms(p, nodes)
  {
    hide NoError, WalkDocument, Once, DocumentConforms, HasElement, HasError, Merge, HasRoot, Graded;
    var walk := WalkDocument(p, nodes);
    var final := FinalReports(HasElement(nodes), RootIsSvg(nodes), DocumentColours(p, nodes), lastLine);
    DocumentGraded(p, nodes);
    OnceKeepsErrors(walk, false);
    DocumentNoError(p, nodes);
    Singles(final);
    FinalGraded(final);
    NoErrorConcat(Once(walk, false), final);
    MentionsConcat(Once(walk, false), final);
    MergeKeepsErrors(DocumentReports(p, nodes, lastLine));
  }

  lemma FinalGraded(final: seq<Report>)
    requires |final| <= 1 && (final != [] ==> final[0].severity == Grade(final[0].wording))
    ensures Graded(final)
  {
  }
}
