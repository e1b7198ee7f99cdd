/** The profile as a grammar over document trees, and the proof that the one-pass stack machine
    reports exactly what a recursive walk over the tree does. */
module SvgTree {
  import opened Text
  import opened SvgProfile
  import opened SvgMachine

  // ---------------------------------------------------------------- documents as trees

  datatype Node =
    | TextNode(text: string, line: nat)
    | ProcNode(target: string, line: nat)
    | DirNode(text: string, line: nat)
    | CommentNode(line: nat)
    | ElemNode(name: Name, attrs: seq<Attr>, openLine: nat, children: seq<Node>, closeLine: nat)

  /** The tokens of a node: an element is its start, its children and its end. */
  function Tokens(node: Node): seq<Located>
    decreases node, 0
  {
    match node
    case TextNode(text, line) => [At(CharData(text), line)]
    case ProcNode(target, line) => [At(ProcInst(target), line)]
    case DirNode(text, line) => [At(Directive(text), line)]
    case CommentNode(line) => [At(Comment, line)]
    case ElemNode(name, attrs, openLine, children, closeLine) =>
      [At(Start(name, attrs), openLine)] + Serialize(children) + [At(End, closeLine)]
  }

  function Serialize(nodes: seq<Node>): seq<Located>
    decreases nodes, 1
  {
    if nodes == [] then [] else Tokens(nodes[0]) + Serialize(nodes[1..])
  }

  // ---------------------------------------------------------------- the grammar of one element

  /** What stands around a node: the document, a subtree that is not validated, or an element. */
  datatype Role = Document | Skipped | Kept(name: string, elem: Element)

  /** What the profile makes of an element where it stands. */
  datatype Verdict =
    | Ignored
    | Tolerated
    | Rejected(wording: Wording)
    | Accepted(elem: Element, font: bool)

  /** Foreign markup inside <metadata>, which the validator tolerates. */
  predicate IsForeignMetadata(un: bool, role: Role, name: Name) {
    role.Kept? && role.name == "metadata" && !InSvgNamespace(un, name)
  }

  function Judge(p: Profile, un: bool, role: Role, name: Name): Verdict {
    var local := name.local;
    if role.Skipped? then Ignored
    else if IsForeignMetadata(un, role, name) then Tolerated
    else if !InSvgNamespace(un, name) then Rejected(ForeignElement(local, name.space))
    else if local !in p.elements then Rejected(UnknownElement(local))
    else if role.Document? || local in role.elem.children || local == role.elem.firstChild then
      Accepted(p.elements[local], false)
    else if local in FONT_ELEMENTS then Accepted(p.elements[local], true)
    else Rejected(MisplacedElement(local, role.name))
  }

  /** The role the children of an element stand in. */
  function RoleOf(v: Verdict, local: string): Role {
    if v.Accepted? then Kept(local, v.elem) else Skipped
  }

  /** A child element its parent counts among its children. */
  predicate IsCounted(un: bool, role: Role, node: Node) {
    node.ElemNode? && role.Kept? && !IsForeignMetadata(un, role, node.name)
  }

  /** A child element that is the mandatory first child of its parent. */
  predicate IsFirst(p: Profile, un: bool, role: Role, node: Node) {
    && IsCounted(un, role, node)
    && InSvgNamespace(un, node.name)
    && node.name.local in p.elements
    && node.name.local !in role.elem.children
    && node.name.local == role.elem.firstChild
  }

  function CountedIn(un: bool, role: Role, nodes: seq<Node>): nat {
    if nodes == [] then 0
    else (if IsCounted(un, role, nodes[0]) then 1 else 0) + CountedIn(un, role, nodes[1..])
  }

  function FirstsIn(p: Profile, un: bool, role: Role, nodes: seq<Node>): nat {
    if nodes == [] then 0
    else (if IsFirst(p, un, role, nodes[0]) then 1 else 0) + FirstsIn(p, un, role, nodes[1..])
  }

  /** Where among the counted children the mandatory child stands, or -1. */
  function FirstAt(p: Profile, un: bool, role: Role, nodes: seq<Node>): (i: int)
    ensures i >= -1
    ensures FirstsIn(p, un, role, nodes) > 0 <==> i >= 0
  {
    if nodes == [] then -1
    else if IsFirst(p, un, role, nodes[0]) then 0
    else
      var rest := FirstAt(p, un, role, nodes[1..]);
      if rest < 0 then -1 else rest + if IsCounted(un, role, nodes[0]) then 1 else 0
  }

  /** The text an element holds, where the profile allows it text. */
  function TextIn(role: Role, nodes: seq<Node>): string {
    if nodes == [] then ""
    else
      (if nodes[0].TextNode? && role.Kept? && role.elem.allowsText then nodes[0].text else "")
      + TextIn(role, nodes[1..])
  }

  /** The reports that need the whole content of an element. */
  function ContentOf(p: Profile, un: bool, role: Role, nodes: seq<Node>, line: nat): seq<Report> {
    if !role.Kept? then []
    else
      FirstChildReports(role.name, role.elem.firstChild, FirstsIn(p, un, role, nodes), FirstAt(p, un, role, nodes), line)
      + ContentReports(role.name, TextIn(role, nodes), line)
  }

  // ---------------------------------------------------------------- the recursive walk

  /** The reports on the element itself, its attributes included. */
  function OpeningReports(p: Profile, v: Verdict, name: Name, attrs: seq<Attr>, line: nat): seq<Report> {
    match v
    case Ignored => []
    case Tolerated => [Report(Warning, MetadataHoldsElements, line)]
    case Rejected(wording) => [Report(Error, wording, line)]
    case Accepted(elem, font) =>
      (if font then [Report(Warning, UnreachableElement(name.local), line)] else [])
      + ElementReports(p, name.local, elem, attrs, line)
  }

  function TextProblem(role: Role, text: string, line: nat): seq<Report> {
    if !role.Kept? || role.elem.allowsText || AllSpace(text) then []
    else [Report(Error, TextNotAllowed(role.name), line)]
  }

  /** Every report a node gives rise to, in document order. */
  function Walk(p: Profile, un: bool, role: Role, node: Node): seq<Report>
    decreases node, 0
  {
    match node
    case TextNode(text, line) => TextProblem(role, text, line)
    case ProcNode(target, line) => if target == "xml" then [] else [Report(Error, ProcInstNotAllowed(target), line)]
    case DirNode(text, line) => if IsDoctype(text) then [Report(Error, DoctypeNotAllowed, line)] else []
    case CommentNode(_) => []
    case ElemNode(name, attrs, openLine, children, closeLine) =>
      var v := Judge(p, un, role, name);
      var inner := RoleOf(v, name.local);
      OpeningReports(p, v, name, attrs, openLine)
      + WalkAll(p, un, inner, children)
      + ContentOf(p, un, inner, children, closeLine)
  }

  function WalkAll(p: Profile, un: bool, role: Role, nodes: seq<Node>): seq<Report>
    decreases nodes, 1
  {
    if nodes == [] then [] else Walk(p, un, role, nodes[0]) + WalkAll(p, un, role, nodes[1..])
  }

  /** The colours a node paints with. */
  function Colours(p: Profile, un: bool, role: Role, node: Node): set<string>
    decreases node, 0
  {
    if !node.ElemNode? then {}
    else
      var v := Judge(p, un, role, node.name);
      (if v.Accepted? then AllColours(v.elem, node.attrs) else {})
      + ColoursAll(p, un, RoleOf(v, node.name.local), node.children)
  }

  function ColoursAll(p: Profile, un: bool, role: Role, nodes: seq<Node>): set<string>
    decreases nodes, 1
  {
    if nodes == [] then {} else Colours(p, un, role, nodes[0]) + ColoursAll(p, un, role, nodes[1..])
  }

  // ---------------------------------------------------------------- saying it once

  predicate Mentions(reports: seq<Report>) {
    exists i :: 0 <= i < |reports| && reports[i].wording == MetadataHoldsElements
  }

  /** The reports with every mention of foreign metadata but the first left out. */
  function Once(reports: seq<Report>, warned: bool): seq<Report> {
    if reports == [] then []
    else
      var metadata := reports[0].wording == MetadataHoldsElements;
      (if metadata && warned then [] else [reports[0]]) + Once(reports[1..], warned || metadata)
  }

  lemma {:induction false} OnceConcat(a: seq<Report>, b: seq<Report>, warned: bool)
    ensures Once(a + b, warned) == Once(a, warned) + Once(b, warned || Mentions(a))
    ensures Mentions(a + b) <==> Mentions(a) || Mentions(b)
    decreases |a|
  {
    hide Once, Mentions;
    if a == [] {
      assert a + b == b;
      OnceNothing(warned);
    } else {
      var metadata := a[0].wording == MetadataHoldsElements;
      assert (a + b)[1..] == a[1..] + b && (a + b)[0] == a[0];
      OnceConcat(a[1..], b, warned || metadata);
      MentionsCons(a);
      MentionsCons(a + b);
      OnceCons(a, warned);
      OnceCons(a + b, warned);
      var kept := if metadata && warned then [] else [a[0]];
      var rest, more := Once(a[1..], warned || metadata), Once(b, (warned || metadata) || Mentions(a[1..]));
      assert kept + (rest + more) == (kept + rest) + more;
    }
  }

  lemma OnceNothing(warned: bool)
    ensures Once([], warned) == [] && !Mentions([])
  {
  }

  lemma OnceCons(a: seq<Report>, warned: bool)
    requires a != []
    ensures var metadata := a[0].wording == MetadataHoldsElements;
            Once(a, warned) == (if metadata && warned then [] else [a[0]]) + Once(a[1..], warned || metadata)
  {
  }

  lemma MentionsCons(a: seq<Report>)
    requires a != []
    ensures Mentions(a) <==> a[0].wording == MetadataHoldsElements || Mentions(a[1..])
  {
  }

  lemma {:induction false} OncePlain(a: seq<Report>, warned: bool)
    requires !Mentions(a)
    ensures Once(a, warned) == a
  {
    if a != [] {
      MentionsCons(a);
      OncePlain(a[1..], warned);
    }
  }

  // ---------------------------------------------------------------- what reports can say

  /** The severity every wording is reported with. */
  function Grade(w: Wording): Severity {
    match w
    case MetadataHoldsElements => Warning
    case UnreachableElement(_) => Warning
    case LongTitle(_) => Warning
    case FewColours => Warning
    case XlinkHref(_) => Warning
    case AttributeDiscouraged(_, _) => Warning
    case _ => Error
  }

  predicate Graded(reports: seq<Report>) {
    forall r :: r in reports ==> r.severity == Grade(r.wording)
  }

  lemma MentionsConcat(a: seq<Report>, b: seq<Report>)
    ensures Mentions(a + b) <==> Mentions(a) || Mentions(b)
    ensures Graded(a + b) <==> Graded(a) && Graded(b)
  {
    OnceConcat(a, b, false);
    forall r | r in a
      ensures r in a + b
    {
    }
  }

  lemma {:induction false} PaintPlain(targets: seq<string>, name: string, local: string, line: nat)
    ensures !Mentions(PaintReports(targets, name, local, line)) && Graded(PaintReports(targets, name, local, line))
  {
    hide IsLocal;
    if targets != [] {
      PaintPlain(targets[1..], name, local, line);
      MentionsConcat(if IsLocal(targets[0]) then [] else [Report(Error, ExternalPaint(targets[0], name, local), line)],
                     PaintReports(targets[1..], name, local, line));
    }
  }

  lemma SinglePlain(reports: seq<Report>)
    requires |reports| <= 1
    requires reports != [] ==> reports[0].wording != MetadataHoldsElements && reports[0].severity == Grade(reports[0].wording)
    ensures !Mentions(reports) && Graded(reports)
  {
  }

  lemma AttrPlain(p: Profile, local: string, elem: Element, a: Attr, line: nat)
    ensures !Mentions(AttrReports(p, local, elem, a, line)) && Graded(AttrReports(p, local, elem, a, line))
  {
    hide IsLocal, PaintReports, IsDeclaration, ValueAllowed, Targets, QualifiedName, Mentions, Graded;
    if IsDeclaration(a) {
      SinglePlain([]);
    } else {
      var name := CheckedName(a);
      var xlink := if QualifiedName(a.name) == "xlink:href" then [Report(Warning, XlinkHref(local), line)] else [];
      SinglePlain(xlink);
      if name !in elem.attrs {
        SinglePlain([Report(Error, AttributeNotAllowed(name, local), line)]);
        MentionsConcat(xlink, [Report(Error, AttributeNotAllowed(name, local), line)]);
      } else {
        var wrong := ValueReports(p, local, name, a.value, elem.attrs[name], line);
        var discouraged := if wrong == [] && name in DISCOURAGED_ATTRS
                           then [Report(Warning, AttributeDiscouraged(name, local), line)] else [];
        var external := if name == "href" && !IsLocal(a.value) then [Report(Error, ExternalReference(a.value, local), line)] else [];
        var paint := PaintReports(Targets(p, a.value), name, local, line);
        PaintPlain(Targets(p, a.value), name, local, line);
        SinglePlain(wrong);
        SinglePlain(discouraged);
        SinglePlain(external);
        MentionsConcat(wrong, discouraged);
        MentionsConcat(wrong + discouraged, external);
        MentionsConcat(wrong + discouraged + external, paint);
        MentionsConcat(xlink, wrong + discouraged + external + paint);
      }
    }
  }

  lemma {:induction false} AllAttrsPlain(p: Profile, local: string, elem: Element, attrs: seq<Attr>, line: nat)
    ensures !Mentions(AllAttrReports(p, local, elem, attrs, line)) && Graded(AllAttrReports(p, local, elem, attrs, line))
    decreases |attrs|
  {
    hide AttrReports;
    if attrs != [] {
      var n := |attrs| - 1;
      AllAttrsPlain(p, local, elem, attrs[..n], line);
      AttrPlain(p, local, elem, attrs[n], line);
      MentionsConcat(AllAttrReports(p, local, elem, attrs[..n], line), AttrReports(p, local, elem, attrs[n], line));
    }
  }

  lemma {:induction false} MissingPlain(local: string, names: seq<string>, attrs: seq<Attr>, line: nat)
    ensures !Mentions(MissingReports(local, names, attrs, line)) && Graded(MissingReports(local, names, attrs, line))
    decreases |names|
  {
    hide Carries;
    if names != [] {
      var n := |names| - 1;
      MissingPlain(local, names[..n], attrs, line);
      MentionsConcat(MissingReports(local, names[..n], attrs, line),
                     if Carries(attrs, names[n]) then [] else [Report(Error, RequiredMissing(local, names[n]), line)]);
    }
  }

  /** The reports on an element's own attributes never speak of metadata. */
  lemma ElementPlain(p: Profile, local: string, elem: Element, attrs: seq<Attr>, line: nat)
    ensures !Mentions(ElementReports(p, local, elem, attrs, line)) && Graded(ElementReports(p, local, elem, attrs, line))
  {
    hide AllAttrReports, MissingReports, Mentions, Graded;
    AllAttrsPlain(p, local, elem, attrs, line);
    MissingPlain(local, Required(p, local), attrs, line);
    MentionsConcat(AllAttrReports(p, local, elem, attrs, line), MissingReports(local, Required(p, local), attrs, line));
  }

  lemma OpeningOnce(p: Profile, v: Verdict, name: Name, attrs: seq<Attr>, line: nat, warned: bool)
    requires v.Rejected? ==> v.wording != MetadataHoldsElements && Grade(v.wording) == Error
    ensures Mentions(OpeningReports(p, v, name, attrs, line)) <==> v.Tolerated?
    ensures Graded(OpeningReports(p, v, name, attrs, line))
    ensures Once(OpeningReports(p, v, name, attrs, line), warned)
         == if v.Tolerated? && warned then [] else OpeningReports(p, v, name, attrs, line)
  {
    hide ElementReports;
    var reports := OpeningReports(p, v, name, attrs, line);
    if v.Accepted? {
      ElementPlain(p, name.local, v.elem, attrs, line);
      MentionsConcat(if v.font then [Report(Warning, UnreachableElement(name.local), line)] else [],
                     ElementReports(p, name.local, v.elem, attrs, line));
    } else if v.Tolerated? {
      assert reports[0].wording == MetadataHoldsElements;
    } else if v.Rejected? {
      assert reports[0].wording == v.wording;
    }
    if !Mentions(reports) {
      OncePlain(reports, warned);
    }
  }
}
