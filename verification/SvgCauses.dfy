/** What every problem is about: each wording is reported once for each cause the document
    gives it, the causes counted from the document alone. */
module SvgCauses {
  import opened Basics
  import opened Text
  import opened SvgProfile
  import opened SvgMachine
  import opened SvgTree
  import opened SvgDocument
  import opened SvgVerdict

  function One(b: bool): nat {
    if b then 1 else 0
  }

  function Times(x: string, xs: seq<string>): nat {
    if xs == [] then 0 else One(xs[0] == x) + Times(x, xs[1..])
  }

  lemma {:induction false} OccurrencesConcat(a: seq<Report>, b: seq<Report>, w: Wording)
    ensures Occurrences(a + b, w) == Occurrences(a, w) + Occurrences(b, w)
    decreases |b|
  {
    if b == [] {
      assert a + b == a;
    } else {
      var n := |b| - 1;
      assert (a + b)[..|a + b| - 1] == a + b[..n];
      OccurrencesConcat(a, b[..n], w);
    }
  }

  lemma OccurrencesFew(r: Report, w: Wording)
    ensures Occurrences([], w) == 0 && Occurrences([r], w) == One(r.wording == w)
  {
    assert [r][..0] == [];
  }

  // ---------------------------------------------------------------- the causes in an attribute

  predicate Declares(a: Attr) {
    a.name.space == "xmlns" || a.name == Name("", "xmlns")
  }

  function FullName(n: Name): string {
    match n.space
    case "" => n.local
    case "xml" => "xml:" + n.local
    case "http://www.w3.org/XML/1998/namespace" => "xml:" + n.local
    case "xlink" => "xlink:" + n.local
    case "http://www.w3.org/1999/xlink" => "xlink:" + n.local
    case _ => "{" + n.space + "}" + n.local
  }

  /** The name an attribute goes by; `xlink:href` goes by `href`. */
  function NameOf(a: Attr): string {
    if FullName(a.name) == "xlink:href" then "href" else FullName(a.name)
  }

  predicate Fits(p: Profile, spec: AttrSpec, value: string) {
    if |spec.enum| > 0 then exists i :: 0 <= i < |spec.enum| && spec.enum[i] == value
    else spec.pattern == "" || p.matches(spec.pattern, value)
  }

  /** How often an attribute of an element of the profile gives cause for a wording. */
  function AttrDue(p: Profile, local: string, elem: Element, a: Attr, w: Wording): nat {
    var name := NameOf(a);
    if Declares(a) then 0
    else
      match w
      case XlinkHref(e) => One(e == local && FullName(a.name) == "xlink:href")
      case AttributeNotAllowed(n, e) => One(e == local && n == name && name !in elem.attrs)
      case WrongEnum(n, v, e) =>
        One(e == local && n == name && v == a.value && name in elem.attrs
            && elem.attrs[name].enum != [] && !Fits(p, elem.attrs[name], v))
      case WrongPattern(n, v, e, pattern) =>
        One(e == local && n == name && v == a.value && name in elem.attrs && pattern == elem.attrs[name].pattern
            && elem.attrs[name].enum == [] && !Fits(p, elem.attrs[name], v))
      case AttributeDiscouraged(n, e) =>
        One(e == local && n == name && name in elem.attrs && Fits(p, elem.attrs[name], a.value)
            && name in {"zoomAndPan", "externalResourcesRequired", "focusable", "snapshotTime", "playbackOrder",
                        "timelineBegin", "editable"})
      case ExternalReference(v, e) => One(e == local && v == a.value && name == "href" && name in elem.attrs && !("#" <= v))
      case ExternalPaint(t, n, e) =>
        if e == local && n == name && name in elem.attrs && '(' in a.value && !("#" <= t) then Times(t, p.funcTargets(a.value))
        else 0
      case _ => 0
  }

  function AttrsDue(p: Profile, local: string, elem: Element, attrs: seq<Attr>, w: Wording): nat {
    if attrs == [] then 0
    else AttrsDue(p, local, elem, attrs[..|attrs| - 1], w) + AttrDue(p, local, elem, attrs[|attrs| - 1], w)
  }

  /** How often a required attribute is missing. */
  function MissingDue(p: Profile, local: string, attrs: seq<Attr>, w: Wording): nat {
    match w
    case RequiredMissing(e, n) =>
      if e != local || local !in p.required || exists i :: 0 <= i < |attrs| && !Declares(attrs[i]) && NameOf(attrs[i]) == n then 0
      else Times(n, p.required[local])
    case _ => 0
  }

  function ElementDue(p: Profile, local: string, elem: Element, attrs: seq<Attr>, w: Wording): nat {
    AttrsDue(p, local, elem, attrs, w) + MissingDue(p, local, attrs, w)
  }

  // ---------------------------------------------------------------- attributes give their causes

  lemma NamesAgree(a: Attr)
    ensures Declares(a) <==> IsDeclaration(a)
    ensures FullName(a.name) == QualifiedName(a.name) && NameOf(a) == CheckedName(a)
  {
  }

  lemma FitsAgree(p: Profile, spec: AttrSpec, value: string)
    ensures Fits(p, spec, value) <==> ValueAllowed(p, spec, value)
  {
  }

  lemma {:induction false} PaintCaused(targets: seq<string>, name: string, local: string, line: nat, w: Wording)
    ensures Occurrences(PaintReports(targets, name, local, line), w) ==
              match w
              case ExternalPaint(t, n, e) => if e == local && n == name && !("#" <= t) then Times(t, targets) else 0
              case _ => 0
  {
    if targets == [] {
    } else {
      var head := if IsLocal(targets[0]) then [] else [Report(Error, ExternalPaint(targets[0], name, local), line)];
      PaintCaused(targets[1..], name, local, line, w);
      OccurrencesFew(Report(Error, ExternalPaint(targets[0], name, local), line), w);
      OccurrencesConcat(head, PaintReports(targets[1..], name, local, line), w);
    }
  }

  lemma FewCaused(reports: seq<Report>, w: Wording)
    requires |reports| <= 1
    ensures Occurrences(reports, w) == One(reports != [] && reports[0].wording == w)
  {
    if reports != [] {
      OccurrencesFew(reports[0], w);
      assert reports == [reports[0]];
    }
  }

  /** The reports of an attribute are counted part by part. */
  lemma AttrParts(p: Profile, local: string, elem: Element, a: Attr, line: nat, w: Wording)
    requires !IsDeclaration(a)
    ensures var name := CheckedName(a);
            Occurrences(AttrReports(p, local, elem, a, line), w) ==
              One(QualifiedName(a.name) == "xlink:href" && w == XlinkHref(local))
              + if name !in elem.attrs then One(w == AttributeNotAllowed(name, local))
                else
                  var wrong := ValueReports(p, local, name, a.value, elem.attrs[name], line);
                  One(wrong != [] && wrong[0].wording == w)
                  + One(wrong == [] && name in DISCOURAGED_ATTRS && w == AttributeDiscouraged(name, local))
                  + One(name == "href" && !IsLocal(a.value) && w == ExternalReference(a.value, local))
                  + Occurrences(PaintReports(Targets(p, a.value), name, local, line), w)
  {
    hide Occurrences, PaintReports, Targets, IsLocal, ValueAllowed, QualifiedName;
    var name := CheckedName(a);
    var xlink := if QualifiedName(a.name) == "xlink:href" then [Report(Warning, XlinkHref(local), line)] else [];
    FewCaused(xlink, w);
    if name !in elem.attrs {
      OccurrencesConcat(xlink, [Report(Error, AttributeNotAllowed(name, local), line)], w);
      FewCaused([Report(Error, AttributeNotAllowed(name, local), line)], w);
    } else {
      var wrong := ValueReports(p, local, name, a.value, elem.attrs[name], line);
      var discouraged := if wrong == [] && name in DISCOURAGED_ATTRS
                         then [Report(Warning, AttributeDiscouraged(name, local), line)] else [];
      var external := if name == "href" && !IsLocal(a.value) then [Report(Error, ExternalReference(a.value, local), line)] else [];
      var paint := PaintReports(Targets(p, a.value), name, local, line);
      FewCaused(wrong, w);
      FewCaused(discouraged, w);
      FewCaused(external, w);
      OccurrencesOfFive(xlink, wrong, discouraged, external, paint, w);
    }
  }

  lemma OccurrencesOfFive(a: seq<Report>, b: seq<Report>, c: seq<Report>, d: seq<Report>, e: seq<Report>, w: Wording)
    ensures Occurrences(a + (b + c + d + e), w)
         == Occurrences(a, w) + Occurrences(b, w) + Occurrences(c, w) + Occurrences(d, w) + Occurrences(e, w)
  {
    hide Occurrences;
    OccurrencesConcat(b, c, w);
    OccurrencesConcat(b + c, d, w);
    OccurrencesConcat(b + c + d, e, w);
    OccurrencesConcat(a, b + c + d + e, w);
  }

  lemma AttrCaused(p: Profile, local: string, elem: Element, a: Attr, line: nat, w: Wording)
    ensures Occurrences(AttrReports(p, local, elem, a, line), w) == AttrDue(p, local, elem, a, w)
  {
    hide Occurrences, PaintReports, AttrReports, FullName, QualifiedName, Fits, ValueAllowed, IsDeclaration, Declares, Times;
    NamesAgree(a);
    if Declares(a) {
      NothingDeclared(p, local, elem, a, line, w);
    } else {
      var name := NameOf(a);
      AttrParts(p, local, elem, a, line, w);
      PaintCaused(Targets(p, a.value), name, local, line, w);
      PaintSome(p, a.value, w);
      if name in elem.attrs {
        FitsAgree(p, elem.attrs[name], a.value);
      }
    }
  }

  lemma PaintSome(p: Profile, value: string, w: Wording)
    ensures '(' !in value ==> Targets(p, value) == []
    ensures w.ExternalPaint? ==> Times(w.target, []) == 0
  {
  }

  lemma NothingDeclared(p: Profile, local: string, elem: Element, a: Attr, line: nat, w: Wording)
    requires IsDeclaration(a)
    ensures Occurrences(AttrReports(p, local, elem, a, line), w) == 0
  {
  }

  lemma {:induction false} AttrsCaused(p: Profile, local: string, elem: Element, attrs: seq<Attr>, line: nat, w: Wording)
    ensures Occurrences(AllAttrReports(p, local, elem, attrs, line), w) == AttrsDue(p, local, elem, attrs, w)
    decreases |attrs|
  {
    hide Occurrences, AttrReports, AttrDue;
    if attrs == [] {
      FewCaused([], w);
    } else {
      var n := |attrs| - 1;
      AttrsCaused(p, local, elem, attrs[..n], line, w);
      AttrCaused(p, local, elem, attrs[n], line, w);
      OccurrencesConcat(AllAttrReports(p, local, elem, attrs[..n], line), AttrReports(p, local, elem, attrs[n], line), w);
    }
  }

  lemma {:induction false} TimesConcat(x: string, a: seq<string>, b: seq<string>)
    ensures Times(x, a + b) == Times(x, a) + Times(x, b)
    decreases |a|
  {
    if a == [] {
      assert a + b == b;
    } else {
      assert (a + b)[1..] == a[1..] + b;
      TimesConcat(x, a[1..], b);
    }
  }

  lemma TimesOne(x: string, y: string)
    ensures Times(x, [y]) == One(x == y) && Times(x, []) == 0
  {
    assert [y][1..] == [];
  }

  lemma {:induction false} MissingCaused(local: string, names: seq<string>, attrs: seq<Attr>, line: nat, w: Wording)
    ensures Occurrences(MissingReports(local, names, attrs, line), w) ==
              match w
              case RequiredMissing(e, n) => if e != local || Carries(attrs, n) then 0 else Times(n, names)
              case _ => 0
    decreases |names|
  {
    hide Occurrences, Carries, Times;
    if names == [] {
      FewCaused([], w);
      TimesOne(if w.RequiredMissing? then w.name else "", "");
    } else {
      var n := |names| - 1;
      var last := if Carries(attrs, names[n]) then [] else [Report(Error, RequiredMissing(local, names[n]), line)];
      MissingCaused(local, names[..n], attrs, line, w);
      FewCaused(last, w);
      OccurrencesConcat(MissingReports(local, names[..n], attrs, line), last, w);
      if w.RequiredMissing? {
        TimesConcat(w.name, names[..n], [names[n]]);
        TimesOne(w.name, names[n]);
        assert names == names[..n] + [names[n]];
      }
    }
  }

  lemma CarriesAgree(attrs: seq<Attr>, name: string)
    ensures Carries(attrs, name) <==> exists i :: 0 <= i < |attrs| && !Declares(attrs[i]) && NameOf(attrs[i]) == name
  {
    hide FullName, QualifiedName, Declares, IsDeclaration, NameOf, CheckedName;
    forall i | 0 <= i < |attrs|
      ensures Declares(attrs[i]) <==> IsDeclaration(attrs[i])
      ensures NameOf(attrs[i]) == CheckedName(attrs[i])
    {
      NamesAgree(attrs[i]);
    }
  }

  /** The attributes of an element are reported once for each cause they give. */
  lemma ElementCaused(p: Profile, local: string, elem: Element, attrs: seq<Attr>, line: nat, w: Wording)
    ensures Occurrences(ElementReports(p, local, elem, attrs, line), w) == ElementDue(p, local, elem, attrs, w)
  {
    hide Occurrences, AllAttrReports, MissingReports, Carries, AttrsDue, Times, NameOf, Declares;
    AttrsCaused(p, local, elem, attrs, line, w);
    MissingCaused(local, Required(p, local), attrs, line, w);
    OccurrencesConcat(AllAttrReports(p, local, elem, attrs, line), MissingReports(local, Required(p, local), attrs, line), w);
    if w.RequiredMissing? {
      CarriesAgree(attrs, w.name);
      TimesOne(w.name, "");
    }
  }

  // ---------------------------------------------------------------- the causes in a subtree

  predicate IsSvg(un: bool, name: Name) {
    name.space == "http://www.w3.org/2000/svg" || (un && name.space == "")
  }

  predicate InProfile(p: Profile, un: bool, name: Name) {
    IsSvg(un, name) && name.local in p.elements
  }

  /** The content model has the element here. */
  predicate Listed(role: Role, local: string) {
    role.Document? || (role.Kept? && (local in role.elem.children || local == role.elem.firstChild))
  }

  predicate IsFont(local: string) {
    local in {"font", "font-face", "glyph", "hkern"}
  }

  /** The element is one the walk goes on with. */
  predicate Taken(p: Profile, un: bool, role: Role, name: Name) {
    !role.Skipped? && InProfile(p, un, name) && (Listed(role, name.local) || IsFont(name.local))
  }

  /** How often an element gives cause for a wording by standing where it does, and by its
      attributes. */
  function OpeningDue(p: Profile, un: bool, role: Role, name: Name, attrs: seq<Attr>, w: Wording): nat {
    var local, metadata := name.local, role.Kept? && role.name == "metadata";
    if role.Skipped? then 0
    else
      match w
      case MetadataHoldsElements => One(metadata && !IsSvg(un, name))
      case ForeignElement(e, space) => One(!metadata && !IsSvg(un, name) && e == local && space == name.space)
      case UnknownElement(e) => One(IsSvg(un, name) && local !in p.elements && e == local)
      case MisplacedElement(e, parent) =>
        One(InProfile(p, un, name) && !Listed(role, local) && !IsFont(local) && e == local && role.Kept? && parent == role.name)
      case UnreachableElement(e) => One(InProfile(p, un, name) && !Listed(role, local) && IsFont(local) && e == local)
      case _ => if Taken(p, un, role, name) then ElementDue(p, local, p.elements[local], attrs, w) else 0
  }

  /** How often an element gives cause for a wording by what it holds. */
  function ContentDue(p: Profile, un: bool, local: string, elem: Element, nodes: seq<Node>, w: Wording): nat {
    var role := Kept(local, elem);
    var firsts, text := FirstsIn(p, un, role, nodes), TrimSpace(TextIn(role, nodes));
    match w
    case MissingFirstChild(e, c) => One(e == local && c == elem.firstChild && c != "" && firsts == 0)
    case RepeatedFirstChild(e, c) => One(e == local && c == elem.firstChild && c != "" && firsts > 1)
    case LateFirstChild(c, e) => One(e == local && c == elem.firstChild && c != "" && firsts == 1 && FirstAt(p, un, role, nodes) > 0)
    case EmptyTitle => One(local == "title" && text == "")
    case LongTitle(n) => One(local == "title" && n == |text| && n > 64)
    case EmptyDesc => One(local == "desc" && text == "")
    case _ => 0
  }

  /** How often a subtree gives cause for a wording. */
  function NodeDue(p: Profile, un: bool, role: Role, node: Node, w: Wording): nat
    decreases node, 0
  {
    match node
    case TextNode(text, _) =>
      if w.TextNotAllowed? then One(role.Kept? && !role.elem.allowsText && w.element == role.name && TrimSpace(text) != "") else 0
    case ProcNode(target, _) => if w.ProcInstNotAllowed? then One(target != "xml" && w.target == target) else 0
    case DirNode(text, _) => if w.DoctypeNotAllowed? then One("DOCTYPE" <= TrimSpace(text)) else 0
    case CommentNode(_) => 0
    case ElemNode(name, attrs, _, children, _) =>
      OpeningDue(p, un, role, name, attrs, w)
      + if Taken(p, un, role, name) then
          AllDue(p, un, Kept(name.local, p.elements[name.local]), children, w)
          + ContentDue(p, un, name.local, p.elements[name.local], children, w)
        else AllDue(p, un, Skipped, children, w)
  }

  function AllDue(p: Profile, un: bool, role: Role, nodes: seq<Node>, w: Wording): nat
    decreases nodes, 1
  {
    if nodes == [] then 0 else NodeDue(p, un, role, nodes[0], w) + AllDue(p, un, role, nodes[1..], w)
  }

  // ---------------------------------------------------------------- subtrees give their causes

  lemma TakenAgrees(p: Profile, un: bool, role: Role, name: Name)
    ensures var v := Judge(p, un, role, name);
            && (v.Accepted? <==> Taken(p, un, role, name))
            && (v.Accepted? ==> name.local in p.elements && v.elem == p.elements[name.local])
            && RoleOf(v, name.local) == if Taken(p, un, role, name) then Kept(name.local, p.elements[name.local]) else Skipped
  {
  }

  lemma OpeningCaused(p: Profile, un: bool, role: Role, name: Name, attrs: seq<Attr>, line: nat, w: Wording)
    ensures Occurrences(OpeningReports(p, Judge(p, un, role, name), name, attrs, line), w) == OpeningDue(p, un, role, name, attrs, w)
  {
    hide Occurrences, ElementReports, ElementDue, OpeningReports, OpeningDue, Judge;
    TakenAgrees(p, un, role, name);
    if Judge(p, un, role, name).Accepted? {
      TakenCaused(p, un, role, name, attrs, line, w);
    } else {
      NotTakenCaused(p, un, role, name, attrs, line, w);
    }
  }

  /** What is said of an element that is taken: that fonts are not foreseen, then its attributes. */
  function FontSaid(role: Role, local: string, line: nat): seq<Report> {
    if Listed(role, local) then [] else [Report(Warning, UnreachableElement(local), line)]
  }

  lemma TakenSays(p: Profile, un: bool, role: Role, name: Name, attrs: seq<Attr>, line: nat)
    requires Judge(p, un, role, name).Accepted?
    ensures Taken(p, un, role, name)
    ensures OpeningReports(p, Judge(p, un, role, name), name, attrs, line)
         == FontSaid(role, name.local, line) + ElementReports(p, name.local, p.elements[name.local], attrs, line)
  {
    hide ElementReports;
  }

  lemma TakenCaused(p: Profile, un: bool, role: Role, name: Name, attrs: seq<Attr>, line: nat, w: Wording)
    requires Judge(p, un, role, name).Accepted?
    ensures Occurrences(OpeningReports(p, Judge(p, un, role, name), name, attrs, line), w) == OpeningDue(p, un, role, name, attrs, w)
  {
    hide Occurrences, ElementReports, ElementDue, Judge, OpeningReports;
    var local := name.local;
    TakenSays(p, un, role, name, attrs, line);
    var elem := p.elements[local];
    ElementCaused(p, local, elem, attrs, line, w);
    NothingElse(p, local, elem, attrs, w);
    FewCaused(FontSaid(role, local, line), w);
    OccurrencesConcat(FontSaid(role, local, line), ElementReports(p, local, elem, attrs, line), w);
  }

  lemma NotTakenCaused(p: Profile, un: bool, role: Role, name: Name, attrs: seq<Attr>, line: nat, w: Wording)
    requires !Judge(p, un, role, name).Accepted?
    ensures Occurrences(OpeningReports(p, Judge(p, un, role, name), name, attrs, line), w) == OpeningDue(p, un, role, name, attrs, w)
  {
    hide Occurrences, ElementDue;
    FewCaused(OpeningReports(p, Judge(p, un, role, name), name, attrs, line), w);
  }

  /** The wordings about where an element stands are never about its attributes. */
  lemma {:induction false} NothingElse(p: Profile, local: string, elem: Element, attrs: seq<Attr>, w: Wording)
    ensures (w.MetadataHoldsElements? || w.ForeignElement? || w.UnknownElement? || w.MisplacedElement? || w.UnreachableElement?)
              ==> ElementDue(p, local, elem, attrs, w) == 0
    decreases |attrs|
  {
    hide NameOf, Declares, Fits;
    if attrs != [] {
      NothingElse(p, local, elem, attrs[..|attrs| - 1], w);
    }
  }

  lemma ContentCaused(p: Profile, un: bool, local: string, elem: Element, nodes: seq<Node>, line: nat, w: Wording)
    ensures Occurrences(ContentOf(p, un, Kept(local, elem), nodes, line), w) == ContentDue(p, un, local, elem, nodes, w)
  {
    hide Occurrences, FirstsIn, FirstAt, TextIn, TrimSpace;
    var role := Kept(local, elem);
    var first := FirstChildReports(local, elem.firstChild, FirstsIn(p, un, role, nodes), FirstAt(p, un, role, nodes), line);
    var content := ContentReports(local, TextIn(role, nodes), line);
    FewCaused(first, w);
    FewCaused(content, w);
    OccurrencesConcat(first, content, w);
  }

  lemma LeafCaused(p: Profile, un: bool, role: Role, node: Node, w: Wording)
    requires !node.ElemNode?
    ensures Occurrences(Walk(p, un, role, node), w) == NodeDue(p, un, role, node, w)
  {
    hide Occurrences;
    FewCaused(Walk(p, un, role, node), w);
  }

  /** Every wording is reported of a subtree exactly as often as the subtree gives cause. */
  lemma {:induction false} WalkCaused(p: Profile, un: bool, role: Role, node: Node, w: Wording)
    ensures Occurrences(Walk(p, un, role, node), w) == NodeDue(p, un, role, node, w)
    decreases node, 0
  {
    hide Occurrences, Walk, NodeDue, AllDue, Taken, ContentDue, RoleOf, Judge;
    if node.ElemNode? {
      var un, name, children := un, node.name, node.children;
      TakenAgrees(p, un, role, name);
      WalkParts(p, un, role, node, w);
      DueParts(p, un, role, node, w);
      AllCaused(p, un, RoleOf(Judge(p, un, role, name), name.local), children, w);
      OpeningCaused(p, un, role, name, node.attrs, node.openLine, w);
      if Taken(p, un, role, name) {
        ContentCaused(p, un, name.local, p.elements[name.local], children, node.closeLine, w);
      } else {
        SkippedContent(p, un, children, node.closeLine, w);
      }
    } else {
      LeafCaused(p, un, role, node, w);
    }
  }

  lemma WalkParts(p: Profile, un: bool, role: Role, node: Node, w: Wording)
    requires node.ElemNode?
    ensures var v := Judge(p, un, role, node.name);
            var inner := RoleOf(v, node.name.local);
            Occurrences(Walk(p, un, role, node), w) ==
              Occurrences(OpeningReports(p, v, node.name, node.attrs, node.openLine), w)
              + Occurrences(WalkAll(p, un, inner, node.children), w)
              + Occurrences(ContentOf(p, un, inner, node.children, node.closeLine), w)
  {
    hide Occurrences, OpeningReports, ContentOf, Judge, RoleOf, WalkAll;
    var v := Judge(p, un, role, node.name);
    var inner := RoleOf(v, node.name.local);
    var opening, middle := OpeningReports(p, v, node.name, node.attrs, node.openLine), WalkAll(p, un, inner, node.children);
    OccurrencesConcat(opening, middle, w);
    OccurrencesConcat(opening + middle, ContentOf(p, un, inner, node.children, node.closeLine), w);
  }

  lemma DueParts(p: Profile, un: bool, role: Role, node: Node, w: Wording)
    requires node.ElemNode?
    ensures var name, children := node.name, node.children;
            NodeDue(p, un, role, node, w) ==
              OpeningDue(p, un, role, name, node.attrs, w)
              + if Taken(p, un, role, name) then
                  AllDue(p, un, Kept(name.local, p.elements[name.local]), children, w)
                  + ContentDue(p, un, name.local, p.elements[name.local], children, w)
                else AllDue(p, un, Skipped, children, w)
  {
    hide OpeningDue, ContentDue, AllDue;
  }

  lemma SkippedContent(p: Profile, un: bool, nodes: seq<Node>, line: nat, w: Wording)
    ensures Occurrences(ContentOf(p, un, Skipped, nodes, line), w) == 0
  {
  }

  lemma {:induction false} AllCaused(p: Profile, un: bool, role: Role, nodes: seq<Node>, w: Wording)
    ensures Occurrences(WalkAll(p, un, role, nodes), w) == AllDue(p, un, role, nodes, w)
    decreases nodes, 1
  {
    hide Occurrences, Walk, NodeDue;
    if nodes == [] {
      FewCaused([], w);
    } else {
      WalkCaused(p, un, role, nodes[0], w);
      AllCaused(p, un, role, nodes[1..], w);
      OccurrencesConcat(Walk(p, un, role, nodes[0]), WalkAll(p, un, role, nodes[1..]), w);
    }
  }

  // ---------------------------------------------------------------- the colours of a document

  predicate AttrPaints(elem: Element, a: Attr, c: string) {
    && !Declares(a) && NameOf(a) in elem.attrs
    && NameOf(a) in {"fill", "stroke", "stop-color", "solid-color", "color"}
    && c == Lower(TrimSpace(a.value)) && c !in {"", "none", "inherit", "transparent"}
  }

  predicate Paints(p: Profile, un: bool, role: Role, node: Node, c: string)
    decreases node, 0
  {
    node.ElemNode? &&
    if Taken(p, un, role, node.name) then
      var elem := p.elements[node.name.local];
      (exists i :: 0 <= i < |node.attrs| && AttrPaints(elem, node.attrs[i], c))
      || AnyPaints(p, un, Kept(node.name.local, elem), node.children, c)
    else AnyPaints(p, un, Skipped, node.children, c)
  }

  predicate AnyPaints(p: Profile, un: bool, role: Role, nodes: seq<Node>, c: string)
    decreases nodes, 1
  {
    nodes != [] && (Paints(p, un, role, nodes[0], c) || AnyPaints(p, un, role, nodes[1..], c))
  }

  lemma {:induction false} AttrsPaint(elem: Element, attrs: seq<Attr>, c: string)
    ensures c in AllColours(elem, attrs) <==> exists i :: 0 <= i < |attrs| && AttrPaints(elem, attrs[i], c)
    decreases |attrs|
  {
    hide Declares, IsDeclaration, NameOf, CheckedName, Lower, TrimSpace, FullName, QualifiedName;
    if attrs != [] {
      var n := |attrs| - 1;
      AttrsPaint(elem, attrs[..n], c);
      NamesAgree(attrs[n]);
      assert forall i :: 0 <= i < n ==> attrs[..n][i] == attrs[i];
    }
  }

  /** The colours of a subtree are those its elements of the profile paint with. */
  lemma {:induction false} NodePaints(p: Profile, un: bool, role: Role, node: Node, c: string)
    ensures c in Colours(p, un, role, node) <==> Paints(p, un, role, node, c)
    decreases node, 0
  {
    hide AllColours, AttrPaints, Taken, Judge, RoleOf;
    if node.ElemNode? {
      TakenAgrees(p, un, role, node.name);
      var v := Judge(p, un, role, node.name);
      AllPaint(p, un, RoleOf(v, node.name.local), node.children, c);
      if v.Accepted? {
        AttrsPaint(v.elem, node.attrs, c);
      }
    }
  }

  lemma {:induction false} AllPaint(p: Profile, un: bool, role: Role, nodes: seq<Node>, c: string)
    ensures c in ColoursAll(p, un, role, nodes) <==> AnyPaints(p, un, role, nodes, c)
    decreases nodes, 1
  {
    hide Colours, Paints;
    if nodes != [] {
      NodePaints(p, un, role, nodes[0], c);
      AllPaint(p, un, role, nodes[1..], c);
    }
  }

  // ---------------------------------------------------------------- the causes in a document

  predicate RootDeclares(root: Node)
    requires root.ElemNode?
  {
    root.name.space == "http://www.w3.org/2000/svg"
  }

  function RootDue(p: Profile, root: Node, w: Wording): nat
    requires HasRoot(p) && root.ElemNode?
  {
    var svg := p.elements["svg"];
    if root.name.local != "svg" then
      (if w.WrongRoot? then One(w.element == root.name.local) else 0) + AllDue(p, false, Skipped, root.children, w)
    else
      (if w.WrongRootNamespace? then One(!RootDeclares(root) && w.space == root.name.space) else 0)
      + ElementDue(p, "svg", svg, root.attrs, w)
      + AllDue(p, !RootDeclares(root), Kept("svg", svg), root.children, w)
      + ContentDue(p, !RootDeclares(root), "svg", svg, root.children, w)
  }

  function DocumentDue(p: Profile, nodes: seq<Node>, w: Wording): nat
    requires HasRoot(p)
  {
    if nodes == [] then 0
    else if nodes[0].ElemNode? then
      RootDue(p, nodes[0], w)
      + AllDue(p, nodes[0].name.local == "svg" && !RootDeclares(nodes[0]), Document, nodes[1..], w)
    else NodeDue(p, false, Document, nodes[0], w) + DocumentDue(p, nodes[1..], w)
  }

  predicate DocumentPaints(p: Profile, nodes: seq<Node>, c: string)
    requires HasRoot(p)
  {
    nodes != [] &&
    if !nodes[0].ElemNode? then DocumentPaints(p, nodes[1..], c)
    else
      var root, svg := nodes[0], p.elements["svg"];
      var un := root.name.local == "svg" && !RootDeclares(root);
      || AnyPaints(p, un, Document, nodes[1..], c)
      || if root.name.local != "svg" then AnyPaints(p, un, Skipped, root.children, c)
         else
           || (exists i :: 0 <= i < |root.attrs| && AttrPaints(svg, root.attrs[i], c))
           || AnyPaints(p, un, Kept("svg", svg), root.children, c)
  }

  /** The first element of a document, if there is one. */
  function RootOf(nodes: seq<Node>): Option<Node> {
    if nodes == [] then None else if nodes[0].ElemNode? then Some(nodes[0]) else RootOf(nodes[1..])
  }

  /** How often the document as a whole gives cause for a wording. */
  ghost function WholeDue(p: Profile, nodes: seq<Node>, w: Wording): nat
    requires HasRoot(p)
  {
    var root := RootOf(nodes);
    match w
    case NoElement => One(root.None?)
    case FewColours =>
      One(root.Some? && root.value.ElemNode? && root.value.name.local == "svg"
          && forall c, d :: DocumentPaints(p, nodes, c) && DocumentPaints(p, nodes, d) ==> c == d)
    case _ => 0
  }

  // ---------------------------------------------------------------- documents give their causes

  lemma RootParts(p: Profile, root: Node, w: Wording)
    requires HasRoot(p) && root.ElemNode?
    ensures var role, un := RootRole(p, root), Unnamespaced(root);
            Occurrences(WalkRoot(p, root), w) ==
              One(un && w == WrongRootNamespace(root.name.space))
              + Occurrences(OpeningReports(p, JudgeRoot(p, root.name), root.name, root.attrs, root.openLine), w)
              + Occurrences(WalkAll(p, un, role, root.children), w)
              + Occurrences(ContentOf(p, un, role, root.children, root.closeLine), w)
  {
    hide Occurrences, OpeningReports, WalkAll, ContentOf;
    var role, un := RootRole(p, root), Unnamespaced(root);
    var wrong := if un then [Report(Error, WrongRootNamespace(root.name.space), root.openLine)] else [];
    var own := OpeningReports(p, JudgeRoot(p, root.name), root.name, root.attrs, root.openLine);
    var opening, middle := RootOpening(p, root.name, root.attrs, root.openLine), WalkAll(p, un, role, root.children);
    FewCaused(wrong, w);
    OccurrencesConcat(wrong, own, w);
    OccurrencesConcat(opening, middle, w);
    OccurrencesConcat(opening + middle, ContentOf(p, un, role, root.children, root.closeLine), w);
  }

  lemma RootOpeningCaused(p: Profile, root: Node, w: Wording)
    requires HasRoot(p) && root.ElemNode?
    ensures var own := OpeningReports(p, JudgeRoot(p, root.name), root.name, root.attrs, root.openLine);
            Occurrences(own, w) ==
              if root.name.local == "svg" then ElementDue(p, "svg", p.elements["svg"], root.attrs, w)
              else One(w == WrongRoot(root.name.local))
  {
    hide Occurrences, ElementReports, ElementDue;
    var own := OpeningReports(p, JudgeRoot(p, root.name), root.name, root.attrs, root.openLine);
    if root.name.local == "svg" {
      assert own == ElementReports(p, "svg", p.elements["svg"], root.attrs, root.openLine);
      ElementCaused(p, "svg", p.elements["svg"], root.attrs, root.openLine, w);
    } else {
      FewCaused(own, w);
    }
  }

  lemma RootCaused(p: Profile, root: Node, w: Wording)
    requires HasRoot(p) && root.ElemNode?
    ensures Occurrences(WalkRoot(p, root), w) == RootDue(p, root, w)
    ensures Unnamespaced(root) <==> root.name.local == "svg" && !RootDeclares(root)
  {
    hide Occurrences, OpeningReports, ElementDue, AllDue, ContentDue, WalkAll, WalkRoot, ContentOf;
    var role, un := RootRole(p, root), Unnamespaced(root);
    RootParts(p, root, w);
    RootOpeningCaused(p, root, w);
    AllCaused(p, un, role, root.children, w);
    if root.name.local == "svg" {
      ContentCaused(p, un, "svg", p.elements["svg"], root.children, root.closeLine, w);
    } else {
      SkippedContent(p, un, root.children, root.closeLine, w);
    }
  }

  lemma {:induction false} DocumentCaused(p: Profile, nodes: seq<Node>, w: Wording)
    requires HasRoot(p)
    ensures Occurrences(WalkDocument(p, nodes), w) == DocumentDue(p, nodes, w)
    decreases |nodes|
  {
    hide Occurrences, Walk, WalkRoot, WalkAll, NodeDue, AllDue, RootDue;
    if nodes == [] {
      FewCaused([], w);
    } else if nodes[0].ElemNode? {
      RootCaused(p, nodes[0], w);
      AllCaused(p, Unnamespaced(nodes[0]), Document, nodes[1..], w);
      OccurrencesConcat(WalkRoot(p, nodes[0]), WalkAll(p, Unnamespaced(nodes[0]), Document, nodes[1..]), w);
    } else {
      WalkCaused(p, false, Document, nodes[0], w);
      DocumentCaused(p, nodes[1..], w);
      OccurrencesConcat(Walk(p, false, Document, nodes[0]), WalkDocument(p, nodes[1..]), w);
    }
  }

  lemma {:induction false} DocumentColoured(p: Profile, nodes: seq<Node>, c: string)
    requires HasRoot(p)
    ensures c in DocumentColours(p, nodes) <==> DocumentPaints(p, nodes, c)
    decreases |nodes|
  {
    hide AllColours, ColoursAll, AnyPaints, AttrPaints;
    if nodes != [] {
      if nodes[0].ElemNode? {
        var root := nodes[0];
        var un := Unnamespaced(root);
        AllPaint(p, un, Document, nodes[1..], c);
        AllPaint(p, un, RootRole(p, root), root.children, c);
        AttrsPaint(p.elements["svg"], root.attrs, c);
      } else {
        DocumentColoured(p, nodes[1..], c);
      }
    }
  }

  lemma FewElements(s: set<string>)
    ensures |s| < 2 <==> forall c, d :: c in s && d in s ==> c == d
  {
    if s != {} {
      var c :| c in s;
      var rest := s - {c};
      if rest == {} {
        assert s == {c};
      } else {
        var d :| d in rest;
        assert |rest - {d}| == |s| - 2 && c != d && d in s;
      }
    }
  }

  lemma {:induction false} RootFound(nodes: seq<Node>)
    ensures HasElement(nodes) <==> RootOf(nodes).Some?
    ensures RootOf(nodes).Some? ==> RootOf(nodes).value.ElemNode?
    ensures RootIsSvg(nodes) <==> RootOf(nodes).Some? && RootOf(nodes).value.name.local == "svg"
    decreases |nodes|
  {
    if nodes != [] {
      HasElementCons(nodes);
      RootFound(nodes[1..]);
    } else {
      NoElements();
    }
  }

  lemma WholeCaused(p: Profile, nodes: seq<Node>, line: nat, w: Wording)
    requires HasRoot(p)
    ensures Occurrences(FinalReports(HasElement(nodes), RootIsSvg(nodes), DocumentColours(p, nodes), line), w) == WholeDue(p, nodes, w)
  {
    hide Occurrences, HasElement, RootIsSvg, DocumentColours, DocumentPaints, RootOf;
    RootFound(nodes);
    FewElements(DocumentColours(p, nodes));
    forall c
      ensures c in DocumentColours(p, nodes) <==> DocumentPaints(p, nodes, c)
    {
      DocumentColoured(p, nodes, c);
    }
    FewCaused(FinalReports(HasElement(nodes), RootIsSvg(nodes), DocumentColours(p, nodes), line), w);
  }

  /** Saying it once changes how often one wording is said, and no other. */
  lemma {:induction false} OnceCaused(reports: seq<Report>, warned: bool, w: Wording)
    ensures Occurrences(Once(reports, warned), w) ==
              if w != MetadataHoldsElements then Occurrences(reports, w)
              else if warned || Occurrences(reports, w) == 0 then 0 else 1
    decreases |reports|
  {
    hide Occurrences;
    if reports == [] {
      FewCaused([], w);
    } else {
      var metadata := reports[0].wording == MetadataHoldsElements;
      var kept := if metadata && warned then [] else [reports[0]];
      OnceCaused(reports[1..], warned || metadata, w);
      OccurrencesConcat([reports[0]], reports[1..], w);
      OccurrencesConcat(kept, Once(reports[1..], warned || metadata), w);
      FewCaused([reports[0]], w);
      FewCaused(kept, w);
      assert reports == [reports[0]] + reports[1..];
    }
  }

  // ---------------------------------------------------------------- the problem list of a document

  predicate IsAdvice(w: Wording) {
    w.MetadataHoldsElements? || w.UnreachableElement? || w.LongTitle? || w.FewColours? || w.XlinkHref? || w.AttributeDiscouraged?
  }

  /** A wording is in the problem list of a document exactly when the document gives it cause,
      with the number of its causes as its count (a warning about foreign metadata counts once)
      and the severity that goes with it. */
  lemma ProblemsExactly(p: Profile, nodes: seq<Node>, lastLine: nat, w: Wording)
    requires HasRoot(p)
    ensures var problems := Merge(DocumentReports(p, nodes, lastLine));
            var i, due := IndexOf(problems, w), DocumentDue(p, nodes, w) + WholeDue(p, nodes, w);
            && (i < |problems| <==> due > 0)
            && (i < |problems| ==> problems[i].count == (if w == MetadataHoldsElements then 1 else due)
                                   && problems[i].severity == if IsAdvice(w) then Warning else Error)
  {
    hide Occurrences, WalkDocument, Once, Merge, FinalReports, DocumentDue, WholeDue, DocumentColours, HasElement, RootIsSvg, HasRoot;
    hide Graded, Grade, IndexOf;
    var walk := WalkDocument(p, nodes);
    var final := FinalReports(HasElement(nodes), RootIsSvg(nodes), DocumentColours(p, nodes), lastLine);
    DocumentCaused(p, nodes, w);
    OnceCaused(walk, false, w);
    WholeCaused(p, nodes, lastLine, w);
    OccurrencesConcat(Once(walk, false), final, w);
    MergeSummarises(DocumentReports(p, nodes, lastLine));
    DocumentReportsGraded(p, nodes, lastLine);
    ListedExactly(DocumentReports(p, nodes, lastLine), w);
    NoMetadataAtLast(p, nodes, w);
  }

  lemma NoMetadataAtLast(p: Profile, nodes: seq<Node>, w: Wording)
    requires HasRoot(p)
    ensures w == MetadataHoldsElements ==> WholeDue(p, nodes, w) == 0
  {
  }

  lemma DocumentReportsGraded(p: Profile, nodes: seq<Node>, lastLine: nat)
    requires HasRoot(p)
    ensures Graded(DocumentReports(p, nodes, lastLine))
  {
    hide WalkDocument, Once, HasElement, RootIsSvg, DocumentColours, Graded;
    var final := FinalReports(HasElement(nodes), RootIsSvg(nodes), DocumentColours(p, nodes), lastLine);
    DocumentGraded(p, nodes);
    OnceKeepsErrors(WalkDocument(p, nodes), false);
    FinalGraded(final);
    MentionsConcat(Once(WalkDocument(p, nodes), false), final);
  }

  lemma ListedExactly(reports: seq<Report>, w: Wording)
    requires Graded(reports)
    ensures var problems := Merge(reports);
            var i := IndexOf(problems, w);
            && (i < |problems| <==> Occurrences(reports, w) > 0)
            && (i < |problems| ==> problems[i].count == Occurrences(reports, w)
                                   && problems[i].severity == if IsAdvice(w) then Warning else Error)
  {
    hide Occurrences, Merge, IndexOf, FirstReport, Grade;
    MergeSummarises(reports);
    var problems := Merge(reports);
    var i := IndexOf(problems, w);
    if i < |problems| {
      assert StandsFor(problems[i], reports);
      GradeSays(w);
      assert problems[i].wording == w && reports[FirstReport(reports, w)].wording == w;
      assert reports[FirstReport(reports, w)] in reports;
    }
  }

  lemma GradeSays(w: Wording)
    ensures Grade(w) == if IsAdvice(w) then Warning else Error
  {
  }
}
