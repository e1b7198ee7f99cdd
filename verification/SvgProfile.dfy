/** The SVG Tiny Portable/Secure profile, the document tokens it is checked against, and the
    checks made on the attributes of one element. */
module SvgProfile {
  import opened Text

  datatype Severity = Error | Warning

  /** What a problem says, one constructor for each wording. */
  datatype Wording =
    | ProcInstNotAllowed(target: string)
    | DoctypeNotAllowed
    | TextNotAllowed(element: string)
    | MetadataHoldsElements
    | ForeignElement(element: string, space: string)
    | UnknownElement(element: string)
    | UnreachableElement(element: string)
    | MisplacedElement(element: string, parent: string)
    | WrongRoot(element: string)
    | WrongRootNamespace(space: string)
    | MissingFirstChild(element: string, child: string)
    | RepeatedFirstChild(element: string, child: string)
    | LateFirstChild(child: string, element: string)
    | EmptyTitle
    | LongTitle(length: nat)
    | EmptyDesc
    | NoElement
    | FewColours
    | XlinkHref(element: string)
    | AttributeNotAllowed(name: string, element: string)
    | WrongEnum(name: string, value: string, element: string)
    | WrongPattern(name: string, value: string, element: string, pattern: string)
    | AttributeDiscouraged(name: string, element: string)
    | ExternalReference(value: string, element: string)
    | ExternalPaint(target: string, name: string, element: string)
    | RequiredMissing(element: string, name: string)

  /** One call of the validator to record a problem, at a line of the document. */
  datatype Report = Report(severity: Severity, wording: Wording, line: nat)

  /** One entry of the problem list: identical reports are merged and counted. */
  datatype Problem = Problem(wording: Wording, severity: Severity, line: nat, count: nat)

  datatype Name = Name(space: string, local: string)

  datatype Attr = Attr(name: Name, value: string)

  datatype Token =
    | ProcInst(target: string)
    | Directive(text: string)
    | Comment
    | CharData(text: string)
    | Start(name: Name, attrs: seq<Attr>)
    | End

  /** A token and the line the decoder has reached after it. */
  datatype Located = At(token: Token, line: nat)

  datatype AttrSpec = AttrSpec(enum: seq<string>, pattern: string)

  datatype Element = Element(attrs: map<string, AttrSpec>, firstChild: string, children: set<string>, allowsText: bool)

  /** The generated grammar, and the regular expressions the validator relies on: whether a
      value matches a pattern, and the targets of the `url(...)` references of a value. */
  datatype Profile = Profile(
    elements: map<string, Element>,
    required: map<string, seq<string>>,
    matches: (string, string) -> bool,
    funcTargets: string -> seq<string>)

  /** What the validator relies on: the profile has an entry for the root element. */
  predicate HasRoot(p: Profile) {
    "svg" in p.elements
  }

  const SVG_NS := "http://www.w3.org/2000/svg"
  const XML_NS := "http://www.w3.org/XML/1998/namespace"
  const XLINK_NS := "http://www.w3.org/1999/xlink"
  const MAX_TITLE_LENGTH := 64
  const FONT_ELEMENTS := {"font", "font-face", "glyph", "hkern"}
  const COLOR_ATTRS := {"fill", "stroke", "stop-color", "solid-color", "color"}
  const DISCOURAGED_ATTRS := {"zoomAndPan", "externalResourcesRequired", "focusable", "snapshotTime",
                              "playbackOrder", "timelineBegin", "editable"}

  // ---------------------------------------------------------------- the name of an attribute

  /** A namespace declaration rather than an attribute of the element. */
  predicate IsDeclaration(a: Attr) {
    a.name.space == "xmlns" || (a.name.space == "" && a.name.local == "xmlns")
  }

  function QualifiedName(n: Name): string {
    if n.space == "" then n.local
    else if n.space == XML_NS || n.space == "xml" then "xml:" + n.local
    else if n.space == XLINK_NS || n.space == "xlink" then "xlink:" + n.local
    else "{" + n.space + "}" + n.local
  }

  /** The name an attribute is checked under: `xlink:href` counts as `href`. */
  function CheckedName(a: Attr): string {
    var name := QualifiedName(a.name);
    if name == "xlink:href" then "href" else name
  }

  // ---------------------------------------------------------------- the value of an attribute

  predicate ValueAllowed(p: Profile, spec: AttrSpec, value: string) {
    if spec.enum != [] then value in spec.enum
    else spec.pattern == "" || p.matches(spec.pattern, value)
  }

  function ValueReports(p: Profile, local: string, name: string, value: string, spec: AttrSpec, line: nat): seq<Report> {
    if ValueAllowed(p, spec, value) then []
    else if spec.enum != [] then [Report(Error, WrongEnum(name, value, local), line)]
    else [Report(Error, WrongPattern(name, value, local, spec.pattern), line)]
  }

  predicate IsLocal(target: string) {
    HasPrefix(target, "#")
  }

  function Targets(p: Profile, value: string): seq<string> {
    if '(' in value then p.funcTargets(value) else []
  }

  function PaintReports(targets: seq<string>, name: string, local: string, line: nat): seq<Report> {
    if targets == [] then []
    else
      (if IsLocal(targets[0]) then [] else [Report(Error, ExternalPaint(targets[0], name, local), line)])
      + PaintReports(targets[1..], name, local, line)
  }

  function ColourOf(a: Attr): set<string> {
    var c := Lower(TrimSpace(a.value));
    if CheckedName(a) in COLOR_ATTRS && c !in {"", "none", "inherit", "transparent"} then {c} else {}
  }

  // ---------------------------------------------------------------- the attributes of an element

  /** The reports one attribute gives rise to, in order. */
  function AttrReports(p: Profile, local: string, elem: Element, a: Attr, line: nat): seq<Report> {
    if IsDeclaration(a) then []
    else
      var name := CheckedName(a);
      (if QualifiedName(a.name) == "xlink:href" then [Report(Warning, XlinkHref(local), line)] else [])
      + if name !in elem.attrs then [Report(Error, AttributeNotAllowed(name, local), line)]
        else
          var wrong := ValueReports(p, local, name, a.value, elem.attrs[name], line);
          wrong
          + (if wrong == [] && name in DISCOURAGED_ATTRS then [Report(Warning, AttributeDiscouraged(name, local), line)] else [])
          + (if name == "href" && !IsLocal(a.value) then [Report(Error, ExternalReference(a.value, local), line)] else [])
          + PaintReports(Targets(p, a.value), name, local, line)
  }

  /** The colours one attribute paints with: only attributes the profile permits count. */
  function AttrColours(elem: Element, a: Attr): set<string> {
    if !IsDeclaration(a) && CheckedName(a) in elem.attrs then ColourOf(a) else {}
  }

  function AllAttrReports(p: Profile, local: string, elem: Element, attrs: seq<Attr>, line: nat): seq<Report> {
    if attrs == [] then []
    else AllAttrReports(p, local, elem, attrs[..|attrs| - 1], line) + AttrReports(p, local, elem, attrs[|attrs| - 1], line)
  }

  function AllColours(elem: Element, attrs: seq<Attr>): set<string> {
    if attrs == [] then {}
    else AllColours(elem, attrs[..|attrs| - 1]) + AttrColours(elem, attrs[|attrs| - 1])
  }

  /** The element carries an attribute checked under this name. */
  predicate Carries(attrs: seq<Attr>, name: string) {
    exists i :: 0 <= i < |attrs| && !IsDeclaration(attrs[i]) && CheckedName(attrs[i]) == name
  }

  function Required(p: Profile, local: string): seq<string> {
    if local in p.required then p.required[local] else []
  }

  function MissingReports(local: string, names: seq<string>, attrs: seq<Attr>, line: nat): seq<Report> {
    if names == [] then []
    else
      var n := |names| - 1;
      MissingReports(local, names[..n], attrs, line)
      + if Carries(attrs, names[n]) then [] else [Report(Error, RequiredMissing(local, names[n]), line)]
  }

  /** Every report on the attributes of an element, in order. */
  function ElementReports(p: Profile, local: string, elem: Element, attrs: seq<Attr>, line: nat): seq<Report> {
    AllAttrReports(p, local, elem, attrs, line) + MissingReports(local, Required(p, local), attrs, line)
  }

  // ---------------------------------------------------------------- conforming attributes

  /** No report of the list is an error. */
  predicate NoError(reports: seq<Report>) {
    forall r :: r in reports ==> r.severity != Error
  }

  /** What the profile demands of one attribute. */
  predicate AttrConforms(p: Profile, elem: Element, a: Attr) {
    IsDeclaration(a) ||
    var name := CheckedName(a);
    && name in elem.attrs
    && ValueAllowed(p, elem.attrs[name], a.value)
    && (name == "href" ==> IsLocal(a.value))
    && forall t :: t in Targets(p, a.value) ==> IsLocal(t)
  }

  /** What the profile demands of the attributes of an element. */
  predicate AttrsConform(p: Profile, local: string, elem: Element, attrs: seq<Attr>) {
    && (forall i :: 0 <= i < |attrs| ==> AttrConforms(p, elem, attrs[i]))
    && forall name :: name in Required(p, local) ==> Carries(attrs, name)
  }

  lemma NoErrorConcat(a: seq<Report>, b: seq<Report>)
    ensures NoError(a + b) <==> NoError(a) && NoError(b)
  {
  }

  lemma {:induction false} PaintNoError(targets: seq<string>, name: string, local: string, line: nat)
    ensures NoError(PaintReports(targets, name, local, line)) <==> forall t :: t in targets ==> IsLocal(t)
  {
    hide IsLocal;
    if targets != [] {
      PaintNoError(targets[1..], name, local, line);
      var head := if IsLocal(targets[0]) then [] else [Report(Error, ExternalPaint(targets[0], name, local), line)];
      NoErrorConcat(head, PaintReports(targets[1..], name, local, line));
      assert head != [] ==> head[0] in head;
    }
  }

  lemma AttrNoError(p: Profile, local: string, elem: Element, a: Attr, line: nat)
    ensures NoError(AttrReports(p, local, elem, a, line)) <==> AttrConforms(p, elem, a)
  {
    hide IsLocal, PaintReports, IsDeclaration, ValueAllowed, Targets, NoError;
    if !IsDeclaration(a) {
      var name := CheckedName(a);
      var xlink := if QualifiedName(a.name) == "xlink:href" then [Report(Warning, XlinkHref(local), line)] else [];
      if name !in elem.attrs {
        Single(Error, AttributeNotAllowed(name, local), line);
        Single(Warning, XlinkHref(local), line);
        NoErrorConcat(xlink, [Report(Error, AttributeNotAllowed(name, local), line)]);
      } else {
        var wrong := ValueReports(p, local, name, a.value, elem.attrs[name], line);
        var discouraged := if wrong == [] && name in DISCOURAGED_ATTRS
                           then [Report(Warning, AttributeDiscouraged(name, local), line)] else [];
        var external := if name == "href" && !IsLocal(a.value) then [Report(Error, ExternalReference(a.value, local), line)] else [];
        var paint := PaintReports(Targets(p, a.value), name, local, line);
        PaintNoError(Targets(p, a.value), name, local, line);
        Singles(xlink);
        Singles(wrong);
        Singles(discouraged);
        Singles(external);
        NoErrorConcat(wrong, discouraged);
        NoErrorConcat(wrong + discouraged, external);
        NoErrorConcat(wrong + discouraged + external, paint);
        NoErrorConcat(xlink, wrong + discouraged + external + paint);
      }
    } else {
      Singles([]);
    }
  }

  lemma Single(severity: Severity, wording: Wording, line: nat)
    ensures NoError([Report(severity, wording, line)]) <==> severity == Warning
  {
  }

  lemma Singles(reports: seq<Report>)
    requires |reports| <= 1
    ensures NoError(reports) <==> reports == [] || reports[0].severity == Warning
  {
  }

  lemma {:induction false} AllAttrsNoError(p: Profile, local: string, elem: Element, attrs: seq<Attr>, line: nat)
    ensures NoError(AllAttrReports(p, local, elem, attrs, line))
       <==> forall i :: 0 <= i < |attrs| ==> AttrConforms(p, elem, attrs[i])
    decreases |attrs|
  {
    hide AttrReports, AttrConforms, NoError;
    if attrs == [] {
      Singles([]);
    } else {
      var n := |attrs| - 1;
      AllAttrsNoError(p, local, elem, attrs[..n], line);
      AttrNoError(p, local, elem, attrs[n], line);
      NoErrorConcat(AllAttrReports(p, local, elem, attrs[..n], line), AttrReports(p, local, elem, attrs[n], line));
    }
  }

  lemma {:induction false} MissingNoError(local: string, names: seq<string>, attrs: seq<Attr>, line: nat)
    ensures NoError(MissingReports(local, names, attrs, line)) <==> forall name :: name in names ==> Carries(attrs, name)
    decreases |names|
  {
    hide Carries, NoError;
    if names == [] {
      Singles([]);
    } else {
      var n := |names| - 1;
      var last := if Carries(attrs, names[n]) then [] else [Report(Error, RequiredMissing(local, names[n]), line)];
      MissingNoError(local, names[..n], attrs, line);
      Singles(last);
      NoErrorConcat(MissingReports(local, names[..n], attrs, line), last);
      assert names == names[..n] + [names[n]];
    }
  }

  /** The attributes of an element raise no error exactly when they conform to the profile. */
  lemma ElementNoError(p: Profile, local: string, elem: Element, attrs: seq<Attr>, line: nat)
    ensures NoError(ElementReports(p, local, elem, attrs, line)) <==> AttrsConform(p, local, elem, attrs)
  {
    hide NoError, AttrConforms, Carries;
    AllAttrsNoError(p, local, elem, attrs, line);
    MissingNoError(local, Required(p, local), attrs, line);
    NoErrorConcat(AllAttrReports(p, local, elem, attrs, line), MissingReports(local, Required(p, local), attrs, line));
  }
}
