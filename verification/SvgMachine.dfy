/** The one-pass validator: a stack machine over the tokens of a document. */
module SvgMachine {
  import opened Basics
  import opened Text
  import opened SvgProfile

  /** One open element. */
  datatype Frame = Frame(
    name: string, elem: Option<Element>, skip: bool, metadata: bool,
    children: nat, firstIndex: int, firstCount: nat, text: string)

  /** Everything the validator remembers of the tokens read, the problems apart. */
  datatype Cursor = Cursor(
    stack: seq<Frame>, rootSeen: bool, rootIsSvg: bool, unnamespaced: bool,
    metadataWarned: bool, colours: set<string>)

  const START := Cursor([], false, false, false, false, {})

  function SkippedFrame(name: string): Frame {
    Frame(name, None, true, false, 0, -1, 0, "")
  }

  function OpenFrame(name: string, elem: Element, metadata: bool): Frame {
    Frame(name, Some(elem), false, metadata, 0, -1, 0, "")
  }

  predicate InSvgNamespace(unnamespaced: bool, name: Name) {
    name.space == SVG_NS || (unnamespaced && name.space == "")
  }

  function Top(c: Cursor): Option<Frame> {
    if c.stack == [] then None else Some(c.stack[|c.stack| - 1])
  }

  function Push(c: Cursor, f: Frame): Cursor {
    c.(stack := c.stack + [f])
  }

  function SetTop(c: Cursor, f: Frame): Cursor
    requires c.stack != []
  {
    c.(stack := c.stack[..|c.stack| - 1] + [f])
  }

  // ---------------------------------------------------------------- the reports of one token

  predicate IsDoctype(text: string) {
    HasPrefix(TrimSpace(text), "DOCTYPE")
  }

  function TextReports(f: Option<Frame>, text: string, line: nat): seq<Report> {
    if f.None? || f.value.skip || f.value.elem.None? || f.value.elem.value.allowsText || AllSpace(text) then []
    else [Report(Error, TextNotAllowed(f.value.name), line)]
  }

  /** How an element is placed under its parent. */
  datatype Placement = Anywhere | Child | First | Font | Misplaced

  function PlacementOf(parent: Option<Frame>, local: string): Placement {
    if parent.None? || parent.value.elem.None? then Anywhere
    else
      var elem := parent.value.elem.value;
      if local in elem.children then Child
      else if local == elem.firstChild then First
      else if local in FONT_ELEMENTS then Font
      else Misplaced
  }

  /** The parent frame once it has been told of a child element. */
  function CountChild(f: Frame): Frame {
    f.(children := f.children + 1)
  }

  function CountFirst(f: Frame): Frame {
    f.(firstCount := f.firstCount + 1, firstIndex := if f.firstIndex < 0 then f.children - 1 else f.firstIndex)
  }

  /** An element after the root, its parent already told of it. */
  function PlaceElement(p: Profile, c: Cursor, name: Name, attrs: seq<Attr>, line: nat): (Cursor, seq<Report>) {
    var local := name.local;
    if !InSvgNamespace(c.unnamespaced, name) then
      (Push(c, SkippedFrame(local)), [Report(Error, ForeignElement(local, name.space), line)])
    else if local !in p.elements then
      (Push(c, SkippedFrame(local)), [Report(Error, UnknownElement(local), line)])
    else
      var elem := p.elements[local];
      var placement := PlacementOf(Top(c), local);
      if placement.Misplaced? then
        (Push(c, SkippedFrame(local)), [Report(Error, MisplacedElement(local, Top(c).value.name), line)])
      else
        var c1 := if placement.First? then SetTop(c, CountFirst(Top(c).value)) else c;
        var font := if placement.Font? then [Report(Warning, UnreachableElement(local), line)] else [];
        (Push(c1.(colours := c1.colours + AllColours(elem, attrs)), OpenFrame(local, elem, local == "metadata")),
         font + ElementReports(p, local, elem, attrs, line))
  }

  function PlaceRoot(p: Profile, c: Cursor, name: Name, attrs: seq<Attr>, line: nat): (Cursor, seq<Report>)
    requires HasRoot(p)
  {
    if name.local != "svg" then
      (Push(c.(rootSeen := true), SkippedFrame(name.local)), [Report(Error, WrongRoot(name.local), line)])
    else
      var elem := p.elements["svg"];
      var wrong := name.space != SVG_NS;
      (Push(c.(rootSeen := true, rootIsSvg := true, unnamespaced := c.unnamespaced || wrong,
               colours := c.colours + AllColours(elem, attrs)),
            OpenFrame("svg", elem, false)),
       (if wrong then [Report(Error, WrongRootNamespace(name.space), line)] else [])
       + ElementReports(p, "svg", elem, attrs, line))
  }

  function OnStart(p: Profile, c: Cursor, name: Name, attrs: seq<Attr>, line: nat): (Cursor, seq<Report>)
    requires HasRoot(p)
  {
    var parent := Top(c);
    if parent.Some? && parent.value.skip then
      (Push(c, SkippedFrame(name.local)), [])
    else if parent.Some? && parent.value.metadata && !InSvgNamespace(c.unnamespaced, name) then
      (Push(c.(metadataWarned := true), SkippedFrame(name.local)),
       if c.metadataWarned then [] else [Report(Warning, MetadataHoldsElements, line)])
    else
      var c1 := if parent.Some? then SetTop(c, CountChild(parent.value)) else c;
      if !c.rootSeen then PlaceRoot(p, c1, name, attrs, line)
      else PlaceElement(p, c1, name, attrs, line)
  }

  /** The checks that need the whole content of an element. */
  function ClosingReports(f: Frame, line: nat): seq<Report> {
    if f.skip || f.elem.None? then []
    else
      FirstChildReports(f.name, f.elem.value.firstChild, f.firstCount, f.firstIndex, line)
      + ContentReports(f.name, f.text, line)
  }

  function FirstChildReports(name: string, child: string, count: nat, index: int, line: nat): seq<Report> {
    if child == "" then []
    else if count == 0 then [Report(Error, MissingFirstChild(name, child), line)]
    else if count > 1 then [Report(Error, RepeatedFirstChild(name, child), line)]
    else if index > 0 then [Report(Error, LateFirstChild(child, name), line)]
    else []
  }

  function ContentReports(name: string, text: string, line: nat): seq<Report> {
    var said := TrimSpace(text);
    if name == "title" then
      if said == "" then [Report(Error, EmptyTitle, line)]
      else if |said| > MAX_TITLE_LENGTH then [Report(Warning, LongTitle(|said|), line)]
      else []
    else if name == "desc" && said == "" then [Report(Error, EmptyDesc, line)]
    else []
  }

  /** One token: what the validator remembers after it, and what it reports. */
  function Step(p: Profile, c: Cursor, t: Located): (Cursor, seq<Report>)
    requires HasRoot(p)
  {
    match t.token
    case ProcInst(target) =>
      (c, if target == "xml" then [] else [Report(Error, ProcInstNotAllowed(target), t.line)])
    case Directive(text) =>
      (c, if IsDoctype(text) then [Report(Error, DoctypeNotAllowed, t.line)] else [])
    case Comment => (c, [])
    case CharData(text) =>
      var f := Top(c);
      if f.Some? && !f.value.skip && f.value.elem.Some? && f.value.elem.value.allowsText then
        (SetTop(c, f.value.(text := f.value.text + text)), [])
      else (c, TextReports(f, text, t.line))
    case Start(name, attrs) => OnStart(p, c, name, attrs, t.line)
    case End =>
      if c.stack == [] then (c, [])
      else (c.(stack := c.stack[..|c.stack| - 1]), ClosingReports(c.stack[|c.stack| - 1], t.line))
  }

  /** The checks that need the whole document. */
  function FinalReports(rootSeen: bool, rootIsSvg: bool, colours: set<string>, line: nat): seq<Report> {
    if !rootSeen then [Report(Error, NoElement, line)]
    else if rootIsSvg && |colours| < 2 then [Report(Warning, FewColours, line)]
    else []
  }

  /** A run of tokens. */
  function Run(p: Profile, c: Cursor, tokens: seq<Located>): (Cursor, seq<Report>)
    requires HasRoot(p)
    decreases |tokens|
  {
    if tokens == [] then (c, [])
    else
      var n := |tokens| - 1;
      var (c1, before) := Run(p, c, tokens[..n]);
      var (c2, last) := Step(p, c1, tokens[n]);
      (c2, before + last)
  }

  // ---------------------------------------------------------------- merging reports

  /** The index of the problem with this wording, or the length of the list. */
  function IndexOf(problems: seq<Problem>, w: Wording): (i: nat)
    ensures i <= |problems|
    ensures i < |problems| ==> problems[i].wording == w
    ensures forall k :: 0 <= k < i ==> problems[k].wording != w
  {
    var wordings := seq(|problems|, k requires 0 <= k < |problems| => problems[k].wording);
    var i := Find(wordings, w);
    assert forall k :: 0 <= k < i ==> wordings[k] == problems[k].wording;
    i
  }

  function MergeOne(problems: seq<Problem>, r: Report): seq<Problem> {
    var i := IndexOf(problems, r.wording);
    if i < |problems| then problems[i := problems[i].(count := problems[i].count + 1)]
    else problems + [Problem(r.wording, r.severity, r.line, 1)]
  }

  /** The problem list a run of reports amounts to. */
  function Merge(reports: seq<Report>): seq<Problem>
    decreases |reports|
  {
    if reports == [] then []
    else MergeOne(Merge(reports[..|reports| - 1]), reports[|reports| - 1])
  }
}
