/** The validator as an object: it updates its stack, counters and problem list in place, one
    token at a time, and merges a repeated problem into the entry it already has. */
module SvgValidator {
  import opened Basics
  import opened Text
  import opened SvgProfile
  import opened SvgMachine

  /** The index of problems by wording agrees with the list. */
  ghost predicate Indexes(seen: map<Wording, nat>, problems: seq<Problem>) {
    && (forall w :: w in seen ==> seen[w] < |problems| && problems[seen[w]].wording == w)
    && forall i :: 0 <= i < |problems| ==> problems[i].wording in seen && seen[problems[i].wording] == i
  }

  /** Looking a wording up in the index finds its place in the list. */
  lemma IndexesFind(seen: map<Wording, nat>, problems: seq<Problem>, w: Wording)
    requires Indexes(seen, problems)
    ensures w in seen ==> IndexOf(problems, w) == seen[w] < |problems|
    ensures w !in seen ==> IndexOf(problems, w) == |problems|
  {
  }

  class Validator {
    const profile: Profile
    var problems: seq<Problem>
    var seen: map<Wording, nat>
    var stack: seq<Frame>
    var rootSeen: bool
    var rootIsSvg: bool
    var unnamespaced: bool
    var metadataWarned: bool
    var colours: set<string>
    /** The line the decoder has reached. */
    var line: nat
    /** Every report made so far, repeats included. */
    ghost var log: seq<Report>

    ghost predicate Valid()
      reads this
    {
      HasRoot(profile) && problems == Merge(log) && Indexes(seen, problems)
    }

    ghost function Remembered(): Cursor
      reads this
    {
      Cursor(stack, rootSeen, rootIsSvg, unnamespaced, metadataWarned, colours)
    }

    constructor (p: Profile)
      requires HasRoot(p)
      ensures Valid() && profile == p && log == [] && Remembered() == START
    {
      profile := p;
      problems, seen, log := [], map[], [];
      stack, colours, line := [], {}, 0;
      rootSeen, rootIsSvg, unnamespaced, metadataWarned := false, false, false, false;
    }

    /** Records a problem, merging it with an identical one already reported. */
    method Add(severity: Severity, wording: Wording)
      requires Valid()
      modifies this`problems, this`seen, this`log
      ensures Valid() && log == old(log) + [Report(severity, wording, line)]
    {
      hide Merge;
      IndexesFind(seen, problems, wording);
      MergeSnoc(log, Report(severity, wording, line));
      if wording in seen {
        var i := seen[wording];
        problems := problems[i := problems[i].(count := problems[i].count + 1)];
      } else {
        seen := seen[wording := |problems|];
        problems := problems + [Problem(wording, severity, line, 1)];
      }
      log := log + [Report(severity, wording, line)];
    }

    /** Checks the value of an attribute, and says whether it is acceptable. */
    method CheckValue(local: string, name: string, value: string, spec: AttrSpec) returns (ok: bool)
      requires Valid()
      modifies this`problems, this`seen, this`log
      ensures Valid() && log == old(log) + ValueReports(profile, local, name, value, spec, line)
      ensures ok <==> ValueAllowed(profile, spec, value)
    {
      if |spec.enum| > 0 {
        for i := 0 to |spec.enum|
          invariant Valid() && log == old(log)
          invariant value !in spec.enum[..i]
        {
          if value == spec.enum[i] {
            return true;
          }
        }
        Add(Error, WrongEnum(name, value, local));
        return false;
      }
      if spec.pattern != "" && !profile.matches(spec.pattern, value) {
        Add(Error, WrongPattern(name, value, local, spec.pattern));
        return false;
      }
      return true;
    }

    /** Reports every `url(...)` reference of a value that leaves the document. */
    method CheckFuncIris(local: string, name: string, value: string)
      requires Valid()
      modifies this`problems, this`seen, this`log
      ensures Valid() && log == old(log) + PaintReports(Targets(profile, value), name, local, line)
    {
      hide IsLocal, Merge;
      if '(' !in value {
        return;
      }
      var targets := profile.funcTargets(value);
      for i := 0 to |targets|
        invariant Valid()
        invariant log + PaintReports(targets[i..], name, local, line)
               == old(log) + PaintReports(targets, name, local, line)
      {
        assert targets[i..][0] == targets[i] && targets[i..][1..] == targets[i + 1..];
        if !IsLocal(targets[i]) {
          Add(Error, ExternalPaint(targets[i], name, local));
        }
      }
    }

    /** Checks one attribute of an element the profile knows. */
    method CheckAttribute(local: string, elem: Element, a: Attr)
      requires Valid()
      modifies this`problems, this`seen, this`log, this`colours
      ensures Valid() && log == old(log) + AttrReports(profile, local, elem, a, line)
      ensures colours == old(colours) + AttrColours(elem, a)
    {
      hide IsLocal, Merge, PaintReports, ValueReports, ValueAllowed, Targets, Indexes, IsDeclaration, QualifiedName;
      hide Lower, TrimSpace, HasRoot, ColourOf;
      if IsDeclaration(a) {
        return;
      }
      var name := QualifiedName(a.name);
      if name == "xlink:href" {
        Add(Warning, XlinkHref(local));
        name := "href";
      }
      if name !in elem.attrs {
        Add(Error, AttributeNotAllowed(name, local));
        return;
      }
      var ok := CheckValue(local, name, a.value, elem.attrs[name]);
      ValueVerdict(profile, local, name, a.value, elem.attrs[name], line);
      if ok && name in DISCOURAGED_ATTRS {
        Add(Warning, AttributeDiscouraged(name, local));
      }
      if name == "href" && !IsLocal(a.value) {
        Add(Error, ExternalReference(a.value, local));
      }
      CheckFuncIris(local, name, a.value);
      RecordColour(name, a.value);
    }

    /** Remembers the colour an attribute paints with, if it paints with one. */
    method RecordColour(name: string, value: string)
      modifies this`colours
      ensures forall a: Attr :: CheckedName(a) == name && a.value == value ==> colours == old(colours) + ColourOf(a)
    {
      hide Lower, TrimSpace, CheckedName;
      if name in COLOR_ATTRS {
        var c := Lower(TrimSpace(value));
        if c != "" && c != "none" && c != "inherit" && c != "transparent" {
          colours := colours + {c};
        }
      }
    }

    /** Checks every attribute an element carries, and gathers their names. */
    method CheckCarried(local: string, elem: Element, attrs: seq<Attr>) returns (present: set<string>)
      requires Valid()
      modifies this`problems, this`seen, this`log, this`colours
      ensures Valid() && log == old(log) + AllAttrReports(profile, local, elem, attrs, line)
      ensures colours == old(colours) + AllColours(elem, attrs)
      ensures forall name :: name in present <==> Carries(attrs, name)
    {
      hide AttrReports, AttrColours, Merge, Indexes, Carries, IsDeclaration, CheckedName, HasRoot;
      present := {};
      CarriesNone();
      for i := 0 to |attrs|
        invariant Valid()
        invariant log == old(log) + AllAttrReports(profile, local, elem, attrs[..i], line)
        invariant colours == old(colours) + AllColours(elem, attrs[..i])
        invariant forall name :: name in present <==> Carries(attrs[..i], name)
      {
        assert attrs[..i + 1][..i] == attrs[..i] && attrs[..i + 1][i] == attrs[i];
        CarriesSnoc(attrs, i);
        if !IsDeclaration(attrs[i]) {
          present := present + {CheckedName(attrs[i])};
        }
        CheckAttribute(local, elem, attrs[i]);
      }
      assert attrs[..|attrs|] == attrs;
    }

    /** Checks that the required attributes are among those an element carries. */
    method CheckPresence(local: string, attrs: seq<Attr>, present: set<string>)
      requires Valid()
      requires forall name :: name in present <==> Carries(attrs, name)
      modifies this`problems, this`seen, this`log
      ensures Valid() && log == old(log) + MissingReports(local, Required(profile, local), attrs, line)
    {
      hide Merge, Indexes, Carries, HasRoot;
      var required := Required(profile, local);
      for i := 0 to |required|
        invariant Valid()
        invariant log == old(log) + MissingReports(local, required[..i], attrs, line)
      {
        assert required[..i + 1][..i] == required[..i] && required[..i + 1][i] == required[i];
        if required[i] !in present {
          Add(Error, RequiredMissing(local, required[i]));
        }
      }
      assert required[..|required|] == required;
    }

    method CheckAttributes(local: string, elem: Element, attrs: seq<Attr>)
      requires Valid()
      modifies this`problems, this`seen, this`log, this`colours
      ensures Valid() && log == old(log) + ElementReports(profile, local, elem, attrs, line)
      ensures colours == old(colours) + AllColours(elem, attrs)
    {
      hide Merge, Indexes, Carries, HasRoot, AllAttrReports, MissingReports;
      var present := CheckCarried(local, elem, attrs);
      CheckPresence(local, attrs, present);
    }

    // -------------------------------------------------------------- tokens

    /** The state after a token: what `Step` says, and its reports after those made before. */
    twostate predicate Stepped(result: (Cursor, seq<Report>))
      reads this
    {
      Valid() && Remembered() == result.0 && log == old(log) + result.1 && line == old(line)
    }

    method PushSkipped(name: string)
      requires Valid()
      modifies this`stack
      ensures Valid() && Remembered() == Push(old(Remembered()), SkippedFrame(name))
    {
      stack := stack + [SkippedFrame(name)];
    }

    /** Text is collected where the profile allows it, and must be blank elsewhere. */
    method OnCharData(text: string)
      requires Valid()
      modifies this`stack, this`problems, this`seen, this`log
      ensures Stepped(Step(profile, old(Remembered()), At(CharData(text), line)))
    {
      hide Merge, Indexes, TrimSpace, HasRoot;
      if |stack| == 0 {
        return;
      }
      var f := stack[|stack| - 1];
      if f.skip || f.elem.None? {
        return;
      }
      if f.elem.value.allowsText {
        stack := stack[..|stack| - 1] + [f.(text := f.text + text)];
        return;
      }
      if |TrimSpace(text)| != 0 {
        Add(Error, TextNotAllowed(f.name));
      }
    }

    /** The root element, which the profile fixes to <svg>. */
    method StartRoot(name: Name, attrs: seq<Attr>)
      requires Valid()
      modifies this
      ensures Stepped(PlaceRoot(profile, old(Remembered()), name, attrs, line))
    {
      hide Merge, Indexes, ElementReports, AllColours;
      rootSeen := true;
      if name.local != "svg" {
        Add(Error, WrongRoot(name.local));
        PushSkipped(name.local);
        return;
      }
      if name.space != SVG_NS {
        unnamespaced := true;
        Add(Error, WrongRootNamespace(name.space));
      }
      rootIsSvg := true;
      var elem := profile.elements["svg"];
      CheckAttributes("svg", elem, attrs);
      stack := stack + [OpenFrame("svg", elem, false)];
    }

    /** Any other element: its namespace, its place under its parent, its attributes. */
    method PlaceChild(name: Name, attrs: seq<Attr>)
      requires Valid()
      modifies this
      ensures Stepped(PlaceElement(profile, old(Remembered()), name, attrs, line))
    {
      hide Merge, Indexes, ElementReports, AllColours, HasRoot;
      var local := name.local;
      if !InSvgNamespace(unnamespaced, name) {
        Add(Error, ForeignElement(local, name.space));
        PushSkipped(local);
        return;
      }
      if local !in profile.elements {
        Add(Error, UnknownElement(local));
        PushSkipped(local);
        return;
      }
      var elem := profile.elements[local];
      var n := |stack| - 1;
      if n >= 0 && stack[n].elem.Some? {
        var parent := stack[n];
        var model := parent.elem.value;
        if local in model.children {
          // allowed here
        } else if local == model.firstChild {
          stack := stack[..n] + [parent.(firstCount := parent.firstCount + 1,
                                         firstIndex := if parent.firstIndex < 0 then parent.children - 1 else parent.firstIndex)];
        } else if local in FONT_ELEMENTS {
          Add(Warning, UnreachableElement(local));
        } else {
          Add(Error, MisplacedElement(local, parent.name));
          PushSkipped(local);
          return;
        }
      }
      CheckAttributes(local, elem, attrs);
      stack := stack + [OpenFrame(local, elem, local == "metadata")];
    }

    method StartElement(name: Name, attrs: seq<Attr>)
      requires Valid()
      modifies this
      ensures Stepped(Step(profile, old(Remembered()), At(Start(name, attrs), line)))
    {
      hide Merge, Indexes, PlaceRoot, PlaceElement, HasRoot;
      var n := |stack| - 1;
      if n >= 0 && stack[n].skip {
        PushSkipped(name.local);
        return;
      }
      if n >= 0 && stack[n].metadata && !InSvgNamespace(unnamespaced, name) {
        if !metadataWarned {
          metadataWarned := true;
          Add(Warning, MetadataHoldsElements);
        }
        PushSkipped(name.local);
        return;
      }
      if n >= 0 {
        stack := stack[..n] + [stack[n].(children := stack[n].children + 1)];
      }
      if !rootSeen {
        StartRoot(name, attrs);
      } else {
        PlaceChild(name, attrs);
      }
    }

    /** Pops the innermost element and checks what needs its whole content. */
    method EndElement()
      requires Valid()
      modifies this
      ensures Stepped(Step(profile, old(Remembered()), At(End, line)))
    {
      hide Merge, Indexes, FirstChildReports, ContentReports, HasRoot;
      if |stack| == 0 {
        return;
      }
      var f := stack[|stack| - 1];
      stack := stack[..|stack| - 1];
      if f.skip || f.elem.None? {
        return;
      }
      CheckFirstChild(f.name, f.elem.value.firstChild, f.firstCount, f.firstIndex);
      CheckContent(f.name, f.text);
    }

    method CheckFirstChild(name: string, child: string, count: nat, index: int)
      requires Valid()
      modifies this`problems, this`seen, this`log
      ensures Valid() && log == old(log) + FirstChildReports(name, child, count, index, line)
    {
      hide Merge, Indexes, HasRoot;
      if child != "" {
        if count == 0 {
          Add(Error, MissingFirstChild(name, child));
        } else if count > 1 {
          Add(Error, RepeatedFirstChild(name, child));
        } else if index > 0 {
          Add(Error, LateFirstChild(child, name));
        }
      }
    }

    method CheckContent(name: string, text: string)
      requires Valid()
      modifies this`problems, this`seen, this`log
      ensures Valid() && log == old(log) + ContentReports(name, text, line)
    {
      hide Merge, Indexes, TrimSpace, HasRoot;
      var said := TrimSpace(text);
      if name == "title" {
        if said == "" {
          Add(Error, EmptyTitle);
        } else if |said| > MAX_TITLE_LENGTH {
          Add(Warning, LongTitle(|said|));
        }
      } else if name == "desc" && said == "" {
        Add(Error, EmptyDesc);
      }
    }

    method Finish()
      requires Valid()
      modifies this`problems, this`seen, this`log
      ensures Valid() && log == old(log) + FinalReports(rootSeen, rootIsSvg, colours, line)
    {
      hide Merge, Indexes, HasRoot;
      if !rootSeen {
        Add(Error, NoElement);
      } else if rootIsSvg && |colours| < 2 {
        Add(Warning, FewColours);
      }
    }

    /** Handles one token. */
    method Handle(t: Located)
      requires Valid()
      modifies this
      ensures Valid() && line == t.line
      ensures (Remembered(), log) == (Step(profile, old(Remembered()), t).0, old(log) + Step(profile, old(Remembered()), t).1)
    {
      hide Merge, Indexes, OnStart, ClosingReports, TextReports, HasRoot, IsDoctype;
      line := t.line;
      assert log + [] == log;
      match t.token
      case ProcInst(target) =>
        if target != "xml" {
          Add(Error, ProcInstNotAllowed(target));
        }
      case Directive(text) =>
        if IsDoctype(text) {
          Add(Error, DoctypeNotAllowed);
        }
      case Comment =>
      case CharData(text) => OnCharData(text);
      case Start(name, attrs) => StartElement(name, attrs);
      case End => EndElement();
    }
  }

  lemma MergeSnoc(log: seq<Report>, r: Report)
    ensures Merge(log + [r]) == MergeOne(Merge(log), r)
  {
  }

  lemma CarriesNone()
    ensures forall name :: !Carries([], name)
  {
  }

  lemma ValueVerdict(p: Profile, local: string, name: string, value: string, spec: AttrSpec, line: nat)
    ensures ValueReports(p, local, name, value, spec, line) == [] <==> ValueAllowed(p, spec, value)
  {
  }

  lemma CarriesSnoc(attrs: seq<Attr>, i: nat)
    requires i < |attrs|
    ensures forall name :: Carries(attrs[..i + 1], name)
              <==> Carries(attrs[..i], name) || (!IsDeclaration(attrs[i]) && CheckedName(attrs[i]) == name)
  {
    forall name
      ensures Carries(attrs[..i + 1], name)
         <==> Carries(attrs[..i], name) || (!IsDeclaration(attrs[i]) && CheckedName(attrs[i]) == name)
    {
      var s, t := attrs[..i + 1], attrs[..i];
      assert forall k :: 0 <= k < i ==> s[k] == t[k];
      assert s[i] == attrs[i];
    }
  }

  /** Validates a document given as its tokens, unless the decoder gave up on it. `lastLine` is
      where the decoder stands at the end of the document. */
  method Validate(p: Profile, tokens: seq<Located>, broken: bool, lastLine: nat) returns (r: Option<seq<Problem>>)
    requires HasRoot(p)
    ensures r == if broken then None else
      var (c, reports) := Run(p, START, tokens);
      Some(Merge(reports + FinalReports(c.rootSeen, c.rootIsSvg, c.colours, lastLine)))
  {
    hide Merge, Step, HasRoot;
    var v := new Validator(p);
    for i := 0 to |tokens|
      invariant fresh(v) && v.Valid() && v.profile == p
      invariant (v.Remembered(), v.log) == Run(p, START, tokens[..i])
    {
      assert tokens[..i + 1][..i] == tokens[..i];
      v.Handle(tokens[i]);
    }
    assert tokens[..|tokens|] == tokens;
    if broken {
      return None;
    }
    v.line := lastLine;
    v.Finish();
    return Some(v.problems);
  }
}
