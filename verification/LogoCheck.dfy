/** The logo check built on the validator: it lists at most a couple of dozen problems and
    summarises the rest, without ever changing whether the logo fails. */
module LogoCheck {
  import opened Basics
  import opened SvgProfile
  import opened SvgMachine
  import opened SvgTree
  import opened SvgDocument
  import opened SvgValidator
  import opened SvgVerdict
  import opened SvgCauses

  const MAX_LOGO_PROBLEMS := 25

  datatype Status = Pass | Warn | Fail | NotRun

  /** A line of the check: a problem, or how many more there are. */
  datatype Message = Listed(problem: Problem) | Further(dropped: nat)

  /** The problems of one severity, in order. */
  function Of(problems: seq<Problem>, severity: Severity): seq<Message> {
    if problems == [] then []
    else
      var n := |problems| - 1;
      Of(problems[..n], severity) + if problems[n].severity == severity then [Listed(problems[n])] else []
  }

  function Listable(problems: seq<Problem>): seq<Problem> {
    if |problems| > MAX_LOGO_PROBLEMS then problems[..MAX_LOGO_PROBLEMS] else problems
  }

  function CountErrors(problems: seq<Problem>): nat {
    if problems == [] then 0
    else CountErrors(problems[..|problems| - 1]) + if problems[|problems| - 1].severity == Error then 1 else 0
  }

  lemma {:induction false} CountErrorsHas(problems: seq<Problem>)
    ensures CountErrors(problems) > 0 <==> HasError(problems)
  {
    if problems != [] {
      CountErrorsHas(problems[..|problems| - 1]);
      HasErrorSnoc(problems);
    }
  }

  lemma HasErrorSnoc(problems: seq<Problem>)
    requires problems != []
    ensures HasError(problems) <==> HasError(problems[..|problems| - 1]) || problems[|problems| - 1].severity == Error
  {
  }

  lemma {:induction false} OfHas(problems: seq<Problem>)
    ensures Of(problems, Error) != [] <==> HasError(problems)
    ensures problems != [] <==> Of(problems, Error) != [] || Of(problems, Warning) != []
  {
    if problems != [] {
      OfHas(problems[..|problems| - 1]);
      HasErrorSnoc(problems);
    }
  }

  lemma HasErrorSplit(problems: seq<Problem>, k: nat)
    requires k <= |problems|
    ensures HasError(problems) <==> HasError(problems[..k]) || HasError(problems[k..])
  {
  }

  /** Sorts the problems into messages, listing the first ones and counting the others. */
  method Report(problems: seq<Problem>) returns (status: Status, errors: seq<Message>, warnings: seq<Message>)
    ensures status == Fail <==> HasError(problems)
    ensures status == Pass <==> problems == []
    ensures status != NotRun
    ensures var listed := Listable(problems);
            var dropped := |problems| - |listed|;
            && |listed| == Min(|problems|, 25) && listed <= problems
            && Of(listed, Error) <= errors && Of(listed, Warning) <= warnings
            && |errors| + |warnings| == |listed| + (if dropped > 0 then 1 else 0)
            && (dropped > 0 ==> Further(dropped) in if HasError(problems[|listed|..]) then errors else warnings)
  {
    hide HasError, Of, CountErrors;
    errors, warnings := [], [];
    var droppedErrors := 0;
    NothingYet();
    for i := 0 to |problems|
      invariant var k := if i <= MAX_LOGO_PROBLEMS then i else MAX_LOGO_PROBLEMS;
                && errors == Of(problems[..k], Error) && warnings == Of(problems[..k], Warning)
                && |errors| + |warnings| == k
                && droppedErrors == CountErrors(problems[k..i])
    {
      if i >= MAX_LOGO_PROBLEMS {
        CountSnoc(problems, MAX_LOGO_PROBLEMS, i);
        if problems[i].severity == Error {
          droppedErrors := droppedErrors + 1;
        }
        continue;
      }
      OfSnoc(problems, i);
      NoErrorsIn(problems, i);
      if problems[i].severity == Warning {
        warnings := warnings + [Listed(problems[i])];
      } else {
        errors := errors + [Listed(problems[i])];
      }
    }
    ghost var listed := Listable(problems);
    assert listed == problems[..|listed|] && problems[|listed|..|problems|] == problems[|listed|..];
    HasErrorSplit(problems, |listed|);
    OfHas(listed);
    CountErrorsHas(problems[|listed|..]);
    var dropped := |problems| - MAX_LOGO_PROBLEMS;
    if dropped > 0 {
      if droppedErrors > 0 {
        errors := errors + [Further(dropped)];
      } else {
        warnings := warnings + [Further(dropped)];
      }
    } else {
      NoErrorAtAll(problems[|listed|..]);
    }
    status := if |errors| > 0 then Fail else if |warnings| > 0 then Warn else Pass;
  }

  lemma NothingYet()
    ensures forall s :: Of([], s) == []
    ensures CountErrors([]) == 0
  {
  }

  lemma NoErrorsIn(problems: seq<Problem>, i: nat)
    requires i < |problems|
    ensures CountErrors(problems[i..i]) == CountErrors(problems[i + 1..i + 1]) == 0
  {
  }

  lemma NoErrorAtAll(rest: seq<Problem>)
    requires rest == []
    ensures !HasError(rest)
  {
  }

  lemma OfSnoc(problems: seq<Problem>, i: nat)
    requires i < |problems|
    ensures forall s :: Of(problems[..i + 1], s)
              == Of(problems[..i], s) + if problems[i].severity == s then [Listed(problems[i])] else []
  {
    assert problems[..i + 1][..i] == problems[..i];
  }

  lemma CountSnoc(problems: seq<Problem>, k: nat, i: nat)
    requires k <= i < |problems|
    ensures CountErrors(problems[k..i + 1])
         == CountErrors(problems[k..i]) + if problems[i].severity == Error then 1 else 0
  {
    assert problems[k..i + 1][..i - k] == problems[k..i];
  }

  /** The whole check. On the tokens of any document tree, it fails exactly when the document
      does not conform to the profile. */
  method CheckLogoSvgTinyPs(p: Profile, tokens: seq<Located>, broken: bool, lastLine: nat) returns (status: Status)
    requires HasRoot(p)
    ensures status == NotRun <==> broken
    ensures forall nodes :: !broken && tokens == Serialize(nodes) ==> (status == Fail <==> !DocumentConforms(p, nodes))
    ensures forall nodes :: !broken && tokens == Serialize(nodes) ==>
              (status == Pass <==> forall w :: DocumentDue(p, nodes, w) + WholeDue(p, nodes, w) == 0)
  {
    hide Run, Merge, HasError, DocumentConforms, DocumentDue, WholeDue, Serialize, HasRoot, FinalReports;
    var r := Validate(p, tokens, broken, lastLine);
    if r.None? {
      return NotRun;
    }
    var errors, warnings;
    status, errors, warnings := Report(r.value);
    if r.value == [] {
      NoErrorAtAll(r.value);
    }
    forall nodes | tokens == Serialize(nodes)
      ensures status == Fail <==> !DocumentConforms(p, nodes)
      ensures status == Pass <==> forall w :: DocumentDue(p, nodes, w) + WholeDue(p, nodes, w) == 0
    {
      MachineRefinesWalk(p, nodes, lastLine);
      ConformanceDecided(p, nodes, lastLine);
      NothingListed(p, nodes, lastLine);
    }
  }

  /** Nothing is listed exactly when nothing gives cause. */
  lemma NothingListed(p: Profile, nodes: seq<Node>, lastLine: nat)
    requires HasRoot(p)
    ensures Merge(DocumentReports(p, nodes, lastLine)) == [] <==> forall w :: DocumentDue(p, nodes, w) + WholeDue(p, nodes, w) == 0
  {
    hide Merge, DocumentReports, DocumentDue, WholeDue, IndexOf, HasRoot;
    var problems := Merge(DocumentReports(p, nodes, lastLine));
    forall w
      ensures IndexOf(problems, w) < |problems| <==> DocumentDue(p, nodes, w) + WholeDue(p, nodes, w) > 0
    {
      ProblemsExactly(p, nodes, lastLine, w);
    }
    if problems != [] {
      MergeSummarises(DocumentReports(p, nodes, lastLine));
      var i := IndexOf(problems, problems[0].wording);
      assert i < |problems|;
    }
  }
}
