/** Queries over a Palladio component model (PCM) repository: the objects
    of one type among its contents, the external calls that come before an
    action in its behaviour, the SEFF that describes a service, and the
    construction of a variable usage. The EMF objects are plain values and
    the content tree of a repository is the sequence its traversal
    visits. */
module PcmUtils {
  import opened Common
  import opened Text
  import opened Utils

  /** An id string together with the identity of the String object that
      holds it: `equals` compares the text, `==` the object. Two ids with
      one `ref` are one object and so share its text; `SameObjectSameText`
      states that for a scan, and the lemmas that need it require it. */
  datatype Id = Id(text: string, ref: nat)

  datatype ActionKind = ExternalCall | OtherAction

  /** An action of a behaviour's step list. For an external call,
      `calledServiceId` is the id of the called service's signature. */
  datatype AbstractAction = AbstractAction(id: Id, kind: ActionKind, calledServiceId: string)

  /** A resource demanding SEFF and the id of the signature it describes. */
  datatype Seff = Seff(id: string, describedServiceId: string)

  /** An object met when traversing a repository's contents. */
  datatype PcmObject =
    | ActionObject(action: AbstractAction)
    | SeffObject(seff: Seff)
    | OtherObject

  // ---------------------------------------------------------------------
  // getObjects
  // ---------------------------------------------------------------------

  /** The contents that `cast` accepts, cast, in traversal order. `cast`
      stands for `type.isInstance` followed by the cast to `T`. */
  function ObjectsOf<T>(contents: seq<PcmObject>, cast: PcmObject -> Option<T>): (r: seq<T>)
    ensures |r| <= |contents|
  {
    if contents == [] then []
    else
      var last := contents[|contents| - 1];
      ObjectsOf(contents[..|contents| - 1], cast) + (if cast(last).Some? then [cast(last).value] else [])
  }

  /** Every content object of the type is in the result, and every element
      of the result is such an object. */
  lemma {:induction false} ObjectsOfMembers<T>(contents: seq<PcmObject>, cast: PcmObject -> Option<T>)
    ensures forall i :: 0 <= i < |contents| && cast(contents[i]).Some? ==> cast(contents[i]).value in ObjectsOf(contents, cast)
    ensures forall x :: x in ObjectsOf(contents, cast) ==> exists i :: 0 <= i < |contents| && cast(contents[i]) == Some(x)
  {
    if contents != [] {
      var init := contents[..|contents| - 1];
      var last := contents[|contents| - 1];
      var tail := if cast(last).Some? then [cast(last).value] else [];
      ObjectsOfMembers(init, cast);
      var r := ObjectsOf(contents, cast);
      assert r == ObjectsOf(init, cast) + tail;
      forall i | 0 <= i < |contents| && cast(contents[i]).Some? ensures cast(contents[i]).value in r {
        if i < |init| {
          assert init[i] == contents[i];
        }
      }
      forall x | x in r ensures exists i :: 0 <= i < |contents| && cast(contents[i]) == Some(x) {
        if x in ObjectsOf(init, cast) {
          var i :| 0 <= i < |init| && cast(init[i]) == Some(x);
          assert init[i] == contents[i];
        } else {
          assert cast(contents[|contents| - 1]) == Some(x);
        }
      }
    }
  }

  /** The objects of a concatenation are those of each part, in order. */
  lemma {:induction false} ObjectsOfConcat<T>(a: seq<PcmObject>, b: seq<PcmObject>, cast: PcmObject -> Option<T>)
    ensures ObjectsOf(a + b, cast) == ObjectsOf(a, cast) + ObjectsOf(b, cast)
  {
    if b == [] {
      assert a + b == a;
    } else {
      var b' := b[..|b| - 1];
      ObjectsOfConcat(a, b', cast);
      assert (a + b)[..|a + b| - 1] == a + b';
    }
  }

  /** Without an object of the type the result is empty. */
  lemma {:induction false} ObjectsOfNone<T>(contents: seq<PcmObject>, cast: PcmObject -> Option<T>)
    requires forall i :: 0 <= i < |contents| ==> cast(contents[i]).None?
    ensures ObjectsOf(contents, cast) == []
  {
    if contents != [] {
      var init := contents[..|contents| - 1];
      assert forall i :: 0 <= i < |init| ==> init[i] == contents[i];
      ObjectsOfNone(init, cast);
    }
  }

  /** `getObjects`: walks the contents and collects the objects of the type. */
  method GetObjects<T>(contents: seq<PcmObject>, cast: PcmObject -> Option<T>) returns (results: seq<T>)
    ensures results == ObjectsOf(contents, cast)
  {
    results := [];
    var i := 0;
    while i < |contents|
      invariant 0 <= i <= |contents|
      invariant results == ObjectsOf(contents[..i], cast)
    {
      var eo := contents[i];
      assert contents[..i + 1][..i] == contents[..i];
      if cast(eo).Some? {
        results := results + [cast(eo).value];
      }
      i := i + 1;
    }
    assert contents[..i] == contents;
  }

  /** `ExternalCallAction.class` as a cast. */
  function AsExternalCall(o: PcmObject): (r: Option<AbstractAction>)
    ensures r.Some? <==> o.ActionObject? && o.action.kind == ExternalCall
    ensures r.Some? ==> r.value == o.action
  {
    if o.ActionObject? && o.action.kind == ExternalCall then Some(o.action) else None
  }

  /** `ResourceDemandingSEFF.class` as a cast. */
  function AsSeff(o: PcmObject): (r: Option<Seff>)
    ensures r.Some? <==> o.SeffObject?
    ensures r.Some? ==> r.value == o.seff
  {
    if o.SeffObject? then Some(o.seff) else None
  }

  // ---------------------------------------------------------------------
  // getPredecessorsFor
  // ---------------------------------------------------------------------

  /** A step the scan adds: an external call whose id text differs from
      that of the action. */
  predicate Collected(act: AbstractAction, extAct: AbstractAction) {
    act.kind == ExternalCall && act.id.text != extAct.id.text
  }

  /** A step the scan stops at: one it does not add whose id is the very
      String object of the action's id. */
  predicate StopsAt(act: AbstractAction, extAct: AbstractAction) {
    !Collected(act, extAct) && act.id.ref == extAct.id.ref
  }

  /** Every step whose id is the action's String object has its text. */
  predicate SameObjectSameText(steps: seq<AbstractAction>, extAct: AbstractAction) {
    forall k :: 0 <= k < |steps| && steps[k].id.ref == extAct.id.ref ==> steps[k].id.text == extAct.id.text
  }

  /** When ids with one object share its text, the scan stops exactly at
      the steps whose id is the action's own String object. */
  lemma StopsAtSameObject(steps: seq<AbstractAction>, extAct: AbstractAction, k: nat)
    requires SameObjectSameText(steps, extAct) && k < |steps|
    ensures StopsAt(steps[k], extAct) <==> steps[k].id.ref == extAct.id.ref
  {
  }

  /** Index of the first step the scan stops at, or the number of steps. */
  function StopIndex(steps: seq<AbstractAction>, extAct: AbstractAction): (k: nat)
    ensures k <= |steps|
    ensures forall j :: 0 <= j < k ==> !StopsAt(steps[j], extAct)
    ensures k < |steps| ==> StopsAt(steps[k], extAct)
  {
    if steps == [] then 0
    else if StopsAt(steps[0], extAct) then 0
    else
      var k := StopIndex(steps[1..], extAct);
      assert forall j :: 1 <= j < k + 1 ==> steps[j] == steps[1..][j - 1];
      k + 1
  }

  /** The steps the scan adds, in step order. */
  function CollectedOf(steps: seq<AbstractAction>, extAct: AbstractAction): (r: seq<AbstractAction>)
    ensures |r| <= |steps|
  {
    if steps == [] then []
    else
      var last := steps[|steps| - 1];
      CollectedOf(steps[..|steps| - 1], extAct) + (if Collected(last, extAct) then [last] else [])
  }

  /** The added steps are collected steps taken from the list, and every
      collected step of the list is added. */
  lemma CollectedOfMembers(steps: seq<AbstractAction>, extAct: AbstractAction)
    ensures forall x :: x in CollectedOf(steps, extAct) ==> Collected(x, extAct) && x in steps
    ensures forall k :: 0 <= k < |steps| && Collected(steps[k], extAct) ==> steps[k] in CollectedOf(steps, extAct)
  {
    CollectedOfSound(steps, extAct);
    CollectedOfComplete(steps, extAct);
  }

  lemma {:induction false} CollectedOfSound(steps: seq<AbstractAction>, extAct: AbstractAction)
    ensures forall x :: x in CollectedOf(steps, extAct) ==> Collected(x, extAct) && x in steps
  {
    if steps != [] {
      var init := steps[..|steps| - 1];
      var last := steps[|steps| - 1];
      CollectedOfSound(init, extAct);
      assert CollectedOf(steps, extAct) == CollectedOf(init, extAct) + (if Collected(last, extAct) then [last] else []);
    }
  }

  lemma {:induction false} CollectedOfComplete(steps: seq<AbstractAction>, extAct: AbstractAction)
    ensures forall k :: 0 <= k < |steps| && Collected(steps[k], extAct) ==> steps[k] in CollectedOf(steps, extAct)
  {
    if steps != [] {
      var init := steps[..|steps| - 1];
      var last := steps[|steps| - 1];
      var front := CollectedOf(init, extAct);
      CollectedOfComplete(init, extAct);
      assert CollectedOf(steps, extAct) == front + (if Collected(last, extAct) then [last] else []);
      forall k | 0 <= k < |init| && Collected(steps[k], extAct) ensures steps[k] in front {
        assert steps[k] == init[k];
      }
    }
  }

  /** One more step of the list adds that step when it is collected. */
  lemma CollectedOfSnoc(steps: seq<AbstractAction>, i: nat, extAct: AbstractAction)
    requires i < |steps|
    ensures CollectedOf(steps[..i + 1], extAct) ==
      CollectedOf(steps[..i], extAct) + (if Collected(steps[i], extAct) then [steps[i]] else [])
  {
    assert steps[..i + 1][..i] == steps[..i];
  }

  lemma {:induction false} CollectedOfConcat(a: seq<AbstractAction>, b: seq<AbstractAction>, extAct: AbstractAction)
    ensures CollectedOf(a + b, extAct) == CollectedOf(a, extAct) + CollectedOf(b, extAct)
  {
    if b == [] {
      assert a + b == a;
    } else {
      var b' := b[..|b| - 1];
      CollectedOfConcat(a, b', extAct);
      assert (a + b)[..|a + b| - 1] == a + b';
    }
  }

  /** The predecessors of `extAct`: the collected steps before the stop. */
  function Predecessors(steps: seq<AbstractAction>, extAct: AbstractAction): seq<AbstractAction> {
    CollectedOf(steps[..StopIndex(steps, extAct)], extAct)
  }

  /** `getPredecessorsFor` over the step list of the action's behaviour:
      adds each external call with another id text, and leaves the loop at
      the first other step whose id is the same String object. */
  method GetPredecessorsFor(steps: seq<AbstractAction>, extAct: AbstractAction) returns (predecessors: seq<AbstractAction>)
    ensures predecessors == Predecessors(steps, extAct)
  {
    predecessors := [];
    var i := 0;
    while i < |steps|
      invariant i <= StopIndex(steps, extAct)
      invariant predecessors == CollectedOf(steps[..i], extAct)
    {
      var act := steps[i];
      if act.kind == ExternalCall && act.id.text != extAct.id.text {
        predecessors := predecessors + [act];
      } else if act.id.ref == extAct.id.ref {
        break;
      }
      CollectedOfSnoc(steps, i, extAct);
      i := i + 1;
    }
  }

  /** Every predecessor is an external call with another id text that
      comes before the step the scan stops at; every such external call
      is a predecessor; and the order is the step order (see
      `CollectedOfConcat`). */
  lemma PredecessorsExactly(steps: seq<AbstractAction>, extAct: AbstractAction)
    ensures var stop := StopIndex(steps, extAct);
      forall p :: p in Predecessors(steps, extAct) ==>
        p.kind == ExternalCall && p.id.text != extAct.id.text && p in steps[..stop]
    ensures var stop := StopIndex(steps, extAct);
      forall k :: 0 <= k < stop && Collected(steps[k], extAct) ==> steps[k] in Predecessors(steps, extAct)
  {
    var stop := StopIndex(steps, extAct);
    var prefix := steps[..stop];
    CollectedOfMembers(prefix, extAct);
    assert forall k :: 0 <= k < stop ==> steps[k] == prefix[k];
  }

  /** When no step has the action's id object, as when the action is not in
      the list, every external call with another id text is a predecessor. */
  lemma PredecessorsWhenAbsent(steps: seq<AbstractAction>, extAct: AbstractAction)
    requires forall k :: 0 <= k < |steps| ==> steps[k].id.ref != extAct.id.ref
    ensures Predecessors(steps, extAct) == CollectedOf(steps, extAct)
  {
    assert steps[..StopIndex(steps, extAct)] == steps;
  }

  /** The stop test compares String objects: a step whose id has the
      action's text in another String object does not stop the scan, so
      the external call after it is still a predecessor. */
  lemma PredecessorsScanPastEqualText()
    ensures var extAct := AbstractAction(Id("a", 1), ExternalCall, "s");
      var copy := AbstractAction(Id("a", 2), OtherAction, "");
      var later := AbstractAction(Id("b", 3), ExternalCall, "t");
      Predecessors([copy, later], extAct) == [later]
  {
    var extAct := AbstractAction(Id("a", 1), ExternalCall, "s");
    var copy := AbstractAction(Id("a", 2), OtherAction, "");
    var later := AbstractAction(Id("b", 3), ExternalCall, "t");
    var steps := [copy, later];
    assert !StopsAt(copy, extAct) && !StopsAt(later, extAct);
    assert StopIndex(steps, extAct) == 2 by {
      assert steps[1..] == [later];
      assert steps[1..][1..] == [];
    }
    assert steps[..2] == steps;
    assert steps[..1] == [copy];
    assert [copy][..0] == [];
  }

  // ---------------------------------------------------------------------
  // externalCallById, signatureToSeffId, getPredecessorsSeffIds
  // ---------------------------------------------------------------------

  /** The first action calling `serviceId`. */
  function FirstCalling(actions: seq<AbstractAction>, serviceId: string): (r: Option<AbstractAction>)
    ensures r.None? <==> forall a :: a in actions ==> a.calledServiceId != serviceId
    ensures r.Some? ==> r.value in actions && r.value.calledServiceId == serviceId
  {
    if actions == [] then None
    else if actions[0].calledServiceId == serviceId then Some(actions[0])
    else FirstCalling(actions[1..], serviceId)
  }

  /** `externalCallById`: an external call of the repository that calls
      `serviceId`, or null (`None`) when there is none. Of several, the
      first in traversal order is taken. */
  function ExternalCallById(contents: seq<PcmObject>, serviceId: string): (r: Option<AbstractAction>)
    ensures r.None? <==> forall i :: 0 <= i < |contents| && contents[i].ActionObject? && contents[i].action.kind == ExternalCall ==>
      contents[i].action.calledServiceId != serviceId
    ensures r.Some? ==> r.value.kind == ExternalCall && r.value.calledServiceId == serviceId && ActionObject(r.value) in contents
  {
    ExternalCallsOf(contents);
    FirstCalling(ObjectsOf(contents, AsExternalCall), serviceId)
  }

  /** The external calls `getObjects` finds are those of the contents. */
  lemma ExternalCallsOf(contents: seq<PcmObject>)
    ensures forall i :: 0 <= i < |contents| && contents[i].ActionObject? && contents[i].action.kind == ExternalCall ==>
      contents[i].action in ObjectsOf(contents, AsExternalCall)
    ensures forall a :: a in ObjectsOf(contents, AsExternalCall) ==> a.kind == ExternalCall && ActionObject(a) in contents
  {
    ObjectsOfMembers(contents, AsExternalCall);
    var all := ObjectsOf(contents, AsExternalCall);
    forall i | 0 <= i < |contents| && contents[i].ActionObject? && contents[i].action.kind == ExternalCall
      ensures contents[i].action in all
    {
      assert AsExternalCall(contents[i]).Some?;
    }
    forall a | a in all ensures a.kind == ExternalCall && ActionObject(a) in contents {
      var i :| 0 <= i < |contents| && AsExternalCall(contents[i]) == Some(a);
    }
  }

  /** The SEFFs `getObjects` finds are those of the contents. */
  lemma SeffsOf(contents: seq<PcmObject>)
    ensures forall i :: 0 <= i < |contents| && contents[i].SeffObject? ==> contents[i].seff in ObjectsOf(contents, AsSeff)
    ensures forall s :: s in ObjectsOf(contents, AsSeff) ==> SeffObject(s) in contents
  {
    ObjectsOfMembers(contents, AsSeff);
    var all := ObjectsOf(contents, AsSeff);
    forall i | 0 <= i < |contents| && contents[i].SeffObject? ensures contents[i].seff in all {
      assert AsSeff(contents[i]).Some?;
    }
    forall s | s in all ensures SeffObject(s) in contents {
      var i :| 0 <= i < |contents| && AsSeff(contents[i]) == Some(s);
    }
  }

  /** The first SEFF describing `signId`. */
  function FirstDescribing(seffs: seq<Seff>, signId: string): (r: Option<Seff>)
    ensures r.None? <==> forall s :: s in seffs ==> s.describedServiceId != signId
    ensures r.Some? ==> r.value in seffs && r.value.describedServiceId == signId
  {
    if seffs == [] then None
    else if seffs[0].describedServiceId == signId then Some(seffs[0])
    else FirstDescribing(seffs[1..], signId)
  }

  /** `signatureToSeffId`: the id of a SEFF of the repository that
      describes the signature `signId`; without one, the lookup yields null
      and reading its id throws. */
  function SignatureToSeffId(contents: seq<PcmObject>, signId: string): (r: Result<string>)
    ensures r.Failure? <==> forall i :: 0 <= i < |contents| && contents[i].SeffObject? ==>
      contents[i].seff.describedServiceId != signId
    ensures r.Failure? ==> r.error == NullPointer
    ensures r.Success? ==>
      exists i :: 0 <= i < |contents| && contents[i].SeffObject? && contents[i].seff.describedServiceId == signId && contents[i].seff.id == r.value
  {
    SeffsOf(contents);
    match FirstDescribing(ObjectsOf(contents, AsSeff), signId)
    case None => Failure(NullPointer)
    case Some(seff) =>
      assert SeffObject(seff) in contents;
      Success(seff.id)
  }

  /** The SEFF ids of the services the actions call, in order; the first
      call without a SEFF throws. */
  function SeffIdsOf(contents: seq<PcmObject>, actions: seq<AbstractAction>): (r: Result<seq<string>>)
    ensures r.Failure? <==> exists i :: 0 <= i < |actions| && SignatureToSeffId(contents, actions[i].calledServiceId).Failure?
    ensures r.Failure? ==> r.error == NullPointer
    ensures r.Success? ==> |r.value| == |actions| && forall i :: 0 <= i < |actions| ==>
      r.value[i] == SignatureToSeffId(contents, actions[i].calledServiceId).value
  {
    if actions == [] then Success([])
    else
      var first :- SignatureToSeffId(contents, actions[0].calledServiceId);
      var rest :- SeffIdsOf(contents, actions[1..]);
      assert forall i :: 1 <= i < |actions| ==> actions[i] == actions[1..][i - 1];
      Success([first] + rest)
  }

  /** `getPredecessorsSeffIds`: the SEFF id of the service each predecessor
      of `action` calls, in predecessor order. */
  function PredecessorsSeffIds(contents: seq<PcmObject>, steps: seq<AbstractAction>, action: AbstractAction): (r: Result<seq<string>>)
    ensures var preds := Predecessors(steps, action);
      r.Failure? <==> exists i :: 0 <= i < |preds| && SignatureToSeffId(contents, preds[i].calledServiceId).Failure?
    ensures var preds := Predecessors(steps, action);
      r.Success? ==> |r.value| == |preds| && forall i :: 0 <= i < |preds| ==>
        r.value[i] == SignatureToSeffId(contents, preds[i].calledServiceId).value
  {
    SeffIdsOf(contents, Predecessors(steps, action))
  }

  // ---------------------------------------------------------------------
  // createVariableUsage
  // ---------------------------------------------------------------------

  datatype VariableCharacterisationType = Structure | NumberOfElements | Value | Bytesize | Type

  /** A characterisation: its type and its stochastic expression. */
  datatype VariableCharacterisation = VariableCharacterisation(ctype: VariableCharacterisationType, specification: string)

  /** A variable usage: the referenced name and its characterisations. */
  datatype VariableUsage = VariableUsage(referenceName: string, characterisations: seq<VariableCharacterisation>)

  /** `createVariableUsage`. */
  function CreateVariableUsage(variableName: string, ctype: VariableCharacterisationType, spec: string): (u: VariableUsage)
    ensures |u.characterisations| == 1
    ensures u.characterisations[0].ctype == ctype && u.characterisations[0].specification == spec
  {
    VariableUsage(ReplaceUnderscoreWithDot(variableName), [VariableCharacterisation(ctype, spec)])
  }

  /** The referenced name is the parameter name with the underscores of its
      characterisation suffixes turned into dots: no suffix is left in its
      underscore form, nothing else differs, and a name without suffixes is
      used as it is. */
  lemma CreateVariableUsageName(variableName: string, ctype: VariableCharacterisationType, spec: string)
    ensures var name := CreateVariableUsage(variableName, ctype, spec).referenceName;
      && DotsOnly(variableName, name)
      && Absent(name, ValueSuffix) && Absent(name, ByteSizeSuffix) && Absent(name, ElementsSuffix)
    ensures Absent(variableName, ValueSuffix) && Absent(variableName, ByteSizeSuffix) && Absent(variableName, ElementsSuffix) ==>
      CreateVariableUsage(variableName, ctype, spec).referenceName == variableName
  {
    ReplaceUnderscoreWithDotRewritesAll(variableName);
    if Absent(variableName, ValueSuffix) && Absent(variableName, ByteSizeSuffix) && Absent(variableName, ElementsSuffix) {
      ReplaceUnderscoreWithDotIdentity(variableName);
    }
  }
}
