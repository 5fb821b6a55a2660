// The outbreak registry: clinical cases (hosts), their validation, and the
// outbreak's view of them as a data type whose states are case indices.

module Outbreaks {
  import opened TreeCore

  /** The inputs of a clinical case; None is an input left at its default. */
  datatype CaseInputs = CaseInputs(
    endOfInfectiousTime: Option<real>,
    wasEverInfected: Option<bool>,
    indexPriorWeight: Option<real>)

  /** A host of the outbreak. `geographicallyLocated` is whether the object
    * is the geographically located subclass. */
  class ClinicalCase {
    const id: string
    const geographicallyLocated: bool
    var endOfInfectiousTime: Option<real>
    var everInfected: bool
    var indexPriorWeight: real

    constructor (id: string, geographicallyLocated: bool)
      ensures this.id == id && this.geographicallyLocated == geographicallyLocated
      ensures endOfInfectiousTime.None?
    {
      this.id := id;
      this.geographicallyLocated := geographicallyLocated;
      endOfInfectiousTime := None;
      everInfected := true;
      indexPriorWeight := 1.0;
    }

    /** initAndValidate: take the inputs, with wasEverInfected defaulting to
      * true and indexPriorWeight to 1.0, then insist that a case has an end
      * of infectiousness exactly when it was ever infected. */
    method InitAndValidate(inputs: CaseInputs) returns (r: Result<bool>)
      modifies this
      ensures endOfInfectiousTime == inputs.endOfInfectiousTime
      ensures everInfected == (inputs.wasEverInfected != Some(false))
      ensures indexPriorWeight == (if inputs.indexPriorWeight.Some? then inputs.indexPriorWeight.value else 1.0)
      ensures r.Ok? <==> (everInfected <==> endOfInfectiousTime.Some?)
      ensures everInfected && endOfInfectiousTime.None? ==> r == Err("infected without end time")
      ensures !everInfected && endOfInfectiousTime.Some? ==> r == Err("uninfected with end time")
    {
      endOfInfectiousTime := inputs.endOfInfectiousTime;
      everInfected := if inputs.wasEverInfected.Some? then inputs.wasEverInfected.value else true;
      indexPriorWeight := if inputs.indexPriorWeight.Some? then inputs.indexPriorWeight.value else 1.0;
      if everInfected && endOfInfectiousTime.None? {
        return Err("infected without end time");
      }
      if !everInfected && endOfInfectiousTime.Some? {
        return Err("uninfected with end time");
      }
      r := Ok(true);
    }

    /** getEndTime: the end of infectiousness; a case without one has no
      * parameter to read. */
    function GetEndTime(): (r: Result<real>)
      reads this
      ensures r.Ok? <==> endOfInfectiousTime.Some?
      ensures r.Ok? ==> r.value == endOfInfectiousTime.value
    {
      if endOfInfectiousTime.Some? then Ok(endOfInfectiousTime.value) else Err("no end time")
    }
  }

  /** The IDs of a list of cases, in order. */
  function IdsOf(cs: seq<ClinicalCase>): (ids: seq<string>)
    ensures |ids| == |cs| && forall i :: 0 <= i < |cs| ==> ids[i] == cs[i].id
  {
    if cs == [] then [] else IdsOf(cs[..|cs| - 1]) + [cs[|cs| - 1].id]
  }

  /** The ever-infected cases of a list, in their original order. */
  ghost function EverInfected(cs: seq<ClinicalCase>): (out: seq<ClinicalCase>)
    reads set c | c in cs
    ensures forall i :: 0 <= i < |out| ==> out[i] in cs && out[i].everInfected
    ensures forall i :: 0 <= i < |cs| && cs[i].everInfected ==> cs[i] in out
    ensures |out| <= |cs|
  {
    if cs == [] then []
    else EverInfected(cs[..|cs| - 1]) + (if cs[|cs| - 1].everInfected then [cs[|cs| - 1]] else [])
  }

  /** The position of the first occurrence of c (List.indexOf). */
  function IndexOf(cs: seq<ClinicalCase>, c: ClinicalCase): (i: int)
    ensures -1 <= i < |cs|
    ensures i == -1 <==> c !in cs
    ensures 0 <= i ==> cs[i] == c && forall k :: 0 <= k < i ==> cs[k] != c
  {
    if cs == [] then -1
    else if cs[0] == c then 0
    else var j := IndexOf(cs[1..], c); if j == -1 then -1 else j + 1
  }

  /** What the loop of string2state collects over the first k cases: the
    * index (by indexOf) of every case whose ID equals s. */
  function StatesOf(cs: seq<ClinicalCase>, s: string, k: nat): (out: seq<int>)
    requires k <= |cs|
    ensures forall j :: j in out ==> 0 <= j < k && cs[j].id == s
    ensures forall i :: 0 <= i < k && cs[i].id == s ==> IndexOf(cs, cs[i]) in out
    ensures |out| == 0 <==> forall i :: 0 <= i < k ==> cs[i].id != s
  {
    if k == 0 then []
    else
      var earlier := StatesOf(cs, s, k - 1);
      if cs[k - 1].id == s then earlier + [IndexOf(cs, cs[k - 1])] else earlier
  }

  /** The loop of string2state: the index of every case carrying the ID. */
  method CollectStates(cs: seq<ClinicalCase>, s: string) returns (out: seq<int>)
    ensures out == StatesOf(cs, s, |cs|)
  {
    out := [];
    for i := 0 to |cs|
      invariant out == StatesOf(cs, s, i)
    {
      if cs[i].id == s {
        out := out + [IndexOf(cs, cs[i])];
      }
    }
  }

  /** No two cases share an ID. */
  ghost predicate UniqueIds(cs: seq<ClinicalCase>)
  {
    forall i, j :: 0 <= i < j < |cs| ==> cs[i].id != cs[j].id
  }

  /** Case k is the first case that is not geographically located. */
  ghost predicate FirstUnlocated(cs: seq<ClinicalCase>, k: int)
    reads set c | c in cs
  {
    0 <= k < |cs| && !cs[k].geographicallyLocated
    && forall m :: 0 <= m < k ==> cs[m].geographicallyLocated
  }

  /** The first loop of Outbreak.initAndValidate: gather the ever-infected
    * cases in order; when geography is required, the first case that is not
    * geographically located stops the scan with failure. */
  method CollectInfected(cs: seq<ClinicalCase>, geo: bool) returns (infected: seq<ClinicalCase>, ok: bool)
    ensures ok <==> (geo ==> forall c :: c in cs ==> c.geographicallyLocated)
    ensures ok ==> infected == EverInfected(cs)
    ensures !ok ==> exists k :: FirstUnlocated(cs, k) && infected == EverInfected(cs[..k + 1])
  {
    infected := [];
    for i := 0 to |cs|
      invariant infected == EverInfected(cs[..i])
      invariant geo ==> forall k :: 0 <= k < i ==> cs[k].geographicallyLocated
    {
      assert cs[..i + 1][..i] == cs[..i];
      if cs[i].everInfected {
        infected := infected + [cs[i]];
      }
      if geo && !cs[i].geographicallyLocated {
        assert cs[i] in cs;
        assert FirstUnlocated(cs, i);
        return infected, false;
      }
    }
    assert cs[..|cs|] == cs;
    ok := true;
  }

  /** The second loop of Outbreak.initAndValidate: the taxon names are the
    * IDs of the taxa, in order. */
  method CollectNames(taxa: seq<ClinicalCase>) returns (names: seq<string>)
    ensures names == IdsOf(taxa)
  {
    names := [];
    for i := 0 to |taxa|
      invariant names == IdsOf(taxa[..i])
    {
      assert taxa[..i + 1][..i] == taxa[..i];
      names := names + [taxa[i].id];
    }
    assert taxa[..|taxa|] == taxa;
  }

  /** An outbreak: its cases, whether hosts have locations, and the
    * ever-infected cases with their IDs as taxa. */
  class Outbreak {
    var cases: seq<ClinicalCase>
    var hasGeography: bool
    var taxonList: seq<ClinicalCase>
    var taxaNames: seq<string>

    constructor ()
      ensures cases == [] && !hasGeography && taxonList == [] && taxaNames == []
    {
      cases := [];
      hasGeography := false;
      taxonList := [];
      taxaNames := [];
    }

    /** initAndValidate: keep the ever-infected cases in order and their IDs
      * as taxon names; with geography, every case must be located, and the
      * first unlocated case stops the scan. */
    method InitAndValidate(casesIn: seq<ClinicalCase>, geography: Option<bool>) returns (r: Result<bool>)
      modifies this
      ensures cases == casesIn && hasGeography == (geography == Some(true))
      ensures r.Ok? <==> (hasGeography ==> forall c :: c in casesIn ==> c.geographicallyLocated)
      ensures r.Ok? ==> taxonList == old(EverInfected(casesIn)) && taxaNames == IdsOf(taxonList)
      ensures r.Err? ==> exists k :: old(FirstUnlocated(casesIn, k)) && taxonList == old(EverInfected(casesIn[..k + 1]))
      ensures r.Err? ==> taxaNames == old(taxaNames)
    {
      var geo := geography == Some(true);
      var infected, ok := CollectInfected(casesIn, geo);
      if !ok {
        cases, hasGeography, taxonList := casesIn, geo, infected;
        return Err("case not located");
      }
      var names := CollectNames(infected);
      cases, hasGeography, taxonList, taxaNames := casesIn, geo, infected, names;
      r := Ok(true);
    }

    /** getStateCount: one state per ever-infected case. */
    function GetStateCount(): (n: nat)
      reads this
      ensures n == |taxonList|
    {
      |taxonList|
    }

    /** string2state: the indices (by indexOf) of the cases carrying the
      * ID, in case order; an ID no case carries is an error. */
    method String2State(s: string) returns (r: Result<seq<int>>)
      ensures r.Ok? <==> exists i :: 0 <= i < |cases| && cases[i].id == s
      ensures r.Ok? ==> r.value == StatesOf(cases, s, |cases|)
    {
      var out := CollectStates(cases, s);
      if |out| == 0 {
        return Err("ID not found");
      }
      r := Ok(out);
    }

    /** state2string (both overloads): the ID of the case at the single
      * given index; more than one state is refused, and an empty list or an
      * index outside the cases has no case to read. */
    function State2String(states: seq<int>): (r: Result<string>)
      reads this
      ensures |states| > 1 ==> r.Err?
      ensures r.Ok? <==> |states| == 1 && 0 <= states[0] < |cases|
      ensures r.Ok? ==> r.value == cases[states[0]].id
    {
      if |states| > 1 then Err("one position per tip")
      else if |states| == 0 then Err("no state given")
      else if 0 <= states[0] < |cases| then Ok(cases[states[0]].id)
      else Err("state outside the cases")
    }

    /** getStateSet: every state allowed, one flag per ever-infected case. */
    function GetStateSet(state: int): (flags: seq<bool>)
      reads this
      ensures |flags| == GetStateCount() && forall i :: 0 <= i < |flags| ==> flags[i]
    {
      seq(|taxonList|, i => true)
    }

    /** getStatesForCode: a code stands for exactly its own state. */
    function GetStatesForCode(state: int): (states: seq<int>)
      ensures states == [state]
    {
      [state]
    }

    /** isAmbiguousState: no state is ambiguous. */
    predicate IsAmbiguousState(state: int)
    {
      false
    }

    /** getCaseByID: the first case carrying the ID; none is an error. */
    method GetCaseById(id: string) returns (r: Result<ClinicalCase>)
      ensures r == FirstWithId(cases, id)
    {
      for i := 0 to |cases|
        invariant FirstWithId(cases, id) == FirstWithId(cases[i..], id)
      {
        if cases[i].id == id {
          return Ok(cases[i]);
        }
        assert cases[i..][1..] == cases[i + 1..];
      }
      return Err("case not present");
    }
  }

  /** With unique IDs, the state of a case's ID is that case's index alone,
    * and state2string maps it back to the ID. */
  lemma StateRoundTrip(o: Outbreak, i: int)
    requires 0 <= i < |o.cases| && UniqueIds(o.cases)
    ensures StatesOf(o.cases, o.cases[i].id, |o.cases|) == [i]
    ensures o.State2String([i]) == Ok(o.cases[i].id)
  {
    StatesOfUnique(o.cases, o.cases[i].id, |o.cases|, i);
  }

  /** With unique IDs, looking a case up by its ID finds it. */
  lemma CaseByIdFinds(cs: seq<ClinicalCase>, i: int)
    requires 0 <= i < |cs| && UniqueIds(cs)
    ensures FirstWithId(cs, cs[i].id) == Ok(cs[i])
  {
    var r := FirstWithId(cs, cs[i].id);
    var j :| 0 <= j < |cs| && cs[j] == r.value && forall k :: 0 <= k < j ==> cs[k].id != cs[i].id;
    assert j == i;
  }

  /** The first case in cs carrying the ID. */
  function FirstWithId(cs: seq<ClinicalCase>, id: string): (r: Result<ClinicalCase>)
    ensures r.Ok? <==> exists i :: 0 <= i < |cs| && cs[i].id == id
    ensures r.Ok? ==> r.value in cs && r.value.id == id
    ensures r.Ok? ==> exists i :: 0 <= i < |cs| && cs[i] == r.value && forall k :: 0 <= k < i ==> cs[k].id != id
  {
    if cs == [] then Err("case not present")
    else if cs[0].id == id then Ok(cs[0])
    else
      var r := FirstWithId(cs[1..], id);
      assert forall i :: 0 < i < |cs| ==> cs[i] == cs[1..][i - 1];
      if r.Ok? then
        assert exists i :: 0 <= i < |cs| && cs[i] == r.value && forall k :: 0 <= k < i ==> cs[k].id != id by {
          var j :| 0 <= j < |cs[1..]| && cs[1..][j] == r.value && forall k :: 0 <= k < j ==> cs[1..][k].id != id;
          assert cs[j + 1] == r.value;
        }
        r
      else r
  }

  /** With unique IDs, a case's first occurrence is its only one. */
  lemma IndexOfUnique(cs: seq<ClinicalCase>, i: int)
    requires 0 <= i < |cs| && UniqueIds(cs)
    ensures IndexOf(cs, cs[i]) == i
  {
    var j := IndexOf(cs, cs[i]);
    assert cs[j].id == cs[i].id;
  }

  /** With unique IDs, the only case carrying cs[i]'s ID is cs[i] itself. */
  lemma {:induction false} StatesOfUnique(cs: seq<ClinicalCase>, s: string, k: nat, i: int)
    requires k <= |cs| && 0 <= i < |cs| && cs[i].id == s && UniqueIds(cs)
    ensures StatesOf(cs, s, k) == if i < k then [i] else []
  {
    if k > 0 {
      StatesOfUnique(cs, s, k - 1, i);
      if k - 1 == i {
        IndexOfUnique(cs, i);
      } else {
        assert cs[k - 1].id != s;
      }
    }
  }
}
