/** `getOramaDB` in app/api/chat/route.ts: a module-level slot holding the
    restored search index, filled by the first load that succeeds. Calls are
    modelled one after another; the file read and `restore` are summed up by
    the outcome the environment would give if a load were attempted. */
module IndexCache {
  import opened Optional

  /** The restored Orama database, as an opaque handle. */
  datatype Index = Index(handle: nat)

  /** What reading and restoring the persisted index gives at the moment a
      load is attempted. */
  datatype LoadOutcome = Restored(index: Index) | LoadFailed

  /** One call: the value returned, the slot afterwards, and whether a load
      was attempted. */
  datatype Step = Step(returned: Option<Index>, slot: Option<Index>, loaded: bool)

  /** One call of `getOramaDB`: a filled slot is returned as is; otherwise a
      load is attempted, and only its success fills the slot. */
  function GetIndex(slot: Option<Index>, outcome: LoadOutcome): (s: Step)
    ensures s.returned == s.slot
    ensures s.loaded <==> slot.None?
    ensures slot.Some? ==> s.slot == slot
    ensures slot.None? ==> (s.slot.Some? <==> outcome.Restored?)
    ensures s.slot.Some? && s.loaded ==> s.slot == Some(outcome.index)
  {
    if slot.Some? then Step(slot, slot, false)
    else match outcome
      case Restored(index) => Step(Some(index), Some(index), true)
      case LoadFailed => Step(None, None, true)
  }

  /** A run of calls from `slot`, the i-th call meeting `outcomes[i]` should it
      load: the value each call returns. */
  function Run(slot: Option<Index>, outcomes: seq<LoadOutcome>): (rs: seq<Option<Index>>)
    ensures |rs| == |outcomes|
    ensures slot.Some? ==> forall k :: 0 <= k < |rs| ==> rs[k] == slot
    ensures forall k :: 0 <= k < |rs| - 1 && rs[k].Some? ==> rs[k + 1] == rs[k]
    decreases |outcomes|
  {
    if |outcomes| == 0 then []
    else
      var s := GetIndex(slot, outcomes[0]);
      [s.returned] + Run(s.slot, outcomes[1..])
  }

  /** How many calls of the run attempt a load. */
  function Loads(slot: Option<Index>, outcomes: seq<LoadOutcome>): nat
    decreases |outcomes|
  {
    if |outcomes| == 0 then 0
    else
      var s := GetIndex(slot, outcomes[0]);
      (if s.loaded then 1 else 0) + Loads(s.slot, outcomes[1..])
  }

  /** Index of the first outcome that restores the index, or `|outcomes|`. */
  function FirstRestored(outcomes: seq<LoadOutcome>): (f: nat)
    ensures f <= |outcomes|
    ensures forall k :: 0 <= k < f ==> outcomes[k].LoadFailed?
    ensures f < |outcomes| ==> outcomes[f].Restored?
    decreases |outcomes|
  {
    if |outcomes| == 0 || outcomes[0].Restored? then 0
    else 1 + FirstRestored(outcomes[1..])
  }

  /** A warm slot never changes: every call returns it and none loads. */
  lemma {:induction false} WarmSlotIsReturned(x: Index, outcomes: seq<LoadOutcome>)
    ensures forall k :: 0 <= k < |outcomes| ==> Run(Some(x), outcomes)[k] == Some(x)
    ensures Loads(Some(x), outcomes) == 0
    decreases |outcomes|
  {
    if |outcomes| > 0 {
      WarmSlotIsReturned(x, outcomes[1..]);
    }
  }

  /** From an empty slot, every call up to the first successful restore
      returns null (and loads again), and every later call returns the index
      that restore produced without loading: exactly one restore succeeds,
      and failed loads are retried. */
  lemma {:induction false} ColdRun(outcomes: seq<LoadOutcome>)
    ensures var f := FirstRestored(outcomes);
            forall k :: 0 <= k < |outcomes| ==>
              Run(None, outcomes)[k] == (if k < f then None else Some(outcomes[f].index))
    ensures Loads(None, outcomes) == if FirstRestored(outcomes) < |outcomes|
                                     then FirstRestored(outcomes) + 1
                                     else |outcomes|
    decreases |outcomes|
  {
    if |outcomes| > 0 {
      var rest := outcomes[1..];
      match outcomes[0]
      case Restored(x) =>
        WarmSlotIsReturned(x, rest);
      case LoadFailed =>
        ColdRun(rest);
        var rs := Run(None, outcomes);
        assert rs == [None] + Run(None, rest);
        forall k | 1 <= k < |outcomes|
          ensures rs[k] == Run(None, rest)[k - 1]
        {
        }
    }
  }

  /** Once a call has returned an index, every later call returns that same
      index. */
  lemma Sticky(slot: Option<Index>, outcomes: seq<LoadOutcome>, i: nat, j: nat)
    requires i <= j < |outcomes|
    requires Run(slot, outcomes)[i].Some?
    ensures Run(slot, outcomes)[j] == Run(slot, outcomes)[i]
  {
    match slot
    case Some(x) =>
      WarmSlotIsReturned(x, outcomes);
    case None =>
      ColdRun(outcomes);
  }

  /** A failed load leaves the slot empty, so the next call tries again and
      succeeds if the index can now be restored. */
  lemma RetryAfterFailure(slot: Option<Index>, outcomes: seq<LoadOutcome>, i: nat)
    requires i + 1 < |outcomes|
    requires Run(slot, outcomes)[i].None?
    requires outcomes[i + 1].Restored?
    ensures Run(slot, outcomes)[i + 1] == Some(outcomes[i + 1].index)
  {
    match slot
    case Some(x) =>
      WarmSlotIsReturned(x, outcomes);
    case None =>
      ColdRun(outcomes);
  }
}
