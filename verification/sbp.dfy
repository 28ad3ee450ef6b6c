/**
 SBP (split / broadcast / partial-sum) descriptions of how a tensor slot is
 distributed over parallel workers, and the signature builder an operator's
 SBP function drives (`NewBuilder().Split(slots, axis).Build()`).
 */
module Sbp {

  /** How one tensor slot is distributed across the workers. */
  datatype SbpParallel = Split(axis: int) | Broadcast | PartialSum

  /** An operator argument slot: argument name and index within that argument. */
  datatype Slot = Slot(argName: string, index: int)

  /** One consistent assignment of an SBP to every slot it mentions. */
  type Signature = map<Slot, SbpParallel>

  /** `has_split_parallel()`: a split on any axis, i.e. neither a broadcast nor a partial sum. */
  predicate HasSplit(sbp: SbpParallel): (b: bool)
    ensures b <==> sbp != Broadcast && sbp != PartialSum
  {
    sbp.Split?
  }

  /** The slots a list of slots mentions. */
  function SlotSet(slots: seq<Slot>): set<Slot> {
    set i | 0 <= i < |slots| :: slots[i]
  }

  /** A builder starts from a signature that assigns nothing. */
  function NewBuilder(): (sig: Signature)
    ensures |sig| == 0
  {
    map[]
  }

  /**
   `Split(slots, axis)`: assigns `Split(axis)` to every listed slot and leaves
   every other slot's assignment as it was.
   */
  function SplitSlots(sig: Signature, slots: seq<Slot>, axis: int): (r: Signature)
    ensures r.Keys == sig.Keys + SlotSet(slots)
    ensures forall i :: 0 <= i < |slots| ==> r[slots[i]] == Split(axis)
    ensures forall s :: s in sig && s !in SlotSet(slots) ==> r[s] == sig[s]
    decreases |slots|
  {
    if |slots| == 0 then sig
    else
      var rest := SplitSlots(sig[slots[0] := Split(axis)], slots[1..], axis);
      assert SlotSet(slots) == {slots[0]} + SlotSet(slots[1..]) by {
        forall s | s in SlotSet(slots) ensures s in {slots[0]} + SlotSet(slots[1..]) {
          var i :| 0 <= i < |slots| && slots[i] == s;
          if i > 0 {
            assert slots[1..][i - 1] == s;
          }
        }
      }
      assert forall i :: 0 < i < |slots| ==> slots[i] == slots[1..][i - 1];
      rest
  }

  /** `Build()`: appends the finished signature to those already declared. */
  function Build(declared: seq<Signature>, sig: Signature): (r: seq<Signature>)
    ensures |r| == |declared| + 1 && r[|declared|] == sig
    ensures r[..|declared|] == declared
  {
    declared + [sig]
  }
}
