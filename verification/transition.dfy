/** The transition memory of one child (`allocate_box_child`): while the
    layout animates, a child that has an allocation from before is moved
    from that box toward its new one; otherwise the new box is applied and
    remembered as the start of the next animation. */
module Transition {
  import opened BoxPolicy

  /** `clutter_actor_allocate_align_fill` followed by
      `clutter_actor_get_allocation_box`: the box the child settles in,
      given its cell, its alignment factors and its fill flags.  It belongs
      to the actor and is a parameter here. */
  type AlignFill = (Box, real, real, bool, bool) -> Box

  /** `clutter_actor_box_interpolate` from a start box to an end box at a
      progress in [0, 1]; a parameter here. */
  type Interpolate = (Box, Box, real) -> Box

  /** What one call leaves behind: the child's record and the box handed to
      `clutter_actor_allocate`. */
  datatype Step = Step(meta: ChildMeta, applied: Box)

  /** The box the child settles in for its cell. */
  function Settled(meta: ChildMeta, cell: Box, alignFill: AlignFill): Box
  {
    alignFill(cell, AlignmentFactor(meta.xAlign), AlignmentFactor(meta.yAlign), meta.xFill, meta.yFill)
  }

  /** `allocate_box_child`.  `animating` is `use_animations && is_animating`
      and `progress` the animation progress of the layout manager. */
  function AllocateBoxChild(animating: bool, meta: ChildMeta, cell: Box, progress: real,
                            alignFill: AlignFill, interpolate: Interpolate): (r: Step)
    ensures r.meta.hasLastAllocation
    ensures r.meta.(lastAllocation := meta.lastAllocation, hasLastAllocation := meta.hasLastAllocation) == meta
    ensures animating && meta.hasLastAllocation ==>
      r.meta == meta && r.applied == interpolate(meta.lastAllocation, Settled(meta, cell, alignFill), progress)
    ensures !(animating && meta.hasLastAllocation) ==>
      r.applied == Settled(meta, cell, alignFill) && r.meta.lastAllocation == r.applied
  {
    var final := Settled(meta, cell, alignFill);
    if animating then
      if !meta.hasLastAllocation then
        Step(meta.(lastAllocation := final, hasLastAllocation := true), final)
      else
        Step(meta, interpolate(meta.lastAllocation, final, progress))
    else
      Step(meta.(lastAllocation := final, hasLastAllocation := true), final)
  }

  /** One allocation pass as a child sees it. */
  datatype Pass = Pass(animating: bool, cell: Box, progress: real)

  /** A run of passes over one child: its record at the end and the boxes
      it was given, in order. */
  function Replay(meta: ChildMeta, passes: seq<Pass>, alignFill: AlignFill, interpolate: Interpolate):
    (r: (ChildMeta, seq<Box>))
    ensures |r.1| == |passes|
    decreases |passes|
  {
    if passes == [] then (meta, [])
    else
      var p := passes[0];
      var step := AllocateBoxChild(p.animating, meta, p.cell, p.progress, alignFill, interpolate);
      var rest := Replay(step.meta, passes[1..], alignFill, interpolate);
      (rest.0, [step.applied] + rest.1)
  }

  /** Whether pass `k` of a run stores its box: when it does not animate,
      or when it is the first pass over a child with no box yet. */
  predicate Stores(meta: ChildMeta, passes: seq<Pass>, k: nat)
    requires k < |passes|
  {
    !passes[k].animating || (k == 0 && !meta.hasLastAllocation)
  }

  /** The reference definition of the transition memory: the box of the
      last pass that stores one, or the box the child had before. */
  function Remembered(meta: ChildMeta, passes: seq<Pass>, alignFill: AlignFill): Box
    decreases |passes|
  {
    if passes == [] then meta.lastAllocation
    else if Stores(meta, passes, |passes| - 1) then Settled(meta, passes[|passes| - 1].cell, alignFill)
    else Remembered(meta, passes[..|passes| - 1], alignFill)
  }

  /** After a run the child remembers the box of the last pass that stored
      one, its policy is untouched, and it has a box once any pass ran. */
  lemma {:induction false} ReplayRemembers(meta: ChildMeta, passes: seq<Pass>, alignFill: AlignFill,
                                           interpolate: Interpolate)
    ensures var m := Replay(meta, passes, alignFill, interpolate).0;
      && m.lastAllocation == Remembered(meta, passes, alignFill)
      && m.hasLastAllocation == (meta.hasLastAllocation || |passes| > 0)
      && m.(lastAllocation := meta.lastAllocation, hasLastAllocation := meta.hasLastAllocation) == meta
    decreases |passes|
  {
    if passes != [] {
      var p := passes[0];
      var step := AllocateBoxChild(p.animating, meta, p.cell, p.progress, alignFill, interpolate);
      ReplayRemembers(step.meta, passes[1..], alignFill, interpolate);
      RememberedShift(meta, step.meta, passes, alignFill);
    }
  }

  /** `Remembered` after the first pass, seen from the record that pass
      left behind. */
  lemma {:induction false} RememberedShift(meta: ChildMeta, next: ChildMeta, passes: seq<Pass>,
                                           alignFill: AlignFill)
    requires passes != [] && next.hasLastAllocation
    requires next.(lastAllocation := meta.lastAllocation, hasLastAllocation := meta.hasLastAllocation) == meta
    requires next.lastAllocation
             == if Stores(meta, passes, 0) then Settled(meta, passes[0].cell, alignFill) else meta.lastAllocation
    ensures Remembered(next, passes[1..], alignFill) == Remembered(meta, passes, alignFill)
    decreases |passes|
  {
    var n := |passes|;
    if n > 1 {
      assert Settled(next, passes[n - 1].cell, alignFill) == Settled(meta, passes[n - 1].cell, alignFill);
      assert passes[1..][..n - 2] == passes[..n - 1][1..];
      RememberedShift(meta, next, passes[..n - 1], alignFill);
    }
  }

  /** While an animation runs, a child that had a box keeps it as the start
      of every interpolation: its record does not change, and each pass
      moves it from that box toward the box of its new cell. */
  lemma {:induction false} AnimationKeepsStart(meta: ChildMeta, passes: seq<Pass>, alignFill: AlignFill,
                                               interpolate: Interpolate)
    requires meta.hasLastAllocation
    requires forall k :: 0 <= k < |passes| ==> passes[k].animating
    ensures var r := Replay(meta, passes, alignFill, interpolate);
      && r.0 == meta
      && forall k :: 0 <= k < |passes| ==>
           r.1[k] == interpolate(meta.lastAllocation, Settled(meta, passes[k].cell, alignFill), passes[k].progress)
    decreases |passes|
  {
    if passes != [] {
      AnimationKeepsStart(meta, passes[1..], alignFill, interpolate);
    }
  }
}
