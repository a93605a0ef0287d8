/** The box layout's settings and its per-child policy records
    (`ClutterBoxLayoutPrivate` and `ClutterBoxChild`), with the setters and
    getters of the public API.  A real change to a setting that shapes the
    layout either starts an animation or asks for a new layout pass; the two
    counters `relayouts` and `animations` record how many times each
    happened. */
module BoxPolicy {
  import opened Optional
  import CInt

  /** `ClutterBoxAlignment`. */
  datatype Alignment = Start | Center | End

  /** `get_box_alignment_factor`: where in its cell a child is placed. */
  function AlignmentFactor(a: Alignment): (f: real)
    ensures 0.0 <= f <= 1.0
    ensures a == Start <==> f == 0.0
    ensures a == End <==> f == 1.0
  {
    match a
    case Center => 0.5
    case Start => 0.0
    case End => 1.0
  }

  /** `ClutterActorBox`: the rectangle from (x1, y1) to (x2, y2). */
  datatype Box = Box(x1: real, y1: real, x2: real, y2: real)

  /** `ClutterBoxChild`: the per-child policy and the transition memory. */
  datatype ChildMeta = ChildMeta(
    xAlign: Alignment,
    yAlign: Alignment,
    xFill: bool,
    yFill: bool,
    expand: bool,
    lastAllocation: Box,
    hasLastAllocation: bool)

  /** `clutter_box_child_init`, on an instance GObject has zero-filled. */
  const DefaultChildMeta: ChildMeta :=
    ChildMeta(Center, Center, false, false, false, Box(0.0, 0.0, 0.0, 0.0), false)

  /** Actors are known by identity only. */
  type ActorId = nat

  /** The container the layout is attached to: its children in list order
      and the child meta the layout manager keeps for each of them. */
  datatype Container = Container(children: seq<ActorId>, metas: map<ActorId, ChildMeta>)
  {
    /** No actor is listed twice, and exactly the children have a meta. */
    ghost predicate Valid()
    {
      && (forall i, j :: 0 <= i < j < |children| ==> children[i] != children[j])
      && (forall a :: a in metas <==> a in children)
    }
  }

  /** `ClutterBoxLayoutPrivate`, plus the two effect counters. */
  datatype BoxLayout = BoxLayout(
    container: Option<Container>,
    spacing: CInt.uint32,
    easingMode: nat,
    easingDuration: CInt.uint32,
    vertical: bool,
    packStart: bool,
    isAnimating: bool,
    useAnimations: bool,
    homogeneous: bool,
    relayouts: nat,
    animations: nat)

  /** `CLUTTER_EASE_OUT_CUBIC`, the seventh `ClutterAnimationMode`. */
  const EaseOutCubic: nat := 6

  /** `clutter_box_layout_init`. */
  const InitialLayout: BoxLayout :=
    BoxLayout(None, 0, EaseOutCubic, 500, false, false, false, false, false, 0, 0)

  // ---------------------------------------------------------------------
  // Layout settings

  /** A new layout manager has no container, no spacing, a horizontal
      orientation, packs from the end, is not homogeneous and does not
      animate, with a cubic ease-out of 500 ms ready. */
  lemma InitialDefaults()
    ensures InitialLayout.container.None? && !InitialLayout.isAnimating
    ensures Get(InitialLayout, Spacing(0)) == Spacing(0)
    ensures Get(InitialLayout, Vertical(true)) == Vertical(false)
    ensures Get(InitialLayout, Homogeneous(true)) == Homogeneous(false)
    ensures Get(InitialLayout, PackStart(true)) == PackStart(false)
    ensures Get(InitialLayout, UseAnimations(true)) == UseAnimations(false)
    ensures Get(InitialLayout, EasingMode(0)) == EasingMode(EaseOutCubic)
    ensures Get(InitialLayout, EasingDuration(0)) == EasingDuration(500)
  {
  }

  /** A new child is centred both ways, neither fills nor expands, and has
      no box yet. */
  lemma ChildDefaults()
    ensures AlignmentFactor(DefaultChildMeta.xAlign) == AlignmentFactor(DefaultChildMeta.yAlign) == 0.5
    ensures !DefaultChildMeta.xFill && !DefaultChildMeta.yFill && !DefaultChildMeta.expand
    ensures !DefaultChildMeta.hasLastAllocation
  {
  }


  /** One layout property with its value. */
  datatype Setting =
    | Spacing(spacing: CInt.uint32)
    | Vertical(vertical: bool)
    | Homogeneous(homogeneous: bool)
    | PackStart(packStart: bool)
    | UseAnimations(useAnimations: bool)
    | EasingMode(mode: nat)
    | EasingDuration(msecs: CInt.uint32)

  predicate SameKind(a: Setting, b: Setting)
  {
    match a
    case Spacing(_) => b.Spacing?
    case Vertical(_) => b.Vertical?
    case Homogeneous(_) => b.Homogeneous?
    case PackStart(_) => b.PackStart?
    case UseAnimations(_) => b.UseAnimations?
    case EasingMode(_) => b.EasingMode?
    case EasingDuration(_) => b.EasingDuration?
  }

  /** The settings whose change shapes the layout; the other three setters
      only store their value. */
  predicate ShapesLayout(s: Setting)
  {
    s.Spacing? || s.Vertical? || s.Homogeneous? || s.PackStart?
  }

  /** The getter for the kind of `kind`: the current value of that setting. */
  function Get(l: BoxLayout, kind: Setting): (r: Setting)
    ensures SameKind(r, kind) && SameKind(kind, r)
  {
    match kind
    case Spacing(_) => Spacing(l.spacing)
    case Vertical(_) => Vertical(l.vertical)
    case Homogeneous(_) => Homogeneous(l.homogeneous)
    case PackStart(_) => PackStart(l.packStart)
    case UseAnimations(_) => UseAnimations(l.useAnimations)
    case EasingMode(_) => EasingMode(l.easingMode)
    case EasingDuration(_) => EasingDuration(l.easingDuration)
  }

  function Store(l: BoxLayout, s: Setting): BoxLayout
  {
    match s
    case Spacing(v) => l.(spacing := v)
    case Vertical(v) => l.(vertical := v)
    case Homogeneous(v) => l.(homogeneous := v)
    case PackStart(v) => l.(packStart := v)
    case UseAnimations(v) => l.(useAnimations := v)
    case EasingMode(v) => l.(easingMode := v)
    case EasingDuration(v) => l.(easingDuration := v)
  }

  /** Every setting of `a` equals the one of `b`. */
  predicate SameSettings(a: BoxLayout, b: BoxLayout)
  {
    && a.spacing == b.spacing && a.vertical == b.vertical && a.homogeneous == b.homogeneous
    && a.packStart == b.packStart && a.useAnimations == b.useAnimations
    && a.easingMode == b.easingMode && a.easingDuration == b.easingDuration
  }

  /** Exactly one layout change was reported between `before` and `after`:
      an animation started if animations are in use, a relayout request
      otherwise. */
  predicate ChangedOnce(before: BoxLayout, after: BoxLayout)
  {
    if before.useAnimations then
      after.isAnimating && after.animations == before.animations + 1 && after.relayouts == before.relayouts
    else
      && after.relayouts == before.relayouts + 1 && after.animations == before.animations
      && after.isAnimating == before.isAnimating
  }

  /** No change was reported between `before` and `after`. */
  predicate Quiet(before: BoxLayout, after: BoxLayout)
  {
    && after.relayouts == before.relayouts && after.animations == before.animations
    && after.isAnimating == before.isAnimating
  }

  /** `clutter_box_layout_begin_animation`: sets `is_animating`, then hands
      over to the layout manager's own timeline, which is not modelled. */
  function BeginAnimation(l: BoxLayout): (r: BoxLayout)
    ensures r.isAnimating && r.animations == l.animations + 1 && r.relayouts == l.relayouts
    ensures SameSettings(r, l) && r.container == l.container
  {
    l.(isAnimating := true, animations := l.animations + 1)
  }

  /** `clutter_box_layout_end_animation`. */
  function EndAnimation(l: BoxLayout): (r: BoxLayout)
    ensures !r.isAnimating && r.animations == l.animations && r.relayouts == l.relayouts
    ensures SameSettings(r, l) && r.container == l.container
  {
    l.(isAnimating := false)
  }

  /** What every setter does after a real change: start an animation with
      the layout's easing when animations are in use, otherwise report the
      layout as changed. */
  function Changed(l: BoxLayout): (r: BoxLayout)
    ensures ChangedOnce(l, r)
    ensures SameSettings(r, l) && r.container == l.container
  {
    if l.useAnimations then BeginAnimation(l) else l.(relayouts := l.relayouts + 1)
  }

  /** The seven setters `clutter_box_layout_set_spacing` …
      `clutter_box_layout_set_easing_duration`. */
  function Set(l: BoxLayout, s: Setting): (r: BoxLayout)
    ensures Get(r, s) == s
    ensures forall kind: Setting :: !SameKind(kind, s) ==> Get(r, kind) == Get(l, kind)
    ensures r.container == l.container
    ensures Get(l, s) == s ==> r == l
    ensures Get(l, s) != s && ShapesLayout(s) ==> ChangedOnce(l, r)
    ensures Get(l, s) == s || !ShapesLayout(s) ==> Quiet(l, r)
  {
    if Get(l, s) == s then l
    else if ShapesLayout(s) then Changed(Store(l, s))
    else Store(l, s)
  }

  /** Setting a value twice is setting it once. */
  lemma SetIdempotent(l: BoxLayout, s: Setting)
    ensures Set(Set(l, s), s) == Set(l, s)
  {
  }

  /** Two settings of different kinds reach the same settings in either
      order; whether a change animated may differ, because the setter of
      `use-animations` decides how a later change is reported. */
  lemma SetOrderIrrelevant(l: BoxLayout, s: Setting, t: Setting)
    requires !SameKind(s, t)
    ensures SameSettings(Set(Set(l, s), t), Set(Set(l, t), s))
  {
    SetStores(l, s);
    SetStores(l, t);
    SetStores(Set(l, s), t);
    SetStores(Set(l, t), s);
    StoreRespects(Set(l, s), Store(l, s), t);
    StoreRespects(Set(l, t), Store(l, t), s);
    StoreCommutes(l, s, t);
  }

  /** Storing into layouts with the same settings gives the same settings. */
  lemma StoreRespects(a: BoxLayout, b: BoxLayout, s: Setting)
    requires SameSettings(a, b)
    ensures SameSettings(Store(a, s), Store(b, s))
  {
  }

  /** Stores of two different kinds commute. */
  lemma StoreCommutes(l: BoxLayout, s: Setting, t: Setting)
    requires !SameKind(s, t)
    ensures SameSettings(Store(Store(l, s), t), Store(Store(l, t), s))
  {
  }

  /** A setter changes no setting other than its own. */
  lemma SetStores(l: BoxLayout, s: Setting)
    ensures SameSettings(Set(l, s), Store(l, s))
  {
  }

  /** Turning animations on before a change makes that change animate. */
  lemma AnimatedChange(l: BoxLayout, s: Setting)
    requires ShapesLayout(s) && Get(l, s) != s
    ensures var r := Set(Set(l, UseAnimations(true)), s);
      r.isAnimating && r.relayouts == l.relayouts
  {
  }

  // ---------------------------------------------------------------------
  // Per-child policy

  /** `box_child_set_align`: the new record and whether anything changed. */
  function ChildSetAlign(m: ChildMeta, x: Alignment, y: Alignment): (r: (ChildMeta, bool))
    ensures r.0.xAlign == x && r.0.yAlign == y
    ensures r.1 <==> m.xAlign != x || m.yAlign != y
    ensures r.0.(xAlign := m.xAlign, yAlign := m.yAlign) == m
  {
    (m.(xAlign := x, yAlign := y), m.xAlign != x || m.yAlign != y)
  }

  /** `box_child_set_fill`. */
  function ChildSetFill(m: ChildMeta, x: bool, y: bool): (r: (ChildMeta, bool))
    ensures r.0.xFill == x && r.0.yFill == y
    ensures r.1 <==> m.xFill != x || m.yFill != y
    ensures r.0.(xFill := m.xFill, yFill := m.yFill) == m
  {
    (m.(xFill := x, yFill := y), m.xFill != x || m.yFill != y)
  }

  /** `box_child_set_expand`. */
  function ChildSetExpand(m: ChildMeta, e: bool): (r: (ChildMeta, bool))
    ensures r.0.expand == e
    ensures r.1 <==> m.expand != e
    ensures r.0.(expand := m.expand) == m
  {
    (m.(expand := e), m.expand != e)
  }

  /** `clutter_layout_manager_get_child_meta`: the record of `a`, if `a` is
      a child of the attached container. */
  function Meta(l: BoxLayout, a: ActorId): (r: Option<ChildMeta>)
    ensures r.Some? <==> l.container.Some? && a in l.container.value.metas
  {
    match l.container
    case None => None
    case Some(c) => if a in c.metas then Some(c.metas[a]) else None
  }

  /** Stores the updated record of child `a`, then reports the change if
      there was one. */
  function Commit(l: BoxLayout, a: ActorId, update: (ChildMeta, bool)): (r: BoxLayout)
    requires Meta(l, a).Some?
    ensures r.container.Some? && r.container.value.children == l.container.value.children
    ensures r.container.value.metas == l.container.value.metas[a := update.0]
    ensures SameSettings(r, l)
    ensures if update.1 then ChangedOnce(l, r) else Quiet(l, r)
  {
    var c := l.container.value;
    var l' := l.(container := Some(c.(metas := c.metas[a := update.0])));
    if update.1 then Changed(l') else l'
  }

  /** `clutter_box_layout_set_alignment`; with no container or no record
      for `a` it warns and changes nothing. */
  function SetAlignment(l: BoxLayout, a: ActorId, x: Alignment, y: Alignment): (r: BoxLayout)
    ensures Meta(l, a).None? ==> r == l
    ensures Meta(l, a).Some? ==> GetAlignment(r, a) == Some((x, y))
  {
    match Meta(l, a)
    case None => l
    case Some(m) => Commit(l, a, ChildSetAlign(m, x, y))
  }

  /** `clutter_box_layout_get_alignment`: `None` where the C function
      warns and leaves its out-parameters untouched. */
  function GetAlignment(l: BoxLayout, a: ActorId): (r: Option<(Alignment, Alignment)>)
    ensures r.Some? <==> Meta(l, a).Some?
  {
    match Meta(l, a)
    case None => None
    case Some(m) => Some((m.xAlign, m.yAlign))
  }

  /** `clutter_box_layout_set_fill`. */
  function SetFill(l: BoxLayout, a: ActorId, x: bool, y: bool): (r: BoxLayout)
    ensures Meta(l, a).None? ==> r == l
    ensures Meta(l, a).Some? ==> GetFill(r, a) == Some((x, y))
  {
    match Meta(l, a)
    case None => l
    case Some(m) => Commit(l, a, ChildSetFill(m, x, y))
  }

  /** `clutter_box_layout_get_fill`. */
  function GetFill(l: BoxLayout, a: ActorId): (r: Option<(bool, bool)>)
    ensures r.Some? <==> Meta(l, a).Some?
  {
    match Meta(l, a)
    case None => None
    case Some(m) => Some((m.xFill, m.yFill))
  }

  /** `clutter_box_layout_set_expand`. */
  function SetExpand(l: BoxLayout, a: ActorId, e: bool): (r: BoxLayout)
    ensures Meta(l, a).None? ==> r == l
    ensures Meta(l, a).Some? ==> GetExpand(r, a) == e
  {
    match Meta(l, a)
    case None => l
    case Some(m) => Commit(l, a, ChildSetExpand(m, e))
  }

  /** `clutter_box_layout_get_expand`: FALSE when there is no record. */
  function GetExpand(l: BoxLayout, a: ActorId): (r: bool)
    ensures r ==> Meta(l, a).Some?
  {
    match Meta(l, a)
    case None => false
    case Some(m) => m.expand
  }

  /** `clutter_container_add_actor` as the layout sees it: a new actor is
      appended with a fresh record; one already there stays as it is. */
  function AddActor(c: Container, a: ActorId): (r: Container)
    ensures a in r.metas
    ensures a in c.metas ==> r == c
    ensures a !in c.metas ==> r.children == c.children + [a] && r.metas == c.metas[a := DefaultChildMeta]
  {
    if a in c.metas then c
    else Container(c.children + [a], c.metas[a := DefaultChildMeta])
  }

  /** `clutter_box_layout_pack`: without a container it warns and changes
      nothing; otherwise it adds the actor, then sets its alignment, fill
      and expand in that order, each reporting its own change. */
  function Pack(l: BoxLayout, a: ActorId, expand: bool, xFill: bool, yFill: bool,
                xAlign: Alignment, yAlign: Alignment): (r: BoxLayout)
    ensures l.container.None? ==> r == l
    ensures r.container.Some? == l.container.Some?
    ensures l.container.Some? ==> a in r.container.value.metas
  {
    match l.container
    case None => l
    case Some(c) =>
      var l0 := l.(container := Some(AddActor(c, a)));
      var l1 := SetAlignment(l0, a, xAlign, yAlign);
      var l2 := SetFill(l1, a, xFill, yFill);
      SetExpand(l2, a, expand)
  }

  /** How many of the three calls of `Pack` change something, given the
      record the child had before. */
  function PackChanges(m: ChildMeta, expand: bool, xFill: bool, yFill: bool,
                       xAlign: Alignment, yAlign: Alignment): nat
  {
    (if m.xAlign != xAlign || m.yAlign != yAlign then 1 else 0)
    + (if m.xFill != xFill || m.yFill != yFill then 1 else 0)
    + (if m.expand != expand then 1 else 0)
  }

  /** After `Pack` the actor is a child of a still valid container and
      carries exactly the policy it was packed with. */
  lemma PackPolicy(l: BoxLayout, a: ActorId, expand: bool, xFill: bool, yFill: bool,
                   xAlign: Alignment, yAlign: Alignment)
    requires l.container.Some? && l.container.value.Valid()
    ensures var r := Pack(l, a, expand, xFill, yFill, xAlign, yAlign);
      && r.container.Some? && r.container.value.Valid()
      && a in r.container.value.children
      && GetAlignment(r, a) == Some((xAlign, yAlign))
      && GetFill(r, a) == Some((xFill, yFill))
      && GetExpand(r, a) == expand
  {
    var c := l.container.value;
    var c0 := AddActor(c, a);
    AddActorValid(c, a);
    var l0 := l.(container := Some(c0));
    var u1 := ChildSetAlign(c0.metas[a], xAlign, yAlign);
    var l1 := Commit(l0, a, u1);
    var u2 := ChildSetFill(u1.0, xFill, yFill);
    var l2 := Commit(l1, a, u2);
    var u3 := ChildSetExpand(u2.0, expand);
    var r := Commit(l2, a, u3);
    assert r == Pack(l, a, expand, xFill, yFill, xAlign, yAlign);
    assert r.container.value.children == c0.children;
  }

  /** `Pack` leaves the other children's records as they were. */
  lemma PackFrame(l: BoxLayout, a: ActorId, expand: bool, xFill: bool, yFill: bool,
                   xAlign: Alignment, yAlign: Alignment)
    requires l.container.Some? && l.container.value.Valid()
    ensures var r := Pack(l, a, expand, xFill, yFill, xAlign, yAlign);
      forall b :: b != a && b in l.container.value.metas ==> Meta(r, b) == Meta(l, b)
  {
    var c := l.container.value;
    var c0 := AddActor(c, a);
    AddActorValid(c, a);
    var l0 := l.(container := Some(c0));
    var u1 := ChildSetAlign(c0.metas[a], xAlign, yAlign);
    var l1 := Commit(l0, a, u1);
    var u2 := ChildSetFill(u1.0, xFill, yFill);
    var l2 := Commit(l1, a, u2);
    var u3 := ChildSetExpand(u2.0, expand);
    var r := Commit(l2, a, u3);
    assert r == Pack(l, a, expand, xFill, yFill, xAlign, yAlign);
    assert r.container.value.metas == c0.metas[a := u3.0];
  }

  /** `Pack` leaves the actor's transition memory and every layout setting
      as they were. */
  lemma PackKeeps(l: BoxLayout, a: ActorId, expand: bool, xFill: bool, yFill: bool,
                xAlign: Alignment, yAlign: Alignment)
    requires l.container.Some? && l.container.value.Valid()
    ensures var r := Pack(l, a, expand, xFill, yFill, xAlign, yAlign);
      && r.container.value.metas[a].hasLastAllocation
         == (a in l.container.value.metas && l.container.value.metas[a].hasLastAllocation)
      && SameSettings(r, l)
  {
    var c := l.container.value;
    var c0 := AddActor(c, a);
    AddActorValid(c, a);
    var l0 := l.(container := Some(c0));
    var u1 := ChildSetAlign(c0.metas[a], xAlign, yAlign);
    var l1 := Commit(l0, a, u1);
    var u2 := ChildSetFill(u1.0, xFill, yFill);
    var l2 := Commit(l1, a, u2);
    var u3 := ChildSetExpand(u2.0, expand);
    var r := Commit(l2, a, u3);
    assert r == Pack(l, a, expand, xFill, yFill, xAlign, yAlign);
    assert r.container.value.metas == c0.metas[a := u3.0];
  }

  /** `Pack` reports one change for each of its three calls that changed
      something, starting from the default record for a new child. */
  lemma PackCount(l: BoxLayout, a: ActorId, expand: bool, xFill: bool, yFill: bool,
                   xAlign: Alignment, yAlign: Alignment)
    requires l.container.Some? && l.container.value.Valid()
    ensures var r := Pack(l, a, expand, xFill, yFill, xAlign, yAlign);
      var c := l.container.value;
      var before := if a in c.metas then c.metas[a] else DefaultChildMeta;
      r.relayouts + r.animations
      == l.relayouts + l.animations + PackChanges(before, expand, xFill, yFill, xAlign, yAlign)
  {
    var c := l.container.value;
    var c0 := AddActor(c, a);
    AddActorValid(c, a);
    var l0 := l.(container := Some(c0));
    var u1 := ChildSetAlign(c0.metas[a], xAlign, yAlign);
    var l1 := Commit(l0, a, u1);
    CommitCount(l0, a, u1);
    var u2 := ChildSetFill(u1.0, xFill, yFill);
    var l2 := Commit(l1, a, u2);
    CommitCount(l1, a, u2);
    var u3 := ChildSetExpand(u2.0, expand);
    var r := Commit(l2, a, u3);
    CommitCount(l2, a, u3);
    assert r == Pack(l, a, expand, xFill, yFill, xAlign, yAlign);
  }

  /** Adding an actor keeps the container valid and makes the actor a
      child. */
  lemma AddActorValid(c: Container, a: ActorId)
    requires c.Valid()
    ensures AddActor(c, a).Valid() && a in AddActor(c, a).children
  {
    var r := AddActor(c, a);
    if a !in c.metas {
      forall i, j | 0 <= i < j < |r.children|
        ensures r.children[i] != r.children[j]
      {
        if j == |c.children| {
          assert c.children[i] in c.children;
        }
      }
      assert r.children[|c.children|] == a;
    }
  }

  /** Each committed update adds one reported change or none. */
  lemma CommitCount(l: BoxLayout, a: ActorId, update: (ChildMeta, bool))
    requires Meta(l, a).Some?
    ensures var r := Commit(l, a, update);
      r.relayouts + r.animations == l.relayouts + l.animations + (if update.1 then 1 else 0)
  {
  }

  /** Every child operation is a no-op on a layout with no container. */
  lemma NoContainerNoEffect(l: BoxLayout, a: ActorId, expand: bool, xFill: bool, yFill: bool,
                            xAlign: Alignment, yAlign: Alignment)
    requires l.container.None?
    ensures Pack(l, a, expand, xFill, yFill, xAlign, yAlign) == l
    ensures SetAlignment(l, a, xAlign, yAlign) == l
    ensures SetFill(l, a, xFill, yFill) == l
    ensures SetExpand(l, a, expand) == l
    ensures GetAlignment(l, a).None? && GetFill(l, a).None? && !GetExpand(l, a)
  {
  }

  /** Re-applying a child's current policy changes nothing at all. */
  lemma ChildSetCurrentIsIdentity(l: BoxLayout, a: ActorId)
    requires Meta(l, a).Some?
    ensures var m := Meta(l, a).value;
      && SetAlignment(l, a, m.xAlign, m.yAlign) == l
      && SetFill(l, a, m.xFill, m.yFill) == l
      && SetExpand(l, a, m.expand) == l
  {
    var c := l.container.value;
    var m := c.metas[a];
    assert c.metas[a := m] == c.metas;
  }
}
