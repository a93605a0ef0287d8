/** The allocation pass of the box layout (`count_expand_children` and
    `clutter_box_layout_allocate`): the container's extent along the main
    axis is shared out among the visible children, either evenly
    (homogeneous) or by raising them toward their natural size and handing
    what is left to the children that expand; a cursor then walks the
    children from the last to the first and places each one.

    Extents and requested sizes along the main axis are taken to be whole
    numbers (the program holds them as `gfloat`, and its cell sizes and
    cursor as `gint`); positions are `real`, because the centring offset
    is computed in floating point. */
module BoxAllocation {
  import opened Optional
  import CInt
  import SlackDistributor
  import BoxPolicy

  type RequestedSize = SlackDistributor.RequestedSize
  type Box = BoxPolicy.Box

  /** A child of the container for one allocation pass: whether it is
      visible, its expand flag and main-axis fill flag, and the size it
      requests along the main axis for the container's cross extent (the
      answer of the child's own size query, a parameter here). */
  datatype Item = Item(visible: bool, expand: bool, fill: bool, request: RequestedSize)

  /** The layout settings the pass reads, and the container's text
      direction. */
  datatype Settings = Settings(spacing: CInt.uint32, vertical: bool, homogeneous: bool,
                               packStart: bool, rtl: bool)

  /** The pass stops with a fatal error unless every visible child asks for
      `0 <= minimum <= natural`. */
  predicate Requestable(items: seq<Item>)
  {
    forall i :: 0 <= i < |items| && items[i].visible ==> SlackDistributor.WellFormed(items[i].request)
  }

  // ---------------------------------------------------------------------
  // Visible children

  /** The visible children, in list order. */
  function Visible(items: seq<Item>): (r: seq<Item>)
    ensures |r| <= |items|
    ensures forall v :: 0 <= v < |r| ==> r[v].visible
  {
    if items == [] then []
    else
      var last := items[|items| - 1];
      Visible(items[..|items| - 1]) + (if last.visible then [last] else [])
  }

  /** Where each visible child stands in the full list. */
  function Positions(items: seq<Item>): (r: seq<nat>)
    ensures |r| == |Visible(items)|
    ensures forall v :: 0 <= v < |r| ==> r[v] < |items| && items[r[v]] == Visible(items)[v]
    ensures forall v :: 0 <= v < |r| ==> v <= r[v]
    ensures forall v, w :: 0 <= v < w < |r| ==> r[v] < r[w]
  {
    if items == [] then []
    else
      var j := |items| - 1;
      var front := items[..j];
      Positions(front) + (if items[j].visible then [j] else [])
  }

  /** How many flags are set. */
  function Count(flags: seq<bool>): (r: nat)
    ensures r <= |flags|
  {
    if flags == [] then 0 else Count(flags[..|flags| - 1]) + (if flags[|flags| - 1] then 1 else 0)
  }

  function Expands(vis: seq<Item>): (r: seq<bool>)
    ensures |r| == |vis| && forall v :: 0 <= v < |vis| ==> r[v] == vis[v].expand
  {
    seq(|vis|, v requires 0 <= v < |vis| => vis[v].expand)
  }

  /** `count_expand_children`: the number of visible children and how
      many of them expand. */
  method CountExpandChildren(items: seq<Item>) returns (nVisible: int, nExpand: int)
    ensures nVisible == |Visible(items)|
    ensures nExpand == Count(Expands(Visible(items)))
  {
    nVisible, nExpand := 0, 0;
    var k := 0;
    while k < |items|
      invariant 0 <= k <= |items|
      invariant nVisible == |Visible(items[..k])|
      invariant nExpand == Count(Expands(Visible(items[..k])))
    {
      VisibleStep(items, k);
      if items[k].visible {
        nVisible := nVisible + 1;
        if items[k].expand {
          nExpand := nExpand + 1;
        }
      }
      k := k + 1;
    }
    assert items[..k] == items;
  }

  lemma VisibleStep(items: seq<Item>, k: nat)
    requires k < |items|
    ensures Visible(items[..k + 1]) == Visible(items[..k]) + (if items[k].visible then [items[k]] else [])
    ensures Count(Expands(Visible(items[..k + 1])))
            == Count(Expands(Visible(items[..k]))) + (if items[k].visible && items[k].expand then 1 else 0)
  {
    assert items[..k + 1][..k] == items[..k];
    var before := Visible(items[..k]);
    if items[k].visible {
      var after := before + [items[k]];
      assert Expands(after)[..|before|] == Expands(before);
    } else {
      assert before + [] == before;
    }
  }

  /** Every visible child stands at its own index among the visible ones
      exactly when no invisible child comes before a visible one. */
  lemma PositionsAreIndices(items: seq<Item>)
    ensures (forall v :: 0 <= v < |Positions(items)| ==> Positions(items)[v] == v)
            <==> (forall i, j :: 0 <= i < j < |items| && !items[i].visible ==> !items[j].visible)
  {
    var p := Positions(items);
    if forall v :: 0 <= v < |p| ==> p[v] == v {
      forall i, j | 0 <= i < j < |items| && items[j].visible
        ensures items[i].visible
      {
        VisibleBefore(items, i, j);
      }
    } else {
      var v :| 0 <= v < |p| && p[v] != v;
      if forall i, j :: 0 <= i < j < |items| && !items[i].visible ==> !items[j].visible {
        PositionsIdentity(items);
        assert false;
      }
    }
  }

  lemma VisibleBefore(items: seq<Item>, i: nat, j: nat)
    requires forall v :: 0 <= v < |Positions(items)| ==> Positions(items)[v] == v
    requires i < j < |items| && items[j].visible
    ensures items[i].visible
  {
    PositionsCover(items, j);
    var v :| 0 <= v < |Positions(items)| && Positions(items)[v] == j;
    assert items[Positions(items)[i]] == Visible(items)[i];
  }

  /** Each visible child has a position. */
  lemma {:induction false} PositionsCover(items: seq<Item>, j: nat)
    requires j < |items| && items[j].visible
    ensures exists v :: 0 <= v < |Positions(items)| && Positions(items)[v] == j
    decreases |items|
  {
    var k := |items| - 1;
    if j == k {
      assert Positions(items)[|Positions(items)| - 1] == j;
    } else {
      PositionsCover(items[..k], j);
      var v :| 0 <= v < |Positions(items[..k])| && Positions(items[..k])[v] == j;
      assert Positions(items)[v] == j;
    }
  }

  lemma {:induction false} PositionsIdentity(items: seq<Item>)
    requires forall i, j :: 0 <= i < j < |items| && !items[i].visible ==> !items[j].visible
    ensures forall v :: 0 <= v < |Positions(items)| ==> Positions(items)[v] == v
    decreases |items|
  {
    if items != [] {
      var k := |items| - 1;
      var front := items[..k];
      PositionsIdentity(front);
      if items[k].visible {
        AllVisible(front);
      }
    }
  }

  lemma {:induction false} AllVisible(items: seq<Item>)
    requires forall i :: 0 <= i < |items| ==> items[i].visible
    ensures |Visible(items)| == |items|
    decreases |items|
  {
    if items != [] {
      AllVisible(items[..|items| - 1]);
    }
  }

  // ---------------------------------------------------------------------
  // Child sizes

  function SumInts(xs: seq<int>): int
  {
    if xs == [] then 0 else SumInts(xs[..|xs| - 1]) + xs[|xs| - 1]
  }

  /** `k` limited to `0..most`: how many of `most` eligible children a
      counter of `k` one-unit bonuses reaches. */
  function Reach(k: int, most: nat): (r: nat)
    ensures r <= most
  {
    if k <= 0 then 0 else if k >= most then most else k
  }

  /** The child sizes of the placement loop, which visits the children from
      the last to the first: an eligible child gets `extra` on top of its
      base, plus one unit while the counter of such bonuses is positive. */
  function Shares(base: seq<int>, eligible: seq<bool>, extra: int, bonuses: int): (r: seq<int>)
    requires |base| == |eligible|
    ensures |r| == |base|
    decreases |base|
  {
    if base == [] then []
    else
      var j := |base| - 1;
      var bonus := eligible[j] && bonuses > 0;
      Shares(base[..j], eligible[..j], extra, if bonus then bonuses - 1 else bonuses)
        + [base[j] + (if eligible[j] then extra + (if bonus then 1 else 0) else 0)]
  }

  /** Child `v` gets the bonus exactly when it is eligible and fewer than
      `bonuses` eligible children come after it in the list, so the bonuses
      go to the last eligible children, the first ones the loop visits. */
  lemma {:induction false} SharesAt(base: seq<int>, eligible: seq<bool>, extra: int, bonuses: int, v: nat)
    requires |base| == |eligible| && v < |base|
    ensures Shares(base, eligible, extra, bonuses)[v]
            == base[v] + (if eligible[v] then extra + (if Count(eligible[v + 1..]) < bonuses then 1 else 0) else 0)
    decreases |base|
  {
    var j := |base| - 1;
    if v < j {
      var bonus := eligible[j] && bonuses > 0;
      var front := eligible[..j];
      SharesAt(base[..j], front, extra, if bonus then bonuses - 1 else bonuses, v);
      assert eligible[v + 1..][..|eligible[v + 1..]| - 1] == front[v + 1..];
    } else {
      assert eligible[v + 1..] == [];
    }
  }

  /** The sizes add up to the bases, `extra` for each eligible child and
      one unit for each bonus handed out. */
  lemma {:induction false} SharesSum(base: seq<int>, eligible: seq<bool>, extra: int, bonuses: int)
    requires |base| == |eligible|
    ensures SumInts(Shares(base, eligible, extra, bonuses))
            == SumInts(base) + extra * Count(eligible) + Reach(bonuses, Count(eligible))
    decreases |base|
  {
    if base != [] {
      var j := |base| - 1;
      var bonus := eligible[j] && bonuses > 0;
      var rest := if bonus then bonuses - 1 else bonuses;
      var r := Shares(base, eligible, extra, bonuses);
      var c := Count(eligible[..j]);
      SharesSum(base[..j], eligible[..j], extra, rest);
      assert r[..j] == Shares(base[..j], eligible[..j], extra, rest);
      assert SumInts(r) == SumInts(r[..j]) + r[j];
      assert SumInts(base) == SumInts(base[..j]) + base[j];
      assert eligible[..j + 1][..j] == eligible[..j];
      var gain := if eligible[j] then extra + (if bonus then 1 else 0) else 0;
      assert r[j] == base[j] + gain;
      CountedStep(extra, c, Count(eligible), eligible[j], bonuses, rest, bonus);
    }
  }

  /** The arithmetic of one step of `SharesSum`. */
  lemma CountedStep(extra: int, c: nat, total: nat, eligible: bool, bonuses: int, rest: int, bonus: bool)
    requires total == c + (if eligible then 1 else 0)
    requires bonus == (eligible && bonuses > 0)
    requires rest == if bonus then bonuses - 1 else bonuses
    ensures extra * total + Reach(bonuses, total)
            == extra * c + Reach(rest, c) + (if eligible then extra + (if bonus then 1 else 0) else 0)
  {
    if eligible {
      assert extra * total == extra * c + extra;
    }
  }

  // ---------------------------------------------------------------------
  // The share-out

  /** `(nvis_children - 1) * priv->spacing`: a `gint` times a `guint`,
      computed in unsigned 32-bit arithmetic. */
  function SpacingTotal(spacing: CInt.uint32, n: nat): (r: int)
    requires n > 0
    ensures 0 <= r
    ensures spacing * (n - 1) < CInt.Two32 ==> r == spacing * (n - 1)
  {
    var product := spacing * (n - 1);
    CInt.ProductNonNegative(spacing, n - 1);
    CInt.Wrap32(product)
  }

  function Requests(vis: seq<Item>): (r: seq<RequestedSize>)
    ensures |r| == |vis| && forall v :: 0 <= v < |vis| ==> r[v] == vis[v].request
  {
    seq(|vis|, v requires 0 <= v < |vis| => vis[v].request)
  }

  function Minimums(sizes: seq<RequestedSize>): (r: seq<int>)
    ensures |r| == |sizes| && forall v :: 0 <= v < |sizes| ==> r[v] == sizes[v].minimum
  {
    seq(|sizes|, v requires 0 <= v < |sizes| => sizes[v].minimum)
  }

  function Constant<T>(n: nat, x: T): (r: seq<T>)
    ensures |r| == n && forall v :: 0 <= v < n ==> r[v] == x
  {
    seq(n, _ => x)
  }

  /** What the pass settles before its placement loop: the `sizes` array
      (after distribution when the box is not homogeneous), the `extra`
      every eligible child gets and the counter of one-unit bonuses. */
  datatype Budget = Budget(sizes: seq<RequestedSize>, extra: int, bonuses: int)

  /** The space left along the main axis once spacing and, when the box is
      not homogeneous, the children's minimum sizes are taken out. */
  function Free(vis: seq<Item>, extent: int, s: Settings): int
    requires |vis| > 0
  {
    if s.homogeneous then extent - SpacingTotal(s.spacing, |vis|)
    else extent - SpacingTotal(s.spacing, |vis|) - SlackDistributor.SumMin(Requests(vis))
  }

  /** The share-out of `clutter_box_layout_allocate`.  A homogeneous box
      divides the free space by the number of visible children with C's
      truncating division, so a negative free space gives a negative
      remainder and no bonus at all; otherwise the children are raised
      toward their natural size with `MAX (0, size)` and what the
      distributor hands back is divided among the expanding children. */
  function MakeBudget(vis: seq<Item>, extent: int, s: Settings): (b: Budget)
    requires |vis| > 0 && SlackDistributor.AllWellFormed(Requests(vis))
    ensures |b.sizes| == |vis|
  {
    var n := |vis|;
    var size := Free(vis, extent, s);
    if s.homogeneous then
      Budget(Requests(vis), CInt.CDiv(size, n), CInt.CMod(size, n))
    else
      var (dist, left) := SlackDistributor.Distribute(if size > 0 then size else 0, Requests(vis));
      var nExpand := Count(Expands(vis));
      // both operands are non-negative here, so C's `/` and `%` agree with Dafny's
      if nExpand > 0 then Budget(dist, left / nExpand, left % nExpand) else Budget(dist, 0, 0)
  }

  /** One visible child's cell on the main axis: its size, the minimum
      size a child that does not fill is given, and its fill flag. */
  datatype Cell = Cell(size: int, minimum: int, fill: bool)

  /** The `minimum_size` entries child `v` reads at index `at[v]`, or 0
      where the index is outside the array. */
  function ReadMinimums(sizes: seq<RequestedSize>, at: seq<nat>): (r: seq<int>)
    ensures |r| == |at|
    ensures forall v :: 0 <= v < |at| ==> r[v] == if at[v] < |sizes| then sizes[at[v]].minimum else 0
  {
    seq(|at|, v requires 0 <= v < |at| => if at[v] < |sizes| then sizes[at[v]].minimum else 0)
  }

  /** A non-homogeneous box reads every child's entry, a homogeneous one
      only those of children that do not fill; are all those reads inside
      the array? */
  predicate ReadsInBounds(vis: seq<Item>, homogeneous: bool, at: seq<nat>)
    requires |at| == |vis|
  {
    forall v :: 0 <= v < |vis| && (!homogeneous || !vis[v].fill) ==> at[v] < |vis|
  }

  function Cells(sizes: seq<int>, mins: seq<int>, vis: seq<Item>): (r: seq<Cell>)
    requires |sizes| == |mins| == |vis|
    ensures |r| == |vis|
    ensures forall v :: 0 <= v < |vis| ==> r[v] == Cell(sizes[v], mins[v], vis[v].fill)
  {
    seq(|vis|, v requires 0 <= v < |vis| => Cell(sizes[v], mins[v], vis[v].fill))
  }

  /** The child sizes the placement loop computes from a budget and the
      minimums it read. */
  function ChildSizes(vis: seq<Item>, b: Budget, homogeneous: bool, mins: seq<int>): (r: seq<int>)
    requires |mins| == |vis|
    ensures |r| == |vis|
  {
    if homogeneous then Shares(Constant(|vis|, 0), Constant(|vis|, true), b.extra, b.bonuses)
    else Shares(mins, Expands(vis), b.extra, b.bonuses)
  }

  /** The cells of the visible children when child `v` reads its entry of
      the `sizes` array at index `at[v]`; `None` when one of the reads it
      needs falls outside the array. */
  function CellsReading(vis: seq<Item>, b: Budget, homogeneous: bool, at: seq<nat>): (r: Option<seq<Cell>>)
    requires |at| == |vis| == |b.sizes|
    ensures r.Some? <==> ReadsInBounds(vis, homogeneous, at)
    ensures r.Some? ==> |r.value| == |vis|
  {
    if !ReadsInBounds(vis, homogeneous, at) then None
    else
      var mins := ReadMinimums(b.sizes, at);
      Some(Cells(ChildSizes(vis, b, homogeneous, mins), mins, vis))
  }

  function Identity(n: nat): (r: seq<nat>)
    ensures |r| == n && forall v :: 0 <= v < n ==> r[v] == v
  {
    seq(n, v requires 0 <= v < n => v)
  }

  /** The cells of the visible children, each reading its own entry of the
      `sizes` array. */
  function Plan(vis: seq<Item>, extent: int, s: Settings): (r: seq<Cell>)
    requires |vis| > 0 && SlackDistributor.AllWellFormed(Requests(vis))
    ensures |r| == |vis|
  {
    CellsReading(vis, MakeBudget(vis, extent, s), s.homogeneous, Identity(|vis|)).value
  }

  /** The cells as the placement loop computes them: it reads the `sizes`
      array, which holds the visible children only, at the child's position
      in the full list. */
  function PlanAsWritten(items: seq<Item>, extent: int, s: Settings): (r: Option<seq<Cell>>)
    requires |Visible(items)| > 0 && SlackDistributor.AllWellFormed(Requests(Visible(items)))
  {
    var vis := Visible(items);
    CellsReading(vis, MakeBudget(vis, extent, s), s.homogeneous, Positions(items))
  }

  function Sizes(cells: seq<Cell>): (r: seq<int>)
    ensures |r| == |cells| && forall v :: 0 <= v < |cells| ==> r[v] == cells[v].size
  {
    seq(|cells|, v requires 0 <= v < |cells| => cells[v].size)
  }

  /** Reading its own entry, each child's cell is the one the share-out
      meant for it. */
  lemma PlanIsShares(vis: seq<Item>, extent: int, s: Settings)
    requires |vis| > 0 && SlackDistributor.AllWellFormed(Requests(vis))
    ensures var b := MakeBudget(vis, extent, s);
      var cells := Plan(vis, extent, s);
      && (forall v :: 0 <= v < |vis| ==> cells[v].minimum == b.sizes[v].minimum && cells[v].fill == vis[v].fill)
      && Sizes(cells) == ChildSizes(vis, b, s.homogeneous, Minimums(b.sizes))
  {
    var b := MakeBudget(vis, extent, s);
    assert ReadMinimums(b.sizes, Identity(|vis|)) == Minimums(b.sizes);
  }

  lemma {:induction false} CountAll(n: nat)
    ensures Count(Constant(n, true)) == n
  {
    if n > 0 {
      CountAll(n - 1);
      assert Constant(n, true)[..n - 1] == Constant(n - 1, true);
    }
  }

  lemma {:induction false} SumZeros(n: nat)
    ensures SumInts(Constant(n, 0)) == 0
  {
    if n > 0 {
      SumZeros(n - 1);
      assert Constant(n, 0)[..n - 1] == Constant(n - 1, 0);
    }
  }

  lemma {:induction false} SumMinimums(sizes: seq<RequestedSize>)
    ensures SumInts(Minimums(sizes)) == SlackDistributor.SumMin(sizes)
    decreases |sizes|
  {
    if sizes != [] {
      var j := |sizes| - 1;
      SumMinimums(sizes[..j]);
      assert Minimums(sizes)[..j] == Minimums(sizes[..j]);
    }
  }

  /** In a homogeneous box every visible child gets the same share of the
      free space, `size / n` truncated toward zero, and the last `size % n`
      children in the list get one unit more; when the free space is not
      negative the sizes add up to it exactly, and when it is negative
      nobody gets the extra unit. */
  lemma HomogeneousSizes(vis: seq<Item>, extent: int, s: Settings)
    requires |vis| > 0 && SlackDistributor.AllWellFormed(Requests(vis)) && s.homogeneous
    ensures var n := |vis|;
      var size := Free(vis, extent, s);
      var cells := Plan(vis, extent, s);
      && (forall v :: 0 <= v < n ==>
            cells[v].size == CInt.CDiv(size, n) + (if n - 1 - v < CInt.CMod(size, n) then 1 else 0))
      && (forall v :: 0 <= v < n ==> cells[v].minimum == vis[v].request.minimum)
      && (size >= 0 ==> SumInts(Sizes(cells)) == size)
  {
    var n := |vis|;
    var size := Free(vis, extent, s);
    var b := MakeBudget(vis, extent, s);
    PlanIsShares(vis, extent, s);
    forall v | 0 <= v < n
      ensures Plan(vis, extent, s)[v].size == b.extra + (if n - 1 - v < b.bonuses then 1 else 0)
    {
      SharesAt(Constant(n, 0), Constant(n, true), b.extra, b.bonuses, v);
      assert Constant(n, true)[v + 1..] == Constant(n - 1 - v, true);
      CountAll(n - 1 - v);
    }
    if size >= 0 {
      SharesSum(Constant(n, 0), Constant(n, true), b.extra, b.bonuses);
      CountAll(n);
      SumZeros(n);
      CInt.CDivNonNegative(size, n);
      assert b.extra * n + b.bonuses == size;
    }
  }

  /** In a box that is not homogeneous a child that does not expand gets
      exactly the size the distributor raised it to, between its minimum
      and its natural size; a child that expands gets the leftover's even
      share on top, and the last `left % nExpand` expanding children one
      unit more.  With no expanding child the leftover goes unused. */
  lemma ExpandingSizes(vis: seq<Item>, extent: int, s: Settings)
    requires |vis| > 0 && SlackDistributor.AllWellFormed(Requests(vis)) && !s.homogeneous
    ensures var b := MakeBudget(vis, extent, s);
      var cells := Plan(vis, extent, s);
      && (forall v :: 0 <= v < |vis| ==>
            && vis[v].request.minimum <= cells[v].minimum <= vis[v].request.natural
            && cells[v].size
               == cells[v].minimum
                  + (if vis[v].expand
                     then b.extra + (if Count(Expands(vis)[v + 1..]) < b.bonuses then 1 else 0)
                     else 0))
      && (Count(Expands(vis)) == 0 ==> b.extra == 0 && b.bonuses == 0)
  {
    var b := MakeBudget(vis, extent, s);
    PlanIsShares(vis, extent, s);
    forall v | 0 <= v < |vis|
      ensures Plan(vis, extent, s)[v].size
              == b.sizes[v].minimum
                 + (if vis[v].expand
                    then b.extra + (if Count(Expands(vis)[v + 1..]) < b.bonuses then 1 else 0)
                    else 0)
    {
      SharesAt(Minimums(b.sizes), Expands(vis), b.extra, b.bonuses, v);
    }
  }

  /** When there is free space and some child expands, the sizes of a box
      that is not homogeneous use up the extent exactly. */
  lemma ExpandingSum(vis: seq<Item>, extent: int, s: Settings)
    requires |vis| > 0 && SlackDistributor.AllWellFormed(Requests(vis)) && !s.homogeneous
    requires Free(vis, extent, s) >= 0 && Count(Expands(vis)) > 0
    ensures SumInts(Sizes(Plan(vis, extent, s)))
            == SlackDistributor.SumMin(Requests(vis)) + Free(vis, extent, s)
  {
    var b := MakeBudget(vis, extent, s);
    var ne := Count(Expands(vis));
    var (dist, left) := SlackDistributor.Distribute(Free(vis, extent, s), Requests(vis));
    assert b == Budget(dist, left / ne, left % ne);
    PlanIsShares(vis, extent, s);
    SharesSum(Minimums(b.sizes), Expands(vis), b.extra, b.bonuses);
    SumMinimums(dist);
    DivMod(left, ne);
  }

  lemma DivMod(a: int, d: int)
    requires d > 0
    ensures (a / d) * d + a % d == a && 0 <= a % d < d
  {
  }

  // ---------------------------------------------------------------------
  // Placement along the main axis

  /** An interval of the main axis. */
  datatype Span = Span(lo: real, hi: real)

  function MaxR(a: real, b: real): real
  {
    if a > b then a else b
  }

  /** Where the child of cell `c` goes for a cursor at `cursor`: a child
      that fills starts at the cursor and is at least one unit long; one
      that does not fill gets its minimum size, centred in the cell.  When
      the cursor runs backwards the span is moved back by the cell size. */
  function CellSpan(c: Cell, cursor: int, packStart: bool): (r: Span)
  {
    var lo := if c.fill then cursor as real else cursor as real + (c.size - c.minimum) as real / 2.0;
    var hi := if c.fill then lo + MaxR(1.0, c.size as real) else lo + c.minimum as real;
    if packStart then Span(lo, hi) else Span(lo - c.size as real, hi - c.size as real)
  }

  /** The placement loop: it starts with the last cell at `cursor` and
      moves the cursor by each cell's size plus the spacing, forward when
      packing from the start and backward otherwise. */
  function Place(cells: seq<Cell>, cursor: int, spacing: int, packStart: bool): (r: seq<Span>)
    ensures |r| == |cells|
  {
    if cells == [] then []
    else
      var j := |cells| - 1;
      var c := cells[j];
      var next := if packStart then cursor + (c.size + spacing) else cursor - (c.size + spacing);
      Place(cells[..j], next, spacing, packStart) + [CellSpan(c, cursor, packStart)]
  }

  /** How far the cursor moves over `cells`. */
  function Advance(cells: seq<Cell>, spacing: int): int
  {
    if cells == [] then 0 else Advance(cells[..|cells| - 1], spacing) + cells[|cells| - 1].size + spacing
  }

  /** Where the cursor stands when the loop reaches cell `v`: every cell
      after it has been passed. */
  lemma {:induction false} PlaceAt(cells: seq<Cell>, cursor: int, spacing: int, packStart: bool, v: nat)
    requires v < |cells|
    ensures Place(cells, cursor, spacing, packStart)[v]
            == CellSpan(cells[v], if packStart then cursor + Advance(cells[v + 1..], spacing)
                                  else cursor - Advance(cells[v + 1..], spacing), packStart)
    decreases |cells|
  {
    var j := |cells| - 1;
    if v < j {
      var c := cells[j];
      var next := if packStart then cursor + (c.size + spacing) else cursor - (c.size + spacing);
      PlaceAt(cells[..j], next, spacing, packStart, v);
      assert cells[v + 1..][..|cells[v + 1..]| - 1] == cells[..j][v + 1..];
    } else {
      assert cells[v + 1..] == [];
    }
  }

  /** The child of cell `c` in the cell that starts at `start`. */
  function InCell(c: Cell, start: int): Span
  {
    if c.fill then Span(start as real, start as real + MaxR(1.0, c.size as real))
    else
      var lo := start as real + (c.size - c.minimum) as real / 2.0;
      Span(lo, lo + c.minimum as real)
  }

  /** Where cell `v` starts when the cursor runs backward from `extent`. */
  function CellStart(cells: seq<Cell>, extent: int, spacing: int, v: nat): int
    requires v < |cells|
  {
    extent - Advance(cells[v + 1..], spacing) - cells[v].size
  }

  /** With the cursor running backward from the far edge, the cells follow
      each other in list order, each `spacing` after the one before, the
      last one ending at the far edge and the first one starting where the
      total advance leaves room; each child lies in its cell. */
  lemma PlaceBackward(cells: seq<Cell>, extent: int, spacing: int)
    requires |cells| > 0
    ensures forall v :: 0 <= v < |cells| ==>
      Place(cells, extent, spacing, false)[v] == InCell(cells[v], CellStart(cells, extent, spacing, v))
    ensures forall v :: 0 <= v < |cells| - 1 ==>
      CellStart(cells, extent, spacing, v) + cells[v].size + spacing == CellStart(cells, extent, spacing, v + 1)
    ensures CellStart(cells, extent, spacing, |cells| - 1) + cells[|cells| - 1].size == extent
    ensures CellStart(cells, extent, spacing, 0) == extent - Advance(cells, spacing) + spacing
  {
    forall v | 0 <= v < |cells|
      ensures Place(cells, extent, spacing, false)[v] == InCell(cells[v], CellStart(cells, extent, spacing, v))
    {
      PlaceAt(cells, extent, spacing, false, v);
    }
    forall v | 0 <= v < |cells| - 1
      ensures CellStart(cells, extent, spacing, v) + cells[v].size + spacing == CellStart(cells, extent, spacing, v + 1)
    {
      AdvanceFirst(cells[v + 1..], spacing);
      assert cells[v + 1..][1..] == cells[v + 2..];
    }
    assert cells[|cells|..] == [];
    AdvanceFirst(cells, spacing);
  }

  /** `Advance` taken from the front. */
  lemma {:induction false} AdvanceFirst(cells: seq<Cell>, spacing: int)
    requires |cells| > 0
    ensures Advance(cells, spacing) == cells[0].size + spacing + Advance(cells[1..], spacing)
    decreases |cells|
  {
    if |cells| > 1 {
      var j := |cells| - 1;
      AdvanceFirst(cells[..j], spacing);
      assert cells[..j][1..] == cells[1..][..|cells[1..]| - 1];
    } else {
      assert cells[1..] == [];
      assert cells[..0] == [];
    }
  }

  /** With the cursor running forward from 0, cell `v` starts where all the
      cells after it end. */
  lemma PlaceForward(cells: seq<Cell>, spacing: int)
    ensures forall v :: 0 <= v < |cells| ==>
      Place(cells, 0, spacing, true)[v] == InCell(cells[v], Advance(cells[v + 1..], spacing))
  {
    forall v | 0 <= v < |cells|
      ensures Place(cells, 0, spacing, true)[v] == InCell(cells[v], Advance(cells[v + 1..], spacing))
    {
      PlaceAt(cells, 0, spacing, true, v);
    }
  }

  /** A child that fills and is given less than one unit is stretched to
      one unit; every other child fits its cell. */
  predicate Fits(c: Cell)
  {
    !c.fill || c.size >= 1
  }

  /** The reflection of a span within `[0, extent]`. */
  function Mirror(extent: int, sp: Span): Span
  {
    Span(extent as real - sp.hi, extent as real - sp.lo)
  }

  /** Packing from the start is the mirror image of packing from the end:
      the same cells, reflected within the extent, so the last child ends
      up nearest the origin. */
  lemma PackStartMirrors(cells: seq<Cell>, extent: int, spacing: int, v: nat)
    requires v < |cells| && Fits(cells[v])
    ensures Place(cells, 0, spacing, true)[v] == Mirror(extent, Place(cells, extent, spacing, false)[v])
  {
    PlaceAt(cells, 0, spacing, true, v);
    PlaceAt(cells, extent, spacing, false, v);
  }

  lemma {:induction false} AdvanceSum(cells: seq<Cell>, spacing: int)
    ensures Advance(cells, spacing) == SumInts(Sizes(cells)) + |cells| * spacing
    decreases |cells|
  {
    if cells != [] {
      var j := |cells| - 1;
      AdvanceSum(cells[..j], spacing);
      assert Sizes(cells)[..j] == Sizes(cells[..j]);
      assert |cells| * spacing == j * spacing + spacing;
    }
  }

  /** When the free space is not negative and all of it is handed out (the
      box is homogeneous, or some child expands), the cells cover the
      extent exactly: packed from the end, the first child's cell starts at
      the origin. */
  lemma CellsCoverExtent(vis: seq<Item>, extent: int, s: Settings)
    requires |vis| > 0 && SlackDistributor.AllWellFormed(Requests(vis))
    requires Free(vis, extent, s) >= 0 && (s.homogeneous || Count(Expands(vis)) > 0)
    requires s.spacing * (|vis| - 1) < CInt.Two32
    ensures CellStart(Plan(vis, extent, s), extent, s.spacing, 0) == 0
  {
    var cells := Plan(vis, extent, s);
    var n := |vis|;
    PlaceBackward(cells, extent, s.spacing);
    AdvanceSum(cells, s.spacing);
    if s.homogeneous {
      HomogeneousSizes(vis, extent, s);
    } else {
      ExpandingSum(vis, extent, s);
    }
    assert n * s.spacing == s.spacing * (n - 1) + s.spacing;
  }

  // ---------------------------------------------------------------------
  // The allocation boxes

  /** The box handed to the child: the span on the main axis and
      `[0, MAX (1, cross extent)]` across it; in a horizontal box whose
      text runs right to left the span is reflected within the extent,
      keeping its width. */
  function ToBox(sp: Span, extent: int, cross: real, s: Settings): (r: Box)
  {
    if s.vertical then BoxPolicy.Box(0.0, sp.lo, MaxR(1.0, cross), sp.hi)
    else if s.rtl then
      var width := sp.hi - sp.lo;
      var x1 := extent as real - sp.lo - (sp.hi - sp.lo);
      BoxPolicy.Box(x1, 0.0, x1 + width, MaxR(1.0, cross))
    else BoxPolicy.Box(sp.lo, 0.0, sp.hi, MaxR(1.0, cross))
  }

  function Boxes(spans: seq<Span>, extent: int, cross: real, s: Settings): (r: seq<Box>)
    ensures |r| == |spans| && forall v :: 0 <= v < |spans| ==> r[v] == ToBox(spans[v], extent, cross, s)
  {
    seq(|spans|, v requires 0 <= v < |spans| => ToBox(spans[v], extent, cross, s))
  }

  /** Hands the boxes of the visible children back to the list: `None` for
      an invisible child, which is not allocated. */
  function Scatter(items: seq<Item>, boxes: seq<Box>): (r: seq<Option<Box>>)
    requires |boxes| == |Visible(items)|
    ensures |r| == |items|
    ensures forall i :: 0 <= i < |items| ==> (r[i].Some? <==> items[i].visible)
    ensures forall v :: 0 <= v < |boxes| ==> r[Positions(items)[v]] == Some(boxes[v])
  {
    if items == [] then []
    else
      var j := |items| - 1;
      if items[j].visible then
        Scatter(items[..j], boxes[..|boxes| - 1]) + [Some(boxes[|boxes| - 1])]
      else
        Scatter(items[..j], boxes) + [None]
  }

  lemma RequestableVisible(items: seq<Item>)
    requires Requestable(items)
    ensures SlackDistributor.AllWellFormed(Requests(Visible(items)))
  {
    var vis := Visible(items);
    forall v | 0 <= v < |vis|
      ensures SlackDistributor.WellFormed(vis[v].request)
    {
      assert items[Positions(items)[v]] == vis[v];
    }
  }

  lemma NoneVisible(items: seq<Item>)
    requires |Visible(items)| == 0
    ensures forall i :: 0 <= i < |items| ==> !items[i].visible
  {
    forall i | 0 <= i < |items|
      ensures !items[i].visible
    {
      if items[i].visible {
        PositionsCover(items, i);
      }
    }
  }

  /** The cells of the visible children of a list. */
  function ListCells(items: seq<Item>, extent: int, s: Settings): (r: seq<Cell>)
    requires Requestable(items) && |Visible(items)| > 0
    ensures |r| == |Visible(items)|
  {
    RequestableVisible(items);
    Plan(Visible(items), extent, s)
  }

  /** `clutter_box_layout_allocate`, with each visible child reading its
      own entry of the `sizes` array: the box of every visible child in
      list order, `None` for the others.  With no visible child the pass
      returns at once. */
  function Allocate(items: seq<Item>, extent: int, cross: real, s: Settings): (r: seq<Option<Box>>)
    requires Requestable(items)
    ensures |r| == |items|
    ensures forall i :: 0 <= i < |items| ==> (r[i].Some? <==> items[i].visible)
  {
    var vis := Visible(items);
    if |vis| == 0 then
      NoneVisible(items);
      Constant(|items|, None)
    else
      var spans := Place(ListCells(items, extent, s), if s.packStart then 0 else extent, s.spacing, s.packStart);
      Scatter(items, Boxes(spans, extent, cross, s))
  }

  /** `clutter_box_layout_allocate` as written: the placement loop reads
      the `sizes` array at the child's position in the full list.  `None`
      when a read falls outside the array. */
  function AllocateAsWritten(items: seq<Item>, extent: int, cross: real, s: Settings): (r: Option<seq<Option<Box>>>)
    requires Requestable(items)
    ensures r.Some? ==> |r.value| == |items|
    ensures r.Some? ==> forall i :: 0 <= i < |items| ==> (r.value[i].Some? <==> items[i].visible)
  {
    var vis := Visible(items);
    if |vis| == 0 then
      NoneVisible(items);
      Some(Constant(|items|, None))
    else
      RequestableVisible(items);
      match PlanAsWritten(items, extent, s)
      case None => None
      case Some(cells) =>
        var spans := Place(cells, if s.packStart then 0 else extent, s.spacing, s.packStart);
        Some(Scatter(items, Boxes(spans, extent, cross, s)))
  }

  // ---------------------------------------------------------------------
  // Properties of the allocation

  /** Every allocated box spans the cross axis from 0 to the cross extent,
      and at least one unit. */
  lemma CrossAxis(items: seq<Item>, extent: int, cross: real, s: Settings, i: nat)
    requires Requestable(items) && i < |items| && items[i].visible
    ensures var b := Allocate(items, extent, cross, s)[i].value;
      if s.vertical then b.x1 == 0.0 && b.x2 == MaxR(1.0, cross) && b.x2 >= 1.0
      else b.y1 == 0.0 && b.y2 == MaxR(1.0, cross) && b.y2 >= 1.0
  {
    PositionsCover(items, i);
    var v :| 0 <= v < |Positions(items)| && Positions(items)[v] == i;
  }

  /** The cells do not depend on the direction of packing or of the text. */
  lemma PlanIgnoresDirection(vis: seq<Item>, extent: int, s: Settings, t: Settings)
    requires |vis| > 0 && SlackDistributor.AllWellFormed(Requests(vis))
    requires s.spacing == t.spacing && s.homogeneous == t.homogeneous
    ensures Plan(vis, extent, s) == Plan(vis, extent, t)
  {
    assert Free(vis, extent, s) == Free(vis, extent, t);
    assert MakeBudget(vis, extent, s) == MakeBudget(vis, extent, t);
  }

  /** In a horizontal box whose text runs right to left, packing from the
      end places every child where packing from the start would in a
      left-to-right box (for children that fit their cells). */
  lemma RightToLeftMirrors(items: seq<Item>, extent: int, cross: real, spacing: CInt.uint32, homogeneous: bool)
    requires Requestable(items) && |Visible(items)| > 0
    requires var cells := ListCells(items, extent, Settings(spacing, false, homogeneous, false, true));
      forall v :: 0 <= v < |cells| ==> Fits(cells[v])
    ensures Allocate(items, extent, cross, Settings(spacing, false, homogeneous, false, true))
            == Allocate(items, extent, cross, Settings(spacing, false, homogeneous, true, false))
  {
    var rtl := Settings(spacing, false, homogeneous, false, true);
    var ltr := Settings(spacing, false, homogeneous, true, false);
    RequestableVisible(items);
    PlanIgnoresDirection(Visible(items), extent, rtl, ltr);
    MirroredBoxes(ListCells(items, extent, rtl), extent, cross, rtl, ltr);
  }

  lemma MirroredBoxes(cells: seq<Cell>, extent: int, cross: real, rtl: Settings, ltr: Settings)
    requires forall v :: 0 <= v < |cells| ==> Fits(cells[v])
    requires !rtl.vertical && rtl.rtl && !rtl.packStart
    requires !ltr.vertical && !ltr.rtl && ltr.packStart && ltr.spacing == rtl.spacing
    ensures Boxes(Place(cells, extent, rtl.spacing, false), extent, cross, rtl)
            == Boxes(Place(cells, 0, rtl.spacing, true), extent, cross, ltr)
  {
    var back := Place(cells, extent, rtl.spacing, false);
    var forth := Place(cells, 0, rtl.spacing, true);
    forall v | 0 <= v < |cells|
      ensures ToBox(back[v], extent, cross, rtl) == ToBox(forth[v], extent, cross, ltr)
    {
      PackStartMirrors(cells, extent, rtl.spacing, v);
    }
  }

  /** A strictly increasing sequence of naturals grows by at least one per
      step. */
  lemma {:induction false} StrictlyIncreasing(p: seq<nat>, v: nat, w: nat)
    requires forall a, b :: 0 <= a < b < |p| ==> p[a] < p[b]
    requires v <= w < |p|
    ensures p[w] - p[v] >= w - v
    decreases w - v
  {
    if v < w {
      StrictlyIncreasing(p, v, w - 1);
    }
  }

  /** The placement loop as written reads outside the `sizes` array of a
      box that is not homogeneous exactly when an invisible child comes
      before a visible one: the last visible child then stands at a list
      position at least the number of visible children. */
  lemma AsWrittenFails(items: seq<Item>, extent: int, cross: real, s: Settings)
    requires Requestable(items) && !s.homogeneous
    ensures AllocateAsWritten(items, extent, cross, s).None?
            <==> exists i, j :: 0 <= i < j < |items| && !items[i].visible && items[j].visible
  {
    var p := Positions(items);
    var n := |p|;
    PositionsAreIndices(items);
    if n == 0 {
      NoneVisible(items);
    } else {
      RequestableVisible(items);
      var vis := Visible(items);
      if exists v :: 0 <= v < n && p[v] != v {
        var v :| 0 <= v < n && p[v] != v;
        StrictlyIncreasing(p, v, n - 1);
        assert !ReadsInBounds(vis, false, p);
      } else {
        assert ReadsInBounds(vis, false, p);
      }
    }
  }

  /** The smallest input that shows it: an invisible child followed by a
      visible one. */
  lemma AsWrittenHiddenFirst(shown: Item, extent: int, cross: real, s: Settings)
    requires shown.visible && SlackDistributor.WellFormed(shown.request) && !s.homogeneous
    ensures var items := [Item(false, false, false, shown.request), shown];
      Requestable(items) && AllocateAsWritten(items, extent, cross, s).None?
  {
    var items := [Item(false, false, false, shown.request), shown];
    assert Requestable(items) by {
      assert Visible(items[..1]) == [];
      assert items[..1] + [shown] == items;
    }
    assert !items[0].visible && items[1].visible;
    AsWrittenFails(items, extent, cross, s);
  }

  /** The same read hits a homogeneous box too, where the loop reads
      `sizes[i]` to centre a child that does not fill its cell: an
      invisible child followed by a visible one that does not fill. */
  lemma AsWrittenHiddenFirstHomogeneous(shown: Item, extent: int, cross: real, s: Settings)
    requires shown.visible && !shown.fill && SlackDistributor.WellFormed(shown.request) && s.homogeneous
    ensures var items := [Item(false, false, false, shown.request), shown];
      Requestable(items) && AllocateAsWritten(items, extent, cross, s).None?
  {
    var items := [Item(false, false, false, shown.request), shown];
    assert Requestable(items) by {
      assert Visible(items[..1]) == [];
      assert items[..1] + [shown] == items;
    }
    assert items[..1] == [items[0]] && items[..1][..0] == [];
    assert Visible(items[..1]) == [] && Positions(items[..1]) == [];
    var vis := Visible(items);
    assert vis == [shown];
    assert Positions(items) == [1];
    assert !vis[0].fill && !(Positions(items)[0] < |vis|);
    assert !ReadsInBounds(vis, true, Positions(items));
  }

  /** Where no invisible child comes before a visible one, the loop as
      written agrees with the corrected one. */
  lemma AsWrittenAgrees(items: seq<Item>, extent: int, cross: real, s: Settings)
    requires Requestable(items)
    requires forall i, j :: 0 <= i < j < |items| && !items[i].visible ==> !items[j].visible
    ensures AllocateAsWritten(items, extent, cross, s) == Some(Allocate(items, extent, cross, s))
  {
    PositionsAreIndices(items);
    if |Visible(items)| > 0 {
      RequestableVisible(items);
      assert Positions(items) == Identity(|Visible(items)|);
    }
  }
}
