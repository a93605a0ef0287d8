/** The slack distributor of the box layout: `compare_gap` and
    `distribute_natural_allocation`.  Extra space is handed to children in
    ascending order of how far they are below their natural size, each
    taking at most an even share of what is left. */
module SlackDistributor {

  /** One child's request along the main axis for an allocation pass. */
  datatype RequestedSize = RequestedSize(minimum: int, natural: int)

  /** The condition whose violation the allocation pass reports as fatal. */
  predicate WellFormed(s: RequestedSize)
  {
    0 <= s.minimum <= s.natural
  }

  predicate AllWellFormed(sizes: seq<RequestedSize>)
  {
    forall j :: 0 <= j < |sizes| ==> WellFormed(sizes[j])
  }

  /** How far a child is below its natural size, never negative. */
  function Gap(s: RequestedSize): int
  {
    if s.natural - s.minimum > 0 then s.natural - s.minimum else 0
  }

  /** `compare_gap` on two indices of `sizes`: negative when `a` sorts first. */
  function CompareGap(sizes: seq<RequestedSize>, a: nat, b: nat): (r: int)
    requires a < |sizes| && b < |sizes|
    ensures r == 0 <==> a == b
    ensures r < 0 <==> Gap(sizes[a]) > Gap(sizes[b]) || (Gap(sizes[a]) == Gap(sizes[b]) && a > b)
  {
    var delta := Gap(sizes[b]) - Gap(sizes[a]);
    if delta == 0 then b - a else delta
  }

  /** Index `a` precedes index `b` in the sorted spreading array: larger gap
      first, equal gaps larger index first. */
  predicate SortsBefore(sizes: seq<RequestedSize>, a: nat, b: nat)
    requires a < |sizes| && b < |sizes|
  {
    CompareGap(sizes, a, b) < 0
  }

  /** The comparator is antisymmetric and separates every two distinct
      indices, so the order it sorts into does not depend on the sort. */
  lemma CompareGapIsStrictTotal(sizes: seq<RequestedSize>, a: nat, b: nat)
    requires a < |sizes| && b < |sizes|
    ensures CompareGap(sizes, a, b) == -CompareGap(sizes, b, a)
    ensures CompareGap(sizes, a, b) == 0 <==> a == b
    ensures SortsBefore(sizes, a, b) <==>
              Gap(sizes[a]) > Gap(sizes[b]) || (Gap(sizes[a]) == Gap(sizes[b]) && a > b)
  {
  }

  predicate InRange(sizes: seq<RequestedSize>, s: seq<nat>)
  {
    forall j :: 0 <= j < |s| ==> s[j] < |sizes|
  }

  /** `s[..hi+1]` is in spreading order. */
  predicate SortedUpTo(sizes: seq<RequestedSize>, s: seq<nat>, hi: int)
    requires InRange(sizes, s) && hi < |s|
  {
    forall p, q :: 0 <= p < q <= hi ==> SortsBefore(sizes, s[p], s[q])
  }

  predicate Sorted(sizes: seq<RequestedSize>, s: seq<nat>)
    requires InRange(sizes, s)
  {
    SortedUpTo(sizes, s, |s| - 1)
  }

  lemma SortsBeforeTransitive(sizes: seq<RequestedSize>, a: nat, b: nat, c: nat)
    requires a < |sizes| && b < |sizes| && c < |sizes|
    requires SortsBefore(sizes, a, b) && SortsBefore(sizes, b, c)
    ensures SortsBefore(sizes, a, c)
  {
  }

  /** One insertion step of the sort that orders the spreading array. */
  function Insert(sizes: seq<RequestedSize>, x: nat, s: seq<nat>): (r: seq<nat>)
    requires x < |sizes| && InRange(sizes, s)
    ensures |r| == |s| + 1 && InRange(sizes, r)
    ensures forall y :: y in r <==> y == x || y in s
  {
    if |s| == 0 then [x]
    else if SortsBefore(sizes, x, s[0]) then [x] + s
    else [s[0]] + Insert(sizes, x, s[1..])
  }

  lemma {:induction false} InsertSorted(sizes: seq<RequestedSize>, x: nat, s: seq<nat>)
    requires x < |sizes| && InRange(sizes, s) && Sorted(sizes, s) && x !in s
    ensures Sorted(sizes, Insert(sizes, x, s))
  {
    var r := Insert(sizes, x, s);
    if |s| == 0 {
    } else if SortsBefore(sizes, x, s[0]) {
      forall p, q | 0 <= p < q < |r|
        ensures SortsBefore(sizes, r[p], r[q])
      {
        if p == 0 {
          if q > 1 {
            SortsBeforeTransitive(sizes, x, s[0], s[q - 1]);
          }
        } else {
          assert r[p] == s[p - 1] && r[q] == s[q - 1];
        }
      }
    } else {
      assert s[0] != x;
      assert SortsBefore(sizes, s[0], x);
      var t := s[1..];
      assert Sorted(sizes, t) by {
        forall p, q | 0 <= p < q < |t|
          ensures SortsBefore(sizes, t[p], t[q])
        {
          assert t[p] == s[p + 1] && t[q] == s[q + 1];
        }
      }
      assert x !in t;
      InsertSorted(sizes, x, t);
      var rt := Insert(sizes, x, t);
      assert r == [s[0]] + rt;
      forall p, q | 0 <= p < q < |r|
        ensures SortsBefore(sizes, r[p], r[q])
      {
        if p == 0 {
          var y := rt[q - 1];
          assert y in rt;
          if y != x {
            assert y in t;
            var k :| 0 <= k < |t| && t[k] == y;
            assert s[k + 1] == y;
          }
        } else {
          assert r[p] == rt[p - 1] && r[q] == rt[q - 1];
        }
      }
    }
  }

  /** The indices `0 .. n-1` in spreading order. */
  function SortIndices(sizes: seq<RequestedSize>, n: nat): (r: seq<nat>)
    requires n <= |sizes|
    ensures |r| == n
    ensures forall y: int :: y in r <==> 0 <= y < n
  {
    if n == 0 then []
    else Insert(sizes, n - 1, SortIndices(sizes, n - 1))
  }

  lemma {:induction false} SortIndicesSorted(sizes: seq<RequestedSize>, n: nat)
    requires n <= |sizes|
    ensures Sorted(sizes, SortIndices(sizes, n))
  {
    if n > 0 {
      SortIndicesSorted(sizes, n - 1);
      InsertSorted(sizes, n - 1, SortIndices(sizes, n - 1));
    }
  }

  /** The `spreading` array after `g_qsort_with_data (…, compare_gap, sizes)`. */
  function Spreading(sizes: seq<RequestedSize>): (r: seq<nat>)
    ensures |r| == |sizes| && InRange(sizes, r)
    ensures forall i :: 0 <= i < |sizes| ==> i in r
  {
    SortIndices(sizes, |sizes|)
  }

  /** The spreading array holds every index exactly once, larger gaps first
      and equal gaps larger index first; the distribution loop walks it from
      the back, so it visits the smallest gap first and breaks ties by the
      smaller index. */
  lemma SpreadingOrder(sizes: seq<RequestedSize>)
    ensures var sp := Spreading(sizes);
      && (forall i :: 0 <= i < |sizes| ==> i in sp)
      && (forall p, q :: 0 <= p < q < |sp| ==> sp[p] != sp[q])
      && (forall p, q :: 0 <= p < q < |sp| ==>
            Gap(sizes[sp[p]]) > Gap(sizes[sp[q]]) ||
            (Gap(sizes[sp[p]]) == Gap(sizes[sp[q]]) && sp[p] > sp[q]))
  {
    SortIndicesSorted(sizes, |sizes|);
  }

  /** The share the loop offers when `i + 1` items are left: the remaining
      space divided by the items left, rounded up. */
  function Glue(extra: int, i: nat): int
  {
    (extra + i) / (i + 1)
  }

  /** What the item visited at loop index `i` receives: the glue, capped by
      its distance to natural size. */
  function Grant(extra: int, s: RequestedSize, i: nat): int
  {
    var glue := Glue(extra, i);
    var gap := s.natural - s.minimum;
    if glue < gap then glue else gap
  }

  function Raise(s: RequestedSize, g: int): RequestedSize
  {
    s.(minimum := s.minimum + g)
  }

  /** The distribution loop of `distribute_natural_allocation`, from loop
      index `i` down to 0 with `extra` space still to hand out; it stops
      once no space is left. */
  function Walk(extra: int, sizes: seq<RequestedSize>, spreading: seq<nat>, i: int)
    : (r: (seq<RequestedSize>, int))
    requires InRange(sizes, spreading) && -1 <= i < |spreading|
    ensures |r.0| == |sizes|
    decreases i + 1
  {
    if extra <= 0 || i < 0 then (sizes, extra)
    else
      var x := spreading[i];
      var g := Grant(extra, sizes[x], i);
      Walk(extra - g, sizes[x := Raise(sizes[x], g)], spreading, i - 1)
  }

  // ---------------------------------------------------------------------
  // Sums

  function SumMin(sizes: seq<RequestedSize>): int
  {
    if |sizes| == 0 then 0 else SumMin(sizes[..|sizes| - 1]) + sizes[|sizes| - 1].minimum
  }

  /** The total gap of all items. */
  function TotalGap(sizes: seq<RequestedSize>): int
  {
    if |sizes| == 0 then 0 else TotalGap(sizes[..|sizes| - 1]) + Gap(sizes[|sizes| - 1])
  }

  /** The gaps of the items `s[0..hi]` names. */
  function GapsUpTo(sizes: seq<RequestedSize>, s: seq<nat>, hi: int): int
    requires InRange(sizes, s) && hi < |s|
    decreases hi + 1
  {
    if hi < 0 then 0 else GapsUpTo(sizes, s, hi - 1) + Gap(sizes[s[hi]])
  }

  lemma {:induction false} SumMinUpdate(sizes: seq<RequestedSize>, k: nat, v: RequestedSize)
    requires k < |sizes|
    ensures SumMin(sizes[k := v]) == SumMin(sizes) - sizes[k].minimum + v.minimum
    decreases |sizes|
  {
    var n := |sizes|;
    var u := sizes[k := v];
    assert u[..n - 1] == if k == n - 1 then sizes[..n - 1] else sizes[..n - 1][k := v];
    if k < n - 1 {
      SumMinUpdate(sizes[..n - 1], k, v);
    }
  }

  lemma {:induction false} GapsUpToFrame(a: seq<RequestedSize>, b: seq<RequestedSize>, s: seq<nat>, hi: int)
    requires |a| == |b| && InRange(a, s) && hi < |s|
    requires forall p :: 0 <= p <= hi ==> a[s[p]] == b[s[p]]
    ensures GapsUpTo(a, s, hi) == GapsUpTo(b, s, hi)
    decreases hi + 1
  {
    if hi >= 0 {
      GapsUpToFrame(a, b, s, hi - 1);
    }
  }

  lemma {:induction false} GapsUpToNonNegative(sizes: seq<RequestedSize>, s: seq<nat>, hi: int)
    requires InRange(sizes, s) && hi < |s|
    ensures GapsUpTo(sizes, s, hi) >= 0
    ensures GapsUpTo(sizes, s, hi) == 0 ==> forall p :: 0 <= p <= hi ==> Gap(sizes[s[p]]) == 0
    decreases hi + 1
  {
    if hi >= 0 {
      GapsUpToNonNegative(sizes, s, hi - 1);
    }
  }

  /** A sum of `hi+1` gaps, none below `g`, is at least `(hi+1) * g`. */
  lemma {:induction false} GapsUpToLowerBound(sizes: seq<RequestedSize>, s: seq<nat>, hi: int, g: int)
    requires InRange(sizes, s) && -1 <= hi < |s|
    requires forall p :: 0 <= p <= hi ==> Gap(sizes[s[p]]) >= g
    ensures GapsUpTo(sizes, s, hi) >= (hi + 1) * g
    decreases hi + 1
  {
    if hi >= 0 {
      GapsUpToLowerBound(sizes, s, hi - 1, g);
    }
  }

  // ---------------------------------------------------------------------
  // Arithmetic of the glue

  lemma DivUnique(n: int, d: int, q: int, r: int)
    requires d > 0 && 0 <= r < d && n == q * d + r
    ensures n / d == q && n % d == r
  {
    var q' := n / d;
    var r' := n % d;
    assert n == q' * d + r';
    if q' > q {
      MulAtLeast(q' - q, d);
      assert false;
    } else if q' < q {
      MulAtLeast(q - q', d);
      assert false;
    }
  }

  lemma MulAtLeast(a: int, d: int)
    requires a >= 1 && d > 0
    ensures a * d >= d
  {
  }

  lemma DivMonotone(a: int, b: int, d: int)
    requires 0 <= a <= b && d > 0
    ensures a / d <= b / d
  {
    var qa, ra := a / d, a % d;
    var qb, rb := b / d, b % d;
    if qa > qb {
      MulAtLeast(qa - qb, d);
      assert false;
    }
  }

  /** The glue `(e + k - 1) / k` is the ceiling of `e / k`. */
  lemma CeilShape(e: int, k: int)
    requires e >= 0 && k >= 1
    ensures (e + k - 1) / k == e / k + (if e % k == 0 then 0 else 1)
  {
    var q, r := e / k, e % k;
    if r == 0 {
      DivUnique(e + k - 1, k, q, k - 1);
    } else {
      DivUnique(e + k - 1, k, q + 1, r - 1);
    }
  }

  /** Granting at most the glue to one of `k` items leaves at least the
      same floor share for each of the other `k - 1`; a grant of `g` is at
      most one above that share. */
  lemma FloorShareAfterGrant(e: int, k: int, g: int)
    requires e >= 0 && k >= 2 && 0 <= g <= (e + k - 1) / k
    ensures (e - g) / (k - 1) >= e / k
    ensures g <= e / k + 1
  {
    CeilShape(e, k);
    var q, r := e / k, e % k;
    var c := (e + k - 1) / k;
    var rest := r - (if r == 0 then 0 else 1);
    assert e - c == q * (k - 1) + rest;
    DivUnique(e - c, k - 1, q, rest);
    DivMonotone(e - c, e - g, k - 1);
  }

  /** After an item takes the full glue, the next glue is no larger. */
  lemma GlueNonIncreasing(e: int, k: int)
    requires e >= 0 && k >= 2
    ensures var c := (e + k - 1) / k; (e - c + k - 2) / (k - 1) <= c
  {
    CeilShape(e, k);
    var q, r := e / k, e % k;
    var c := (e + k - 1) / k;
    var rest := r - (if r == 0 then 0 else 1);
    assert e - c == q * (k - 1) + rest;
    if rest == 0 {
      DivUnique(e - c + k - 2, k - 1, q, k - 2);
    } else {
      DivUnique(e - c + k - 2, k - 1, q + 1, rest - 1);
    }
  }

  /** With `i + 1` items left, whatever is left after a grant of at most
      the glue still offers each of the other `i` items at least one unit
      less than that grant. */
  lemma GrantNearFloor(e: int, i: nat, g: int)
    requires e >= 0 && i >= 1 && 0 <= g <= Glue(e, i)
    ensures (e - g) / i >= g - 1
  {
    FloorShareAfterGrant(e, i + 1, g);
  }

  /** The glue is at least the floor share. */
  lemma GlueAtLeastFloor(e: int, i: nat)
    requires e >= 0
    ensures Glue(e, i) >= e / (i + 1)
  {
    CeilShape(e, i + 1);
  }

  /** With `i + 1` items left, a grant of at most the glue leaves each of
      the other `i` items at least the same floor share. */
  lemma FloorAfterGrant(e: int, i: nat, g: int)
    requires e >= 0 && i >= 1 && 0 <= g <= Glue(e, i)
    ensures (e - g) / i >= e / (i + 1)
  {
    FloorShareAfterGrant(e, i + 1, g);
  }

  /** The same in terms of `Glue`, with `i + 1` items left. */
  lemma GlueAfterFullGrant(e: int, i: nat)
    requires e >= 0 && i >= 1
    ensures Glue(e - Glue(e, i), i - 1) <= Glue(e, i)
  {
    GlueNonIncreasing(e, i + 1);
  }

  lemma GlueAtMostExtra(e: int, k: int)
    requires e > 0 && k >= 1
    ensures 0 < (e + k - 1) / k <= e
  {
    CeilShape(e, k);
    var q, r := e / k, e % k;
    assert e == q * k + r;
    if q < 0 {
      MulAtLeast(-q, k);
      assert false;
    }
    MulMonotone(q, 1, k);
    if r == 0 && q == 0 {
      assert false;
    }
  }

  lemma ShareFitsGlue(e: int, k: int, g: int)
    requires e >= 0 && k >= 1 && k * g <= e
    ensures g <= (e + k - 1) / k
  {
    CeilShape(e, k);
    if g > e / k {
      MulMonotone(k, e / k + 1, g);
      assert false;
    }
  }

  lemma MulMonotone(k: int, a: int, b: int)
    requires k >= 0 && a <= b
    ensures k * a <= k * b
  {
    assert k * b - k * a == k * (b - a);
  }

  // ---------------------------------------------------------------------
  // Properties of the walk

  /** Facts about one step of the walk, shared by the inductive proofs. */
  lemma WalkStep(extra: int, sizes: seq<RequestedSize>, sp: seq<nat>, i: nat)
    requires InRange(sizes, sp) && i < |sp| && extra > 0
    requires AllWellFormed(sizes) && SortedUpTo(sizes, sp, i)
    ensures var x := sp[i];
      var g := Grant(extra, sizes[x], i);
      var sizes' := sizes[x := Raise(sizes[x], g)];
      && 0 <= g <= extra
      && g <= Glue(extra, i)
      && sizes[x].natural - sizes[x].minimum == Gap(sizes[x])
      && AllWellFormed(sizes')
      && SortedUpTo(sizes', sp, i - 1)
      && (forall p :: 0 <= p < i ==> sizes'[sp[p]] == sizes[sp[p]])
      && (forall p :: 0 <= p < i ==> Gap(sizes[sp[p]]) >= Gap(sizes[x]))
      && Walk(extra, sizes, sp, i) == Walk(extra - g, sizes', sp, i - 1)
  {
    GlueAtMostExtra(extra, i + 1);
    var x := sp[i];
    var g := Grant(extra, sizes[x], i);
    var sizes' := sizes[x := Raise(sizes[x], g)];
    forall p | 0 <= p < i
      ensures sizes'[sp[p]] == sizes[sp[p]]
      ensures Gap(sizes[sp[p]]) >= Gap(sizes[x])
    {
      assert SortsBefore(sizes, sp[p], sp[i]);
    }
    forall p, q | 0 <= p < q <= i - 1
      ensures SortsBefore(sizes', sp[p], sp[q])
    {
      assert SortsBefore(sizes, sp[p], sp[q]);
    }
  }

  /** Items the walk does not reach keep their size. */
  lemma {:induction false} WalkFrame(extra: int, sizes: seq<RequestedSize>, sp: seq<nat>, i: int, y: nat)
    requires InRange(sizes, sp) && -1 <= i < |sp| && y < |sizes|
    requires forall p :: 0 <= p <= i ==> sp[p] != y
    ensures Walk(extra, sizes, sp, i).0[y] == sizes[y]
    decreases i + 1
  {
    if extra > 0 && i >= 0 {
      var x := sp[i];
      var g := Grant(extra, sizes[x], i);
      WalkFrame(extra - g, sizes[x := Raise(sizes[x], g)], sp, i - 1, y);
    }
  }

  /** Conservation and bounds: the remainder is never negative, remainder
      plus everything granted is the extra space, and every item ends
      between its own minimum and its natural size. */
  lemma {:induction false} WalkConserves(extra: int, sizes: seq<RequestedSize>, sp: seq<nat>, i: int)
    requires InRange(sizes, sp) && -1 <= i < |sp| && extra >= 0
    requires AllWellFormed(sizes) && SortedUpTo(sizes, sp, i)
    ensures var r := Walk(extra, sizes, sp, i);
      && r.1 >= 0
      && SumMin(r.0) + r.1 == SumMin(sizes) + extra
      && AllWellFormed(r.0)
      && (forall j :: 0 <= j < |sizes| ==>
            r.0[j].natural == sizes[j].natural && sizes[j].minimum <= r.0[j].minimum)
    decreases i + 1
  {
    if extra > 0 && i >= 0 {
      WalkStep(extra, sizes, sp, i);
      var x := sp[i];
      var g := Grant(extra, sizes[x], i);
      var sizes' := sizes[x := Raise(sizes[x], g)];
      SumMinUpdate(sizes, x, Raise(sizes[x], g));
      WalkConserves(extra - g, sizes', sp, i - 1);
    }
  }

  /** Enough space: when the extra space covers every remaining gap, each
      remaining item ends exactly at its natural size and the remainder is
      what the gaps did not use. */
  lemma {:induction false} WalkEnough(extra: int, sizes: seq<RequestedSize>, sp: seq<nat>, i: int)
    requires InRange(sizes, sp) && -1 <= i < |sp|
    requires AllWellFormed(sizes) && SortedUpTo(sizes, sp, i)
    requires extra >= GapsUpTo(sizes, sp, i)
    ensures var r := Walk(extra, sizes, sp, i);
      && (forall p :: 0 <= p <= i ==> r.0[sp[p]].minimum == sizes[sp[p]].natural)
      && r.1 == extra - GapsUpTo(sizes, sp, i)
    decreases i + 1
  {
    GapsUpToNonNegative(sizes, sp, i);
    if extra > 0 && i >= 0 {
      WalkStep(extra, sizes, sp, i);
      EnoughGrantsGap(extra, sizes, sp, i);
      var x := sp[i];
      var g := Grant(extra, sizes[x], i);
      var sizes' := sizes[x := Raise(sizes[x], g)];
      var r := Walk(extra - g, sizes', sp, i - 1);
      assert Walk(extra, sizes, sp, i) == r;
      GapsUpToFrame(sizes, sizes', sp, i - 1);
      WalkEnough(extra - g, sizes', sp, i - 1);
      WalkFrame(extra - g, sizes', sp, i - 1, x);
      forall p | 0 <= p < i
        ensures r.0[sp[p]].minimum == sizes[sp[p]].natural
      {
        assert sizes'[sp[p]] == sizes[sp[p]];
      }
    }
  }

  /** When the space covers every remaining gap, the visited item, whose
      gap is the smallest, is granted its whole gap. */
  lemma EnoughGrantsGap(extra: int, sizes: seq<RequestedSize>, sp: seq<nat>, i: nat)
    requires InRange(sizes, sp) && i < |sp| && extra > 0
    requires AllWellFormed(sizes) && SortedUpTo(sizes, sp, i)
    requires extra >= GapsUpTo(sizes, sp, i)
    ensures Grant(extra, sizes[sp[i]], i) == Gap(sizes[sp[i]])
  {
    var gap := Gap(sizes[sp[i]]);
    forall p | 0 <= p <= i
      ensures Gap(sizes[sp[p]]) >= gap
    {
      if p < i {
        assert SortsBefore(sizes, sp[p], sp[i]);
      }
    }
    GapsUpToLowerBound(sizes, sp, i, gap);
    ShareFitsGlue(extra, i + 1, gap);
  }

  /** Every item the walk reaches either ends at its natural size or
      receives at least the floor share `extra / (i + 1)`. */
  lemma {:induction false} WalkFloorShare(extra: int, sizes: seq<RequestedSize>, sp: seq<nat>, i: int)
    requires InRange(sizes, sp) && -1 <= i < |sp| && extra >= 0
    requires AllWellFormed(sizes) && SortedUpTo(sizes, sp, i)
    ensures var r := Walk(extra, sizes, sp, i).0;
      forall p :: 0 <= p <= i ==>
        r[sp[p]].minimum == r[sp[p]].natural ||
        r[sp[p]].minimum - sizes[sp[p]].minimum >= extra / (i + 1)
    decreases i + 1
  {
    if extra > 0 && i >= 0 {
      WalkStep(extra, sizes, sp, i);
      var x := sp[i];
      var g := Grant(extra, sizes[x], i);
      var sizes' := sizes[x := Raise(sizes[x], g)];
      var r := Walk(extra - g, sizes', sp, i - 1).0;
      assert Walk(extra, sizes, sp, i).0 == r;
      var share := extra / (i + 1);
      WalkFrame(extra - g, sizes', sp, i - 1, x);
      GlueAtLeastFloor(extra, i);
      assert r[x].minimum == r[x].natural || r[x].minimum - sizes[x].minimum >= share;
      if i >= 1 {
        WalkFloorShare(extra - g, sizes', sp, i - 1);
        FloorAfterGrant(extra, i, g);
        forall p | 0 <= p < i
          ensures r[sp[p]].minimum == r[sp[p]].natural ||
                  r[sp[p]].minimum - sizes[sp[p]].minimum >= share
        {
          assert sizes'[sp[p]] == sizes[sp[p]];
        }
      }
    }
  }

  /** Once every remaining gap exceeds the glue, every remaining item stays
      short of its natural size. */
  lemma {:induction false} WalkAllShort(extra: int, sizes: seq<RequestedSize>, sp: seq<nat>, i: int)
    requires InRange(sizes, sp) && 0 <= i < |sp| && extra >= 0
    requires AllWellFormed(sizes) && SortedUpTo(sizes, sp, i)
    requires forall p :: 0 <= p <= i ==> Gap(sizes[sp[p]]) > Glue(extra, i)
    ensures var r := Walk(extra, sizes, sp, i).0;
      forall p :: 0 <= p <= i ==> r[sp[p]].minimum < r[sp[p]].natural
    decreases i + 1
  {
    if extra > 0 {
      WalkStep(extra, sizes, sp, i);
      var x := sp[i];
      var g := Grant(extra, sizes[x], i);
      assert g == Glue(extra, i);
      var sizes' := sizes[x := Raise(sizes[x], g)];
      var r := Walk(extra - g, sizes', sp, i - 1).0;
      assert Walk(extra, sizes, sp, i).0 == r;
      WalkFrame(extra - g, sizes', sp, i - 1, x);
      assert r[x].minimum < r[x].natural;
      if i >= 1 {
        GlueAfterFullGrant(extra, i);
        forall p | 0 <= p <= i - 1
          ensures Gap(sizes'[sp[p]]) > Glue(extra - g, i - 1)
        {
          assert sizes'[sp[p]] == sizes[sp[p]];
        }
        WalkAllShort(extra - g, sizes', sp, i - 1);
      }
    } else {
      assert Glue(extra, i) >= 0;
    }
  }

  /** Item `b`, left short of its natural size, received at most one unit
      less than item `a` if `a` reached its natural size. */
  predicate NearlyFair(before: seq<RequestedSize>, after: seq<RequestedSize>, a: nat, b: nat)
    requires a < |before| && b < |before| && |after| == |before|
  {
    after[a].minimum == after[a].natural && after[b].minimum < after[b].natural ==>
      after[b].minimum - before[b].minimum >= after[a].minimum - before[a].minimum - 1
  }

  /** Fairness within one unit among the items the walk reaches. */
  lemma {:induction false} WalkNearlyFair(extra: int, sizes: seq<RequestedSize>, sp: seq<nat>, i: int)
    requires InRange(sizes, sp) && -1 <= i < |sp| && extra >= 0
    requires AllWellFormed(sizes) && SortedUpTo(sizes, sp, i)
    ensures var r := Walk(extra, sizes, sp, i).0;
      forall a, b :: 0 <= a <= i && 0 <= b <= i ==> NearlyFair(sizes, r, sp[a], sp[b])
    decreases i + 1, 1
  {
    if extra > 0 && i >= 0 {
      if Gap(sizes[sp[i]]) <= Glue(extra, i) {
        NearlyFairWhenReached(extra, sizes, sp, i);
      } else {
        NearlyFairWhenShort(extra, sizes, sp, i);
      }
    }
  }

  /** The step of `WalkNearlyFair` where the visited item reaches its
      natural size: each later item left short gets at least the floor
      share, which is at least one less than the grant. */
  lemma {:induction false} NearlyFairWhenReached(extra: int, sizes: seq<RequestedSize>, sp: seq<nat>, i: nat)
    requires InRange(sizes, sp) && i < |sp| && extra > 0
    requires AllWellFormed(sizes) && SortedUpTo(sizes, sp, i)
    requires Gap(sizes[sp[i]]) <= Glue(extra, i)
    ensures var r := Walk(extra, sizes, sp, i).0;
      forall a, b :: 0 <= a <= i && 0 <= b <= i ==> NearlyFair(sizes, r, sp[a], sp[b])
    decreases i + 1, 0
  {
    WalkStep(extra, sizes, sp, i);
    var x := sp[i];
    var g := Grant(extra, sizes[x], i);
    var sizes' := sizes[x := Raise(sizes[x], g)];
    var r := Walk(extra - g, sizes', sp, i - 1).0;
    assert Walk(extra, sizes, sp, i).0 == r;
    WalkNearlyFair(extra - g, sizes', sp, i - 1);
    WalkFrame(extra - g, sizes', sp, i - 1, x);
    assert r[x].minimum == r[x].natural && r[x].minimum - sizes[x].minimum == g;
    if i >= 1 {
      LaterShortNearGrant(extra, g, sizes, sizes', sp, i);
    }
    forall a, b | 0 <= a <= i && 0 <= b <= i
      ensures NearlyFair(sizes, r, sp[a], sp[b])
    {
      if a < i && b < i {
        assert NearlyFair(sizes', r, sp[a], sp[b]);
        assert sizes'[sp[a]] == sizes[sp[a]] && sizes'[sp[b]] == sizes[sp[b]];
      }
    }
  }

  /** After the visited item takes grant `g` of at most the glue, every
      later item the walk leaves short receives at least `g - 1`. */
  lemma LaterShortNearGrant(extra: int, g: int, sizes: seq<RequestedSize>, sizes': seq<RequestedSize>,
                            sp: seq<nat>, i: nat)
    requires InRange(sizes, sp) && 1 <= i < |sp| && |sizes'| == |sizes|
    requires extra >= 0 && 0 <= g <= Glue(extra, i)
    requires AllWellFormed(sizes') && SortedUpTo(sizes', sp, i - 1)
    requires forall p :: 0 <= p < i ==> sizes'[sp[p]] == sizes[sp[p]]
    ensures var r := Walk(extra - g, sizes', sp, i - 1).0;
      forall b :: 0 <= b < i && r[sp[b]].minimum < r[sp[b]].natural ==>
        r[sp[b]].minimum - sizes[sp[b]].minimum >= g - 1
  {
    WalkFloorShare(extra - g, sizes', sp, i - 1);
    GrantNearFloor(extra, i, g);
  }

  /** The step of `WalkNearlyFair` where the visited item stays short: every
      later item stays short too, so no item reaches its natural size. */
  lemma NearlyFairWhenShort(extra: int, sizes: seq<RequestedSize>, sp: seq<nat>, i: nat)
    requires InRange(sizes, sp) && i < |sp| && extra > 0
    requires AllWellFormed(sizes) && SortedUpTo(sizes, sp, i)
    requires Gap(sizes[sp[i]]) > Glue(extra, i)
    ensures var r := Walk(extra, sizes, sp, i).0;
      forall a, b :: 0 <= a <= i && 0 <= b <= i ==> NearlyFair(sizes, r, sp[a], sp[b])
  {
    forall p | 0 <= p <= i
      ensures Gap(sizes[sp[p]]) > Glue(extra, i)
    {
      if p < i {
        assert SortsBefore(sizes, sp[p], sp[i]);
      }
    }
    WalkAllShort(extra, sizes, sp, i);
  }

  // ---------------------------------------------------------------------
  // The distributor

  /** `distribute_natural_allocation`: the sizes with their minimums raised
      and the space not handed out.  A negative `extraSpace` is refused:
      nothing changes and 0 is returned. */
  function Distribute(extraSpace: int, sizes: seq<RequestedSize>): (r: (seq<RequestedSize>, int))
    requires AllWellFormed(sizes)
    ensures |r.0| == |sizes|
    ensures extraSpace < 0 ==> r == (sizes, 0)
    ensures extraSpace == 0 ==> r == (sizes, 0)
    ensures extraSpace >= 0 ==>
      && r.1 >= 0
      && SumMin(r.0) + r.1 == SumMin(sizes) + extraSpace
      && AllWellFormed(r.0)
      && (forall j :: 0 <= j < |sizes| ==>
            r.0[j].natural == sizes[j].natural && sizes[j].minimum <= r.0[j].minimum)
  {
    if extraSpace < 0 then (sizes, 0)
    else
      SortIndicesSorted(sizes, |sizes|);
      WalkConserves(extraSpace, sizes, Spreading(sizes), |sizes| - 1);
      Walk(extraSpace, sizes, Spreading(sizes), |sizes| - 1)
  }

  lemma {:induction false} SumInsert(sizes: seq<RequestedSize>, x: nat, s: seq<nat>)
    requires x < |sizes| && InRange(sizes, s)
    ensures GapsUpTo(sizes, Insert(sizes, x, s), |s|) == GapsUpTo(sizes, s, |s| - 1) + Gap(sizes[x])
  {
    var r := Insert(sizes, x, s);
    if |s| == 0 {
    } else if SortsBefore(sizes, x, s[0]) {
      GapsUpToCons(sizes, x, s);
    } else {
      SumInsert(sizes, x, s[1..]);
      GapsUpToCons(sizes, s[0], Insert(sizes, x, s[1..]));
      GapsUpToCons(sizes, s[0], s[1..]);
      assert [s[0]] + s[1..] == s;
    }
  }

  lemma {:induction false} GapsUpToCons(sizes: seq<RequestedSize>, x: nat, s: seq<nat>)
    requires x < |sizes| && InRange(sizes, s)
    ensures GapsUpTo(sizes, [x] + s, |s|) == Gap(sizes[x]) + GapsUpTo(sizes, s, |s| - 1)
    decreases |s|
  {
    if |s| > 0 {
      var t := s[..|s| - 1];
      GapsUpToCons(sizes, x, t);
      GapsUpToPrefix(sizes, [x] + s, [x] + t, |s| - 1);
      GapsUpToPrefix(sizes, s, t, |s| - 2);
    }
  }

  lemma {:induction false} GapsUpToPrefix(sizes: seq<RequestedSize>, s: seq<nat>, t: seq<nat>, hi: int)
    requires InRange(sizes, s) && InRange(sizes, t) && hi < |s| && hi < |t|
    requires forall p :: 0 <= p <= hi ==> s[p] == t[p]
    ensures GapsUpTo(sizes, s, hi) == GapsUpTo(sizes, t, hi)
    decreases hi + 1
  {
    if hi >= 0 {
      GapsUpToPrefix(sizes, s, t, hi - 1);
    }
  }

  lemma {:induction false} SortIndicesGaps(sizes: seq<RequestedSize>, n: nat)
    requires n <= |sizes|
    ensures GapsUpTo(sizes, SortIndices(sizes, n), n - 1) == TotalGap(sizes[..n])
  {
    if n > 0 {
      SortIndicesGaps(sizes, n - 1);
      SumInsert(sizes, n - 1, SortIndices(sizes, n - 1));
      assert sizes[..n][..n - 1] == sizes[..n - 1];
    }
  }

  /** Enough space: if the extra space covers the total gap, every item ends
      exactly at its natural size and the remainder is what is left over. */
  lemma DistributeEnough(extraSpace: int, sizes: seq<RequestedSize>)
    requires AllWellFormed(sizes) && extraSpace >= TotalGap(sizes)
    ensures var r := Distribute(extraSpace, sizes);
      && (forall j :: 0 <= j < |sizes| ==> r.0[j].minimum == sizes[j].natural)
      && r.1 == extraSpace - TotalGap(sizes)
  {
    var sp := Spreading(sizes);
    SortIndicesSorted(sizes, |sizes|);
    SortIndicesGaps(sizes, |sizes|);
    assert sizes[..|sizes|] == sizes;
    TotalGapNonNegative(sizes);
    WalkEnough(extraSpace, sizes, sp, |sizes| - 1);
    var r := Distribute(extraSpace, sizes);
    forall j | 0 <= j < |sizes|
      ensures r.0[j].minimum == sizes[j].natural
    {
      assert j in sp;
      var p :| 0 <= p < |sp| && sp[p] == j;
    }
  }

  lemma {:induction false} TotalGapNonNegative(sizes: seq<RequestedSize>)
    ensures TotalGap(sizes) >= 0
  {
    if |sizes| > 0 {
      TotalGapNonNegative(sizes[..|sizes| - 1]);
    }
  }

  /** Fairness within one unit over the whole distribution. */
  lemma DistributeNearlyFair(extraSpace: int, sizes: seq<RequestedSize>, a: nat, b: nat)
    requires AllWellFormed(sizes) && extraSpace >= 0 && a < |sizes| && b < |sizes|
    ensures NearlyFair(sizes, Distribute(extraSpace, sizes).0, a, b)
  {
    var sp := Spreading(sizes);
    SortIndicesSorted(sizes, |sizes|);
    WalkNearlyFair(extraSpace, sizes, sp, |sizes| - 1);
    assert a in sp && b in sp;
    var pa :| 0 <= pa < |sp| && sp[pa] == a;
    var pb :| 0 <= pb < |sp| && sp[pb] == b;
  }

  // ---------------------------------------------------------------------
  // Goal (b): one more unit of space changes no child by more than one

  /** One more unit of space raises the glue by at most one. */
  lemma GlueStep(e: int, i: nat)
    requires e >= 0
    ensures Glue(e, i) <= Glue(e + 1, i) <= Glue(e, i) + 1
  {
    var k := i + 1;
    var q, r := (e + i) / k, (e + i) % k;
    if r + 1 < k {
      DivUnique(e + 1 + i, k, q, r + 1);
    } else {
      DivUnique(e + 1 + i, k, q + 1, 0);
    }
  }

  /** Whether every minimum of `t` is that of `s` or one more. */
  predicate WithinOne(s: seq<RequestedSize>, t: seq<RequestedSize>)
  {
    |s| == |t| && forall j :: 0 <= j < |s| ==> s[j].minimum <= t[j].minimum <= s[j].minimum + 1
  }

  /** A walk with a single unit to hand out raises at most one child, by
      that unit. */
  lemma {:induction false} WalkOneUnit(extra: int, sizes: seq<RequestedSize>, sp: seq<nat>, i: int)
    requires InRange(sizes, sp) && -1 <= i < |sp| && extra <= 1
    requires AllWellFormed(sizes) && SortedUpTo(sizes, sp, i)
    ensures WithinOne(sizes, Walk(extra, sizes, sp, i).0)
    decreases i + 1
  {
    if extra > 0 && i >= 0 {
      WalkStep(extra, sizes, sp, i);
      var x := sp[i];
      var g := Grant(extra, sizes[x], i);
      var sizes' := sizes[x := Raise(sizes[x], g)];
      if g == 0 {
        assert sizes' == sizes;
        WalkOneUnit(extra, sizes, sp, i - 1);
      } else {
        assert Walk(extra, sizes, sp, i) == (sizes', 0);
      }
    }
  }

  /** The first walk has nothing to hand out and the second a single unit:
      only a child still to visit, where the two states agree, can move. */
  lemma WalkOneUnitAfter(s1: seq<RequestedSize>, s2: seq<RequestedSize>, sp: seq<nat>, i: int)
    requires InRange(s1, sp) && |s1| == |s2| && -1 <= i < |sp|
    requires AllWellFormed(s2) && SortedUpTo(s2, sp, i)
    requires WithinOne(s1, s2)
    requires forall p :: 0 <= p <= i ==> s1[sp[p]] == s2[sp[p]]
    ensures WithinOne(s1, Walk(1, s2, sp, i).0)
  {
    WalkOneUnit(1, s2, sp, i);
    var w := Walk(1, s2, sp, i).0;
    forall j | 0 <= j < |s1|
      ensures s1[j].minimum <= w[j].minimum <= s1[j].minimum + 1
    {
      if exists p :: 0 <= p <= i && sp[p] == j {
        var p :| 0 <= p <= i && sp[p] == j;
        assert s1[j] == s2[j];
      } else {
        WalkFrame(1, s2, sp, i, j);
      }
    }
  }

  /** Two walks along the same order, the second with the same space or one
      unit more, from states that agree on the children still to visit and
      differ by at most one unit elsewhere, end at most one unit apart. */
  lemma {:induction false} WalkContinuous(e1: int, e2: int, s1: seq<RequestedSize>, s2: seq<RequestedSize>,
                                          sp: seq<nat>, i: int)
    requires InRange(s1, sp) && |s1| == |s2| && -1 <= i < |sp|
    requires e1 >= 0 && e1 <= e2 <= e1 + 1
    requires AllWellFormed(s1) && AllWellFormed(s2) && SortedUpTo(s1, sp, i) && SortedUpTo(s2, sp, i)
    requires WithinOne(s1, s2)
    requires forall p :: 0 <= p <= i ==> s1[sp[p]] == s2[sp[p]]
    ensures WithinOne(Walk(e1, s1, sp, i).0, Walk(e2, s2, sp, i).0)
    decreases i + 1
  {
    if i < 0 || e2 <= 0 {
    } else if e1 == 0 {
      WalkOneUnitAfter(s1, s2, sp, i);
    } else {
      var x := sp[i];
      WalkStep(e1, s1, sp, i);
      WalkStep(e2, s2, sp, i);
      var g1 := Grant(e1, s1[x], i);
      var g2 := Grant(e2, s2[x], i);
      if e2 == e1 {
        assert g2 == g1;
      } else {
        GlueStep(e1, i);
      }
      assert g1 <= g2 <= g1 + 1;
      var t1 := s1[x := Raise(s1[x], g1)];
      var t2 := s2[x := Raise(s2[x], g2)];
      assert WithinOne(t1, t2);
      assert Walk(e1, s1, sp, i) == Walk(e1 - g1, t1, sp, i - 1);
      assert Walk(e2, s2, sp, i) == Walk(e2 - g2, t2, sp, i - 1);
      WalkContinuous(e1 - g1, e2 - g2, t1, t2, sp, i - 1);
    }
  }

  /** Goal (b) of the distributor's design: one more unit of extra space
      moves every child's size by at most one unit, and never down. */
  lemma DistributeContinuous(extraSpace: int, sizes: seq<RequestedSize>)
    requires AllWellFormed(sizes) && extraSpace >= 0
    ensures WithinOne(Distribute(extraSpace, sizes).0, Distribute(extraSpace + 1, sizes).0)
  {
    var sp := Spreading(sizes);
    SortIndicesSorted(sizes, |sizes|);
    WalkContinuous(extraSpace, extraSpace + 1, sizes, sizes, sp, |sizes| - 1);
  }

  /** Goal (a) of the distributor's design, "as many children as possible
      at their natural size", is not met: three requests (m, m + 2) and 4
      units of space end as m + (2, 1, 1), with one child at its natural
      size, although m + (2, 2, 0) spends the same 4 units and puts two
      there. */
  lemma DistributeNotMaximal(m: nat)
    ensures var sizes := [RequestedSize(m, m + 2), RequestedSize(m, m + 2), RequestedSize(m, m + 2)];
      var r := Distribute(4, sizes);
      var better := [RequestedSize(m + 2, m + 2), RequestedSize(m + 2, m + 2), RequestedSize(m, m + 2)];
      && r == ([RequestedSize(m + 2, m + 2), RequestedSize(m + 1, m + 2), RequestedSize(m + 1, m + 2)], 0)
      && SumMin(better) == SumMin(sizes) + 4 && AllWellFormed(better)
  {
    var sizes := [RequestedSize(m, m + 2), RequestedSize(m, m + 2), RequestedSize(m, m + 2)];
    EqualGapsSpreading(m);
    assert Distribute(4, sizes) == Walk(4, sizes, [2, 1, 0], 2);
    EqualGapsWalk(m);
    SumMinThree(RequestedSize(m + 2, m + 2), RequestedSize(m + 2, m + 2), RequestedSize(m, m + 2));
    SumMinThree(sizes[0], sizes[1], sizes[2]);
  }

  lemma SumMinThree(a: RequestedSize, b: RequestedSize, c: RequestedSize)
    ensures SumMin([a, b, c]) == a.minimum + b.minimum + c.minimum
  {
    assert [a, b, c][..2] == [a, b] && [a, b][..1] == [a] && [a][..0] == [];
    assert SumMin([a]) == a.minimum;
    assert SumMin([a, b]) == SumMin([a]) + b.minimum;
    assert SumMin([a, b, c]) == SumMin([a, b]) + c.minimum;
  }

  lemma EqualGapsSpreading(m: nat)
    ensures Spreading([RequestedSize(m, m + 2), RequestedSize(m, m + 2), RequestedSize(m, m + 2)]) == [2, 1, 0]
  {
    var sizes := [RequestedSize(m, m + 2), RequestedSize(m, m + 2), RequestedSize(m, m + 2)];
    assert SortsBefore(sizes, 1, 0) && SortsBefore(sizes, 2, 1);
    assert SortIndices(sizes, 1) == [0];
    assert SortIndices(sizes, 2) == Insert(sizes, 1, [0]) == [1, 0];
    assert Spreading(sizes) == Insert(sizes, 2, [1, 0]) == [2, 1, 0];
  }

  lemma EqualGapsWalk(m: nat)
    ensures Walk(4, [RequestedSize(m, m + 2), RequestedSize(m, m + 2), RequestedSize(m, m + 2)], [2, 1, 0], 2)
         == ([RequestedSize(m + 2, m + 2), RequestedSize(m + 1, m + 2), RequestedSize(m + 1, m + 2)], 0)
  {
    var sizes := [RequestedSize(m, m + 2), RequestedSize(m, m + 2), RequestedSize(m, m + 2)];
    var sp := [2, 1, 0];
    assert Glue(4, 2) == 2 && Glue(2, 1) == 1 && Glue(1, 0) == 1;
    var s1 := sizes[0 := Raise(sizes[0], 2)];
    assert Grant(4, sizes[0], 2) == 2;
    assert s1 == [RequestedSize(m + 2, m + 2), RequestedSize(m, m + 2), RequestedSize(m, m + 2)];
    assert Walk(4, sizes, sp, 2) == Walk(2, s1, sp, 1);
    var s2 := s1[1 := Raise(s1[1], 1)];
    assert Grant(2, s1[1], 1) == 1;
    assert s2 == [RequestedSize(m + 2, m + 2), RequestedSize(m + 1, m + 2), RequestedSize(m, m + 2)];
    assert Walk(2, s1, sp, 1) == Walk(1, s2, sp, 0);
    var s3 := s2[2 := Raise(s2[2], 1)];
    assert Grant(1, s2[2], 0) == 1;
    assert s3 == [RequestedSize(m + 2, m + 2), RequestedSize(m + 1, m + 2), RequestedSize(m + 1, m + 2)];
    assert Walk(1, s2, sp, 0) == Walk(0, s3, sp, -1) == (s3, 0);
  }

  /** The one unit cannot be dropped: with requests (0, 2) and (0, 2 + k)
      for any k >= 1 and 3 units of extra space, the first child reaches its
      natural size with 2 units while the second stays short with only 1. */
  lemma DistributeNotExactlyFair(k: int)
    requires k >= 1
    ensures var sizes := [RequestedSize(0, 2), RequestedSize(0, 2 + k)];
      var r := Distribute(3, sizes);
      && r.0 == [RequestedSize(2, 2), RequestedSize(1, 2 + k)]
      && r.1 == 0
      && r.0[0].minimum == r.0[0].natural && r.0[1].minimum < r.0[1].natural
  {
    var sizes := [RequestedSize(0, 2), RequestedSize(0, 2 + k)];
    ExampleSpreading(k);
    assert Distribute(3, sizes) == Walk(3, sizes, [1, 0], 1);
    ExampleWalk(k);
  }

  lemma ExampleSpreading(k: int)
    requires k >= 1
    ensures Spreading([RequestedSize(0, 2), RequestedSize(0, 2 + k)]) == [1, 0]
  {
    var sizes := [RequestedSize(0, 2), RequestedSize(0, 2 + k)];
    assert SortsBefore(sizes, 1, 0);
    assert SortIndices(sizes, 1) == [0];
    assert Spreading(sizes) == Insert(sizes, 1, [0]) == [1, 0];
  }

  lemma ExampleWalk(k: int)
    requires k >= 1
    ensures Walk(3, [RequestedSize(0, 2), RequestedSize(0, 2 + k)], [1, 0], 1)
         == ([RequestedSize(2, 2), RequestedSize(1, 2 + k)], 0)
  {
    var sizes := [RequestedSize(0, 2), RequestedSize(0, 2 + k)];
    var g := Grant(3, sizes[0], 1);
    assert g == 2;
    var s1 := sizes[0 := Raise(sizes[0], g)];
    assert s1 == [RequestedSize(2, 2), RequestedSize(0, 2 + k)];
    assert Walk(3, sizes, [1, 0], 1) == Walk(1, s1, [1, 0], 0);
    var g2 := Grant(1, s1[1], 0);
    assert g2 == 1;
    var s2 := s1[1 := Raise(s1[1], g2)];
    assert s2 == [RequestedSize(2, 2), RequestedSize(1, 2 + k)];
    assert Walk(1, s1, [1, 0], 0) == Walk(0, s2, [1, 0], -1) == (s2, 0);
  }

  /** `distribute_natural_allocation` as the loop the source runs: the
      sizes are raised in place along the spreading order, from its end,
      until no space is left. */
  method DistributeNaturalAllocation(extraSpace: int, sizes: seq<RequestedSize>)
    returns (result: seq<RequestedSize>, remainder: int)
    requires AllWellFormed(sizes)
    ensures (result, remainder) == Distribute(extraSpace, sizes)
    ensures extraSpace >= 0 ==> remainder >= 0 && SumMin(result) + remainder == SumMin(sizes) + extraSpace
  {
    if extraSpace < 0 {
      return sizes, 0;
    }
    var spreading := Spreading(sizes);
    result, remainder := sizes, extraSpace;
    var i := |sizes| - 1;
    while remainder > 0 && i >= 0
      invariant -1 <= i < |sizes| && |result| == |sizes|
      invariant Walk(remainder, result, spreading, i) == Walk(extraSpace, sizes, spreading, |sizes| - 1)
      decreases i + 1
    {
      var x := spreading[i];
      var glue := (remainder + i) / (i + 1);
      var gap := result[x].natural - result[x].minimum;
      var extra := if glue < gap then glue else gap;
      result := result[x := result[x].(minimum := result[x].minimum + extra)];
      remainder := remainder - extra;
      i := i - 1;
    }
  }
}
