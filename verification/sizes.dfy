/** The box layout's preferred size (`get_preferred_width` and
    `get_preferred_height`): along the main axis the children's requests add
    up, with the spacing between each two of them; across it the largest
    request wins.  Invisible children take no part.  Sizes are `gfloat` in
    the program and `real` here. */
module SizeAggregator {
  import CInt

  /** A child of the container as the size pass sees it. */
  datatype Child = Child(id: nat, visible: bool)

  /** A minimum and a natural size along one axis. */
  datatype Request = Request(minimum: real, natural: real)

  /** The size query of a child (`clutter_actor_get_preferred_width` or
      `_height`), given the size the container offers on the other axis;
      it belongs to the actor and is a parameter here. */
  type Query = (nat, real) -> Request

  /** The requests of the visible children, in list order. */
  function Requests(cs: seq<Child>, forSize: real, ask: Query): (r: seq<Request>)
    ensures |r| <= |cs|
  {
    if cs == [] then []
    else
      var last := cs[|cs| - 1];
      Requests(cs[..|cs| - 1], forSize, ask)
        + (if last.visible then [ask(last.id, forSize)] else [])
  }

  function Mins(rs: seq<Request>): (r: seq<real>)
    ensures |r| == |rs| && forall i :: 0 <= i < |rs| ==> r[i] == rs[i].minimum
  {
    seq(|rs|, i requires 0 <= i < |rs| => rs[i].minimum)
  }

  function Nats(rs: seq<Request>): (r: seq<real>)
    ensures |r| == |rs| && forall i :: 0 <= i < |rs| ==> r[i] == rs[i].natural
  {
    seq(|rs|, i requires 0 <= i < |rs| => rs[i].natural)
  }

  function Sum(xs: seq<real>): real
  {
    if xs == [] then 0.0 else Sum(xs[..|xs| - 1]) + xs[|xs| - 1]
  }

  function Max(a: real, b: real): real
  {
    if a < b then b else a
  }

  /** The `MAX` fold of the cross axis, which starts from 0. */
  function Largest(xs: seq<real>): real
  {
    if xs == [] then 0.0 else Max(Largest(xs[..|xs| - 1]), xs[|xs| - 1])
  }

  function Reverse<T>(xs: seq<T>): (r: seq<T>)
    ensures |r| == |xs| && forall i :: 0 <= i < |xs| ==> r[i] == xs[|xs| - 1 - i]
  {
    seq(|xs|, i requires 0 <= i < |xs| => xs[|xs| - 1 - i])
  }

  /** The spacing added between `n` children: `priv->spacing * (n - 1)`,
      a product of unsigned 32-bit integers, only when there are at least
      two of them. */
  function SpacingTotal(spacing: CInt.uint32, n: nat): (r: real)
    ensures n <= 1 ==> r == 0.0
    ensures n > 1 && spacing * (n - 1) < CInt.Two32 ==> r == (spacing * (n - 1)) as real
  {
    if n > 1 then CInt.Wrap32(spacing * (n - 1)) as real else 0.0
  }

  /** The preferred size along one axis, stated on the visible children in
      list order: summed with spacing along the main axis, the largest
      across it. */
  function Preferred(cs: seq<Child>, main: bool, forSize: real, spacing: CInt.uint32,
                     ask: Query): Request
  {
    var rs := Requests(cs, forSize, ask);
    if main then
      Request(Sum(Mins(rs)) + SpacingTotal(spacing, |rs|),
              Sum(Nats(rs)) + SpacingTotal(spacing, |rs|))
    else
      Request(Largest(Mins(rs)), Largest(Nats(rs)))
  }

  /** The loop shared by the two functions: walk the children (from the
      last one when `rtl`), skip the invisible ones, and fold their
      requests; whichever way the list is walked, the result is the one
      `Preferred` states for list order. */
  method Measure(cs: seq<Child>, main: bool, rtl: bool, forSize: real,
                 spacing: CInt.uint32, ask: Query)
    returns (minimum: real, natural: real)
    ensures Request(minimum, natural) == Preferred(cs, main, forSize, spacing, ask)
  {
    var order := if rtl then Reverse(cs) else cs;
    minimum, natural := 0.0, 0.0;
    var n := 0;
    var k := 0;
    ghost var seen: seq<Request> := [];
    while k < |order|
      invariant 0 <= k <= |order|
      invariant seen == Requests(order[..k], forSize, ask)
      invariant n == |seen|
      invariant main ==> minimum == Sum(Mins(seen)) && natural == Sum(Nats(seen))
      invariant !main ==> minimum == Largest(Mins(seen)) && natural == Largest(Nats(seen))
    {
      var child := order[k];
      RequestsStep(order, k, forSize, ask);
      if child.visible {
        n := n + 1;
        var r := ask(child.id, forSize);
        FoldStep(seen, r);
        seen := seen + [r];
        if main {
          minimum := minimum + r.minimum;
          natural := natural + r.natural;
        } else {
          minimum := Max(r.minimum, minimum);
          natural := Max(r.natural, natural);
        }
      } else {
        assert seen + [] == seen;
      }
      k := k + 1;
    }
    assert order[..k] == order;
    if main && n > 1 {
      minimum, natural := minimum + SpacingTotal(spacing, n), natural + SpacingTotal(spacing, n);
    }
    if rtl {
      ReverseKeepsPreferred(cs, forSize, ask);
    }
  }

  /** `get_preferred_width`: the width is the main axis of a horizontal
      box, whose children are asked for their width at the offered height
      and walked backwards in a right-to-left container; a vertical box
      asks with no height (-1). */
  method PreferredWidth(cs: seq<Child>, vertical: bool, textRtl: bool, forHeight: real,
                        spacing: CInt.uint32, ask: Query)
    returns (minimum: real, natural: real)
    ensures Request(minimum, natural)
            == Preferred(cs, !vertical, if vertical then -1.0 else forHeight, spacing, ask)
  {
    var rtl := !vertical && textRtl;
    minimum, natural := Measure(cs, !vertical, rtl, if vertical then -1.0 else forHeight,
                                spacing, ask);
  }

  /** `get_preferred_height`: the mirror image, with the height the main
      axis of a vertical box; the walk direction still follows the text
      direction of a horizontal box only. */
  method PreferredHeight(cs: seq<Child>, vertical: bool, textRtl: bool, forWidth: real,
                         spacing: CInt.uint32, ask: Query)
    returns (minimum: real, natural: real)
    ensures Request(minimum, natural)
            == Preferred(cs, vertical, if vertical then forWidth else -1.0, spacing, ask)
  {
    var rtl := !vertical && textRtl;
    minimum, natural := Measure(cs, vertical, rtl, if vertical then forWidth else -1.0,
                                spacing, ask);
  }

  // ---------------------------------------------------------------------
  // Properties of the reference definition

  lemma RequestsStep(cs: seq<Child>, k: nat, forSize: real, ask: Query)
    requires k < |cs|
    ensures Requests(cs[..k + 1], forSize, ask)
            == Requests(cs[..k], forSize, ask)
               + (if cs[k].visible then [ask(cs[k].id, forSize)] else [])
  {
    assert cs[..k + 1][..k] == cs[..k];
  }

  /** One more request adds to the sums and may raise the largest. */
  lemma FoldStep(rs: seq<Request>, r: Request)
    ensures Sum(Mins(rs + [r])) == Sum(Mins(rs)) + r.minimum
    ensures Sum(Nats(rs + [r])) == Sum(Nats(rs)) + r.natural
    ensures Largest(Mins(rs + [r])) == Max(r.minimum, Largest(Mins(rs)))
    ensures Largest(Nats(rs + [r])) == Max(r.natural, Largest(Nats(rs)))
  {
    assert Mins(rs + [r])[..|rs|] == Mins(rs);
    assert Nats(rs + [r])[..|rs|] == Nats(rs);
  }

  lemma {:induction false} RequestsAppend(a: seq<Child>, b: seq<Child>, forSize: real, ask: Query)
    ensures Requests(a + b, forSize, ask) == Requests(a, forSize, ask) + Requests(b, forSize, ask)
    decreases |b|
  {
    if b == [] {
      assert a + b == a;
    } else {
      var b' := b[..|b| - 1];
      assert (a + b)[..|a + b| - 1] == a + b';
      assert (a + b)[|a + b| - 1] == b[|b| - 1];
      RequestsAppend(a, b', forSize, ask);
    }
  }

  lemma {:induction false} RequestsReverse(cs: seq<Child>, forSize: real, ask: Query)
    ensures Requests(Reverse(cs), forSize, ask) == Reverse(Requests(cs, forSize, ask))
    decreases |cs|
  {
    if cs != [] {
      var front := cs[..|cs| - 1];
      var last := cs[|cs| - 1];
      assert Reverse(cs) == [last] + Reverse(front);
      RequestsAppend([last], Reverse(front), forSize, ask);
      RequestsReverse(front, forSize, ask);
      assert Requests([last], forSize, ask)
             == Requests([], forSize, ask) + (if last.visible then [ask(last.id, forSize)] else []);
      var rf := Requests(front, forSize, ask);
      if last.visible {
        assert Reverse(rf + [ask(last.id, forSize)]) == [ask(last.id, forSize)] + Reverse(rf);
      } else {
        assert rf + [] == rf;
      }
    }
  }

  lemma {:induction false} SumAppend(a: seq<real>, b: seq<real>)
    ensures Sum(a + b) == Sum(a) + Sum(b)
    decreases |b|
  {
    if b == [] {
      assert a + b == a;
    } else {
      assert (a + b)[..|a + b| - 1] == a + b[..|b| - 1];
      SumAppend(a, b[..|b| - 1]);
    }
  }

  lemma {:induction false} LargestAppend(a: seq<real>, b: seq<real>)
    ensures Largest(a + b) == Max(Largest(a), Largest(b))
    decreases |b|
  {
    if b == [] {
      assert a + b == a;
      LargestNonNegative(a);
    } else {
      assert (a + b)[..|a + b| - 1] == a + b[..|b| - 1];
      LargestAppend(a, b[..|b| - 1]);
    }
  }

  lemma {:induction false} LargestNonNegative(xs: seq<real>)
    ensures Largest(xs) >= 0.0
    decreases |xs|
  {
    if xs != [] {
      LargestNonNegative(xs[..|xs| - 1]);
    }
  }

  /** Summing or taking the largest does not depend on the order. */
  lemma {:induction false} ReverseFolds(xs: seq<real>)
    ensures Sum(Reverse(xs)) == Sum(xs)
    ensures Largest(Reverse(xs)) == Largest(xs)
    decreases |xs|
  {
    if xs != [] {
      var front := xs[..|xs| - 1];
      var last := xs[|xs| - 1];
      assert Reverse(xs) == [last] + Reverse(front);
      SumAppend([last], Reverse(front));
      LargestAppend([last], Reverse(front));
      ReverseFolds(front);
      assert [last][..0] == [];
      LargestNonNegative(front);
    }
  }

  /** The right-to-left walk of `get_preferred_width` gives the same size
      as the walk in list order. */
  lemma ReverseKeepsPreferred(cs: seq<Child>, forSize: real, ask: Query)
    ensures Requests(Reverse(cs), forSize, ask) == Reverse(Requests(cs, forSize, ask))
    ensures forall main: bool, spacing: CInt.uint32 ::
      Preferred(Reverse(cs), main, forSize, spacing, ask) == Preferred(cs, main, forSize, spacing, ask)
  {
    RequestsReverse(cs, forSize, ask);
    var rs := Requests(cs, forSize, ask);
    assert Mins(Reverse(rs)) == Reverse(Mins(rs));
    assert Nats(Reverse(rs)) == Reverse(Nats(rs));
    ReverseFolds(Mins(rs));
    ReverseFolds(Nats(rs));
  }

  /** With no visible child the preferred size is zero on both axes. */
  lemma NoVisibleChildIsEmpty(cs: seq<Child>, main: bool, forSize: real,
                              spacing: CInt.uint32, ask: Query)
    requires forall i :: 0 <= i < |cs| ==> !cs[i].visible
    ensures Preferred(cs, main, forSize, spacing, ask) == Request(0.0, 0.0)
  {
    NoVisibleNoRequests(cs, forSize, ask);
  }

  lemma {:induction false} NoVisibleNoRequests(cs: seq<Child>, forSize: real, ask: Query)
    requires forall i :: 0 <= i < |cs| ==> !cs[i].visible
    ensures Requests(cs, forSize, ask) == []
    decreases |cs|
  {
    if cs != [] {
      NoVisibleNoRequests(cs[..|cs| - 1], forSize, ask);
    }
  }

  /** An invisible child changes nothing, wherever it stands. */
  lemma InvisibleChildIgnored(a: seq<Child>, b: seq<Child>, hidden: Child, main: bool,
                              forSize: real, spacing: CInt.uint32, ask: Query)
    requires !hidden.visible
    ensures Preferred(a + [hidden] + b, main, forSize, spacing, ask)
            == Preferred(a + b, main, forSize, spacing, ask)
  {
    RequestsAppend(a + [hidden], b, forSize, ask);
    RequestsAppend(a, [hidden], forSize, ask);
    RequestsAppend(a, b, forSize, ask);
    assert [hidden][..0] == [];
    assert Requests([hidden], forSize, ask) == [];
    assert Requests(a, forSize, ask) + [] == Requests(a, forSize, ask);
  }

  /** The cross axis is as large as the largest visible request and no
      larger; the main axis adds one more child's request and one spacing
      to the size of the children before it. */
  lemma CrossIsLargest(cs: seq<Child>, forSize: real, spacing: CInt.uint32, ask: Query)
    ensures var p := Preferred(cs, false, forSize, spacing, ask);
      var rs := Requests(cs, forSize, ask);
      && p.minimum >= 0.0 && p.natural >= 0.0
      && (forall i :: 0 <= i < |rs| ==> rs[i].minimum <= p.minimum && rs[i].natural <= p.natural)
      && (p.minimum == 0.0 || exists i :: 0 <= i < |rs| && rs[i].minimum == p.minimum)
      && (p.natural == 0.0 || exists i :: 0 <= i < |rs| && rs[i].natural == p.natural)
  {
    var rs := Requests(cs, forSize, ask);
    LargestIsBound(Mins(rs));
    LargestIsBound(Nats(rs));
  }

  lemma {:induction false} LargestIsBound(xs: seq<real>)
    ensures Largest(xs) >= 0.0
    ensures forall i :: 0 <= i < |xs| ==> xs[i] <= Largest(xs)
    ensures Largest(xs) == 0.0 || exists i :: 0 <= i < |xs| && xs[i] == Largest(xs)
    decreases |xs|
  {
    if xs != [] {
      var front := xs[..|xs| - 1];
      LargestIsBound(front);
      if Largest(front) != 0.0 && Largest(xs) == Largest(front) {
        var i :| 0 <= i < |front| && front[i] == Largest(front);
        assert xs[i] == Largest(xs);
      }
    }
  }

  /** Appending a visible child to the main axis adds its request and, from
      the second child on, one spacing. */
  lemma MainGrowsByChild(cs: seq<Child>, c: Child, forSize: real, spacing: CInt.uint32,
                         ask: Query)
    requires c.visible && spacing * |Requests(cs, forSize, ask)| < CInt.Two32
    ensures var before := Preferred(cs, true, forSize, spacing, ask);
      var after := Preferred(cs + [c], true, forSize, spacing, ask);
      var gap := if Requests(cs, forSize, ask) == [] then 0.0 else spacing as real;
      && after.minimum == before.minimum + ask(c.id, forSize).minimum + gap
      && after.natural == before.natural + ask(c.id, forSize).natural + gap
  {
    var rs := Requests(cs, forSize, ask);
    var r := ask(c.id, forSize);
    assert (cs + [c])[..|cs|] == cs;
    assert Requests(cs + [c], forSize, ask) == rs + [r];
    assert Mins(rs + [r])[..|rs|] == Mins(rs);
    assert Nats(rs + [r])[..|rs|] == Nats(rs);
    if |rs| > 0 {
      assert spacing * (|rs| - 1) <= spacing * |rs|;
    }
  }
}
