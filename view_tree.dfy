/**
 * A UIKit view hierarchy, as the superview of each view. Views are numbered so
 * that a superview's number is below its subviews' numbers: that is how the
 * model states that following `superview` never runs in a cycle.
 */
module ViewTree {
  import opened Wrappers

  type ViewId = nat

  datatype Tree = Tree(superview: map<ViewId, ViewId>)

  /** Every superview comes before its subviews in the numbering. */
  predicate Valid(t: Tree)
  {
    forall v :: v in t.superview ==> t.superview[v] < v
  }

  /** `view.superview`. */
  function Superview(t: Tree, v: ViewId): Option<ViewId>
  {
    if v in t.superview then Some(t.superview[v]) else None
  }

  /** The view, its superview, that one's superview, and so on up to a view
    * without one. */
  function Chain(t: Tree, v: ViewId): (c: seq<ViewId>)
    requires Valid(t)
    ensures |c| >= 1 && c[0] == v
    ensures forall i :: 1 <= i < |c| ==> Superview(t, c[i - 1]) == Some(c[i])
    ensures Superview(t, c[|c| - 1]) == None
    decreases v
  {
    if v in t.superview then [v] + Chain(t, t.superview[v]) else [v]
  }

  /** The views of a chain, as a set. */
  function ChainSet(t: Tree, v: ViewId): set<ViewId>
    requires Valid(t)
  {
    set x | x in Chain(t, v)
  }

  /** Past its first `i` views, a chain is the chain of its `i`-th view. */
  lemma {:induction false} ChainSuffix(t: Tree, v: ViewId, i: nat)
    requires Valid(t) && i < |Chain(t, v)|
    ensures Chain(t, v)[i..] == Chain(t, Chain(t, v)[i])
    decreases i
  {
    if i > 0 {
      var c := Chain(t, v);
      var p := c[1];
      assert v in t.superview && p == t.superview[v];
      var cp := Chain(t, p);
      assert c == [v] + cp;
      ChainSuffix(t, p, i - 1);
      DropCons(v, cp, i);
    }
  }

  lemma DropCons(x: ViewId, rest: seq<ViewId>, i: nat)
    requires 1 <= i <= |rest| + 1
    ensures ([x] + rest)[i..] == rest[i - 1..]
  {
  }

  /** An ancestor-or-self of an ancestor-or-self is one too. */
  lemma ChainTransitive(t: Tree, x: ViewId, c: ViewId, v: ViewId)
    requires Valid(t) && x in Chain(t, c) && c in Chain(t, v)
    ensures x in Chain(t, v)
  {
    var i :| 0 <= i < |Chain(t, v)| && Chain(t, v)[i] == c;
    ChainSuffix(t, v, i);
    assert x in Chain(t, v)[i..];
  }

  /** The position of the first view of `a` that belongs to `s`, or `|a|`. */
  function FirstIndexIn(a: seq<ViewId>, s: set<ViewId>): (i: nat)
    ensures i <= |a|
    ensures i < |a| ==> a[i] in s
    ensures forall j :: 0 <= j < i ==> a[j] !in s
  {
    if a == [] then 0
    else if a[0] in s then 0
    else 1 + FirstIndexIn(a[1..], s)
  }

  /** The first view of `a` that belongs to `s`. */
  function FirstIn(a: seq<ViewId>, s: set<ViewId>): (r: Option<ViewId>)
    ensures r == None <==> forall x :: x in a ==> x !in s
    ensures r.Some? ==> r.value in a && r.value in s
  {
    var i := FirstIndexIn(a, s);
    if i < |a| then Some(a[i]) else None
  }

  /** Looking for the first member of `s` up a chain: at the view itself, or
    * else up its superview's chain. */
  lemma FirstInChainStep(t: Tree, v: ViewId, s: set<ViewId>)
    requires Valid(t)
    ensures FirstIn(Chain(t, v), s) ==
      if v in s then Some(v)
      else if v in t.superview then FirstIn(Chain(t, t.superview[v]), s)
      else None
  {
    if v in t.superview {
      var p := t.superview[v];
      assert Chain(t, v) == [v] + Chain(t, p);
      FirstInCons(v, Chain(t, p), s);
    } else {
      assert Chain(t, v) == [v] + [];
      FirstInCons(v, [], s);
    }
  }

  /** The first member of `s` in `[x] + rest`: `x` itself, or the first one in
    * `rest`. */
  lemma FirstInCons(x: ViewId, rest: seq<ViewId>, s: set<ViewId>)
    ensures FirstIn([x] + rest, s) == if x in s then Some(x) else FirstIn(rest, s)
  {
    assert ([x] + rest)[1..] == rest;
  }

  /** The first view of `a`'s chain that is also on `b`'s chain is their lowest
    * common ancestor: every common ancestor-or-self of `a` and `b` is on its
    * chain. */
  lemma FirstCommonIsLowest(t: Tree, a: ViewId, b: ViewId, x: ViewId)
    requires Valid(t) && x in Chain(t, a) && x in Chain(t, b)
    ensures FirstIn(Chain(t, a), ChainSet(t, b)).Some?
    ensures x in Chain(t, FirstIn(Chain(t, a), ChainSet(t, b)).value)
  {
    var ca := Chain(t, a);
    var i := FirstIndexIn(ca, ChainSet(t, b));
    var j :| 0 <= j < |ca| && ca[j] == x;
    assert x in ChainSet(t, b);
    assert i <= j;
    ChainSuffix(t, a, i);
    assert x in ca[i..];
  }
}
