/** Statistics over a subtree: its size (the source's `Count`), its outcome tallies (the
    source's `CountWinners`), and the non-loss ratio `BestMove` compares children by. */
module Stats {
  import opened Nodes

  /** 1 for a position whose outcome is `w`, else 0. */
  function Mark(winner: Winner, w: Winner): nat {
    if winner == w then 1 else 0
  }

  /** The `k`-th child link of node `i` when it points to a later node, which in a linked
      tree it always does; following only such links keeps the subtree functions total. */
  predicate ForwardChild(nodes: seq<Node>, i: nat, k: nat)
    requires i < |nodes| && k < |nodes[i].children|
  {
    i < nodes[i].children[k] < |nodes|
  }

  lemma LinkedForward(nodes: seq<Node>, i: nat, k: nat)
    requires Linked(nodes) && i < |nodes| && k < |nodes[i].children|
    ensures ForwardChild(nodes, i, k) && nodes[i].children[k] == Child(nodes, i, k)
  {
    var c := Child(nodes, i, k);
  }

  /** The number of positions in the subtree of node `i`. */
  ghost function Size(nodes: seq<Node>, i: nat): nat
    requires i < |nodes|
    decreases |nodes| - i, 1
  {
    1 + ChildrenSize(nodes, i, |nodes[i].children|)
  }

  /** The sizes of the subtrees of the first `k` children of node `i`, added up. */
  ghost function ChildrenSize(nodes: seq<Node>, i: nat, k: nat): nat
    requires i < |nodes| && k <= |nodes[i].children|
    decreases |nodes| - i, 0, k
  {
    if k == 0 then 0
    else
      ChildrenSize(nodes, i, k - 1) +
      (if ForwardChild(nodes, i, k - 1) then Size(nodes, nodes[i].children[k - 1]) else 0)
  }

  /** The number of positions in the subtree of node `i` whose outcome is `w`. */
  ghost function Outcomes(nodes: seq<Node>, i: nat, w: Winner): nat
    requires i < |nodes|
    decreases |nodes| - i, 1
  {
    Mark(nodes[i].winner, w) + ChildrenOutcomes(nodes, i, |nodes[i].children|, w)
  }

  /** The same count over the subtrees of the first `k` children of node `i`. */
  ghost function ChildrenOutcomes(nodes: seq<Node>, i: nat, k: nat, w: Winner): nat
    requires i < |nodes| && k <= |nodes[i].children|
    decreases |nodes| - i, 0, k
  {
    if k == 0 then 0
    else
      ChildrenOutcomes(nodes, i, k - 1, w) +
      (if ForwardChild(nodes, i, k - 1) then Outcomes(nodes, nodes[i].children[k - 1], w) else 0)
  }

  /** The decided positions of a subtree, by kind. */
  ghost function Decided(nodes: seq<Node>, i: nat): nat
    requires i < |nodes|
  {
    Outcomes(nodes, i, NoWinner) + Outcomes(nodes, i, WinOdd) + Outcomes(nodes, i, WinEven)
  }

  /** Every position of a subtree has exactly one outcome: the three tallies of the
      source's `CountWinners` and the open positions, which it does not count, add up to
      the source's `Count`. */
  lemma {:induction false} OutcomesPartitionSize(nodes: seq<Node>, i: nat)
    requires i < |nodes|
    ensures Decided(nodes, i) + Outcomes(nodes, i, NoWinnerYet) == Size(nodes, i)
    decreases |nodes| - i, 1
  {
    ChildrenPartitionSize(nodes, i, |nodes[i].children|);
  }

  lemma {:induction false} ChildrenPartitionSize(nodes: seq<Node>, i: nat, k: nat)
    requires i < |nodes| && k <= |nodes[i].children|
    ensures ChildrenOutcomes(nodes, i, k, NoWinner) + ChildrenOutcomes(nodes, i, k, WinOdd) +
            ChildrenOutcomes(nodes, i, k, WinEven) + ChildrenOutcomes(nodes, i, k, NoWinnerYet) ==
            ChildrenSize(nodes, i, k)
    decreases |nodes| - i, 0, k
  {
    if k > 0 {
      ChildrenPartitionSize(nodes, i, k - 1);
      if ForwardChild(nodes, i, k - 1) {
        OutcomesPartitionSize(nodes, nodes[i].children[k - 1]);
      }
    }
  }

  /** The counts the source reports are bounded by the subtree size, which is at least 1. */
  lemma TalliesWithinSize(nodes: seq<Node>, i: nat)
    requires i < |nodes|
    ensures Decided(nodes, i) <= Size(nodes, i)
    ensures Size(nodes, i) >= 1
  {
    OutcomesPartitionSize(nodes, i);
  }

  /** The decided positions of one child's subtree are among those of its parent's. */
  lemma {:induction false} ChildDecidedIncluded(nodes: seq<Node>, i: nat, k: nat, j: nat)
    requires Linked(nodes) && i < |nodes| && j < k <= |nodes[i].children|
    ensures Decided(nodes, Child(nodes, i, j)) <=
      ChildrenOutcomes(nodes, i, k, NoWinner) + ChildrenOutcomes(nodes, i, k, WinOdd) +
      ChildrenOutcomes(nodes, i, k, WinEven)
    decreases k
  {
    LinkedForward(nodes, i, k - 1);
    if j < k - 1 {
      ChildDecidedIncluded(nodes, i, k - 1, j);
    }
  }

  /** A fraction `num / den` kept as two integers; a zero `den` stands for the source's
      floating-point 0/0. */
  datatype Ratio = Ratio(num: int, den: nat)

  /** The source's starting maximum, -1. */
  function MinusOne(): Ratio {
    Ratio(-1, 1)
  }

  /** A ratio of a count to a larger or equal count. */
  predicate Proper(r: Ratio) {
    0 <= r.num <= r.den
  }

  /** The non-loss ratio `BestMove` gives a child at `height` from the source's three
      counters: the positions below it that the player who moved into it wins or draws,
      over all decided positions below it. */
  function Score(noWinner: nat, oddWinner: nat, evenWinner: nat, height: nat): (r: Ratio)
    ensures Proper(r) && r.den == noWinner + oddWinner + evenWinner
  {
    Ratio(if height % 2 == 0 then evenWinner + noWinner else oddWinner + noWinner,
          noWinner + oddWinner + evenWinner)
  }

  /** The score of the `k`-th child of node `n`, from the outcomes of its subtree. */
  ghost function ChildScore(nodes: seq<Node>, n: nat, k: nat): Ratio
    requires Linked(nodes) && n < |nodes| && k < |nodes[n].children|
  {
    var c := Child(nodes, n, k);
    Score(Outcomes(nodes, c, NoWinner), Outcomes(nodes, c, WinOdd), Outcomes(nodes, c, WinEven), nodes[c].height)
  }

  /** The scores of all children of node `n`, in child order. */
  ghost function ChildScores(nodes: seq<Node>, n: nat): (s: seq<Ratio>)
    requires Linked(nodes) && n < |nodes|
    ensures |s| == |nodes[n].children|
    ensures forall k :: 0 <= k < |s| ==> s[k] == ChildScore(nodes, n, k) && Proper(s[k])
  {
    seq(|nodes[n].children|, k requires 0 <= k < |nodes[n].children| => ChildScore(nodes, n, k))
  }

  /** `x > y` by cross-multiplication. It is false whenever either side is a 0/0 score,
      as a comparison with a floating-point NaN is. */
  predicate Greater(x: Ratio, y: Ratio) {
    x.num * y.den > y.num * x.den
  }

  /** With positive denominators, `Greater` is the order of the quotients. */
  lemma GreaterIsQuotientOrder(x: Ratio, y: Ratio)
    requires x.den > 0 && y.den > 0
    ensures Greater(x, y) <==> (x.num as real) / (x.den as real) > (y.num as real) / (y.den as real)
  {
    var qx := (x.num as real) / (x.den as real);
    var qy := (y.num as real) / (y.den as real);
    assert x.num as real == qx * (x.den as real);
    assert y.num as real == qy * (y.den as real);
    assert (x.num * y.den) as real == qx * ((x.den * y.den) as real);
    assert (y.num * x.den) as real == qy * ((x.den * y.den) as real);
  }

  /** A 0/0 score is never greater than anything and nothing is greater than it, and a
      proper score beats the starting maximum -1 exactly when it is not 0/0. */
  lemma NaNLike(x: Ratio, y: Ratio)
    requires Proper(x)
    ensures x.den == 0 ==> !Greater(x, y) && !Greater(y, x)
    ensures Greater(x, MinusOne()) <==> x.den > 0
  {
  }

  /** `Greater` is a strict order: it is irreflexive and asymmetric. */
  lemma GreaterAsymmetric(x: Ratio, y: Ratio)
    ensures !Greater(x, x)
    ensures Greater(x, y) ==> !Greater(y, x)
  {
  }

  /** What a new maximum is greater than: anything that was not greater than the old one. */
  lemma GreaterOvertakes(a: Ratio, b: Ratio, c: Ratio)
    requires a.den > 0 && b.den > 0 && c.den > 0
    requires Greater(a, b) && !Greater(c, b)
    ensures Greater(a, c)
  {
    assert a.num * b.den * c.den > b.num * a.den * c.den by {
      MulMono(a.num * b.den, b.num * a.den, c.den);
    }
    assert b.num * c.den * a.den >= c.num * b.den * a.den by {
      MulMonoWeak(c.num * b.den, b.num * c.den, a.den);
    }
    assert a.num * c.den * b.den > c.num * a.den * b.den;
    MulCancel(a.num * c.den, c.num * a.den, b.den);
  }

  lemma {:induction false} MulMono(x: int, y: int, z: nat)
    requires x > y && z > 0
    ensures x * z > y * z
    decreases z
  {
    if z > 1 {
      MulMono(x, y, z - 1);
      assert x * z == x * (z - 1) + x && y * z == y * (z - 1) + y;
    }
  }

  lemma {:induction false} MulMonoWeak(x: int, y: int, z: nat)
    requires x <= y
    ensures x * z <= y * z
    decreases z
  {
    if z > 0 {
      MulMonoWeak(x, y, z - 1);
      assert x * z == x * (z - 1) + x && y * z == y * (z - 1) + y;
    }
  }

  lemma MulCancel(x: int, y: int, z: nat)
    requires x * z > y * z && z > 0
    ensures x > y
  {
    if x <= y {
      MulMonoWeak(x, y, z);
    }
  }

  /** `k` is the child `BestMove` settles on among the scores `s`: when some score is not
      0/0, the first one that no score is greater than; otherwise the first child. */
  ghost predicate FirstBest(s: seq<Ratio>, k: nat) {
    k < |s| &&
    if exists j :: 0 <= j < |s| && s[j].den > 0 then
      s[k].den > 0 &&
      (forall j :: 0 <= j < |s| ==> !Greater(s[j], s[k])) &&
      (forall j :: 0 <= j < k && s[j].den > 0 ==> Greater(s[k], s[j]))
    else k == 0
  }

  /** The choice is determined by the scores: at most one child is the first best. */
  lemma FirstBestUnique(s: seq<Ratio>, k1: nat, k2: nat)
    requires FirstBest(s, k1) && FirstBest(s, k2)
    ensures k1 == k2
  {
    if exists j :: 0 <= j < |s| && s[j].den > 0 {
      if k1 != k2 {
        assert false;
      }
    }
  }
}
