/**
 * `MCTSNode`: one node of the search tree.  A node holds a candidate SQL
 * query, a link to its parent, its children in creation order, and the
 * visit count and reward sum that back-propagation updates in place.
 * Rewards are integer hundredths, like the evaluator's scores.
 */
module MctsNode {

  /** A UCB value: `float('inf')` for a node never visited, a number
      otherwise. */
  datatype Ucb = Infinite | Finite(value: real)

  /** The strict order `a > b` on UCB values; infinity is above every
      number and not above itself. */
  predicate Above(a: Ucb, b: Ucb) {
    match a
    case Infinite => b.Finite?
    case Finite(x) => b.Finite? && x > b.value
  }

  /** `is_fully_expanded`'s default bound. */
  const MaxChildren: nat := 5

  /** The UCB formula on the numbers it reads: infinite for a node never
      visited, otherwise the mean reward plus the exploration term.  The
      exploration term `1.41 * sqrt(log(parentVisits + 1) / visits)` is a
      parameter, since square roots and logarithms are not modelled. */
  function UcbOf(rewardSum: int, visits: nat, parentVisits: nat, explore: (nat, nat) -> real): (u: Ucb)
    ensures u.Infinite? <==> visits == 0
    ensures u.Finite? ==> u.value - explore(parentVisits, visits) == (rewardSum as real / 100.0) / visits as real
  {
    if visits == 0 then Infinite
    else Finite((rewardSum as real / 100.0) / visits as real + explore(parentVisits, visits))
  }

  /** A node never visited is ranked above every visited one. */
  lemma UnvisitedFirst(explore: (nat, nat) -> real, r: int, pv: nat, r': int, v': nat, pv': nat)
    requires v' > 0
    ensures Above(UcbOf(r, 0, pv, explore), UcbOf(r', v', pv', explore))
    ensures !Above(UcbOf(r', v', pv', explore), UcbOf(r, 0, pv, explore))
  {
  }

  /** The index Python's `max` returns: it keeps the first key and replaces
      it only by a strictly greater one, so the result is the first maximal
      key. */
  function FirstMax(ks: seq<Ucb>): (i: nat)
    requires |ks| > 0
    ensures i < |ks|
    ensures forall j :: 0 <= j < |ks| ==> !Above(ks[j], ks[i])
    ensures forall j :: 0 <= j < i ==> Above(ks[i], ks[j])
  {
    if |ks| == 1 then 0
    else
      var m := FirstMax(ks[..|ks| - 1]);
      if Above(ks[|ks| - 1], ks[m]) then |ks| - 1 else m
  }

  class Node {
    const query: string
    const parent: Node?
    var children: seq<Node>
    var visits: nat
    var rewardSum: int
    /** `is_terminal`: a field that defaults to false and that no code
        path sets. */
    const isTerminal: bool := false

    /** `MCTSNode(sql_query, parent)`: no children, no visits, no reward. */
    constructor (query: string, parent: Node?)
      ensures this.query == query && this.parent == parent
      ensures children == [] && visits == 0 && rewardSum == 0
    {
      this.query := query;
      this.parent := parent;
      children := [];
      visits := 0;
      rewardSum := 0;
    }

    /** `ucb_score`.  A visited node reads its parent's visit count, so it
        must have a parent. */
    function UcbScore(explore: (nat, nat) -> real): (u: Ucb)
      reads this, parent
      requires visits > 0 ==> parent != null
      ensures u.Infinite? <==> visits == 0
    {
      UcbOf(rewardSum, visits, if parent == null then 0 else parent.visits, explore)
    }

    /** `is_fully_expanded`: at least five children. */
    predicate IsFullyExpanded()
      reads this
    {
      |children| >= MaxChildren
    }

    /** The UCB score of every child, in order. */
    function ChildKeys(explore: (nat, nat) -> real): (ks: seq<Ucb>)
      reads this, children
      requires forall c :: c in children ==> c.parent == this
      ensures |ks| == |children|
      ensures forall i :: 0 <= i < |children| ==> ks[i] == children[i].UcbScore(explore)
    {
      seq(|children|, i reads this, children requires 0 <= i < |children| && children[i].parent == this
                    => children[i].UcbScore(explore))
    }

    /** `best_child`: the child with the highest UCB score, the first such
        child when several tie. */
    function BestChild(explore: (nat, nat) -> real): (c: Node)
      reads this, children
      requires |children| > 0
      requires forall c :: c in children ==> c.parent == this
      ensures c in children
      ensures forall d :: d in children ==> !Above(d.UcbScore(explore), c.UcbScore(explore))
      ensures exists i :: 0 <= i < |children| && c == children[i]
                && forall j :: 0 <= j < i ==> Above(c.UcbScore(explore), children[j].UcbScore(explore))
    {
      var ks := ChildKeys(explore);
      var i := FirstMax(ks);
      assert forall d :: d in children ==> exists j :: 0 <= j < |children| && d == children[j];
      children[i]
    }

    /** `add_child`: a fresh node for `q`, with this node as its parent, is
        appended to the children; nothing else changes. */
    method AddChild(q: string) returns (child: Node)
      modifies this
      ensures fresh(child)
      ensures child.query == q && child.parent == this
      ensures child.children == [] && child.visits == 0 && child.rewardSum == 0
      ensures children == old(children) + [child]
      ensures visits == old(visits) && rewardSum == old(rewardSum)
    {
      child := new Node(q, this);
      children := children + [child];
    }
  }
}
