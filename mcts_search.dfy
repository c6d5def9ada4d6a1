/**
 * `MCTSTextToSQL.mcts_search`, `_traverse_tree` and `simple_baseline`.
 *
 * The language model and the database are parameters: `Ask(backend,
 * prompt, call)` is the reply to the `call`-th request (call 0 produces the
 * root query, call `i + 1` the query of iteration `i`), and `Run(db, query)`
 * is what executing `query` yields.  The loop breaks at the first time
 * check that finds the time used up, so the checks that are made pass for
 * a first run of iterations and the last one may fail, whatever the clock
 * does: the parameter `timely` is how many iteration starts find time
 * left.
 */
module MctsSearch {
  import opened Wrappers
  import opened LlmHandler
  import opened SqlEvaluator
  import opened Prompts
  import opened MctsNode

  /** The language model's replies, by prompt and call number.  A request
      without an entry fails, as an unreachable server does. */
  type Backend = map<(string, nat), Reply>

  /** What executing each query yields.  A query without an entry fails. */
  type Database = map<string, Execution>

  function Ask(backend: Backend, prompt: string, call: nat): Reply {
    if (prompt, call) in backend then backend[(prompt, call)] else Failure
  }

  function Run(db: Database, query: string): Execution {
    if query in db then db[query] else Failed
  }

  // ---------------------------------------------------------------------
  // What the iterations compute
  // ---------------------------------------------------------------------

  /** The query iteration `i` proposes: the reply to the `i`-th variation
      of the base prompt, cleaned by the handler. */
  function IterationQuery(base: string, backend: Backend, i: nat): string {
    GenerateSql(Ask(backend, Variation(base, i), i + 1))
  }

  /** How many iterations run: `num_iterations` of them, or fewer when the
      time check stops the loop first. */
  function Runs(numIterations: int, timely: nat): (k: nat)
    ensures k <= timely && (numIterations >= 0 ==> k <= numIterations)
    ensures k == timely || k == IterationBound(numIterations)
  {
    var bound := IterationBound(numIterations);
    if bound < timely then bound else timely
  }

  /** `num_iterations` as `range` reads it: a negative count runs nothing. */
  function IterationBound(numIterations: int): nat {
    if numIterations < 0 then 0 else numIterations
  }

  /** The scores from position `a` on, added up. */
  function SumFrom(ss: seq<int>, a: nat): int
    decreases |ss| - a
  {
    if a >= |ss| then 0 else ss[a] + SumFrom(ss, a + 1)
  }

  /** The best score and query: the search starts from 0 and the root query
      and takes an iteration's query only when its score is strictly
      greater than the best so far. */
  function Best(rootQuery: string, qs: seq<string>, ss: seq<int>): (int, string)
    requires |qs| == |ss|
  {
    if ss == [] then (0, rootQuery)
    else
      var prev := Best(rootQuery, qs[..|qs| - 1], ss[..|ss| - 1]);
      if ss[|ss| - 1] > prev.0 then (ss[|ss| - 1], qs[|qs| - 1]) else prev
  }

  /** `np.mean`: undefined (NaN in the source) for no scores. */
  function Mean(ss: seq<int>): (m: Option<real>)
    ensures m.None? <==> ss == []
  {
    if ss == [] then None else Some(SumFrom(ss, 0) as real / |ss| as real)
  }

  /** Last score minus first score, 0 for fewer than two. */
  function Improvement(ss: seq<int>): int {
    if |ss| > 1 then ss[|ss| - 1] - ss[0] else 0
  }

  /** With every score in [0.1, 1.0], the improvement is 0 for fewer than
      two scores and otherwise lies between -0.9 and 0.9; it is positive
      exactly when the last score beats the first. */
  lemma ImprovementBounds(ss: seq<int>)
    requires forall i :: 0 <= i < |ss| ==> FailureScore <= ss[i] <= MaxScore
    ensures |ss| <= 1 ==> Improvement(ss) == 0
    ensures FailureScore - MaxScore <= Improvement(ss) <= MaxScore - FailureScore
    ensures |ss| > 1 ==> (Improvement(ss) > 0 <==> ss[|ss| - 1] > ss[0])
  {
  }

  /** The metrics dictionary, less the wall-clock execution time. */
  datatype Metrics = Metrics(
    bestScore: int,
    averageScore: Option<real>,
    scoreImprovement: int,
    iterationScores: seq<int>,
    totalNodesExplored: nat)

  // ---------------------------------------------------------------------
  // The shape of the tree the search builds
  // ---------------------------------------------------------------------

  /** The tree is the chain `nodes[0]` (the root), `nodes[1]`, ...: each
      node's only child is the next one, whose parent it is, and the last
      node is a leaf. */
  ghost predicate Chain(nodes: seq<Node>)
    reads set n | n in nodes
  {
    && |nodes| > 0
    && nodes[0].parent == null
    && (forall a :: 0 <= a < |nodes| - 1 ==> Link(nodes, a))
    && nodes[|nodes| - 1].children == []
  }

  /** Node `a + 1` is the only child of node `a`, and node `a` its parent. */
  ghost predicate Link(nodes: seq<Node>, a: nat)
    reads set n | n in nodes
    requires a + 1 < |nodes|
  {
    nodes[a + 1].parent == nodes[a] && nodes[a].children == [nodes[a + 1]]
  }

  /** The parent links rule out repetitions: no node occurs twice in the
      chain. */
  lemma ChainDistinct(nodes: seq<Node>)
    requires Chain(nodes)
    ensures forall a, b :: 0 <= a < b < |nodes| ==> nodes[a] != nodes[b]
  {
    forall a, b | 0 <= a < b < |nodes| ensures nodes[a] != nodes[b] {
      ChainApart(nodes, a, b);
    }
  }

  lemma {:induction false} ChainApart(nodes: seq<Node>, a: nat, b: nat)
    requires Chain(nodes) && a < b < |nodes|
    ensures nodes[a] != nodes[b]
  {
    assert Link(nodes, b - 1);
    if a > 0 {
      assert Link(nodes, a - 1);
      ChainApart(nodes, a - 1, b - 1);
    }
  }

  /** Node `j` was first on the path in iteration `Start(j)`: the root from
      iteration 0 on, the node made in iteration `j - 1` from then on. */
  function Start(j: nat): nat {
    if j == 0 then 0 else j - 1
  }

  /** The statistics after the iterations with scores `ss`: node `j` has
      been visited by every iteration from `Start(j)` on and has summed
      their scores. */
  ghost predicate Stats(nodes: seq<Node>, ss: seq<int>)
    reads set n | n in nodes
  {
    && |nodes| == |ss| + 1
    && forall j :: 0 <= j < |nodes| ==>
         nodes[j].visits == |ss| - Start(j) && nodes[j].rewardSum == SumFrom(ss, Start(j))
  }

  /** The root holds the root query and node `j + 1` the query of
      iteration `j`. */
  ghost predicate Labels(nodes: seq<Node>, rootQuery: string, qs: seq<string>) {
    && |nodes| == |qs| + 1
    && nodes[0].query == rootQuery
    && forall j :: 0 < j < |nodes| ==> nodes[j].query == qs[j - 1]
  }

  /** The visits of a list of children, added up. */
  function ChildVisits(cs: seq<Node>): nat
    reads set c | c in cs
  {
    if cs == [] then 0 else ChildVisits(cs[..|cs| - 1]) + cs[|cs| - 1].visits
  }

  /** The child queries, as the duplicate check lists them. */
  function ChildQueries(cs: seq<Node>): (qs: seq<string>)
    reads set c | c in cs
    ensures |qs| == |cs|
    ensures forall i :: 0 <= i < |cs| ==> qs[i] == cs[i].query
  {
    if cs == [] then [] else ChildQueries(cs[..|cs| - 1]) + [cs[|cs| - 1].query]
  }

  // ---------------------------------------------------------------------
  // The search
  // ---------------------------------------------------------------------

  /** `mcts_search`: the base prompt, the root query, then the iterations.
      The ghost `qs` are the queries of the iterations that ran. */
  method Search(schema: Schema, question: string, numIterations: int,
                backend: Backend, db: Database, timely: nat,
                explore: (nat, nat) -> real)
    returns (bestQuery: string, metrics: Metrics, ghost qs: seq<string>, ghost nodes: seq<Node>)
    ensures var base := BasePrompt(schema, question);
            var rootQuery := GenerateSql(Ask(backend, base, 0));
            Outcome(base, rootQuery, numIterations, backend, db, timely, bestQuery, metrics, qs, nodes)
  {
    var basePrompt := CreateBasePrompt(schema, question);
    var rootQuery := GenerateSql(Ask(backend, basePrompt, 0));
    bestQuery, metrics, qs, nodes := SearchFrom(basePrompt, rootQuery, numIterations, backend, db, timely, explore);
  }

  /** What a search from a base prompt and a root query gives: the queries
      and scores of the iterations that ran, the best of them, the metrics
      computed from the scores, and the tree as a chain with its labels and
      statistics. */
  ghost predicate Outcome(basePrompt: string, rootQuery: string, numIterations: int,
                          backend: Backend, db: Database, timely: nat,
                          bestQuery: string, metrics: Metrics, qs: seq<string>, nodes: seq<Node>)
    reads set n | n in nodes
  {
    var k := Runs(numIterations, timely);
    && Tracked(basePrompt, backend, db, rootQuery, k, qs, metrics.iterationScores, metrics.bestScore, bestQuery)
    && metrics.averageScore == Mean(metrics.iterationScores)
    && metrics.scoreImprovement == Improvement(metrics.iterationScores)
    && metrics.totalNodesExplored == k + 1
    && Chain(nodes) && Stats(nodes, metrics.iterationScores) && Labels(nodes, rootQuery, qs)
  }

  /** The shape of the search's outcome: after its `k` iterations the tree
      has `k + 1` nodes, as `total_nodes_explored` reports, there are `k`
      iteration scores, and the root holds the root query and has been
      visited `k` times. */
  lemma OutcomeShape(basePrompt: string, rootQuery: string, numIterations: int,
                     backend: Backend, db: Database, timely: nat,
                     bestQuery: string, metrics: Metrics, qs: seq<string>, nodes: seq<Node>)
    requires Outcome(basePrompt, rootQuery, numIterations, backend, db, timely, bestQuery, metrics, qs, nodes)
    ensures var k := Runs(numIterations, timely);
            && |nodes| == metrics.totalNodesExplored == k + 1 && |metrics.iterationScores| == k
            && nodes[0].query == rootQuery && nodes[0].visits == k
  {
  }

  /** Every iteration score lies between 0.1 and 1.0, and so does the
      average when an iteration ran. */
  lemma OutcomeScores(basePrompt: string, rootQuery: string, numIterations: int,
                      backend: Backend, db: Database, timely: nat,
                      bestQuery: string, metrics: Metrics, qs: seq<string>, nodes: seq<Node>)
    requires Outcome(basePrompt, rootQuery, numIterations, backend, db, timely, bestQuery, metrics, qs, nodes)
    ensures var ss := metrics.iterationScores;
            && (forall j :: 0 <= j < |ss| ==> FailureScore <= ss[j] <= MaxScore)
            && (|ss| > 0 ==> metrics.averageScore.Some?
                             && FailureScore as real <= metrics.averageScore.value <= MaxScore as real)
  {
    var ss := metrics.iterationScores;
    if |ss| > 0 {
      AverageInRange(ss);
    }
  }

  /** The best score is at least 0 and every iteration score; the best
      query is the root query while no score beats 0, and otherwise the
      query of the first iteration that reached the best score. */
  lemma OutcomeBest(basePrompt: string, rootQuery: string, numIterations: int,
                    backend: Backend, db: Database, timely: nat,
                    bestQuery: string, metrics: Metrics, qs: seq<string>, nodes: seq<Node>)
    requires Outcome(basePrompt, rootQuery, numIterations, backend, db, timely, bestQuery, metrics, qs, nodes)
    ensures var ss := metrics.iterationScores;
            && 0 <= metrics.bestScore
            && (forall j :: 0 <= j < |ss| ==> ss[j] <= metrics.bestScore)
            && (metrics.bestScore == 0 ==> bestQuery == rootQuery)
            && (metrics.bestScore != 0 ==> exists j :: 0 <= j < |ss| && ss[j] == metrics.bestScore && qs[j] == bestQuery
                                                  && forall i :: 0 <= i < j ==> ss[i] < metrics.bestScore)
  {
    BestIsMax(rootQuery, qs, metrics.iterationScores);
    BestIsFirst(rootQuery, qs, metrics.iterationScores);
  }

  /** The iterations of `mcts_search` from a base prompt and a root query,
      and the metrics they give. */
  method SearchFrom(basePrompt: string, rootQuery: string, numIterations: int,
                    backend: Backend, db: Database, timely: nat,
                    explore: (nat, nat) -> real)
    returns (bestQuery: string, metrics: Metrics, ghost qs: seq<string>, ghost nodes: seq<Node>)
    ensures Outcome(basePrompt, rootQuery, numIterations, backend, db, timely, bestQuery, metrics, qs, nodes)
  {
    var root := new Node(rootQuery, null);
    var bestScore, scores;
    bestScore, bestQuery, scores, qs, nodes := Iterations(root, basePrompt, numIterations, backend, db, timely, explore);
    var order := Traverse(root, nodes, 0);
    metrics := Metrics(bestScore, Mean(scores), Improvement(scores), scores, |order|);
  }

  /** The loop of `mcts_search`: while iterations are left and the time
      check passes, one iteration, and the best query and score so far. */
  method Iterations(root: Node, basePrompt: string, numIterations: int,
                    backend: Backend, db: Database, timely: nat,
                    explore: (nat, nat) -> real)
    returns (bestScore: int, bestQuery: string, scores: seq<int>, ghost qs: seq<string>, ghost nodes: seq<Node>)
    requires root.parent == null && root.children == []
    requires root.visits == 0 && root.rewardSum == 0
    modifies root
    ensures Searched(root, nodes, basePrompt, backend, db, Runs(numIterations, timely), qs, scores, bestScore, bestQuery)
  {
    bestScore, bestQuery := 0, root.query;
    scores := [];
    nodes := [root];
    var n := IterationBound(numIterations);
    var i := 0;
    qs := [];
    SearchStarts(root, basePrompt, backend, db);
    while i < n && i < timely
      invariant i <= n && i <= timely
      invariant Searched(root, nodes, basePrompt, backend, db, i, qs, scores, bestScore, bestQuery)
      invariant forall n :: n in nodes ==> n == root || fresh(n)
    {
      bestScore, bestQuery, scores, qs, nodes := Step(root, nodes, qs, scores, bestScore, bestQuery, basePrompt, i, backend, db, explore);
      i := i + 1;
    }
    assert i == Runs(numIterations, timely);
  }

  /** One pass of the loop body: an iteration, then the best query and
      score are updated when the new score is strictly greater. */
  method Step(root: Node, ghost nodes: seq<Node>, ghost qs: seq<string>, scores: seq<int>,
              bestScore: int, bestQuery: string, basePrompt: string, i: nat,
              backend: Backend, db: Database, explore: (nat, nat) -> real)
    returns (bestScore': int, bestQuery': string, scores': seq<int>, ghost qs': seq<string>, ghost nodes': seq<Node>)
    requires Searched(root, nodes, basePrompt, backend, db, i, qs, scores, bestScore, bestQuery)
    modifies set n | n in nodes
    ensures Searched(root, nodes', basePrompt, backend, db, i + 1, qs', scores', bestScore', bestQuery')
    ensures forall n :: n in nodes' ==> n in nodes || fresh(n)
  {
    var query, score, leaf := Iterate(root, nodes, scores, basePrompt, i, backend, db, explore);
    nodes' := nodes + [leaf];
    LabelsSnoc(nodes', root.query, qs, query);
    TrackedStep(basePrompt, backend, db, root.query, i, qs, scores, bestScore, bestQuery, query, score);
    qs', scores' := qs + [query], scores + [score];
    var best := if score > bestScore then (score, query) else (bestScore, bestQuery);
    bestScore', bestQuery' := best.0, best.1;
  }

  /** The state of the search after `i` iterations: the bookkeeping, and
      the tree as a chain from `root` with its statistics and labels. */
  ghost predicate Searched(root: Node, nodes: seq<Node>, base: string, backend: Backend, db: Database, i: nat,
                           qs: seq<string>, scores: seq<int>, bestScore: int, bestQuery: string)
    reads set n | n in nodes
  {
    && Tracked(base, backend, db, root.query, i, qs, scores, bestScore, bestQuery)
    && Chain(nodes) && Stats(nodes, scores) && nodes[0] == root && Labels(nodes, root.query, qs)
  }

  /** Before the first iteration the tree is the root alone, no query has
      been made, and the best is 0 with the root query. */
  lemma SearchStarts(root: Node, base: string, backend: Backend, db: Database)
    requires root.parent == null && root.children == []
    requires root.visits == 0 && root.rewardSum == 0
    ensures Searched(root, [root], base, backend, db, 0, [], [], 0, root.query)
  {
  }

  /** The bookkeeping of the first `i` iterations: their queries, their
      scores, and the best score and query among them. */
  ghost predicate Tracked(base: string, backend: Backend, db: Database, rootQuery: string, i: nat,
                          qs: seq<string>, scores: seq<int>, bestScore: int, bestQuery: string)
  {
    && |qs| == i && (forall j :: 0 <= j < i ==> qs[j] == IterationQuery(base, backend, j))
    && |scores| == i && (forall j :: 0 <= j < i ==> scores[j] == QueryScore(qs[j], Run(db, qs[j])))
    && (bestScore, bestQuery) == Best(rootQuery, qs, scores)
  }

  lemma TrackedStep(base: string, backend: Backend, db: Database, rootQuery: string, i: nat,
                    qs: seq<string>, scores: seq<int>, bestScore: int, bestQuery: string, q: string, x: int)
    requires Tracked(base, backend, db, rootQuery, i, qs, scores, bestScore, bestQuery)
    requires q == IterationQuery(base, backend, i) && x == QueryScore(q, Run(db, q))
    ensures var (b, bq) := if x > bestScore then (x, q) else (bestScore, bestQuery);
            Tracked(base, backend, db, rootQuery, i + 1, qs + [q], scores + [x], b, bq)
  {
    BestStep(rootQuery, qs, scores, q, x);
    var qs', scores' := qs + [q], scores + [x];
    forall j | 0 <= j < i + 1
      ensures qs'[j] == IterationQuery(base, backend, j)
      ensures scores'[j] == QueryScore(qs'[j], Run(db, qs'[j]))
    {
      if j < i {
        assert qs'[j] == qs[j] && scores'[j] == scores[j];
      }
    }
  }

  /** One iteration of the search on the chain `nodes` built so far: the
      descent reaches the last node, which gets a child for the iteration's
      query; the child is scored and the score is propagated along the
      whole chain. */
  method Iterate(root: Node, ghost nodes: seq<Node>, ghost scores: seq<int>, basePrompt: string, i: nat,
                 backend: Backend, db: Database, explore: (nat, nat) -> real)
    returns (query: string, score: int, leaf: Node)
    requires Chain(nodes) && Stats(nodes, scores) && nodes[0] == root
    modifies set n | n in nodes
    ensures query == IterationQuery(basePrompt, backend, i) && score == QueryScore(query, Run(db, query))
    ensures fresh(leaf) && leaf.query == query
    ensures Chain(nodes + [leaf]) && Stats(nodes + [leaf], scores + [score])
  {
    var node, path := Select(root, nodes, explore);
    var path';
    leaf, path' := Expand(node, path, basePrompt, i, backend, scores);
    query := leaf.query;
    score := EvaluateQuery(query, Run(db, query));
    assert path'[..|path|] == path;
    Backpropagate(path', score, scores);
  }

  /** The selection loop: from the root, follow `best_child` while the node
      has children and is not terminal.  On the chain it walks every node
      and stops at the last. */
  method Select(root: Node, ghost nodes: seq<Node>, explore: (nat, nat) -> real)
    returns (node: Node, path: seq<Node>)
    requires Chain(nodes) && nodes[0] == root
    ensures path == nodes && node == nodes[|nodes| - 1]
  {
    node := root;
    path := [root];
    while |node.children| > 0 && !node.isTerminal
      invariant 0 < |path| <= |nodes| && path == nodes[..|path|] && node == path[|path| - 1]
      decreases |nodes| - |path|
    {
      Descend(nodes, |path| - 1);
      node := node.BestChild(explore);
      path := path + [node];
    }
    DescentStops(nodes, |path| - 1);
  }

  /** The expansion step: a node with fewer than five children gets a child
      for the query of the `i`-th prompt variation, unless a child already
      holds that query.  At the leaf of the chain that is always the case,
      and the chain grows by the new node. */
  method Expand(node: Node, path: seq<Node>, basePrompt: string, i: nat, backend: Backend, ghost ss: seq<int>)
    returns (leaf: Node, path': seq<Node>)
    requires Chain(path) && Stats(path, ss) && node == path[|path| - 1]
    modifies node
    ensures fresh(leaf) && leaf.query == IterationQuery(basePrompt, backend, i)
    ensures leaf.visits == 0 && leaf.rewardSum == 0
    ensures path' == path + [leaf] && Chain(path') && Stats(path, ss)
  {
    ChainChildren(path, |path| - 1);
    leaf, path' := node, path;
    if !node.IsFullyExpanded() {
      var newPrompt := Variation(basePrompt, i);
      var newQuery := GenerateSql(Ask(backend, newPrompt, i + 1));
      if newQuery !in ChildQueries(node.children) {
        leaf := AddLeaf(path, newQuery, ss);
        path' := path' + [leaf];
      }
    }
  }

  /** `add_child` on the last node of the chain: the chain grows by the new
      node and the statistics so far are untouched. */
  method AddLeaf(path: seq<Node>, q: string, ghost ss: seq<int>) returns (leaf: Node)
    requires Chain(path) && Stats(path, ss)
    modifies path[|path| - 1]
    ensures fresh(leaf) && leaf.query == q && leaf.visits == 0 && leaf.rewardSum == 0
    ensures Chain(path + [leaf]) && Stats(path, ss)
  {
    var last := path[|path| - 1];
    ChainDistinct(path);
    leaf := last.AddChild(q);
    ghost var grown := path + [leaf];
    forall a | 0 <= a < |path| ensures Link(grown, a) {
      if a < |path| - 1 {
        assert old(Link(path, a)) && path[a] != last;
      }
    }
  }

  lemma LabelsSnoc(nodes: seq<Node>, rootQuery: string, qs: seq<string>, q: string)
    requires |nodes| == |qs| + 2 && nodes[|nodes| - 1].query == q
    requires Labels(nodes[..|nodes| - 1], rootQuery, qs)
    ensures Labels(nodes, rootQuery, qs + [q])
  {
  }

  /** In the chain, a node that has children has exactly the next node as
      its only child, and `best_child` picks it. */
  lemma Descend(nodes: seq<Node>, d: nat)
    requires Chain(nodes) && d < |nodes| && |nodes[d].children| > 0
    ensures d + 1 < |nodes| && nodes[d].children == [nodes[d + 1]] && nodes[d + 1].parent == nodes[d]
  {
    ChainChildren(nodes, d);
  }

  /** A node of the chain has children and is not terminal exactly when it
      is not the last one: the descent stops at the last node. */
  lemma DescentStops(nodes: seq<Node>, d: nat)
    requires Chain(nodes) && d < |nodes|
    ensures (|nodes[d].children| > 0 && !nodes[d].isTerminal) <==> d < |nodes| - 1
  {
    ChainChildren(nodes, d);
  }

  lemma ChainChildren(nodes: seq<Node>, d: nat)
    requires Chain(nodes) && d < |nodes|
    ensures d < |nodes| - 1 ==> nodes[d].children == [nodes[d + 1]] && nodes[d + 1].parent == nodes[d]
    ensures d == |nodes| - 1 ==> nodes[d].children == []
  {
    if d < |nodes| - 1 {
      assert Link(nodes, d);
    }
  }

  /** The back-propagation loop: every node on the path gains one visit and
      the score, and nothing else changes.  On the chain whose last node is
      the fresh child, the statistics then account for the new score. */
  method Backpropagate(path: seq<Node>, score: int, ghost ss: seq<int>)
    requires Chain(path) && |path| == |ss| + 2 && Stats(path[..|path| - 1], ss)
    requires path[|path| - 1].visits == 0 && path[|path| - 1].rewardSum == 0
    modifies set n | n in path
    ensures Chain(path) && Stats(path, ss + [score])
  {
    ChainDistinct(path);
    for p := 0 to |path|
      invariant forall j :: 0 <= j < |path| ==>
                  path[j].visits == old(path[j].visits) + (if j < p then 1 else 0)
                  && path[j].rewardSum == old(path[j].rewardSum) + (if j < p then score else 0)
      invariant forall j :: 0 <= j < |path| ==> path[j].children == old(path[j].children)
    {
      var n := path[p];
      n.visits := n.visits + 1;
      n.rewardSum := n.rewardSum + score;
    }
    forall j | 0 <= j < |path|
      ensures path[j].visits == |ss| + 1 - Start(j)
      ensures path[j].rewardSum == SumFrom(ss + [score], Start(j))
    {
      SumSnoc(ss, Start(j), score);
      if j < |path| - 1 {
        assert path[..|path| - 1][j] == path[j];
      }
    }
    forall a | 0 <= a < |path| - 1 ensures Link(path, a) {
      assert old(Link(path, a));
    }
  }

  /** `_traverse_tree`: the node, then the traversal of each child in turn.
      On the chain it lists the nodes from `j` on, in order. */
  method Traverse(node: Node, ghost nodes: seq<Node>, ghost j: nat) returns (order: seq<Node>)
    requires Chain(nodes) && j < |nodes| && node == nodes[j]
    ensures order == nodes[j..]
    decreases |nodes| - j
  {
    ChainChildren(nodes, j);
    order := [node];
    for c := 0 to |node.children|
      invariant c <= |node.children| <= 1
      invariant c == 0 ==> order == [node]
      invariant c == 1 ==> order == nodes[j..]
    {
      var sub := Traverse(node.children[c], nodes, j + 1);
      order := order + sub;
    }
  }

  /** `simple_baseline`: the base prompt's query and its score. */
  method SimpleBaseline(schema: Schema, question: string, backend: Backend, db: Database)
    returns (query: string, score: int)
    ensures query == GenerateSql(Ask(backend, BasePrompt(schema, question), 0))
    ensures score == QueryScore(query, Run(db, query))
  {
    var prompt := CreateBasePrompt(schema, question);
    query := GenerateSql(Ask(backend, prompt, 0));
    score := EvaluateQuery(query, Run(db, query));
  }

  // ---------------------------------------------------------------------
  // Properties
  // ---------------------------------------------------------------------

  lemma {:induction false} SumSnoc(ss: seq<int>, a: nat, x: int)
    requires a <= |ss|
    ensures SumFrom(ss + [x], a) == SumFrom(ss, a) + x
    decreases |ss| - a
  {
    if a < |ss| {
      SumSnoc(ss, a + 1, x);
      assert (ss + [x])[a] == ss[a];
    }
  }

  lemma BestStep(rootQuery: string, qs: seq<string>, ss: seq<int>, q: string, x: int)
    requires |qs| == |ss|
    ensures var prev := Best(rootQuery, qs, ss);
            Best(rootQuery, qs + [q], ss + [x]) == if x > prev.0 then (x, q) else prev
  {
    assert (qs + [q])[..|qs|] == qs;
    assert (ss + [x])[..|ss|] == ss;
  }

  /** The best score is the maximum of 0 and the iteration scores. */
  lemma {:induction false} BestIsMax(rootQuery: string, qs: seq<string>, ss: seq<int>)
    requires |qs| == |ss|
    ensures var b := Best(rootQuery, qs, ss);
            && 0 <= b.0
            && (forall i :: 0 <= i < |ss| ==> ss[i] <= b.0)
            && (b.0 == 0 || exists i :: 0 <= i < |ss| && ss[i] == b.0)
  {
    if ss != [] {
      var init := ss[..|ss| - 1];
      BestIsMax(rootQuery, qs[..|qs| - 1], init);
      var prev := Best(rootQuery, qs[..|qs| - 1], init);
      assert forall i :: 0 <= i < |init| ==> ss[i] == init[i];
      if prev.0 != 0 {
        var w :| 0 <= w < |init| && init[w] == prev.0;
        assert ss[w] == prev.0;
      }
    }
  }

  /** The best query is the root query while no score beats 0, and
      otherwise the query of the first iteration reaching the best score. */
  lemma {:induction false} BestIsFirst(rootQuery: string, qs: seq<string>, ss: seq<int>)
    requires |qs| == |ss|
    ensures var b := Best(rootQuery, qs, ss);
            && (b.0 == 0 ==> b.1 == rootQuery)
            && (b.0 != 0 ==> exists i :: 0 <= i < |ss| && ss[i] == b.0 && qs[i] == b.1
                                      && forall j :: 0 <= j < i ==> ss[j] < b.0)
  {
    if ss != [] {
      var init, qinit := ss[..|ss| - 1], qs[..|qs| - 1];
      BestIsFirst(rootQuery, qinit, init);
      BestIsMax(rootQuery, qinit, init);
      var prev := Best(rootQuery, qinit, init);
      if ss[|ss| - 1] > prev.0 {
        assert forall j :: 0 <= j < |init| ==> ss[j] == init[j];
      } else if prev.0 != 0 {
        var w :| 0 <= w < |init| && init[w] == prev.0 && qinit[w] == prev.1
                 && forall j :: 0 <= j < w ==> init[j] < prev.0;
        assert ss[w] == prev.0 && qs[w] == prev.1;
      }
    }
  }

  /** The best score never decreases as iterations run. */
  lemma {:induction false} BestMonotone(rootQuery: string, qs: seq<string>, ss: seq<int>, m: nat)
    requires |qs| == |ss| && m <= |ss|
    ensures Best(rootQuery, qs[..m], ss[..m]).0 <= Best(rootQuery, qs, ss).0
  {
    if m < |ss| {
      var init, qinit := ss[..|ss| - 1], qs[..|qs| - 1];
      assert init[..m] == ss[..m] && qinit[..m] == qs[..m];
      BestMonotone(rootQuery, qinit, init, m);
    } else {
      assert ss[..m] == ss && qs[..m] == qs;
    }
  }

  /** Scores between `lo` and `hi` sum to between `lo` and `hi` times
      their number. */
  lemma {:induction false} SumBounds(ss: seq<int>, a: nat, lo: int, hi: int)
    requires a <= |ss|
    requires forall i :: 0 <= i < |ss| ==> lo <= ss[i] <= hi
    ensures lo * (|ss| - a) <= SumFrom(ss, a) <= hi * (|ss| - a)
    decreases |ss| - a
  {
    if a < |ss| {
      SumBounds(ss, a + 1, lo, hi);
      assert lo * (|ss| - a) == lo + lo * (|ss| - (a + 1));
      assert hi * (|ss| - a) == hi + hi * (|ss| - (a + 1));
    }
  }

  /** Scores between 0.1 and 1.0 average to between 0.1 and 1.0. */
  lemma AverageInRange(ss: seq<int>)
    requires |ss| > 0
    requires forall i :: 0 <= i < |ss| ==> FailureScore <= ss[i] <= MaxScore
    ensures var m := Mean(ss);
            m.Some? && FailureScore as real <= m.value <= MaxScore as real
  {
    SumBounds(ss, 0, FailureScore, MaxScore);
    QuotientBetween(SumFrom(ss, 0), |ss|, FailureScore, MaxScore);
  }

  lemma QuotientBetween(s: int, n: int, lo: int, hi: int)
    requires n > 0 && lo * n <= s <= hi * n
    ensures lo as real <= s as real / n as real <= hi as real
  {
    var q := s as real / n as real;
    assert q * n as real == s as real;
    assert (q - lo as real) * n as real == s as real - (lo * n) as real;
    assert (hi as real - q) * n as real == (hi * n) as real - s as real;
  }

  /** The tree the search builds keeps the statistics consistent: the root
      has one visit per iteration, a node's visits cover its children's, no
      node has more than five children, and siblings hold distinct
      queries. */
  lemma TreeInvariants(nodes: seq<Node>, ss: seq<int>)
    requires Chain(nodes) && Stats(nodes, ss)
    ensures nodes[0].visits == |ss| && nodes[0].rewardSum == SumFrom(ss, 0)
    ensures forall j :: 0 <= j < |nodes| ==> |nodes[j].children| <= MaxChildren
    ensures forall j :: 0 <= j < |nodes| ==> ChildVisits(nodes[j].children) <= nodes[j].visits
    ensures forall j, a, b :: 0 <= j < |nodes| && 0 <= a < b < |nodes[j].children| ==>
              nodes[j].children[a].query != nodes[j].children[b].query
  {
    forall j | 0 <= j < |nodes|
      ensures |nodes[j].children| <= 1
      ensures ChildVisits(nodes[j].children) <= nodes[j].visits
    {
      ChainChildren(nodes, j);
      if j < |nodes| - 1 {
        var cs := nodes[j].children;
        assert cs[..0] == [];
        assert ChildVisits(cs) == nodes[j + 1].visits;
      }
    }
  }

  /** No node of the tree the search builds is fully expanded: each has at
      most one child, fewer than five, so the cap check before an expansion
      never stops it. */
  lemma NeverFull(nodes: seq<Node>)
    requires Chain(nodes)
    ensures forall j :: 0 <= j < |nodes| ==> !nodes[j].IsFullyExpanded()
  {
    forall j | 0 <= j < |nodes| ensures |nodes[j].children| <= 1 {
      ChainChildren(nodes, j);
    }
  }

  /** When the backend answers the base prompt's second request (that of
      iteration 0) as it answered the first, and at least one iteration
      runs, the search's best score is at least the baseline's: iteration 0
      sends the base prompt unchanged, so it scores the baseline's query. */
  lemma SearchCoversBaseline(schema: Schema, question: string, numIterations: int,
                             backend: Backend, db: Database, timely: nat,
                             bestQuery: string, metrics: Metrics, qs: seq<string>, nodes: seq<Node>)
    requires Ask(backend, BasePrompt(schema, question), 1) == Ask(backend, BasePrompt(schema, question), 0)
    requires Runs(numIterations, timely) > 0
    requires var base := BasePrompt(schema, question);
             Outcome(base, GenerateSql(Ask(backend, base, 0)), numIterations, backend, db, timely,
                     bestQuery, metrics, qs, nodes)
    ensures var q := GenerateSql(Ask(backend, BasePrompt(schema, question), 0));
            QueryScore(q, Run(db, q)) <= metrics.bestScore
  {
    var base := BasePrompt(schema, question);
    assert Variation(base, 0) == base;
    assert qs[0] == IterationQuery(base, backend, 0);
    BestIsMax(GenerateSql(Ask(backend, base, 0)), qs, metrics.iterationScores);
  }
}
