/**
 * `SQLEvaluator.evaluate_query`: the additive, clamped score of one SQL
 * query.  Scores are integer hundredths (0.1 is 10, 1.0 is 100); the
 * database is reduced to what the rule looks at, whether the query ran and
 * how many rows it returned.
 */
module SqlEvaluator {
  import opened Text

  /** What executing a query yields: an error, or a row count (0 when the
      result holds no data). */
  datatype Execution = Failed | Succeeded(rowCount: nat)

  /** The keywords that earn a bonus, in the order they are tested. */
  const Keywords: seq<string> := ["JOIN", "GROUP BY", "ORDER BY", "HAVING", "WHERE"]

  const FailureScore: int := 10
  const BaseScore: int := 40
  const DataBonus: int := 20
  const FewRowsBonus: int := 20
  const ManyRowsBonus: int := 10
  const KeywordBonus: int := 5
  const MaxScore: int := 100
  const MaxFewRows: nat := 1000

  /** What the rows add: nothing without data, otherwise 0.2 plus 0.2 for
      1 to 1000 rows or 0.1 for more. */
  function RowBonus(rows: nat): int {
    if rows == 0 then 0
    else DataBonus + (if rows <= MaxFewRows then FewRowsBonus else ManyRowsBonus)
  }

  /** How many of `kws` occur in `u`. */
  function KeywordHits(u: string, kws: seq<string>): (n: nat)
    ensures n <= |kws|
  {
    if kws == [] then 0
    else KeywordHits(u, kws[..|kws| - 1]) + (if Contains(u, kws[|kws| - 1]) then 1 else 0)
  }

  /** The members of `kws` that occur in `u`. */
  ghost function Found(u: string, kws: seq<string>): set<string> {
    set k | k in kws && Contains(u, k)
  }

  /** The score the rule gives `query` when executing it yields `exec`:
      0.1 exactly when the query fails, otherwise between 0.4 and 1.0. */
  function QueryScore(query: string, exec: Execution): (score: int)
    ensures score == FailureScore <==> exec.Failed?
    ensures exec.Succeeded? ==> BaseScore <= score <= MaxScore
  {
    match exec
    case Failed => FailureScore
    case Succeeded(rows) =>
      var raw := BaseScore + RowBonus(rows) + KeywordBonus * KeywordHits(Upper(query), Keywords);
      if raw < MaxScore then raw else MaxScore
  }

  /** `evaluate_query`: 0.1 for a query that fails; otherwise 0.4, the row
      bonuses, 0.05 per keyword found, and at most 1.0. */
  method EvaluateQuery(query: string, exec: Execution) returns (score: int)
    ensures score == QueryScore(query, exec)
  {
    if exec.Failed? {
      return FailureScore;
    }
    score := BaseScore;
    var rows := exec.rowCount;
    if rows > 0 {
      score := score + DataBonus;
      score := score + (if 1 <= rows <= MaxFewRows then FewRowsBonus else ManyRowsBonus);
    }
    var upper := Upper(query);
    for k := 0 to |Keywords|
      invariant score == BaseScore + RowBonus(rows) + KeywordBonus * KeywordHits(upper, Keywords[..k])
    {
      assert Keywords[..k + 1][..k] == Keywords[..k];
      if Contains(upper, Keywords[k]) {
        score := score + KeywordBonus;
      }
    }
    assert Keywords[..|Keywords|] == Keywords;
    if score > MaxScore {
      score := MaxScore;
    }
  }

  /** Without keywords: 0.4 for no rows, 0.8 for 1 to 1000 rows, 0.7 above. */
  lemma NoKeywordScore(query: string, rows: nat)
    requires forall k :: k in Keywords ==> !Contains(Upper(query), k)
    ensures rows == 0 ==> QueryScore(query, Succeeded(rows)) == 40
    ensures 1 <= rows <= 1000 ==> QueryScore(query, Succeeded(rows)) == 80
    ensures rows > 1000 ==> QueryScore(query, Succeeded(rows)) == 70
  {
    NoHits(Upper(query), Keywords);
  }

  lemma {:induction false} NoHits(u: string, kws: seq<string>)
    requires forall k :: k in kws ==> !Contains(u, k)
    ensures KeywordHits(u, kws) == 0
  {
    if kws != [] {
      assert kws[|kws| - 1] in kws;
      NoHits(u, kws[..|kws| - 1]);
    }
  }

  /** Each keyword found adds exactly 0.05 before the clamp: the score of a
      query that runs is `min(0.4 + rows + 0.05 * #keywords found, 1.0)`. */
  lemma KeywordScore(query: string, rows: nat)
    ensures var raw := BaseScore + RowBonus(rows) + KeywordBonus * |Found(Upper(query), Keywords)|;
            QueryScore(query, Succeeded(rows)) == if raw < MaxScore then raw else MaxScore
  {
    var u := Upper(query);
    KeywordsDistinct();
    HitsAreFound(u, Keywords);
  }

  lemma KeywordsDistinct()
    ensures forall i, j :: 0 <= i < j < |Keywords| ==> Keywords[i] != Keywords[j]
  {
    assert forall i :: 0 <= i < |Keywords| ==> Keywords[i][0] == "JGOHW"[i];
  }

  /** With distinct keywords, the hit count is the size of the set found. */
  lemma {:induction false} HitsAreFound(u: string, kws: seq<string>)
    requires forall i, j :: 0 <= i < j < |kws| ==> kws[i] != kws[j]
    ensures KeywordHits(u, kws) == |Found(u, kws)|
  {
    if kws != [] {
      var init, last := kws[..|kws| - 1], kws[|kws| - 1];
      HitsAreFound(u, init);
      var before := Found(u, init);
      var after := Found(u, kws);
      assert last !in init;
      assert kws == init + [last];
      assert forall k :: k in kws <==> k in init || k == last;
      if Contains(u, last) {
        assert last !in before;
        assert after == before + {last};
      } else {
        assert after == before;
      }
    }
  }
}
