# MCTS text-to-SQL search, modelled in Dafny

This project models the search engine of a text-to-SQL system, together with its language-model response parser.

The engine works in four steps:
- It builds a prompt from a database schema and a natural-language question.
- It asks a language model for a candidate SQL query.
- It runs a Monte Carlo tree search over further candidates.
  - Each iteration descends the tree by UCB score.
  - It asks for a new candidate with one of five hinted prompt variations, and adds it as a child.
  - It scores that candidate with an additive, clamped rule. The inputs are whether the query executes and how many rows it returns, plus a bonus per SQL keyword found.
  - It adds the score to every node on the path.
- It returns the best query it has seen, along with the search metrics.

The parser turns the model's free-form reply into one SQL string.
1. It takes the first case-insensitive `SELECT … ;` match, with line feeds turned into spaces.
2. Failing that, it takes the first line that starts with SELECT.
3. Failing that, it takes the whole reply.

The result is stripped in every case. A backend failure becomes the fixed query `SELECT 1;`.

Modules:
- `Wrappers`: `Option`.
- `Text`: the string operations the code relies on:
  - `str.strip`, `str.upper`, `in` on strings, `splitlines` and `join`, on ASCII;
  - their lemmas: strip's shape, uniqueness and idempotence, and splitting a join back into its lines.
- `SqlEvaluator`: `evaluate_query`.
  - Scores are integer hundredths, so 0.1 is 10 and 1.0 is 100.
  - What executing the query yields is the `Execution` value `Failed | Succeeded(rowCount)`.
- `LlmHandler`: `extract_sql_from_response`, and `generate_sql` with the HTTP exchange reduced to a `Reply` value (`Failure | Success(response)`).
- `Prompts`: `create_base_prompt` and `generate_prompt_variations`.
- `MctsNode`: the class `MCTSNode` as a Dafny class.
  - `children`, `visits` and `rewardSum` are mutable fields.
  - `add_child` is a method that modifies its node.
  - `ucb_score`, `is_fully_expanded` and `best_child` are functions that read it.
- `MctsSearch`: `mcts_search`, `_traverse_tree` and `simple_baseline`, as methods over heap nodes.
  - The language model is a map from (prompt, call number) to `Reply`. A missing entry is a failure.
  - The database is a map from query to `Execution`. A missing entry is a failed execution.
  - The time check is modelled by `timely`: the number of iteration starts that still find time left. The loop breaks at the first check that finds the time used up, so no later check runs and `timely` does not need to say anything about one.

As written, the source never sets `is_terminal`, and selection only stops at a node without children. The model proves the consequences instead of assuming them:
- every iteration expands the leaf it reaches;
- the duplicate check always passes;
- after `k` iterations the tree is a chain of `k + 1` nodes.

The search methods keep this chain, with its statistics and labels, as their invariant.

## Model

| member | source | states |
|---|---|---|
| SqlEvaluator.EvaluateQuery | mcts_engine.py:11-30 | the score the loop accumulates is the scoring rule `QueryScore`: 0.1 on failure; otherwise 0.4, the row bonuses and 0.05 per keyword, capped at 1.0 |
| SqlEvaluator.QueryScore | mcts_engine.py:14-30 | the score is exactly 0.1 if and only if execution fails; a query that runs scores between 0.4 and 1.0 |
| SqlEvaluator.NoKeywordScore | mcts_engine.py:20-23 | a query without keywords that runs scores exactly 0.4 for 0 rows, 0.8 for 1 to 1000 rows, and 0.7 for more |
| SqlEvaluator.KeywordScore | mcts_engine.py:25-30 | each distinct keyword found in the upper-cased query adds exactly 0.05 before the cap at 1.0 |
| SqlEvaluator.HitsAreFound | mcts_engine.py:26-28 | for distinct keywords, the number of bonus steps is the size of the set of keywords found |
| SqlEvaluator.KeywordHits | mcts_engine.py:26-28 | at most one bonus per listed keyword |
| MctsNode.UcbOf | mcts_engine.py:44-49 | infinite exactly when the node has no visits; otherwise the mean reward plus the exploration term |
| MctsNode.Node.UcbScore | mcts_engine.py:44-49 | a node's UCB score is infinite if and only if it has never been visited |
| MctsNode.UnvisitedFirst | mcts_engine.py:45-46 | an unvisited node ranks strictly above every visited node |
| MctsNode.FirstMax | mcts_engine.py:55 | the index of the first maximum: nothing ranks above it, and it ranks strictly above every earlier key |
| MctsNode.Node.BestChild | mcts_engine.py:54-55 | returns a child that no child outranks, and that ranks strictly above every earlier child |
| MctsNode.Node.AddChild | mcts_engine.py:57-60 | appends exactly one fresh child holding the query, with this node as its parent, no children, no visits and no reward; the earlier children, their order and this node's statistics are unchanged |
| MctsNode.Node.constructor | mcts_engine.py:32-42 | a new node has the given query and parent, no children, no visits and a zero reward sum |
| Prompts.CreateBasePrompt | mcts_engine.py:68-95 | the prompt the loops build is the template filled with the line-feed join of the schema lines |
| Prompts.CollectSchemaLines | mcts_engine.py:69-75 | the nested loops produce, for each table in order, its header and then one line per name and type that zip pairs |
| Prompts.TableLinesAt | mcts_engine.py:71-75 | a table's first line is its header, and line `i + 1` describes column `i` |
| Prompts.SchemaLineCount | mcts_engine.py:70-75 | the number of schema lines is one per table plus one per zipped column |
| Prompts.SchemaTextLines | mcts_engine.py:77 | when no name or type holds a line feed, splitting the schema text at line feeds gives back exactly the schema lines |
| Prompts.PromptFrame | mcts_engine.py:79-95 | the prompt opens with the instructions and ends with the question in quotes before the closing "SQL Query:" line |
| Prompts.Variation | mcts_engine.py:98-106 | the base prompt is a prefix of every variation, and the variation equals the base exactly when the index is 0 modulo 5 |
| Prompts.VariationPeriodic | mcts_engine.py:98-106 | variations repeat with period 5 |
| MctsSearch.Search | mcts_engine.py:108-157 | the search returns the outcome of its iterations from the base prompt and the query of the base prompt's reply |
| MctsSearch.SearchFrom | mcts_engine.py:110-157 | the best query and metrics are those of the iterations that ran: root visit and node counts, scores, best score and query, average, improvement, with the tree as a chain |
| MctsSearch.OutcomeShape | mcts_engine.py:117-154 | after `k` iterations: `len(iteration_scores) == k`, `total_nodes_explored == k + 1`, and the root holds the root query and has been visited `k` times |
| MctsSearch.OutcomeScores | mcts_engine.py:136-150 | every iteration score lies in [0.1, 1.0], and so does `average_score` when an iteration ran |
| MctsSearch.OutcomeBest | mcts_engine.py:112-140 | the best score is at least 0 and every iteration score; the best query is the root query while no score beats 0, and otherwise the query of the first iteration reaching the best score |
| MctsSearch.Iterations | mcts_engine.py:117-146 | the loop runs `min(num_iterations, timely)` iterations and keeps queries, scores and best score and query in step with them, the tree a chain |
| MctsSearch.Step | mcts_engine.py:117-146 | one pass adds the iteration's query and score and updates the best score and query only on a strictly greater score |
| MctsSearch.SearchStarts | mcts_engine.py:110-114 | before the first iteration the tree is the root alone, no scores are kept, and the best is 0 with the root query |
| MctsSearch.TrackedStep | mcts_engine.py:138-140 | the bookkeeping after `i` iterations plus iteration `i` is the bookkeeping after `i + 1` |
| MctsSearch.Iterate | mcts_engine.py:121-144 | an iteration scores the query of the `i`-th prompt variation, grows the chain by a node holding it, and updates every node's statistics |
| MctsSearch.Select | mcts_engine.py:121-125 | the descent walks the whole chain and stops at its last node |
| MctsSearch.Descend | mcts_engine.py:123-124 | on the chain, `best_child` of a node with children is the next node |
| MctsSearch.DescentStops | mcts_engine.py:123 | a node of the chain has children and is not terminal if and only if it is not the last one |
| MctsSearch.Expand | mcts_engine.py:127-133 | the cap check and the duplicate check both pass at the leaf, and the leaf gets a fresh child holding the iteration's query |
| MctsSearch.AddLeaf | mcts_engine.py:131-133 | adding a child to the last node extends the chain by exactly that node and leaves the statistics alone |
| MctsSearch.Backpropagate | mcts_engine.py:142-144 | every node on the path gains one visit and the score: node `j`'s visits and reward sum count the iterations from the one it was created in on |
| MctsSearch.ChainDistinct | mcts_engine.py:142-144 | the parent links rule out repeated nodes on the path, so each node is updated once |
| MctsSearch.Traverse | mcts_engine.py:159-162 | the pre-order traversal of the chain lists its nodes from the given one on, in order |
| MctsSearch.NeverFull | mcts_engine.py:51-52 | no node of the tree the search builds is fully expanded, so the cap check before an expansion never stops it |
| MctsSearch.TreeInvariants | mcts_engine.py:127-144 | root visits equal the number of iterations and its reward sum their total; no node has more than five children; a node's visits cover its children's; siblings hold distinct queries |
| MctsSearch.BestIsMax | mcts_engine.py:112-113 | the best score is at least 0 and every iteration score, and it is 0 or one of the scores |
| MctsSearch.BestIsFirst | mcts_engine.py:138-140 | the best query is the root query while no score beats 0; otherwise it is the query of the first iteration reaching the best score |
| MctsSearch.BestMonotone | mcts_engine.py:138-140 | the best score never decreases as iterations are added |
| MctsSearch.BestStep | mcts_engine.py:138-140 | one more iteration replaces the best only on a strictly greater score |
| MctsSearch.AverageInRange | mcts_engine.py:150 | scores between 0.1 and 1.0, at least one of them, have a defined average between 0.1 and 1.0 |
| MctsSearch.Mean | mcts_engine.py:150 | the average is undefined exactly when no iteration ran |
| MctsSearch.ImprovementBounds | mcts_engine.py:151 | `score_improvement` is 0 for fewer than two scores, lies between -0.9 and 0.9, and is positive exactly when the last score beats the first |
| MctsSearch.Runs | mcts_engine.py:117-119 | the number of iterations is at most `num_iterations` and at most the number of timely starts, and equals one of them |
| MctsSearch.SimpleBaseline | mcts_engine.py:164-174 | the baseline returns the query of the base prompt's reply and its score |
| MctsSearch.SearchCoversBaseline | mcts_engine.py:98-174 | when the backend answers the base prompt's second request as it answered the first, a search with at least one iteration has a best score at least the score of `simple_baseline`: variation 0 (mcts_engine.py:106) is the base prompt itself, and iteration 0 scores its reply |
| LlmHandler.GenerateSql | llm_handler.py:10-27 | a backend failure gives exactly `SELECT 1;`, and every result is a fixed point of the extractor |
| LlmHandler.FindMatch | llm_handler.py:30 | the leftmost position where `SELECT\s+.*?;` matches, or none when it matches nowhere |
| LlmHandler.MatchEnd | llm_handler.py:30 | the lazy match ends at the first `;` after the white space |
| LlmHandler.Flatten | llm_handler.py:32 | no line feed is left, every other character keeps its place, and a text without line feeds is returned as it is |
| LlmHandler.FirstSelectLine | llm_handler.py:33-35 | the first line whose stripped, upper-cased form starts with SELECT, or none |
| LlmHandler.ExtractSql | llm_handler.py:29-36 | the extracted query never starts or ends with white space; its three cases are stated by the three rows below, and idempotence by `ExtractIdempotent` |
| LlmHandler.ExtractRegexCase | llm_handler.py:30-32 | with a SELECT, white space and later a `;`, the result is the text from the leftmost such SELECT through the first `;` after it, line feeds turned into spaces |
| LlmHandler.ExtractRegexShape | llm_handler.py:30-32 | in the regex case the result holds no line feed, ends with `;`, and starts with SELECT in some letter case followed by white space |
| LlmHandler.ExtractLineCase | llm_handler.py:33-35 | without a match, the result is the stripped first SELECT line |
| LlmHandler.ExtractTextCase | llm_handler.py:36 | without a match and without a SELECT line, the result is the stripped reply |
| LlmHandler.ExtractIdempotent | llm_handler.py:29-36 | extracting from an extracted query returns it unchanged |
| LlmHandler.FallbackIsFixed | llm_handler.py:27 | the fallback query reads back as itself |
| LlmHandler.SelectLineStrip | llm_handler.py:22 | stripping a text never creates a SELECT line it did not have |
| LlmHandler.StrippedMatch | llm_handler.py:22 | stripping a text never creates a regex match it did not have |
| Text.Upper | llm_handler.py:34 | ASCII `upper()`: no lower-case letter is left, each lower-case letter becomes its capital, every other character is kept |
| Text.Contains | mcts_engine.py:27 | `w in s` holds exactly when `w` occurs in `s` at some index |
| Prompts.QuoteColumn | mcts_engine.py:74 | a column name is wrapped in double quotes exactly when one of its characters is a space or `(`, and is written as it is otherwise |
| Text.Strip | llm_handler.py:22 | `strip()` never lengthens a text, and its result neither starts nor ends with white space |
| Text.FindChar | llm_handler.py:30 | the first position at or after a start that holds a given character, or none |
| Text.StripBounds | llm_handler.py:22 | `strip()` keeps a piece that is framed by white space and does not start or end with it |
| Text.StripUnique | llm_handler.py:22 | any such framed piece is what `strip()` returns |
| Text.StripIdempotent | llm_handler.py:32-36 | `strip()` is idempotent |
| Text.Lines | llm_handler.py:33 | `splitlines()` gives no line for an empty text and at least one otherwise, and no line holds a line feed |
| Text.Join | mcts_engine.py:77 | `join` starts with the first piece |
| Text.LinesOfJoin | mcts_engine.py:77 | splitting the line-feed join of non-empty lines without line feeds gives back the lines |
| Text.LinesSingle | llm_handler.py:33 | a non-empty text without line feeds is one line |

## Left out

- Floating point: scores are exact integer hundredths and the average is an exact rational. The source adds its steps in IEEE double arithmetic, which can differ in the last bit: 0.4 + 0.2 + 0.1 is 0.7000000000000001, and 0.4 + 0.2 + 0.1 + 0.05 + 0.05 is 0.8000000000000002, while 0.4 + 0.2 + 0.2 is exactly 0.8. The model does not reproduce that rounding.
- SqlEvaluator.NoKeywordScore: the 0.7 for more than 1000 rows is exact in the model; the source returns 0.7000000000000001.
- MctsSearch.BestIsFirst: ties are exact in the model, and so they are in `OutcomeBest`. In the source, rounding can break a tie, because `score > best_score` (mcts_engine.py:138) compares the rounded sums. A query with more than 1000 rows and two keywords (0.8000000000000002) then beats an earlier query with 1 to 1000 rows and no keyword (0.8), so the source's `best_query` is the later query and the model's the earlier one.
- Characters: `upper()` and `strip()` are modelled on ASCII. White space is tab, line feed, vertical tab, form feed, carriage return, 0x1C to 0x1F and the space. Unicode case mapping and Unicode white space are not modelled.
- Text.Lines: `splitlines()` is modelled with the line feed as the only line terminator. Carriage returns and the other terminators Python also splits on are not.
- The regular expression engine in general is not modelled. `FindMatch` and `MatchEnd` state what this one pattern matches.
- The HTTP request of `generate_sql` (llm_handler.py:11-21) is a `Reply` value. An unreachable server, a bad status and an unreadable body are all `Failure`. A body without a "response" key yields an empty text in the source; the model treats it as `Success("")`.
- `temperature` and `max_tokens` are not modelled. They only reach the backend, and `max_tokens` is accepted but not even sent.
- Logging with `print` (llm_handler.py:23,26; mcts_engine.py:146) is left out.
- Query execution has no side effects in the model: `Database` maps each query to one fixed `Execution`. The source's `execute_query` (db_handler.py) runs any statement on the live database, and Python's sqlite3 module commits statements such as `DROP TABLE` at once. A candidate that changes the database can therefore change the scores of later candidates and of the baseline. `SearchCoversBaseline` relies on execution leaving the database as it was.
- MctsSearch.Traverse: `_traverse_tree` is a recursive generator, so in CPython a chain deeper than the interpreter's recursion limit (about 1000 nodes) makes `total_nodes_explored` raise `RecursionError` out of `mcts_search`. The model has no recursion limit and returns `k + 1` for every `k`.
- The database handler (db_handler.py) is not part of this model. Query execution is a map from query to `Execution`, and the schema is a list of `TableInfo` values in dictionary order. `primary_keys` is left out because the prompt does not use it.
- The wall clock and `execution_time` (mcts_engine.py:116-119, 152, 165, 172) are left out. The time check becomes `timely`, the number of iteration starts that find time left. This is exact whatever the clock does, even if it steps backwards: the loop breaks at the first check that fails, so no later check is ever made.
- MctsNode.UcbOf: the exploration term `1.41 * sqrt(log(parent.visits + 1) / visits)` is the parameter `explore`. Only the infinite case and the first-maximum tie-break are proved.
- MctsNode.Node.UcbScore: requires a parent when the node has been visited. The source would fail on `None.visits` there, and it only scores children.
- MctsNode.Node.BestChild: requires every child's parent to be the node. `add_child` guarantees this for every child.
- MctsNode.Node: `is_terminal` is a constant false field. No code assigns it, so the selection loop's `not node.is_terminal` is always true.
- MctsSearch.Mean: `np.mean` of no scores is NaN in the source; the model returns `None`.
- Trees other than a chain: the shape facts and the lemmas behind them are stated for the chain the search actually builds. UCB selection among several children is covered only by `BestChild`'s contract.
- `api_server.py`, `main.py` and `metrics.py` (the web wrapper, orchestration and reporting) are not part of this model.
