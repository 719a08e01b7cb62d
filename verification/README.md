# Query repair and answer dispatch of the Dark Souls lore assistant

The assistant turns a natural-language question into a Cypher query through a
language-model chain and runs the query on a Neo4j knowledge graph. A language
model then summarises the rows. This project models the deterministic logic of
`qa_chain.py` between those external services:

- **Label stripping** (`strip_bad_labels`, module `LabelStrip`). A `re.sub` that
  rewrites a node reference `(<var>:<Label>)` to `(<var>)` when `<Label>` is one
  of `Shield`, `Spell`, `Weapon`, `Gift` and `Entity`.
- **Union-return canonicalisation** (`standardize_union_returns`, modules
  `Patterns` and `UnionReturns`). A case-insensitive `re.sub` of
  `MATCH\s*\(\w+:(\w+)\)[^)]+?\)\s*RETURN\s*(\w+)\.name\s+AS\s+\w+`.
  - The pattern is a sequence of literal and greedy-run elements.
  - The lazy `[^)]+?` is written as the greedy `[^)]+`, because both stop at
    the first `)`.
  - Each match becomes the text before its first case-sensitive `RETURN`,
    followed by `RETURN <var>.name AS item, '<Label>' AS type`.
- **The repair pipeline** `standardize_union_returns(strip_bad_labels(q))`
  (module `Normalize`).
- **Row shaping** (module `Shaping`). Rows with one or two values are shaped by
  arity, with the `name` extraction. Rows of any other arity are dropped.
- **Answer synthesis** (module `Answer`):
  - the choice between list summary, pair summary and the unsupported-format
    answer;
  - the `", and "` value list and the `- a → b` bullet lines;
  - the two summary prompts and the answer strings;
  - `answer_question` itself.

  The chain, `graph.query` and `llm.predict` are function parameters. A Python
  exception is a `Raised` result (module `Results`).
- **Worked instances** (modules `StripExamples` and `StandardizeExamples`). They
  use node references and the union branch that the system prompt shows.

Both substitutions are modelled as a left-to-right scan over the suffixes of
the text. If a match starts at the current position, it is replaced and the
scan resumes after it. Otherwise one character is copied. Each matcher comes
with two properties:
- soundness: what it returns is in the language of the pattern and is a
  prefix of the text;
- completeness: any such prefix is what it returns.

Together these say the matcher reads the text exactly as Python's backtracking
engine does.

In these places the model follows the code as written:
- The no-result answer is given when the graph returns no rows at all, not
  when the shaped rows are empty. When the graph returns rows and every one of
  them is dropped, the list branch evaluates `values[0]` on an empty list. The
  answer is then `Error running Cypher query: list index out of range`.
- Rows of three or more values are dropped silently, so they do not by
  themselves lead to the unsupported-format answer.
- The projection is cut at the first upper-case `RETURN` anywhere in the match,
  not at the projection keyword:
  - an earlier `RETURN` inside the path shortens the kept text;
  - a keyword written `return` leaves the whole match in place, and the
    canonical projection is appended after it.
- The union rewrite is not idempotent. A branch written exactly as the system
  prompt asks gains a second `, '<Label>' AS type` column.
- Label stripping removes occurrences of the pattern, not every `:<Label>)`.
  For example, `(a.b:Shield)` is kept because `.` is not a word character.
- The comment of `strip_bad_labels` (qa_chain.py:102) names `:Ring` among the
  labels it removes, but its pattern (qa_chain.py:103) lists only `Shield`,
  `Spell`, `Weapon`, `Gift` and `Entity`. So `(x:Ring)` is kept
  (`StripExamples.StripKeepsRingLabel`).

## Model

| member | source | states |
|---|---|---|
| LabelStrip.OccurrenceAt | qa_chain.py:103 | a found occurrence is `(` + a non-empty word run + `:` + one of the five labels + `)`, and its text is a prefix of the input |
| LabelStrip.OccurrenceAtFindsEveryOccurrence | qa_chain.py:103 | every well-formed occurrence at the front of the text is found and read the same way |
| LabelStrip.Strip | qa_chain.py:101-103 | the output is never longer than the input |
| LabelStrip.StripReplacesOccurrence | qa_chain.py:103 | an occurrence at the front becomes `(<var>)` and the rest is processed after it |
| LabelStrip.StripCopiesParenFreeText | qa_chain.py:103 | text without `(` is copied unchanged in front of the processed rest |
| LabelStrip.StripKeepsUnknownLabel | qa_chain.py:103 | a node reference whose text between `:` and `)` is not one of the five labels is copied unchanged |
| LabelStrip.StripLeavesNoOccurrence | qa_chain.py:103 | no occurrence of the pattern starts anywhere in the output |
| LabelStrip.StripKeepsLabelFreeText | qa_chain.py:103 | text without occurrences passes through unchanged |
| LabelStrip.StripShortensAtOccurrence | qa_chain.py:103 | an occurrence anywhere makes the output strictly shorter |
| LabelStrip.StripChangesExactlyOccurrences | qa_chain.py:103 | the output equals the input if and only if the input has no occurrence |
| LabelStrip.StripIdempotent | qa_chain.py:103 | stripping twice is stripping once |
| StripExamples.StripRemovesShieldLabel | qa_chain.py:102-103 | `(s:Shield)` becomes `(s)` whatever follows |
| StripExamples.StripKeepsRingLabel | qa_chain.py:102-103 | `(x:Ring)` is kept: `Ring` is not one of the five |
| StripExamples.StripKeepsLowerCaseLabel | qa_chain.py:103 | `(x:shield)` is kept: the alternation is case-sensitive |
| StripExamples.StripKeepsLabelWithProperties | qa_chain.py:62 | the prompt's `(e:Entity {name: 'Anor Londo'})` is kept: `)` must follow the label directly |
| Patterns.MatchElem | qa_chain.py:110-111 | one element matches a case-folded literal, or the maximal run of its class |
| Patterns.MatchSeq | qa_chain.py:110-111 | the pieces found are in the language of the elements, spell a prefix of the text, and end a final run greedily |
| Patterns.MatchSeqFindsEveryMatch | qa_chain.py:110-111 | for a pattern whose runs cannot run into their successors, every such decomposition of a prefix is the one found |
| UnionReturns.UnionPatternSeparated | qa_chain.py:110 | every run of the union pattern is followed by an element that cannot start inside it |
| UnionReturns.MatchAt | qa_chain.py:109-112 | a match is in the language of the pattern, is a prefix of the text, ends its alias run greedily and has at least five characters |
| UnionReturns.MatchAtFindsEveryMatch | qa_chain.py:110 | every match at the front whose alias is not followed by a word character is the one found |
| UnionReturns.MatchAtStages | qa_chain.py:110 | matching is `MATCH (<var>:<label>)`, then `[^)]+)`, then the projection, each where the previous stopped |
| UnionReturns.MatchStartsWithKeyword | qa_chain.py:110-111 | every match starts with `M` or `m` |
| UnionReturns.StandardizeRewritesMatch | qa_chain.py:119 | a match followed by a non-word character is replaced and the scan resumes after it |
| UnionReturns.CanonicalReturn | qa_chain.py:116 | the projection starts with `RETURN `, and the projected variable and the node label are read back at fixed offsets |
| UnionReturns.Replacement | qa_chain.py:114-119 | the replacement is a prefix of the match before which `RETURN` does not occur (the whole match, or ending where `RETURN` first occurs), followed by the canonical projection |
| UnionReturns.Standardize | qa_chain.py:104-120 | text in which no match starts anywhere is returned unchanged |
| UnionReturns.StandardizeCopiesKeywordFreeText | qa_chain.py:119 | text without `M`/`m` is copied unchanged |
| UnionReturns.StandardizeKeepsTextWithoutUnionHead | qa_chain.py:110 | text where no `MATCH` is directly followed by a labelled node without properties is unchanged |
| UnionReturns.ReplacementKeepsTextBeforeReturn | qa_chain.py:114-119 | with the keyword written `RETURN` and no earlier `RETURN`, the match up to the keyword is kept, followed by `RETURN <projected var>.name AS item, '<first node label>' AS type`; the alias is dropped |
| UnionReturns.ReplacementKeepsMatchWithoutUpperReturn | qa_chain.py:119 | with no upper-case `RETURN` in the match, the whole match is kept and the canonical projection is appended |
| UnionReturns.MatchHasTwoCloses | qa_chain.py:110 | every match holds two `)` |
| UnionReturns.NoMatchWithOneClose | qa_chain.py:110 | no match fits in text with at most one `)` |
| UnionReturns.StandardizeKeepsTextWithOneClose | qa_chain.py:110 | text with at most one `)` (a node with no path after it) is unchanged |
| UnionReturns.MatchPieces | qa_chain.py:110 | a match's node reference is `(`, a word run, `:`, a word run (group 1), `)`, and the body ends with `)` |
| UnionReturns.BranchMatch | qa_chain.py:61-68 | the branch form the system prompt asks for is matched up to its alias |
| UnionReturns.BranchReplacement | qa_chain.py:114-119 | on that branch, when `RETURN` does not occur in its variable, label or path, the replacement is the branch followed by one more `, '<label>' AS type` |
| UnionReturns.StandardizeNotIdempotent | qa_chain.py:61-68 | rewriting a prompted branch whose variable, label and path hold no `RETURN` appends a type column, rewriting again appends another: the rewrite is not idempotent |
| StandardizeExamples.PromptExampleNotIdempotent | qa_chain.py:62-63 | the prompt's own Shield branch gains `, 'Shield' AS type` and is changed again by a second application |
| StandardizeExamples.CreatedByBranchGainsTypeColumn | qa_chain.py:27 | a branch over the prompt's `-[:CREATED_BY]->` relationship, whose path holds an `R`, gains `, 'Spell' AS type` and is changed again by a second application |
| StandardizeExamples.StandardizeKeepsBranchWithoutPath | qa_chain.py:110 | `MATCH (s:Shield) RETURN s.name AS x` is unchanged: the body needs a path ending in `)` |
| Normalize.NormalizeQuery | qa_chain.py:127-128 | when no union match starts in the stripped query, the query is only stripped |
| Normalize.MatchHeadIsOccurrence | qa_chain.py:103 | the node reference of a match is a label-stripping occurrence when its label is one of the five |
| Normalize.NormalizeNeverInjectsKnownLabel | qa_chain.py:127-128 | in the stripped query no union match carries one of the five labels, so no type literal written is one of them |
| Normalize.NormalizeKeepsCleanQuery | qa_chain.py:127-128 | a query with nothing to strip and no union branch passes through the pipeline unchanged |
| Text.SplitHead | qa_chain.py:119 | `split('RETURN')[0]` is a prefix before which `RETURN` does not occur, at which it occurs or which is the whole text |
| Text.SplitHeadUnique | qa_chain.py:119 | that prefix is the only one with those properties |
| Text.PyStrip | qa_chain.py:169 | `strip()` leaves a piece of the text starting after the leading whitespace, with only whitespace dropped at both ends and none left at either end |
| Text.PyStripIdempotent | qa_chain.py:169 | stripping twice is stripping once |
| Text.SplitOnJoin | qa_chain.py:172 | splitting at a one-character separator undoes joining with it when no piece holds it |
| Shaping.PyStr | qa_chain.py:146 | `str()` of a string is itself and of `None` is `None` |
| Shaping.ShapeRow | qa_chain.py:137-153 | a row is kept iff it has one or two values, keeps its length, and is shaped by the one- or two-value rule |
| Shaping.Shape | qa_chain.py:134-153 | every shaped row has one or two values and there are no more shaped rows than rows |
| Shaping.ShapeAppend | qa_chain.py:136-153 | shaping a concatenation is the concatenation of the shapings |
| Shaping.ShapeKeepsKeptRows | qa_chain.py:136-153 | one shaped row per kept row; none dropped iff every row has one or two values; empty iff every row is dropped |
| Shaping.ShapePreservesOrder | qa_chain.py:136-153 | the shaped form of a kept row sits at the number of kept rows before it |
| Shaping.ShapeKeepsAllRows | qa_chain.py:136-153 | when no row is dropped, shaped row `k` is the shaped form of row `k` |
| Shaping.ShapeRows | qa_chain.py:134-153 | the shaping loop computes the shaped set |
| Answer.Select | qa_chain.py:156-189 | list summary iff every shaped row has one value (also for none); pair summary iff there are rows and all have two; the list holds each row's value |
| Answer.FirstValues | qa_chain.py:157 | one value per row, and value `k` is the first value of row `k` |
| Answer.FirstNonStr | qa_chain.py:158 | the first position of a non-string value, or none iff all are strings |
| Answer.PyJoin | qa_chain.py:158 | `join` succeeds iff all items are strings, and otherwise raises a `TypeError` naming the first non-string item and its type |
| Answer.ValueList | qa_chain.py:158 | rendering succeeds iff there is a value and all but the last are strings; no value raises `IndexError`; one value renders bare |
| Answer.JoinedListing | qa_chain.py:158 | joining all but the last with `", "` then `", and "` and the last is the reference listing |
| Answer.ValueListIsListing | qa_chain.py:158 | on strings the value list is the reference listing (two values give `X, and Y`) |
| Answer.ValueListTypeError | qa_chain.py:158 | a non-string before the last value fails with the join's `TypeError` for the first such value |
| Answer.BulletLines | qa_chain.py:172 | one line `- a → b` per pair, in order |
| Answer.Bullets | qa_chain.py:172 | the pair list is empty iff there are no pairs, and otherwise starts with the bullet of the first pair |
| Answer.BulletsSplitIntoLines | qa_chain.py:172 | with single-line values, splitting the bullet list at newlines gives back the lines |
| Answer.BulletsAppend | qa_chain.py:172 | the bullets of two result sets are the two bullet lists on separate lines |
| Answer.ListPrompt | qa_chain.py:159-168 | the question and the value list are read back at fixed offsets of the prompt |
| Answer.PairPrompt | qa_chain.py:173-185 | the question and the bullet list are read back at fixed offsets of the prompt |
| Answer.Summary | qa_chain.py:169 | the summary fails iff the model call fails, with its message, and otherwise is the completion stripped |
| Answer.ListAnswer | qa_chain.py:156-169 | an empty value list raises the `IndexError`; a success is a stripped completion of the model; a failure is the `IndexError`, a join `TypeError` or an exception of the model call |
| Answer.PairAnswer | qa_chain.py:171-186 | a success is a stripped completion of the model and a failure is an exception of the model call |
| Answer.Synthesize | qa_chain.py:133-192 | rows that are all dropped raise the `IndexError`; every answer is one of the two fixed messages or a stripped completion; every exception is the `IndexError`, a join `TypeError` or an exception of the model call |
| Answer.AnswerFor | qa_chain.py:129-195 | every answer is the no-result message, the unsupported-format message, an error report starting `Error running Cypher query: `, or a stripped completion of the model |
| Answer.AnswerQuestion | qa_chain.py:122-128 | the call fails iff the chain fails; otherwise the raw, pre-repair query is returned |
| Answer.GraphSeesOnlyNormalizedQuery | qa_chain.py:127-131 | the graph is only asked the repaired query |
| Answer.GraphFailureReported | qa_chain.py:194-195 | a graph failure is answered with `Error running Cypher query: ` and its message |
| Answer.EmptyResultSkipsModel | qa_chain.py:191-192 | no rows give `No result found in the graph.`, for every model |
| Answer.MixedArityUnsupported | qa_chain.py:188-189 | a one-value row together with a two-value row gives the unsupported-format answer |
| Answer.AllRowsDroppedIsIndexError | qa_chain.py:156-158 | rows that are all dropped give the error answer for `list index out of range` |
| Answer.OneValueRowsSelectList | qa_chain.py:156-157 | one-value rows select the list summary of their shaped values |
| Answer.TwoValueRowsSelectPairs | qa_chain.py:171 | two-value rows select the pair summary of the shaped rows |
| Answer.ListResultSummarised | qa_chain.py:156-169 | with one-value rows of string names, the model gets the list prompt with the reference listing and the answer is its stripped reply or the error answer |
| Answer.PairResultSummarised | qa_chain.py:171-186 | with two-value rows, the model gets the pair prompt with the bullet lines of the shaped pairs |
| Answer.ListJoinFailureReported | qa_chain.py:194-195 | a non-string name before the last one is answered with the error prefix and the join's `TypeError` |

## Left out

- `\w` is ASCII letters, digits and `_` only. Python also counts every Unicode
  letter and digit, so node references with non-ASCII variable names or labels
  are not modelled.
- `re.IGNORECASE` folding is modelled only for the letters of the union
  pattern: both ASCII cases, and the long s (U+017F) that Python folds to the
  `s` of `AS`. Python's other non-ASCII partners of ASCII letters, the Kelvin
  sign for `k` and the dotted and dotless i for `i`, belong to letters the
  pattern does not contain, so a general case-insensitive matcher is not
  modelled.
- The chain call, the lookup `raw_result["intermediate_steps"][0]["query"]`,
  `graph.query` and `llm.predict` are external services and are function
  parameters. The chain parameter returns the raw query directly, and any
  failure of the lookup is a failure of that parameter.
- Python's `str()` of dicts, lists and other driver objects is the parameter
  `repr`. `None`, booleans, integers and strings are rendered as Python
  renders them. Floats, dates and graph objects are one `Other` value that
  records only its type name.
- The system prompt text, the prompt template, the model and client
  construction, `load_dotenv` and environment variables are set-up and
  constants outside the logic. The Streamlit shell `app.py` is not part of
  this model.
- Exceptions other than those of the services, `values[0]` and `join` are not
  modelled. Two examples: a `__str__` that raises, and unpacking a pair whose
  row changed length.
- Shaping.PyStr: states only the string and `None` renderings in its contract.
  Its body renders booleans and integers as Python does.
