# Quiz grading and test session, in Dafny

`test_app.py` is a small Streamlit application for arithmetic quizzes. Students answer the stored problems one at a time, in a shuffled order. A teacher edits the problems and looks at the success rates. Two parts of it are modelled and proved here.

- **Grading.** Several functions decide whether a typed answer matches the reference answer:
  - `normalize` cleans up whitespace;
  - `safe_eval` evaluates an arithmetic expression;
  - `is_equal` compares in three stages: symbolic, then numeric, then literal;
  - `check_answer` accepts any one of several alternatives.

  The rule that turns the teacher's typed answer field into a stored reference answer is modelled too.
- **The student session.** The cursor, the recorded results and the finished flag, with the buttons "answer and next" and "back".

Files:

- `wrappers.dfy`: the `Option` type.
- `normalization.dfy` (module `Normalization`): text normalization, written out character by character.
  - Python's whitespace class, which is what `str.strip()` and the `\s` of `re` both use on `str`.
  - The ideographic-space replacement.
  - `strip`.
  - The leftmost, non-overlapping rewriting that `re.sub(r"\s*,\s*", ",", s)` performs.
  - The normal form this produces.
- `grading.dfy` (module `Grading`): the values being compared, the three-stage comparison, `any` over the alternatives, and the answer-field rule. The boundaries with foreign code are parameters:
  - sympy's verdict, `eval` and the per-character lower-case mapping;
  - `json.loads` on the answer field, for the answer-field rule.
- `session.dfy` (module `Quiz`): the session as a class whose methods update its fields in place.

### What `normalize` and `is_equal` do not do

- The code does not split answers at commas.
- It does not rewrite `√`, `π` or similar inside `normalize`; only `safe_eval` rewrites `√`.
- It does not apply Unicode normalization.
- A symbolic verdict is final: a student answer that sympy parses but finds unequal is rejected, even if it is textually equal after lowering.
- The literal stage calls `.lower()` on both sides. When a reference answer is not a string (a number stored by JSON, or a list nested inside a list of alternatives), that call raises, and nothing in `is_equal` catches it. The model keeps this as the `Raised` outcome. In the session, a raising grade leaves the state unchanged, because the result record is built before anything is assigned.

## Model

| member | source | states |
|---|---|---|
| Normalization.WhitespaceClass | test_app.py:42-43 | About `IsWs`, Python's whitespace class shared by `str.strip()` and `\s`: it contains the space, tab, newline and U+3000, and never the comma, so `\s*` cannot swallow the comma of a match. |
| Normalization.ReplaceIdeographicSpace | test_app.py:42 | Same length. No U+3000 remains. Each U+3000 becomes a space and every other character is kept. |
| Normalization.StripLeading | test_app.py:42 | The result is a suffix of the input. What was removed is all whitespace. The result is empty or starts with a non-whitespace character. |
| Normalization.StripTrailing | test_app.py:42 | The result is a prefix of the input. What was removed is all whitespace. The result is empty or ends with a non-whitespace character. |
| Normalization.Strip | test_app.py:42 | Neither end of the result is whitespace. A text without U+3000 stays without it. |
| Normalization.WsRun | test_app.py:43 | What a greedy `\s*` takes at a position: the run stays inside the text, is all whitespace, and stops only at the end of the text or at a character that is not whitespace. |
| Normalization.MatchAt | test_app.py:43 | A match of `\s*,\s*` at the front, when there is one, is non-empty and lies within the text. |
| Normalization.MatchAtShape | test_app.py:43 | Characterises the match, which is greedy and leftmost. There is a match exactly when the leading whitespace run is followed by a comma. The match then covers that run, the comma and the whole whitespace run after it, and nothing else. |
| Normalization.SubCommaSpaces | test_app.py:43 | The leftmost, non-overlapping `re.sub`. It never lengthens the text and empties only the empty text. SubIsCommaTight, SubPreservesDropWs, SubFixesCommaTight, SubDeletesRunsAroundComma and SubKeepsInteriorRun pin down what it rewrites. |
| Normalization.SubIsCommaTight | test_app.py:43 | After the substitution, no whitespace character stands directly before or after a comma. |
| Normalization.SubPreservesDropWs | test_app.py:43 | The substitution only deletes whitespace: with all whitespace removed, input and output are the same. |
| Normalization.SubFixesCommaTight | test_app.py:43 | The substitution leaves unchanged a text that has no whitespace next to a comma. |
| Normalization.SubDeletesRunsAroundComma | test_app.py:43 | Whitespace runs on both sides of a comma are deleted. The text before and after the comma is rewritten independently. |
| Normalization.SubKeepsInteriorRun | test_app.py:43 | A whitespace run between two non-comma, non-whitespace characters is kept verbatim. |
| Normalization.NormalizeText | test_app.py:42-43 | The string path of `normalize`: replacement, strip, then substitution. It never lengthens the text. NormalizeTextShape, NormalizeTextOnlyDropsWs and NormalizeTextIdempotent state its result. |
| Normalization.NormalizeTextShape | test_app.py:39-44 | The normalized text has no U+3000, no leading or trailing whitespace, and no whitespace next to a comma. |
| Normalization.NormalizeTextOnlyDropsWs | test_app.py:39-44 | Normalization changes only whitespace: removing all whitespace from input and output gives the same text. |
| Normalization.NormalFormIsFixed | test_app.py:39-44 | A text already in normal form is left unchanged. |
| Normalization.NormalizeTextIdempotent | test_app.py:39-44 | Normalizing twice gives the same text as normalizing once. |
| Normalization.NormalizeTextWithoutComma | test_app.py:39-44 | For a text without commas, normalization is only the ideographic-space replacement followed by `strip`. |
| Normalization.NormalizeTextKeepsInteriorRun | test_app.py:39-44 | Whitespace between two ordinary characters survives, with only U+3000 turned into spaces. The text on each side is normalized on its own. |
| Normalization.NormalizeTextDeletesRunsAroundComma | test_app.py:39-44 | `"a 　, b"`-shaped inputs become `"a,b"`: both runs around the comma are deleted, and each side is normalized on its own. |
| Grading.Normalize | test_app.py:39-41 | Strings stay strings and are normalized. Every other value is returned unchanged. |
| Grading.NormalizeShape | test_app.py:39-44 | A normalized string is in normal form and differs from the input only in whitespace. |
| Grading.NormalizeIdempotent | test_app.py:39-44 | `normalize` is idempotent on every value, strings or not. |
| Grading.ReplaceRadical | test_app.py:48 | No `√` remains. A text without `√` is unchanged. |
| Grading.ReplaceRadicalChar | test_app.py:48 | A single `√` becomes `sqrt`, and any other single character is kept. |
| Grading.ReplaceRadicalAppend | test_app.py:48 | The replacement of a concatenation is the concatenation of the replacements, so, with the one-character case, every `√` becomes `sqrt` and every other character is kept in order. |
| Grading.SafeEval | test_app.py:46-51 | A non-string gives no value, because the failure of `replace` is caught. |
| Grading.LowerText | test_app.py:64 | Maps the case mapping over every character and keeps the length. |
| Grading.Stages | test_app.py:57-64 | On normalized values: two strings always get a verdict. The exception escapes only when sympy failed and one side is not a string. |
| Grading.IsEqual | test_app.py:53-64 | Two strings always get a verdict. An exception escapes only when sympy failed and one side is not a string. |
| Grading.SymbolicStageIsFinal | test_app.py:57-58 | Once sympy gives a verdict, that verdict is the result. |
| Grading.SymbolicRejectionOverridesText | test_app.py:57-58 | A symbolic rejection is not overturned by textual equality. |
| Grading.NumericStage | test_app.py:59-63 | When sympy fails and both sides evaluate, the result is whether the values are within 1e-6. |
| Grading.LiteralStage | test_app.py:59-64 | When sympy fails and a string side cannot be evaluated, the result compares the lowered normalized texts. |
| Grading.RaisesExactly | test_app.py:53-64 | Gives the exact condition under which `is_equal` raises. |
| Grading.NonTextReferenceRaises | test_app.py:60-64 | A non-string reference that sympy cannot compare always raises. |
| Grading.WithinTolerance | test_app.py:63 | `abs(sv - cv) < 1e-6`: equal values always match, and the test is symmetric, holding exactly when the reversed difference lies strictly within 1e-6. |
| Grading.IsEqualSymmetric | test_app.py:53-64 | `is_equal` is symmetric when the symbolic verdict is. |
| Grading.IsEqualReflexive | test_app.py:53-64 | A text matches itself unless sympy finds its difference with itself non-zero. |
| Grading.IsEqualSeesNormalForms | test_app.py:53-55 | Grading depends on the inputs only through their normalized forms. |
| Grading.AnyOf | test_app.py:68 | `any` rejects exactly when every outcome is a rejection. In particular an empty list rejects. |
| Grading.AnyOfStopsAtFirstDecisive | test_app.py:68 | `any` short-circuits: the result is the first outcome that is not a rejection, either an acceptance or its exception. Later outcomes are not consulted. |
| Grading.AnyOfVerdicts | test_app.py:68 | When no outcome is an exception, the result is exactly "some outcome is an acceptance". |
| Grading.AnyOfOrderIrrelevant | test_app.py:68 | When no outcome is an exception, reordering the outcomes does not change the result. |
| Grading.Grades | test_app.py:68 | The generator yields one outcome per alternative, in the alternatives' order, each being `is_equal` against that alternative. |
| Grading.CheckAnswer | test_app.py:66-69 | A scalar reference is graded by `is_equal`. A list of alternatives is rejected exactly when every alternative is rejected. |
| Grading.NoAlternativesRejects | test_app.py:66-68 | An empty list of alternatives rejects every answer. |
| Grading.CheckAnswerStopsAtFirstDecisive | test_app.py:66-68 | The alternatives are tried in order. The first one that is not rejected decides, by its acceptance or by its exception. |
| Grading.CheckAnswerWhenAllGraded | test_app.py:66-68 | When no alternative raises, the answer is accepted exactly when some alternative accepts it. |
| Grading.CheckAnswerOrderIrrelevant | test_app.py:66-68 | When no alternative raises, reordering the alternatives does not change the result. |
| Grading.TextAlternatives | test_app.py:66-69 | With all-string alternatives, the answer is accepted exactly when some alternative accepts it. |
| Grading.RaisingAlternativeFirst | test_app.py:66-68 | An alternative that raises before any acceptance makes the whole check raise. |
| Grading.AnswerField | test_app.py:160-163 | Gives a list of alternatives exactly when the text starts with `[` and decodes. Otherwise the stored answer is the text itself. |
| Grading.AnswerFieldScalarGrading | test_app.py:179-183 | A typed answer that is not a JSON list is graded as the single text typed in. |
| Quiz.Range | test_app.py:86 | `list(range(n))`: length n, and element j is j. |
| Quiz.RangeIsPermutation | test_app.py:86-87 | The unshuffled order is a permutation, so a session can be started. |
| Quiz.Session.constructor | test_app.py:85-90 | A new session is valid, with the cursor at 0, no results and not finished. |
| Quiz.Session.Current | test_app.py:92-93 | The problem on screen is a real problem index, taken from the order. |
| Quiz.Session.Record | test_app.py:104-116 | Stores the built record under the index of the problem on screen, overwriting only that entry. It then advances the cursor by exactly one, or, on the last problem, sets finished (never reset). The invariant is kept. |
| Quiz.Session.Submit | test_app.py:104-118 | Grades the answer against the problem on screen and records it under that problem's index, overwriting only that entry. It then advances the cursor by exactly one, or, on the last problem, sets finished (never reset). If grading raises, nothing changes. The invariant is kept. |
| Quiz.Session.Back | test_app.py:121-123 | Moves the cursor back by one when it is above 0. Nothing else changes. The invariant is kept. |
| Quiz.FinishedAnsweredAll | test_app.py:113-116 | A finished session holds an answer for every problem. |
| Quiz.AnsweredBeforeCursor | test_app.py:105-114 | Every problem before the cursor has been answered. |

## Left out

- sympy (`sympify`, `simplify`) is not modelled: its verdict is the parameter `Oracles.symbolic`, where None means that it raised.
- `eval` with `math.sqrt` is not modelled: it is the parameter `Oracles.eval`, where None means that it raised or did not give a number.
- Grading.WithinTolerance: `abs(sv - cv) < 1e-6` is idealised on real numbers. Floating-point rounding and NaN or infinity are not modelled.
- Grading.LowerText: `str.lower()` is a per-character mapping parameter. Python's multi-character lowerings (such as U+0130) are not modelled.
- Grading.Value: non-string JSON values are opaque tokens. Their own structure matters only to the oracles.
- `json.loads` is the parameter of `Grading.AnswerField`, and its internals are not modelled.
- `random.shuffle` is not modelled: the session takes the shuffled order as a parameter that must be a permutation.
- Quiz.Entry: the recorded correct answer keeps the `Answer` value rather than Python's `str()` rendering of it.
- Quiz.Session.Submit: the problem list is a parameter that is assumed not to change during a session. The source reloads it on each rerun.
- The teacher editor's text field prefills `str(answer)`. For a list answer that is Python's repr, with single quotes, which the answer-field rule may then fail to decode as JSON. This is not modelled.
- The empty-problem-list early return (line 81) is outside the session: `Session` requires at least one problem.
- The Streamlit UI is not modelled: widgets, reruns, headers, the progress caption and the result table.
- File I/O is not modelled: loading and saving problems, the results CSV.
- pandas is not modelled: the success-rate statistics.
- The teacher editor's add, edit and delete operations are not modelled, apart from the answer-field rule.
- The clock (`now()`) is not modelled; the timestamp is a parameter of `Submit`.
- The password check is not modelled.
