# SwitchLang service logic in Dafny

SwitchLang is a language-practice tool. It asks a generative-text backend (Gemini) for
practice expressions at a chosen difficulty, and asks it to evaluate a learner's
translation. This project models the pure text handling around those two requests, with
the Streamlit and Gemini plumbing taken out. It also models the filter of the
model-listing script, which prints the models that can generate content.

- `pystr.dfy` (module `PyStr`) holds the Python string operations the code relies on.
  These are `str.strip()` (with Python's exact whitespace set), `str.split(sep)`,
  `sep.join`, substring containment, f-strings as literal parts with fields between
  them, and `str(n)` for integers of at most 4300 digits.
- `seqs.dfy` (module `Seqs`) holds the list comprehension `[f(x) for x in xs if keep(x)]`.
  It comes with an independent description by kept positions.
- `gemini.dfy` (module `Gemini`) describes the backend only through its results. A
  request is a `Call(model, contents)`. Its outcome is `Ok(text)`, `NoText` (the
  response's `text` is `None`, as for a blocked prompt) or `Err(msg)`, where `msg` is
  `str(e)` of the raised exception. A backend is a total function from calls to
  outcomes. Service results come back as `Traced(value, calls)`, so "no backend call"
  means `calls == []`.
- `ai_service.dfy` (module `AIService`) covers `AIService.generate_expressions` and
  `AIService.get_evaluation`. That is the tier-to-instruction mapping, both prompts, the
  line-list reading of the reply, and the failure paths.
- `check_models.dfy` (module `CheckModels`) covers the `generateContent` filter and the
  `name.split("/")[-1]` shortening of app/check-models.py, as a pure function over the
  listing.

Some behaviour of the code worth knowing up front:

- `get_evaluation` returns the reply text unchanged. Nothing parses it into a record or
  strips code fences, and a response without text is returned as `None`.
- Neither prompt escapes the embedded texts. Quotes and newlines in the learner's text go
  into the prompt verbatim (`EvaluationPrompt`).
- `generate_expressions` keeps every non-blank line of the reply, however many `count`
  asked for (`GenerateExpressionsKeepsEveryLine`).

## Model

| member | source | states |
|---|---|---|
| PyStr.Strip | app/services/ai_service.py:42 | `line.strip()` leaves no whitespace at either end, is no longer than the input, and is empty exactly when the input is all whitespace. |
| PyStr.StripPadded | app/services/ai_service.py:42 | Whatever whitespace surrounds a trimmed core, stripping returns exactly that core. |
| PyStr.StripDecomposes | app/services/ai_service.py:42 | Every string is its strip with whitespace before and after it. |
| PyStr.StripIdempotent | app/services/ai_service.py:42 | Stripping a stripped line changes nothing. |
| PyStr.Split | app/services/ai_service.py:42 | `text.split('\n')` gives one more piece than there are newlines. No piece contains a newline, and joining the pieces with newlines gives back the text. |
| PyStr.SplitConcat | app/services/ai_service.py:42 | Splitting `a + sep + b` gives the pieces of `a` followed by the pieces of `b`. |
| PyStr.SplitJoin | app/services/ai_service.py:42 | Splitting undoes joining when no piece contains the separator, so split is the unique such decomposition. |
| PyStr.SplitLastAfterSep | app/check-models.py:20 | The last piece of a split is the separator-free tail after an empty or separator-terminated prefix. |
| PyStr.FStringContains | app/services/ai_service.py:27-35 | An f-string contains every field value and every literal part verbatim. |
| PyStr.IntToString | app/services/ai_service.py:28 | `str(count)` is non-empty, starts with `-` exactly when `count` is negative, and has no leading zero after the sign unless it is `0`. |
| PyStr.IntToStringRoundTrip | app/services/ai_service.py:28 | `str(count)` is a sign and decimal digits that read back as `count`. |
| Seqs.FilterMap | app/services/ai_service.py:42 | A comprehension's result is no longer than its input. Its elements are pinned down by `Seqs.FilterMapAtPositions`. |
| Seqs.KeptPositions | app/check-models.py:16-18 | The kept positions are in strictly increasing order, and every one of them is accepted by the filter. Every accepted position is among them. |
| Seqs.FilterMapAtPositions | app/services/ai_service.py:42 | The comprehension is exactly `f` applied at the kept positions, in order. |
| Seqs.FilterMapAppend | app/services/ai_service.py:42 | The comprehension over a concatenation is the concatenation of the comprehensions. |
| AIService.ParseTier | app/services/ai_service.py:20-25 | A difficulty string names a tier exactly when it equals that tier's name. Any other string, including one that differs only in letter case, names none. |
| AIService.StyleGuide | app/services/ai_service.py:21-25 | Each tier has a fixed, non-empty style instruction. |
| AIService.DifficultyInstruction | app/services/ai_service.py:19-25 | The instruction is non-empty exactly for "Beginner", "Intermediate" and "Advanced", and it is the named tier's instruction. Any other difficulty gets "". |
| AIService.ExpressionPrompt | app/services/ai_service.py:27-35 | The prompt contains `str(count)`, `src_lang`, `difficulty` and the selected instruction verbatim. It always contains the line forbidding translations. |
| AIService.StripKeptSegment | app/services/ai_service.py:42 | Stripping a non-blank, newline-free segment gives a non-empty, trimmed, newline-free line. |
| AIService.ParseLines | app/services/ai_service.py:42 | Every returned line is non-empty, equals its own strip and contains no newline. There are at most one more lines than newlines in the reply. |
| AIService.ParseLinesSegments | app/services/ai_service.py:42 | The returned lines are exactly the stripped non-blank segments at the kept positions, in their original order. |
| AIService.ParseLinesConcat | app/services/ai_service.py:42 | The lines of `a + "\n" + b` are the lines of `a` followed by the lines of `b`. |
| AIService.ParseLinesSingle | app/services/ai_service.py:42 | A newline-free text is one line, kept as its strip unless it is blank. |
| AIService.ParseLinesTwo | app/services/ai_service.py:42 | Two clean lines separated by a newline read as exactly those two lines. |
| AIService.ParseLinesBlankAndPadded | app/services/ai_service.py:42 | A line, a blank line, a line with trailing whitespace and a line with leading whitespace, each ended by a newline, read as the three stripped lines. The blank line and the empty piece after the last newline are dropped. |
| AIService.ParseLinesExample | app/services/ai_service.py:42 | The reply `"a\n\nb \n c\n"` reads as exactly `["a", "b", "c"]`. |
| AIService.ParseLinesJoin | app/services/ai_service.py:42 | Joining clean lines with newlines and reading them back gives the same lines. |
| AIService.ParseLinesIdempotent | app/services/ai_service.py:42 | Re-reading the joined result of a read changes nothing. |
| AIService.GenerateExpressions | app/services/ai_service.py:16-46 | Exactly one request is sent, with `MODEL_NAME` and the expression prompt. On failure, or when the response has no text, the result is the empty list and nothing is raised. On success it is the reply's lines, each non-empty and stripped. |
| AIService.GenerateExpressionsKeepsEveryLine | app/services/ai_service.py:37-43 | A two-line reply gives two expressions whatever `count` asked for. |
| AIService.EvaluationPrompt | app/services/ai_service.py:53-67 | The prompt contains both languages, the source text and the user's text verbatim. |
| AIService.GetEvaluation | app/services/ai_service.py:48-75 | An empty user text gives exactly "No input provided." and sends no request. Otherwise exactly one request is sent with `MODEL_NAME` and the evaluation prompt. The result is then the reply text, `None` when the response has no text, or "Error during evaluation: " followed by the exception message. |
| CheckModels.ShortName | app/check-models.py:20 | `name.split("/")[-1]` contains no `/` and is a suffix of the name. It is either the whole name or preceded by a `/`. |
| CheckModels.ShortNameOf | app/check-models.py:20 | Any `/`-free tail after an empty or `/`-terminated prefix is exactly the short name. |
| CheckModels.ShortNameWithoutSlash | app/check-models.py:20 | A name without `/` is printed unchanged. |
| CheckModels.ShortNameDropsModelsPrefix | app/check-models.py:19-20 | `"models/" + x` is printed as `x` when `x` has no `/`. |
| CheckModels.AvailableModels | app/check-models.py:16-21 | At most one name is printed per listed model, and no printed name contains `/`. |
| CheckModels.AvailableModelsInOrder | app/check-models.py:16-21 | The printed names are the short names of exactly the models whose actions include "generateContent", in listing order. |
| CheckModels.AvailableModelsComplete | app/check-models.py:16-21 | The short name of every model supporting "generateContent" is printed. |
| CheckModels.AvailableModelsPages | app/check-models.py:16 | Filtering a paged listing is filtering each page in turn. |

## Left out

- app/main.py (the Streamlit page, its own Gemini call and `json.loads`, and the star rendering) is user interface and library I/O. It is not part of this model.
- app/services/db_service.py is SQLite and pandas persistence with no logic beyond its SQL strings. It is not part of this model.
- `AIService.__init__` (reading `GEMINI_API_KEY`, `st.error`, `st.stop`, building the client) is environment and UI work and is left out.
- The `st.error` diagnostic shown when expression generation fails (app/services/ai_service.py:45) is a UI side effect. Only the empty-list result is modelled.
- Gemini itself is left out. `generate_content` is a parameter (a function from request to outcome), and `models.list()` is a given sequence of entries.
- check-models.py's `.env` loading, its missing-key message and all of its printing are left out. The model states which names are printed, not how.
- If the listing fails part-way, the names printed before the failure stay printed (app/check-models.py:22-23). The model describes the names printed from the entries that were received, and `AvailableModelsPages` relates a received prefix to the whole listing. The error message itself is not modelled.
- `ModelInfo`: `supported_actions` is modelled as a list of strings and `name` as a string. A missing action list or a missing name raises inside the same `try` as a listing failure; that behaviour belongs to a library that is not part of this model.
- `user_text` is modelled as a string. Python's `not user_text` would also treat `None` as empty; that case is not modelled.
- `count` is modelled as an integer rendered by `str`. Other Python values are not modelled.
- `GenerateExpressions`: a `count` of more than 4300 decimal digits makes `str` raise `ValueError` (Python's default `sys.int_max_str_digits`). The prompt is built before the `try` (app/services/ai_service.py:27-37), so `generate_expressions` raises and sends no request. This is not modelled; the model renders every integer.
- Determinism (the same inputs and the same backend replies give the same result) holds by construction, because every operation is a function. It gets no separate lemma.
