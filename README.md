# Smart document extraction: verified model of the text, parsing and deduplication core

The repository turns a PDF into a spreadsheet of `(key, value, context)`
records. Text comes out of the PDF and is cut into prompt-sized chunks. A
language model answers each chunk with JSON. Rows are then deduplicated
and written to Excel. This project models the sequential logic between
those external calls. The logic appears twice, once in the batch script
`main.py` and once in the Streamlit demo `streamlit_demo.py`, and each
file's version is modelled in its own module:

- **Whitespace normalisation** (`" ".join(text.split())`, run before
  `textwrap.wrap`). Module `Normalize` defines it with Python's own
  whitespace set. `MainScript.SplitChunksCleaned` and
  `StreamlitDemo.ChunkCleaned` are the two call sites. The collapsed text
  has no whitespace at either end, no whitespace except single plain
  spaces, and exactly the words of `text.split()`. It is also the only
  text with those three properties.
- **Lenient JSON slice extraction.** The code takes the text from the
  first `[` to the last `]`, inclusive, and decodes it. The JSON decoder
  (`json.loads`) is a parameter `decode: string -> Option<seq<Row>>`, where
  `None` means it raised. `MainScript.SafeParse` falls back to one
  `{"key": "raw_text", "value": t, "context": t}` record.
  `StreamlitDemo.SafeJson` falls back to no rows. The two policies are kept
  apart. `StreamlitDemo.FallbackPolicies` states the only way they can
  differ, and the slice lemmas of each module say when each fallback is
  taken.
- **Two-stage deduplication.** Stage 1 keeps a row the first time its
  `(key, value, context)` triple appears; a missing field is `None`.
  Stage 2 keeps a row the first time its context appears; a missing
  context counts as `""`. These are the loops of the main block of
  `main.py` and of `clean_rows`. They are modelled as methods with loops
  over `seen` sets. Each is proved against `FirstSeen.KeepFirst`, a
  declarative first-seen filter. `FirstSeen.FirstsOf` pins that filter down
  as "exactly the first carrier of each key, in input order". For rows
  whose members are strings or missing, the context is a function of the
  triple, so stage 1 never changes what stage 2 keeps
  (`Dedup.TwoStagesAreOne`). Both stages together then equal one
  first-row-per-context filter, and running them again changes nothing.
  A JSON `null` context breaks this; see "Left out".

A row is `Records.Row`. Its `key`, `value` and `context` are
`Option<string>`, so `row.get(...)` returning `None` is represented.
Further JSON members sit in `extra`. They are carried along but never
compared, so two rows with the same triple can still differ.

## Model

| member | source | states |
|---|---|---|
| PyText.Find | main.py:67 | `str.find`: -1 exactly when the character is absent, otherwise an index holding it with no earlier occurrence |
| PyText.RFind | main.py:68 | `str.rfind`: -1 exactly when the character is absent, otherwise an index holding it with no later occurrence |
| PyText.IsSpace | main.py:35 | `str.isspace()` on one character: the whitespace set `str.split()` splits on (no contract of its own) |
| PyText.Split | main.py:35 | `str.split()` yields only non-empty words free of Python whitespace |
| PyText.JoinSpace | main.py:35 | `" ".join(ws)`: empty for no pieces, otherwise starts with the first piece |
| PyText.SplitOn | main.py:35 | `s.split(sep)`: at least one piece, no piece contains `sep`, and a string without `sep` is its own single piece |
| PyText.Slice | main.py:73 | `t[lo:hi]` for bounds inside the string: empty when `hi <= lo`, otherwise the `hi - lo` characters starting at `lo` |
| Normalize.SplitJoin | main.py:35 | splitting `" ".join(ws)` gives back any list of words `ws` |
| Normalize.JoinWellSpaced | main.py:35 | `" ".join` of words is well spaced and starts with the first word |
| Normalize.JoinSplitWellSpaced | main.py:35 | a well-spaced text is rebuilt by joining its own words |
| Normalize.SplitOnJoin | main.py:35 | `" ".join(ws).split(" ") == ws` for a non-empty list of words |
| Normalize.Collapse | main.py:35 | `" ".join(text.split())` is well spaced and has exactly the words of the input |
| Normalize.CollapseSplitOnSpace | main.py:35 | splitting the collapsed text on single spaces gives `text.split()`; the collapsed text is empty exactly when there are no words |
| Normalize.CollapseUnique | main.py:35 | any well-spaced text with the words of the input is the collapsed text |
| Normalize.CollapseIdempotent | main.py:35 | collapsing twice equals collapsing once |
| MainScript.SplitChunksCleaned | main.py:34-35 | the text `split_chunks` wraps has no edge whitespace, no double spaces, and the same words as `text.split()`, also when split on `" "` |
| StreamlitDemo.ChunkCleaned | streamlit_demo.py:24-25 | the text `chunk` wraps has no edge whitespace, no double spaces, and the same words as `text.split()`, also when split on `" "` |
| Records.TripleOf | main.py:102 | the stage 1 triple `(row.get("key"), row.get("value"), row.get("context"))`; the stage 2 context can be read off it |
| Records.ContextOf | main.py:114 | `row.get("context", "")`: a missing context reads as `""` (no contract of its own) |
| Records.RawText | main.py:71 | the fallback record `{"key": "raw_text", "value": t, "context": t}` (no contract of its own) |
| MainScript.SafeParse | main.py:66-75 | `safe_parse`: without a `[` or a `]` the result is the `raw_text` record; any other result is what the decoder returned for the text from the first `[` to the last `]` inclusive |
| StreamlitDemo.SafeJson | streamlit_demo.py:43-47 | `safe_json`: without a `[` or a `]` there are no rows; any rows returned are what the decoder returned for the text from the first `[` to the last `]` inclusive |
| MainScript.SafeParseNoBrackets | main.py:66-71 | without a `[` or without a `]` the result is exactly the one `raw_text` record holding the reply |
| PyText.FindAt | main.py:67 | an index holding the character with no occurrence before it is what `find` returns |
| PyText.RFindAt | main.py:68 | an index holding the character with no occurrence after it is what `rfind` returns |
| MainScript.SafeParseDecodesSlice | main.py:66-75 | with both brackets, the decoder sees exactly the first `[` to the last `]` inclusive; the result is its rows, or the `raw_text` record when it fails |
| MainScript.SafeParseReversedBrackets | main.py:67-75 | when the last `]` precedes the first `[` the slice is empty, decoding fails, and the `raw_text` record is returned |
| StreamlitDemo.SafeJsonNoBrackets | streamlit_demo.py:43-45 | without a `[` or without a `]` there are no rows |
| StreamlitDemo.SafeJsonDecodesSlice | streamlit_demo.py:43-47 | with both brackets, the result is exactly the decoder's rows for the inclusive slice, or no rows when it fails |
| StreamlitDemo.SafeJsonReversedBrackets | streamlit_demo.py:44-47 | when the last `]` precedes the first `[` there are no rows |
| StreamlitDemo.FallbackPolicies | streamlit_demo.py:43-47 | the only way the two parsers can differ: they agree whenever `safe_json` returns rows, and otherwise `safe_parse` gives either no rows too or the `raw_text` record |
| FirstSeen.KeepFirstSnoc | main.py:101-105 | one loop step: the seen set gains the new key, and the row is appended exactly when its key was not seen |
| FirstSeen.KeepFirstIsFirsts | main.py:101-105 | the filter output is exactly the rows at the positions where a key first appears, in input order |
| FirstSeen.FirstsOfIsKeepFirst | streamlit_demo.py:50-65 | a sequence is the filter output if and only if it is exactly the first carrier of each key, in input order |
| FirstSeen.KeepFirstSubseq | main.py:101-105 | the filter output is an order-preserving subsequence of its input |
| FirstSeen.KeepFirstKeysThrough | main.py:110-117 | filtering by a key loses no value of any coarser key |
| FirstSeen.KeepFirstKeys | main.py:101-105 | every key of the input is still carried by the output |
| FirstSeen.KeepFirstDistinct | main.py:101-105 | no two kept rows share a key |
| FirstSeen.KeepFirstOfDistinct | main.py:101-105 | an input whose keys are already distinct passes unchanged |
| FirstSeen.KeepFirstIdempotent | streamlit_demo.py:58-63 | filtering twice by the same key equals filtering once |
| FirstSeen.KeepFirstCoarsen | main.py:98-117 | if one key is a function of another, filtering by the finer key first does not change the coarser filter |
| Dedup.TwoStagesAreOne | main.py:98-119 | the triple stage followed by the context stage equals the context stage alone |
| Dedup.DistinctContextsDistinctTriples | main.py:102-114 | rows with distinct contexts have distinct triples |
| Dedup.TwoStagesIdempotent | streamlit_demo.py:50-65 | running both stages again on their own output returns it unchanged |
| Dedup.DistinctContextsUnchanged | main.py:98-119 | rows whose contexts are already distinct come through both stages unchanged |
| Dedup.MissingVersusEmptyContext | main.py:102-114 | a missing context and an empty one are different triples in stage 1 but the same context in stage 2 |
| MainScript.RemoveDuplicateRows | main.py:98-105 | the first-seen filter by triple: no two output rows share a triple, the output is an order-preserving subsequence, and every triple of the input survives |
| MainScript.RemoveDuplicateComments | main.py:110-117 | the first-seen filter by context: no two output rows share a context, the output is an order-preserving subsequence, and every context survives |
| MainScript.Deduplicate | main.py:98-119 | both stages equal one first-row-per-context filter; the result holds exactly the first row of each context, in input order, without repeated triples or contexts |
| StreamlitDemo.CleanRows | streamlit_demo.py:50-65 | both stages equal one first-row-per-context filter; the result is an order-preserving subsequence holding exactly the first row of each context, without repeated triples or contexts, and loses no context |

## Left out

- PDF reading (`read_pdf_text`, `extract_text`): file I/O through pdfplumber.
- The model calls and their prompt templates (`extract_ai`, `ask_model`) are network calls to Gemini. Their replies are the inputs of `SafeParse` and `SafeJson`.
- The per-chunk driver loops (main.py:87-94, streamlit_demo.py:79-82) only call the model and concatenate what the parser returns.
- `json.loads` is a parameter, not a JSON parser. It returns `None` where the real decoder raises. `SafeParseReversedBrackets` and `SafeJsonReversedBrackets` rely on one fact about it: section 2 of RFC 8259 rejects an empty text.
- Decoded values other than arrays of objects with string members are outside the model. This covers non-object array elements, on which `row.get` would raise, and numeric or boolean members. It also covers JSON `null`: for a present but null context, `row.get("context", "")` gives `None`, not `""`.
- `textwrap.wrap` is standard-library behaviour. By default it breaks words longer than the limit, so chunks do not always end at word boundaries. Chunk lengths and boundaries are not modelled.
- Excel export and formatting (DataFrame construction, index shift, renaming, column widths, bold header) and the startup, environment and UI code are not modelled. The module-level writer at main.py:131-142 runs outside the `__main__` guard and uses `df`.
- Python's slice clamping is modelled only for the bounds these scripts produce, which never fall outside the string.
- Dedup.TwoStagesAreOne: what it says of the program holds only when no row has a JSON `null` context, and the same goes for the `== UniqueContexts(final)` ensures of `MainScript.Deduplicate` and the `== UniqueContexts(records)` ensures of `StreamlitDemo.CleanRows`. In the program, a missing context and a `null` one give the same triple component `None` (main.py:102), but different stage 2 contexts, `""` and `None` (main.py:114). For `[{"key":"k","value":"v"}, {"key":"k","value":"v","context":null}]` both scripts keep only the first row, while a single first-row-per-context filter keeps both. The model cannot express `null`, so it does not capture this case.
