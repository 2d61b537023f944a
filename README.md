# Filenames, structured model replies and task lookup — a Dafny model

This project models three small pieces of a multi-agent research assistant and
proves what they promise.

- **`sanitize_filename`** rewrites a title in four steps:
  - spaces become `_`;
  - the nine characters `< > : " / \ | ? *` become `_`;
  - runs of `_` collapse to one;
  - `_` is stripped from both ends.

  Nothing else is changed. The result is not necessarily a usable filename: `..`,
  the NUL and other control characters, and device names such as `CON` pass
  through unchanged.

  The model is module `Filenames` (`sanitize.dfy`). Each step is a recursive
  function over `string`. A reference definition sits beside it: the maximal runs of
  kept characters (the *words*) joined by single underscores. The pipeline is proved
  clean (no space, reserved character, `__` or edge `_`) and, from that, equal to
  the reference. Idempotence, the kept characters and the docstring examples
  follow from the equality; the length bound is the pipeline's own contract.
- **`call_model`** asks a language model for a completion. In JSON mode it turns
  the reply into a dict through a fixed chain:
  1. set-strip the Markdown fence characters from both ends;
  2. check that the text opens an object;
  3. parse strictly;
  4. otherwise repair the original reply;
  5. otherwise return `{}`.

  The model is module `ModelCall` (`model_call.dfy`). What the provider did is an
  input (`ProviderError` or `Completed(text)`). Each of the two parsers is a function
  parameter that yields `None` where the Python parser raises.
- **The task routes of the web server** are modelled in module `TaskServer`
  (`task_server.dfy`):
  - `POST /api/multi_agents` checks the body and answers with a task id built
    from the clock;
  - `GET /api/tasks/{task_id}` looks for output files whose names start with
    the id after every `task_` is removed from it, and maps each extension to a path.

  The decoded request body, the clock reading in whole seconds and the listing of the
  output directory are inputs. Each handler is a function from them to a
  `Response(status, content)`.

Two shared modules give the Python builtins these rely on:
- `PyStr` (`pystr.dfy`) has `str.strip`/`lstrip`/`rstrip` with a character set, the
  `str.isspace` set, `str.replace`, `str.startswith`, and `str(n)` with its inverse.
- `JsonValues` (`json_values.dfy`) has decoded JSON values, Python truthiness and
  `type(v).__name__`.

All three cores are pure in the source: chains of whole-value transforms and
comprehensions, with no state that outlives a call. They are modelled as functions
and lemmas.

## Model

| member | source | states |
|---|---|---|
| PyStr.StartsWith | backend/server/server.py:168 | `s.startswith(prefix)`, also used at multi_agents/agents/utils/llms.py:40. It has no contract of its own; `StartsWithAt` states what it decides. |
| PyStr.StartsWithAt | multi_agents/agents/utils/llms.py:40 | `startswith` holds exactly when the prefix is no longer than the string and agrees with it position by position. |
| PyStr.LStrip | multi_agents/agents/utils/utils.py:36 | `s.lstrip(chars)`, with `chars` read as a set: never longer than its input. `LStripSpec` states what is removed. |
| PyStr.RStrip | multi_agents/agents/utils/utils.py:36 | `s.rstrip(chars)`: never longer than its input. `RStripSpec` states what is removed. |
| PyStr.Strip | multi_agents/agents/utils/llms.py:37 | `s.strip(chars)`: never longer than its input, and a non-empty result neither begins nor ends with a character of the set. |
| PyStr.StripWhitespace | multi_agents/agents/utils/llms.py:40 | `s.strip()`: never longer than its input, and a non-empty result neither begins nor ends with a character for which `str.isspace` holds. |
| PyStr.LStripSpec | multi_agents/agents/utils/utils.py:36 | `lstrip(chars)` keeps a suffix of its input and removes only characters of the set. It removes all of them up to the first character outside the set. |
| PyStr.RStripSpec | multi_agents/agents/utils/utils.py:36 | `rstrip(chars)` keeps a prefix and removes only characters of the set. It removes all of them back to the last character outside the set. |
| PyStr.StripIsMaximalTrim | multi_agents/agents/utils/llms.py:37 | `strip(chars)` keeps one contiguous slice of its input. Everything cut off on either side belongs to the set, and the slice neither begins nor ends with a character of the set. |
| PyStr.StripSubsetNoop | multi_agents/agents/utils/llms.py:37 | After a strip with a set, a second strip with that set or any subset of it changes nothing. |
| PyStr.LStripPrefix | multi_agents/agents/utils/llms.py:37 | A prefix made only of characters of the set disappears entirely. |
| PyStr.RStripSuffix | multi_agents/agents/utils/llms.py:37 | A suffix made only of characters of the set disappears entirely. |
| PyStr.StripFirstChar | multi_agents/agents/utils/llms.py:40 | A non-empty `strip()` begins with the first character outside the set. The result is empty exactly when every character is in the set. |
| PyStr.ReplaceAll | backend/server/server.py:162 | `s.replace(pat, rep)` as one left-to-right scan. With a non-empty pattern and a replacement no longer than it, the result is never longer than the input. |
| PyStr.ReplaceScan | backend/server/server.py:162 | The scan for a non-empty pattern: an occurrence at the scan position is replaced and skipped, any other character is copied. With a replacement no longer than the pattern, the result is never longer than the input. |
| PyStr.ReplaceCharPointwise | multi_agents/agents/utils/utils.py:27 | Replacing one character by another keeps the length and maps each position on its own. |
| PyStr.ReplaceAllNoOccurrence | backend/server/server.py:162 | `replace` with a non-empty pattern that does not occur returns its input. |
| PyStr.ReplaceAllLeading | backend/server/server.py:162 | Proof helper: a leading occurrence of the pattern is consumed and replaced, and the scan goes on after it. |
| PyStr.ReplaceAllCopies | backend/server/server.py:162 | Proof helper: a character that cannot begin the pattern is copied, and the scan moves on by one. |
| PyStr.ReplaceAllNoMatchHere | backend/server/server.py:162 | Proof helper: where the pattern does not start, the first character is copied and the scan moves on by one. |
| PyStr.ReplaceAllSkipsPrefix | backend/server/server.py:162 | Proof helper: a prefix holding no character that can begin the pattern is copied through unchanged, and the scan goes on after it. |
| PyStr.ReplaceAllSkips | backend/server/server.py:162 | Characters that cannot begin the pattern are copied through unchanged. |
| PyStr.Decimal | backend/server/server.py:129 | `str(n)` is a non-empty string of decimal digits with no leading zero unless `n` is 0. |
| PyStr.DecimalRoundTrip | backend/server/server.py:129 | `int(str(n)) == n` for every natural `n`. |
| Filenames.Sanitize | multi_agents/agents/utils/utils.py:26-38 | `sanitize_filename`: the four steps in order. The result is never longer than the input and neither begins nor ends with `_`. |
| Filenames.SubReserved | multi_agents/agents/utils/utils.py:30 | The reserved-character substitution keeps the length, leaves no reserved character and keeps every other character in place. |
| Filenames.CollapseUnderscores | multi_agents/agents/utils/utils.py:33 | Collapsing leaves no `__`, adds no new character, is empty only for empty input, keeps the first character and never lengthens. |
| Filenames.SubReservedAt | multi_agents/agents/utils/utils.py:30 | Each character of the substitution is `_` for a reserved character and the input character otherwise. |
| Filenames.NormalizePointwise | multi_agents/agents/utils/utils.py:27-30 | The first two steps send every space, reserved character and `_` to `_` and keep every other character in place. |
| Filenames.Words | multi_agents/agents/utils/utils.py:27-36 | Reference definition: a string that starts with a kept character has at least one word. |
| Filenames.WordsAreWords | multi_agents/agents/utils/utils.py:27-36 | Every word is a non-empty run of characters that are neither spaces, reserved characters nor `_`. |
| Filenames.WordsSameShape | multi_agents/agents/utils/utils.py:27-30 | Two strings with separators at the same places and equal characters elsewhere have the same words. |
| Filenames.WordsLStrip | multi_agents/agents/utils/utils.py:36 | Stripping leading `_` keeps the words. |
| Filenames.WordsRStrip | multi_agents/agents/utils/utils.py:36 | Stripping trailing `_` keeps the words. |
| Filenames.WordsAppendSeparator | multi_agents/agents/utils/utils.py:36 | Appending a separator keeps the words. |
| Filenames.WordsCollapse | multi_agents/agents/utils/utils.py:33 | Collapsing runs of `_` keeps the words. |
| Filenames.WordsOfSanitize | multi_agents/agents/utils/utils.py:27-36 | The sanitised name has the same words as its input. |
| Filenames.NormalizedHasNoForbiddenChars | multi_agents/agents/utils/utils.py:27-30 | After the two substitutions no space or reserved character is left. |
| Filenames.CollapseKeepsNoForbiddenChars | multi_agents/agents/utils/utils.py:33 | Collapsing reintroduces no forbidden character and leaves no `__`, even for underscores already in the input. |
| Filenames.StripMakesClean | multi_agents/agents/utils/utils.py:36 | Stripping `_` from a string with no forbidden character and no `__` gives a clean name: no `_` at either end. |
| Filenames.SliceKeepsClean | multi_agents/agents/utils/utils.py:36 | Any slice of a string with no forbidden character and no `__` has neither. |
| Filenames.SanitizeIsClean | multi_agents/agents/utils/utils.py:27-36 | The output has no space, no reserved character and no `__`, and does not start or end with `_`. |
| Filenames.CleanIsJoinOfWords | multi_agents/agents/utils/utils.py:27-36 | A clean name is its own words joined by `_`. |
| Filenames.SanitizeIsJoinOfWords | multi_agents/agents/utils/utils.py:27-36 | `sanitize_filename` equals the reference definition: the input's words joined by single underscores. |
| Filenames.SanitizeIdempotent | multi_agents/agents/utils/utils.py:26-38 | Sanitising twice gives the same name as sanitising once. |
| Filenames.WordCharsAreWords | multi_agents/agents/utils/utils.py:27-36 | The kept characters of a string, in order, are its words concatenated. |
| Filenames.SanitizeKeepsWordChars | multi_agents/agents/utils/utils.py:27-36 | Every character that is not a space, reserved or `_` survives in its original order, and nothing else survives. |
| Filenames.SanitizeOnlySeparators | multi_agents/agents/utils/utils.py:27-36 | A name made only of spaces, reserved characters and `_` sanitises to the empty string. |
| Filenames.NoWords | multi_agents/agents/utils/utils.py:27-36 | A string made only of separators has no words. |
| Filenames.WordsSplit | multi_agents/agents/utils/utils.py:27-36 | A separator splits the words of a concatenation. |
| Filenames.WordsOfWord | multi_agents/agents/utils/utils.py:27-36 | A word is its own only word. |
| Filenames.WordsWordThenRest | multi_agents/agents/utils/utils.py:27-36 | A word followed by a separator is the first word. |
| Filenames.WordsOfFive | multi_agents/agents/utils/utils.py:20-21 | Five words with single separators between them have exactly those words. |
| Filenames.WordsOfFirstExample | multi_agents/agents/utils/utils.py:20-21 | The words of the first docstring example. |
| Filenames.JoinOfFirstExample | multi_agents/agents/utils/utils.py:20-21 | The words of the first docstring example joined by `_`. |
| Filenames.SanitizeDocExampleReserved | multi_agents/agents/utils/utils.py:20-21 | `'invalid:file/name*example?.txt'` gives `'invalid_file_name_example_.txt'`. |
| Filenames.WordsOfTwo | multi_agents/agents/utils/utils.py:23-24 | Two words with one separator between them have exactly those words. |
| Filenames.WordsOfSecondExample | multi_agents/agents/utils/utils.py:23-24 | The words of the second docstring example. |
| Filenames.JoinOfSecondExample | multi_agents/agents/utils/utils.py:23-24 | The words of the second docstring example joined by `_`. |
| Filenames.SanitizeDocExampleSpace | multi_agents/agents/utils/utils.py:23-24 | `'valid filename.txt'` gives `'valid_filename.txt'`. |
| ModelCall.CallModel | multi_agents/agents/utils/llms.py:11-74 | A failed provider call gives exactly `{}` in either mode. Outside JSON mode a reply comes back verbatim. In JSON mode the result is always a dict. |
| ModelCall.Clean | multi_agents/agents/utils/llms.py:37 | `response.strip("```json\n").strip("```")`: never longer than the reply, and a non-empty result neither begins nor ends with a backtick, `j`, `s`, `o`, `n` or newline. |
| ModelCall.OpensObject | multi_agents/agents/utils/llms.py:40 | `cleaned.strip().startswith("{")`. It has no contract of its own; `OpensObjectIff` states what it decides. |
| ModelCall.AsDict | multi_agents/agents/utils/llms.py:47-48 | `isinstance(v, dict)` on a parser's outcome: a dict exactly when the parser returned a JSON object, and then that object's fields. |
| ModelCall.StrictAttempt | multi_agents/agents/utils/llms.py:37-50 | The strict path yields a dict exactly when the cleaned text opens an object and `json5.loads` of the cleaned text gives a dict; that dict is what it yields. |
| ModelCall.ParseStructured | multi_agents/agents/utils/llms.py:34-66 | The JSON path: the strict dict when the strict path yields one; otherwise the repaired dict when repair of the original reply gives a dict; otherwise `{}`. |
| ModelCall.CleanIsSetStrip | multi_agents/agents/utils/llms.py:37 | Cleaning is a single set-strip of { `` ` ``, j, s, o, n, newline } from both ends, so the second `.strip("```")` removes nothing. |
| ModelCall.CleanFencedObject | multi_agents/agents/utils/llms.py:37 | A payload from `{` to `}` comes out of a ```` ```json ```` fence unchanged, and an unfenced one is left as it is. |
| ModelCall.CleanStripsLettersNotPrefix | multi_agents/agents/utils/llms.py:37 | Cleaning strips characters, not the prefix: `"sonnet"` cleans to `"et"`. |
| ModelCall.OpensObjectIff | multi_agents/agents/utils/llms.py:40 | The object check holds exactly when the first non-whitespace character of the cleaned text is `{`. |
| ModelCall.JsonModeYieldsDict | multi_agents/agents/utils/llms.py:34-66 | In JSON mode the result is a dict, and it is the strictly parsed dict, the repaired dict or `{}`. |
| ModelCall.StrictDictWins | multi_agents/agents/utils/llms.py:44-50 | When the cleaned text opens an object and the strict parse yields a dict, that dict is returned, whatever repair would give. |
| ModelCall.NoOpeningBraceSkipsStrict | multi_agents/agents/utils/llms.py:40-41 | When the cleaned text does not open an object, the strict parser is never consulted: any two strict parsers give the same result. |
| ModelCall.StrictNonDictFallsThrough | multi_agents/agents/utils/llms.py:47-48 | A strict parse that raises or yields a non-dict makes the strict path yield nothing, and the answer is then exactly the one a strict parser that always raises would give: that of the repair pass. |
| ModelCall.RepairReadsOriginal | multi_agents/agents/utils/llms.py:59-62 | Repair is applied to the original, uncleaned reply, and a repaired dict is returned. |
| ModelCall.RepairFailureGivesEmpty | multi_agents/agents/utils/llms.py:63-66 | When repair raises or yields a non-dict, the result is exactly `{}`. |
| ModelCall.FencedObjectParsed | multi_agents/agents/utils/llms.py:37-50 | A dict wrapped in a Markdown fence is strictly parsed from the bare payload. |
| JsonValues.Truthy | backend/server/server.py:122 | `bool(v)` for a decoded JSON value: `None`, `False`, zero and empty strings, lists and dicts are falsy. It has no contract of its own; `TaskServer.FalsyTaskRejected` states its use. |
| JsonValues.TypeName | backend/server/server.py:119 | `type(v).__name__`; the name is `"dict"` exactly for a JSON object. |
| TaskServer.ErrorContent | backend/server/server.py:150-155 | The body of a 500 answer: exactly the keys `status` and `message`, with `"error"` and the exception's message. |
| TaskServer.TaskField | backend/server/server.py:119 | `data.get("task")`: the field's value when present, else `None`, which is falsy. |
| TaskServer.NoGetMessage | backend/server/server.py:119 | `str(e)` for the `AttributeError` of `.get` on a value that is not a dict. It has no contract of its own; `NonObjectBodyFails` states its use. |
| TaskServer.TaskId | backend/server/server.py:129 | A task id is `task_` followed by decimal digits only. |
| TaskServer.RunMultiAgents | backend/server/server.py:115-155 | 400 exactly for a JSON-object body whose `task` is missing or falsy. 202 exactly for one whose `task` is truthy. 500 exactly when the body cannot be read or is not an object; an unreadable body gets exactly `{"status":"error","message":<its message>}`. |
| TaskServer.FalsyTaskRejected | backend/server/server.py:119-126 | A missing or falsy task gets exactly `{"status":"error","message":"Task is required"}` with 400, and only such a task gets it. |
| TaskServer.LookupPrefixOfTaskId | backend/server/server.py:129 | The lookup prefix of a generated id is the decimal clock reading, and those digits parse back to the reading. |
| TaskServer.AcceptedTask | backend/server/server.py:129-147 | An accepted task gets 202 with exactly the keys status, message, task_id and task. The status is `"accepted"`, the message is `"Research task started"`, the task is echoed back, and the id is `task_` followed by the clock reading in decimal, which is also the id's lookup prefix. |
| TaskServer.AcceptedKeys | backend/server/server.py:140-148 | An accepted answer has exactly the keys status, message, task_id and task. |
| TaskServer.AcceptedValues | backend/server/server.py:129-147 | An accepted answer is 202 with status `"accepted"`, message `"Research task started"`, the task echoed back and the id `task_` + the clock reading in decimal. |
| TaskServer.AcceptedLookup | backend/server/server.py:129-162 | The id handed back is looked up by the clock reading in decimal, which parses back to that reading. |
| TaskServer.NonObjectBodyFails | backend/server/server.py:118-119 | A body that is not a JSON object fails at `.get` and gets 500 with the `AttributeError` message. |
| TaskServer.OnlyTaskIsRead | backend/server/server.py:119-137 | Bodies with the same `task` get the same answer: `report_type` and the request object built from it change nothing. |
| TaskServer.LookupPrefix | backend/server/server.py:162 | `task_id.replace("task_", "")`: never longer than the id. `LookupPrefixOfTaskId` and the two lemmas below state what it removes. |
| TaskServer.Matches | backend/server/server.py:166-168 | The names of the listing that start with the prefix, in listing order. It has no contract of its own; `MatchesSpec` states what it keeps. |
| TaskServer.LookupRemovesOccurrence | backend/server/server.py:162 | Every `task_` is removed from the id, not only a leading one: after any text with no `t`, an occurrence is dropped and the lookup goes on after it. |
| TaskServer.LookupDoubledPrefix | backend/server/server.py:162 | Both copies are removed: `"task_task_5"` looks up `"5"`. |
| TaskServer.LookupNotRescanned | backend/server/server.py:162 | Text that a removal brings together is not scanned again: `"tatask_sk_"` looks up `"task_"`. |
| TaskServer.LookupSkipsLeadingT | backend/server/server.py:162 | Proof helper: a `t` whose third character is not `s` cannot begin `task_` and is kept. |
| TaskServer.LookupKeepsSk | backend/server/server.py:162 | Proof helper: `"sk_"` holds no `t` and is looked up unchanged. |
| TaskServer.MatchesSpec | backend/server/server.py:168 | The matches are exactly the listed names that start with the prefix. |
| TaskServer.GetTaskStatus | backend/server/server.py:158-198 | 500 exactly when the directory cannot be listed, with exactly `{"status":"error","message":<its message>}`. 404 exactly when it is missing or no name starts with the prefix. 200 exactly when some listed name does. |
| TaskServer.NotFound | backend/server/server.py:170-177 | With no match, or no output directory, the answer is exactly 404 `{"status":"not_found","message":"Task not found or still processing"}`. |
| TaskServer.LastIndexOf | backend/server/server.py:181 | `p.rfind(c)`: an index of `p` or -1. `LastIndexOfSpec` states which index. |
| TaskServer.Extension | backend/server/server.py:181 | `os.path.splitext(f)[1][1:]` as posixpath computes it. It has no contract of its own; `ExtensionSpec`, `ExtensionOfName` and `ExtensionOfDotfile` state its meaning. |
| TaskServer.OutputPath | backend/server/server.py:181 | `os.path.join("outputs", f)` as posixpath computes it: the path ends with the name. |
| TaskServer.FilePaths | backend/server/server.py:180-183 | The dict comprehension over the matches, inserting in order. It has no contract of its own; `FilePathsKeys` and `FilePathsLastWins` state its keys and values. |
| TaskServer.LastIndexOfSpec | backend/server/server.py:181 | `rfind` returns an index holding the character, with none after it, or -1. |
| TaskServer.ExtensionSpec | backend/server/server.py:181 | The extension key is a suffix of the name that follows a dot and holds no dot or `/`. |
| TaskServer.ExtensionCases | backend/server/server.py:181 | Proof helper: the extension is empty, or it is what follows a last dot that comes after the last `/`. |
| TaskServer.AfterLastDot | backend/server/server.py:181 | Proof helper: what follows the last dot, when that dot comes after the last `/`, follows a dot and holds no dot or `/`. |
| TaskServer.AllDots | backend/server/server.py:181 | The test of `splitext` that the text before the dot is only dots. It has no contract of its own; `AllDotsSpec` states what it decides. |
| TaskServer.AllDotsSpec | backend/server/server.py:181 | The text before the dot is only dots exactly when every one of its characters is `.`. |
| TaskServer.FilePathsStep | backend/server/server.py:180-183 | Each further match adds or overwrites the entry for its extension; any other name changes nothing. |
| TaskServer.FilePathsKeys | backend/server/server.py:180-183 | The keys of the file map are exactly the extensions of the matching names. |
| TaskServer.FilePathsLastWins | backend/server/server.py:180-183 | Each key is bound to the path of the last match in listing order that has that extension. |
| TaskServer.Found | backend/server/server.py:180-191 | With a match the answer is 200 with exactly `status: "completed"` and `files`. Its keys are the extensions of the matches, and each is bound to the path of the last match that has it. |
| TaskServer.FoundAnswer | backend/server/server.py:168-191 | With a match the answer is exactly 200 `{"status":"completed","files":…}` with the extension map of the matches. |
| TaskServer.FoundKeys | backend/server/server.py:180-191 | The keys of a 200 answer's file map are exactly the extensions of the matching names. |
| TaskServer.FoundLastWins | backend/server/server.py:180-191 | Each key of a 200 answer's file map holds the path of the last match in listing order with that extension. |
| TaskServer.ExtensionOfName | backend/server/server.py:181 | `splitext` of `stem.ext` gives `ext` when the stem has a character other than a dot and neither part holds a `/`. |
| TaskServer.ExtensionOfDotfile | backend/server/server.py:181 | A name whose only dots lead it (`README`, `.bashrc`) has the empty extension. |
| TaskServer.LastIndexOfAppend | backend/server/server.py:181 | `rfind` on a concatenation finds the last occurrence in the second part if there is one, else in the first. |
| TaskServer.LastIndexOfAbsent | backend/server/server.py:181 | `rfind` of a character that does not occur is -1. |
| TaskServer.ExtensionWithoutDot | backend/server/server.py:181 | A path without a dot has the empty extension. |
| TaskServer.ExtensionUnderDirectory | backend/server/server.py:181 | Prefixing a name without `/` by a directory ending in `/` and holding no dot keeps its extension. |
| TaskServer.ExtensionUnderOutputs | backend/server/server.py:181 | A listed name is stored as `outputs/` + name, and that path has the extension it is filed under. |
| TaskServer.FoundPathsMatchKeys | backend/server/server.py:180-191 | When no listed name holds a `/`, every value of the file map is `outputs/` + a matching name, and its own extension is its key. |

## Left out

- I/O, logging and `print` are left out. Writing to the log and to the console is assumed not to raise. If `print` does raise, for instance when standard output cannot encode the warning sign, the exception escapes `call_model` from both fallback paths (`multi_agents/agents/utils/llms.py:53` is caught at :70, and :71 raises again), so `call_model` raises instead of returning `{}` or a dict.
- The provider call (`create_chat_completion`) is an input. The model takes what it did: raised, or returned a text.
- A provider that returns something other than a string is not modelled. In the source, `.strip` would then raise and the reply would go to the repair pass.
- `Config()` and `convert_openai_messages` run outside the `try` in `call_model`. They are assumed to succeed.
- `optional_params` is computed but never passed on, so there is nothing to model.
- The grammars of `json5` and `json_repair` are not modelled. Each parser is an arbitrary function from text to an optional JSON value.
- JSON values are modelled without `NaN` and `Infinity`, which `json5` and the standard `json.loads` accept. Floats are reals, and strings are sequences of Unicode scalar values, so a lone surrogate cannot be represented.
- TaskServer.RunMultiAgents: does not model the failure of rendering the answer. The source builds `JSONResponse` inside the `try`, and rendering rejects non-finite floats and cannot encode a lone surrogate as UTF-8. A request body whose truthy `task` holds such a value is answered 500 by the source; the model cannot represent that body.
- TaskServer.GetTaskStatus: does not model the failure of rendering the answer. A listed name that holds a byte that does not decode (kept as a lone surrogate by `os.listdir`) makes rendering fail, and the source answers 500; the model cannot represent that name.
- `os.path.splitext` and `os.path.join` are modelled as on POSIX (`posixpath`). On Windows, `ntpath` joins with `\` and `splitext` also treats `\` as a separator, which the model does not follow.
- `time.time()` is left out. The model takes the reading, truncated to whole seconds, as a natural number. A clock set before 1970 gives a negative reading, and the source then builds an id `task_-N`; the model does not represent that id.
- `await request.json()` is left out. The model takes what it produced: a decoded JSON value, or a failure with its message.
- `os.path.exists` and `os.listdir` on `outputs` are left out. The model takes the listing as an input: missing, unlistable with a message, or names in order. A listing never holds `/`; the lemmas that need this say so.
- `report_type` and the local `ResearchRequest` object are computed and never used; `TaskServer.OnlyTaskIsRead` states that they change nothing. No background job is started and no task store exists, so a lookup depends only on the id and the listing.
- Python dicts keep insertion order; `map<string, Json>` has none. Callers that iterate the dict `call_model` returns, and the JSON text `JSONResponse` writes, see that order; for a repeated extension the key keeps its first position and takes the last value. Nothing in the modelled code depends on the order.
- Async execution and concurrency are not modelled; each handler is one function call.
- The other routes of the server are not part of this model: `/`, `/files/`, `/upload/`, `/files/{filename}` and `/ws`. Neither are the startup event, the static mounts, `ConfigRequest` and the WebSocket manager.
- `multi_agents/api.py` and `backend/server/app.py` are wiring around code that is not part of this model.
- `PyStr.Whitespace` lists the code points for which Python's `str.isspace` holds. These are the characters `str.strip()` removes.
