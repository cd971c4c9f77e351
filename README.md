# Quasi-agent function generator, modelled in Dafny

The generator builds a Python function in three prompted steps against a
language-model completion service: a working implementation, then the same
function documented, then the code with unit tests. After each of the first
two replies it pulls the code out of the reply and records that code, in a
fixed fenced form, as the assistant turn in the conversation history. The
history is append-only and is sent whole with every request. The final code
is saved under a file name derived from the description.

This project models:

- the code extractor `extract_code_block`, with the Python `str` operations
  it relies on (`in`, `split`, `strip`, `startswith`, slicing);
- the turn formatter `create_clean_assistant_response`;
- the file-name sanitiser `generate_filename`;
- the three-step driver `create_python_function`.

The project has four modules:

- `PyStr` models the `str` builtins. Strings are sequences of Unicode
  scalar values, and `str.isspace` is CPython's set of whitespace code
  points.
- `CodeBlock` models the extractor and the formatter.
- `Filename` models the sanitiser.
- `QuasiAgent` models the driver. It is an imperative method: it builds the
  history by appending messages, and calls the completion service through a
  parameter `complete`.

A completion either returns a reply or raises. A raise ends the run, and the
run's outcome becomes `Failed` with that error. The method also returns the
history and the list of requests as ghost values. The predicate
`QuasiAgent.Ran` states what one run did, and lemmas derive the driver's
promises from it.

Some of the code's behaviour differs from what one might expect of it, and
the model follows the code:

- A finished run's history holds 6 messages: the system message, three user
  requests, and two assistant turns. One might expect 7, with the third
  reply recorded too, but no assistant turn is appended after the third
  reply (`BuildingAQuasiAgent.py:172-194`). See `QuasiAgent.RunFinished`.
- The extractor removes only the literal prefix `python`, even when it is
  the start of a longer word: a block starting `pythonic` keeps `ic`. It
  does not drop an arbitrary leading language word. See
  `CodeBlock.ExtractPythonicPrefix`.
- Formatting then extracting gives back the code stripped of surrounding
  whitespace, not the code itself. See `CodeBlock.FormatRoundTrip`.
- Re-extracting a recorded turn does not always give back the recorded code.
  It fails when the reply held exactly one fence: the fallback keeps that
  fence in the code, and the formatted turn is then cut at it. See
  `CodeBlock.RenormalizedTurnRecoversCode` and
  `CodeBlock.LoneFenceLostOnReextraction`.

## Model

| member | source | states |
|---|---|---|
| PyStr.IsSpace | BuildingAQuasiAgent.py:51 | `str.isspace` on one character: exactly the code points CPython classifies as whitespace, which are also the ones `strip()` removes |
| PyStr.Contains | BuildingAQuasiAgent.py:27 | `sep in s`: `sep` occurs in `s` at some index |
| PyStr.StartsWith | BuildingAQuasiAgent.py:33 | `s.startswith(prefix)`: the first `len(prefix)` characters of `s` are `prefix` |
| PyStr.Split | BuildingAQuasiAgent.py:29 | `s.split(sep)` for a non-empty separator has at least one piece, and joining the pieces with `sep` gives back `s` |
| PyStr.SplitCutsAtFirst | BuildingAQuasiAgent.py:29 | each cut of `s.split(sep)` is at the first occurrence of `sep` after the previous cut: no piece but the last, followed by all but the last character of `sep`, contains `sep`. With `Split` and `SplitPieces` this fixes every piece |
| PyStr.SplitOverlappingSeparator | BuildingAQuasiAgent.py:29 | a separator that overlaps itself is cut at its first occurrence: four backticks split on a fence into an empty piece and then a single backtick, not the other way round |
| PyStr.SplitPieces | BuildingAQuasiAgent.py:29 | no piece of `s.split(sep)` contains `sep` |
| PyStr.SplitThreePieces | BuildingAQuasiAgent.py:29-30 | `len(s.split(sep)) >= 3` holds exactly when `sep` occurs twice in `s` without overlapping |
| PyStr.SplitSecondPiece | BuildingAQuasiAgent.py:29-31 | with two such occurrences, `parts[1]` is the text between the first occurrence and the next one after it |
| PyStr.BetweenNoOccurrence | BuildingAQuasiAgent.py:31 | the text between the first two occurrences of `sep` does not contain `sep` |
| PyStr.Strip | BuildingAQuasiAgent.py:31 | `s.strip()` starts and ends with a non-whitespace character (or is empty) and is no longer than `s` |
| PyStr.StripBy | BuildingAQuasiAgent.py:55 | `s.strip(chars)` neither starts nor ends with a selected character, is no longer than `s`, and holds only characters of `s` |
| PyStr.StripBySlice | BuildingAQuasiAgent.py:55 | `s.strip(chars)` is a slice of `s`, and every character cut from either end is a selected one |
| PyStr.StripByUnique | BuildingAQuasiAgent.py:55 | any split of `s` into a selected prefix, an unselected-at-both-ends middle and a selected suffix has that middle as `s.strip(chars)` |
| PyStr.StripKeepsOccurrence | BuildingAQuasiAgent.py:38 | an occurrence of a separator whose first and last characters are not whitespace survives `strip()` |
| PyStr.StripNoOccurrence | BuildingAQuasiAgent.py:31 | `strip()` never creates an occurrence of a separator |
| CodeBlock.ExtractCodeBlock | BuildingAQuasiAgent.py:21-38 | whatever the reply, the extracted code starts and ends with non-whitespace (or is empty) |
| CodeBlock.ExtractFenced | BuildingAQuasiAgent.py:27-35 | with two separate fences, the result is the text between the first two, stripped, with a leading literal `python` removed and the rest stripped again |
| CodeBlock.ExtractFallback | BuildingAQuasiAgent.py:37-38 | without two separate fences, the result is the whole reply stripped |
| CodeBlock.ExtractFencedHasNoFence | BuildingAQuasiAgent.py:27-35 | code taken from between two fences never holds a fence |
| CodeBlock.ExtractKeepsLoneFence | BuildingAQuasiAgent.py:27-38 | a reply with exactly one fence keeps it in the extracted code |
| CodeBlock.ExtractHasFenceIff | BuildingAQuasiAgent.py:21-38 | the extracted code holds a fence exactly when the reply holds one fence but not two |
| CodeBlock.ExtractIdempotent | BuildingAQuasiAgent.py:21-38 | extracting from extracted code changes nothing |
| CodeBlock.ExtractProseAroundBlock | BuildingAQuasiAgent.py:27-35 | the reply ``foo ```python\nCODE\n``` bar`` gives `CODE` |
| CodeBlock.ExtractPythonicPrefix | BuildingAQuasiAgent.py:33-34 | the tag is dropped as a literal prefix: a block ``` ```pythonic\nx = 1\n``` ``` gives `ic\nx = 1` |
| CodeBlock.CleanAssistantResponse | BuildingAQuasiAgent.py:40-45 | the turn is 14 characters longer than the code: it opens with a fence, `python` and a newline, closes with a newline and a fence, and the code sits between them |
| CodeBlock.TurnHasTwoFences | BuildingAQuasiAgent.py:45 | a formatted turn always holds two separate fences |
| CodeBlock.StripTurnBody | BuildingAQuasiAgent.py:31-34 | stripping the body of a formatted turn keeps the `python` tag at its front, and dropping the tag and stripping again gives the code stripped |
| CodeBlock.ExtractEmbeddedTurn | BuildingAQuasiAgent.py:21-45 | a formatted turn placed after backtick-free text, followed by anything, extracts to the stripped code when the code holds no fence |
| CodeBlock.FormatRoundTrip | BuildingAQuasiAgent.py:21-45 | extracting from a formatted turn gives the code stripped, when the code holds no fence |
| CodeBlock.RenormalizedTurnRecoversCode | BuildingAQuasiAgent.py:21-45 | extract, format, extract again gives the first extraction exactly when the reply did not hold a single lone fence |
| CodeBlock.LoneFenceLostOnReextraction | BuildingAQuasiAgent.py:21-45 | the reply ``a ``` b`` extracts to itself, but its formatted turn extracts to `a` |
| Filename.LowerChar | BuildingAQuasiAgent.py:50 | lower-casing one character maps ASCII upper-case letters 32 code points down and leaves every other character alone |
| Filename.Lower | BuildingAQuasiAgent.py:50 | `s.lower()` has the length of `s` and lower-cases it position by position |
| Filename.IsAlnum | BuildingAQuasiAgent.py:51 | `str.isalnum` on one character: an ASCII letter or digit |
| Filename.KeepAlnumAndSpace | BuildingAQuasiAgent.py:51 | the filter is no longer than its input, and a character is in the result exactly when it is in the input and is a letter, digit or whitespace |
| Filename.KeepOne | BuildingAQuasiAgent.py:51 | filtering one character keeps it exactly when it is a letter, digit or whitespace |
| Filename.KeepConcat | BuildingAQuasiAgent.py:51 | filtering `a + b` is filtering `a` followed by filtering `b`; with `KeepOne` this fixes the result as the passing characters in their order, repeats included |
| Filename.PunctuationIgnored | BuildingAQuasiAgent.py:47-56 | inserting text with no letter, digit or whitespace anywhere in a description leaves its file name unchanged |
| Filename.PunctuatedWordsFilename | BuildingAQuasiAgent.py:47-56 | `Sort a List!` becomes `sort_a_list_complete.py` |
| Filename.ReplaceSpaces | BuildingAQuasiAgent.py:52 | `replace(' ', '_')` keeps the length and turns each space, and only spaces, into an underscore |
| Filename.Truncate | BuildingAQuasiAgent.py:52 | `s[:40]` is the prefix of `s` of length `min(len(s), 40)` |
| Filename.GenerateFilename | BuildingAQuasiAgent.py:47-56 | the name ends in `_complete.py`, after a stem of at most 40 characters that neither starts nor ends with `_` and holds only lower-case ASCII letters, digits, `_` and non-space whitespace |
| Filename.FilenameIsPlainName | BuildingAQuasiAgent.py:47-56 | a generated name holds no `/`, and its only `.` is the one of `.py` |
| Filename.CleanDescriptionFilename | BuildingAQuasiAgent.py:47-56 | a description of at most 40 ASCII letters, digits and spaces, with no space at either end, becomes its lower-case form with spaces turned into underscores, plus `_complete.py` |
| Filename.WordsFilename | BuildingAQuasiAgent.py:47-56 | `Sort a List` becomes `sort_a_list_complete.py` |
| Filename.PunctuationOnlyFilename | BuildingAQuasiAgent.py:47-56 | the description `?!`, which holds no letter, digit or whitespace, gives the bare `_complete.py` |
| QuasiAgent.AgentPrompts | BuildingAQuasiAgent.py:85-162 | the system message, the implementation request with the description inserted, and the documentation and test requests, character for character as the source sends them |
| QuasiAgent.Conversation | BuildingAQuasiAgent.py:86-162 | the history after `n` finished steps holds `2n + 2` messages |
| QuasiAgent.ConversationShape | BuildingAQuasiAgent.py:86-162 | that history starts with the system message, alternates user and assistant turns, ends with a user request, and holds step `k`'s formatted code at position `2k + 2` |
| QuasiAgent.ConversationPrefix | BuildingAQuasiAgent.py:99-162 | the history is append-only: the history after `k` steps is the first `2k + 2` messages of any later one |
| QuasiAgent.RunSteps | BuildingAQuasiAgent.py:86-172 | one run of the three steps, for any prompt texts, satisfies `Ran` |
| QuasiAgent.CreatePythonFunction | BuildingAQuasiAgent.py:70-194 | a run with this agent's prompts satisfies `Ran`. It asks one to three times, each time with the history so far; every request but the last got a reply; it fails exactly when the last request raised, with that error; a finished run returns the three extracted codes. If the first request, the system message and the implementation request, raises, the run fails with that error; if the run finishes, its first code is extracted from that request's reply |
| QuasiAgent.RunShape | BuildingAQuasiAgent.py:86-164 | in any run the history alternates and ends with a user request, and request `k` holds `2k + 2` messages ending with a user turn |
| QuasiAgent.RunFinished | BuildingAQuasiAgent.py:159-194 | a finished run asked three times, and its history is the 6-message conversation of its first two codes |
| QuasiAgent.RunTurns | BuildingAQuasiAgent.py:112-151 | each step that got a reply left the formatted extracted code of that reply as the assistant turn after its request |
| QuasiAgent.RaiseEndsRun | BuildingAQuasiAgent.py:104-164 | a request that raises is the last one: the run fails with that error, and the history is that request, so it keeps the earlier steps' turns and no later step is asked |
| QuasiAgent.RunOpening | BuildingAQuasiAgent.py:85-112 | the first request of every run is the system message followed by the implementation request; if it raises, the run fails with that error; a finished run's first code is extracted from its reply |
| QuasiAgent.RecordedTurnsReextract | BuildingAQuasiAgent.py:117-151 | the two recorded assistant turns re-extract to the recorded codes exactly when the corresponding reply did not hold a single lone fence |

## Left out

- `generate_response` and the litellm completion call are the parameter `complete`. Model name, token limit and network behaviour are not modelled. A call that raises is a `Raised` completion. A function is enough for any sequence of replies, because every request of a run is a different history.
- `save_function_to_file` is not modelled. It does file I/O, catches its own errors and does not change the returned tuple.
- `main` is not modelled. It is the interactive command-line loop: reading input and printing results.
- The progress and debug prints of `create_python_function` are not modelled. This includes everything `show_full_responses` switches on: those branches only print.
- QuasiAgent.CreatePythonFunction: the returned history and requests are ghost values, added to state the run's behaviour. Python returns only the three code strings, or lets the exception propagate; `Failed` stands for that propagation.
- Filename.LowerChar: models `str.lower` for ASCII letters only. Other characters are left unchanged, whereas Python also lower-cases non-ASCII letters.
- Filename.KeepAlnumAndSpace: `str.isalnum` is modelled for ASCII letters and digits only. Non-ASCII letters and digits are dropped, whereas Python keeps them.
- PyStr.Split: modelled only for a non-empty separator. The source always splits on a fence, and Python raises on an empty separator.
