# Lost Ark life-skill collector: text filter, parser and duplicate guard

A browser page shares the game screen and runs OCR on the chat window every 1.5 seconds.
It keeps an OCR result only if it mentions `x` or "획득" ("acquired"). It then flattens line
feeds to spaces and posts the text to a small collector service. The collector does the
following with each submission:

- It finds an item name and a count with the pattern `([가-힣\s]+)\s?x\s?(\d+)`.
- It fails with an HTTP 500 when the count has more than 4300 digits, because `int()` refuses such a string.
- It rejects a repeat of the last accepted item name that arrives within two seconds.
- It remembers the accepted name and time.
- It answers with `received = "<name> x<count>"`.

The page prepends that `received` value to a log of at most ten entries.

This project models both sides in Dafny.

- `text.dfy` (module `Text`) holds the shared text primitives:
  - Python's whitespace set, which serves both `\s` and `str.strip()`;
  - the Hangul-syllable class `가-힣`;
  - `strip()`;
  - `int()` of a digit run, and the decimal formatting of a natural number.
- `pattern.dfy` (module `Pattern`) holds `re.search` with the collector's pattern:
  - an explicit matcher (`MatchAt`, `SearchFrom`, `Search`);
  - a declarative description of a match (`Matches`);
  - the order in which the backtracking engine tries matches (`Precedes`, `IsLeftmostFirst`);
  - the proof that the matcher returns exactly the leftmost-first match.
- `backend.dfy` (module `Backend`) holds `collect_data` of `backend/main.py`:
  - `Extract` reads the item off the match, or reports that there is none or that `int()` fails;
  - `Received` formats the reply text;
  - `CollectStep` is the pure one-call step;
  - `Replay` runs a series of submissions;
  - the class `Collector` holds the mutable `last_captured` state (`lastText`, `lastTime`), and its `Collect` method is proved against `CollectStep`.
- `frontend.dfy` (module `Frontend`) holds the pure parts of `frontend/src/App.jsx`:
  - the relevance filter and the line-feed flattening, combined in `Classify`;
  - the bounded log update `PushLog`;
  - what a send does to the log, `LogAfterSend`;
  - one whole filter, send, collect and log cycle, `Cycle`, tying both sides together.

Representation choices:

- Time is an integer number of microseconds on the server's naive local clock, counted from 1970-01-01 00:00. Microseconds are Python's `datetime` resolution, and only differences of times matter.
  - `datetime.min` is `MinTime = -62_135_596_800_000_000`.
  - `total_seconds() < 2.0` is exactly `now - last < 2_000_000`.
- `datetime.now()` is the parameter `now`.
- A log entry is `Option<string>`. `None` stands for the JavaScript `undefined` that the page prepends when the collector answers "ignored" or "duplicate": those replies have no `received` field.

Where the code and its comments disagree, the model follows the code:

- The collector deduplicates by item name (`backend/main.py:46-52`). The comment at `backend/main.py:46` speaks of the same item *and count*, but the code compares only the name, and `Backend.DedupIgnoresAmount` states that.
- The "ignored" and "duplicate" replies carry no `received` field (`backend/main.py:40`, `backend/main.py:49`). The page prepends the missing value all the same (`frontend/src/App.jsx:61`); see `Frontend.ReceivedField` and `Frontend.LogAfterSend`.

## Model

| member | source | states |
|---|---|---|
| Text.Strip | backend/main.py:42 | `strip()` yields a slice of its input with no whitespace at either end, and everything it cuts off on either side is whitespace |
| Text.StripPadded | backend/main.py:42 | whitespace padding around a string that has no whitespace at its ends is exactly what `strip()` removes |
| Text.DecimalValue | backend/main.py:43 | `int()` of a run of `k` digits is below `10^k`, and positive when the first digit is not `0` |
| Text.DecimalValueFits | backend/main.py:43 | the numeral of `int(s)` is never longer than `s`, so a count `int()` accepted can be formatted again without reaching the digit limit |
| Text.FormatNat | backend/main.py:59 | `f"{amount}"` is a nonempty run of digits whose first digit is `0` only for the numeral "0" |
| Text.DecimalValueOfFormat | backend/main.py:43 | `int()` of the formatted number gives the number back |
| Text.FormatOfDecimalValue | backend/main.py:43 | a digit string without leading zero is the formatting of its `int()` value |
| Pattern.LeftmostFirstIsUnique | backend/main.py:37 | at most one match is tried first by the backtracking engine |
| Pattern.MatchShape | backend/main.py:37 | every match has its `x` at the end of the run of `[가-힣\s]` starting at the match, takes the optional space after `x` when there is one, and ends within the digit run |
| Pattern.MatchAt | backend/main.py:37 | the greedy attempt at a position (the whole run of `[가-힣\s]`, then `x`, an optional whitespace, and the longest run of digits) yields only a match starting at that position |
| Pattern.MatchAtIsFirst | backend/main.py:37 | the greedy attempt at a position precedes every other match starting there, and it fails only if no match starts there |
| Pattern.SearchFrom | backend/main.py:37 | scanning from `i`, the first match found is a match at or after `i` that no later-or-equal match precedes; nothing found means every match starts before `i` |
| Pattern.Search | backend/main.py:37 | `re.search` finds nothing exactly when no substring matches, and otherwise returns the leftmost-first match |
| Backend.StrippedNameIsItemName | backend/main.py:42 | `group(1).strip()` has no whitespace at its ends and contains only Hangul syllables and whitespace |
| Backend.ItemOf | backend/main.py:42-43 | the item read off any match has a well-formed item name, and the numeral of its amount is no longer than group 2 |
| Backend.Extract | backend/main.py:37-43 | an extracted item has a name with no surrounding whitespace and only `[가-힣\s]` characters, and an amount whose numeral is within the 4300-digit limit |
| Backend.ExtractMeaning | backend/main.py:37-43 | extraction finds no match exactly when no substring matches; otherwise, for the leftmost-first match, `int()` fails when group 2 has more than 4300 digits, and otherwise the item is stripped group 1 with the decimal value of group 2 |
| Backend.DigitLimitMeaning | backend/main.py:43 | `int()` fails exactly when the match the search reports has more than 4300 digits in group 2 |
| Backend.Received | backend/main.py:59 | `received` is the name, a space, `x`, then exactly the amount's numeral, a digit run without leading zero |
| Backend.SearchReceived | backend/main.py:59 | in a `received` text the pattern matches the whole string, with the name and the following space as group 1 and the numeral as group 2 |
| Backend.ItemOfReceived | backend/main.py:59 | the item read off that whole-string match is the item the text was made from |
| Backend.ExtractReceived | backend/main.py:59 | extracting from `received` gives back the item name and amount it was formatted from |
| Backend.IsDuplicate | backend/main.py:47-48 | the duplicate test compares the name with the stored one and `total_seconds()` of the elapsed time with `2.0`, which is the same as comparing microseconds with 2 000 000 |
| Backend.CollectStep | backend/main.py:37-52 | one call changes `last_captured` exactly when it answers "success", and then both the stored time and the reply time are `now` |
| Backend.CollectStepOutcomes | backend/main.py:37-52 | "ignored" exactly when no substring matches; a server error exactly when the leftmost-first match has more than 4300 digits in group 2; "duplicate" exactly when the name equals the stored one less than 2 s after the stored time; state unchanged unless "success"; on success the state is the new name and `now` and `received` is the formatted item |
| Backend.SuccessReplyRoundTrip | backend/main.py:57-61 | the `received` of a success reply, submitted again, extracts to the same item as the original text |
| Backend.DedupIgnoresAmount | backend/main.py:48 | two texts with the same item name are rejected or accepted alike and leave the same state, whatever their amounts |
| Backend.InitialAcceptsEveryMatch | backend/main.py:26-29 | from the start-up state every text the collector extracts an item from (a match whose count has at most 4300 digits) is accepted, once the clock is at least two seconds past `datetime.min` |
| Backend.RepeatStep | backend/main.py:47-49 | a repeat of the stored name inside the window is rejected and leaves the state unchanged |
| Backend.RejectedRun | backend/main.py:47-49 | a series of submissions each rejected without changing the state replays to that state and only "duplicate" replies |
| Backend.DuplicatesKeepWindow | backend/main.py:47-52 | any number of repeats inside the window are all rejected and the stored time is never moved forward, so the window is not extended |
| Backend.Collector.constructor | backend/main.py:26-29 | the state starts as the empty name at `datetime.min` |
| Backend.Collector.Collect | backend/main.py:31-61 | the reply and the new `last_captured` are those of `CollectStep`; a rejected text leaves both fields as they were; on success they hold the extracted name and `now` |
| Frontend.ContainsChar | frontend/src/App.jsx:49 | `includes` of a one-character string is membership of that character |
| Frontend.IsRelevant | frontend/src/App.jsx:49 | a text is relevant exactly when it contains the character `x` or the string "획득" |
| Frontend.Normalize | frontend/src/App.jsx:50 | the flattened text has the same length, every line feed is a space, every other character is unchanged in place, and no line feed remains |
| Frontend.NormalizeIdempotent | frontend/src/App.jsx:50 | flattening twice is flattening once |
| Frontend.NormalizeKeepsOccurrences | frontend/src/App.jsx:49-50 | a string without line feed or space occurs in the flattened text exactly when it occurs in the original |
| Frontend.NormalizeKeepsRelevance | frontend/src/App.jsx:49-50 | flattened text is relevant exactly when the original is |
| Frontend.MatchesUnderNormalize | frontend/src/App.jsx:50 | the collector's pattern matches the flattened text at exactly the spans where it matches the original |
| Frontend.SearchUnderNormalize | frontend/src/App.jsx:50 | `re.search` reports the same match in the flattened text as in the original |
| Frontend.StripNormalize | frontend/src/App.jsx:50 | `strip()` commutes with flattening |
| Frontend.ItemOfNormalize | frontend/src/App.jsx:50 | the item read off a match of the flattened text is the flattened item, with the same amount |
| Frontend.NormalizeKeepsExtraction | frontend/src/App.jsx:50-51 | the collector finds no match, hits the digit limit, or extracts an item from the sent text exactly when it would from the raw OCR text; an item has the same amount and a name differing only by line feeds turned into spaces |
| Frontend.Classify | frontend/src/App.jsx:49-52 | a text is sent exactly when it contains `x` or "획득"; what is sent is the flattened text, which has the original length, no line feed, and is still relevant |
| Frontend.PushLog | frontend/src/App.jsx:61 | after an update the log holds min(previous length + 1, 10) entries, the new value first, then the first min(previous length, 9) previous entries in order |
| Frontend.PushAllKeepsNewest | frontend/src/App.jsx:61 | after any number of updates the log is the newest values, newest first, followed by the earlier log, cut to ten |
| Frontend.ElevenReplies | frontend/src/App.jsx:61 | from an empty log, after eleven updates the eleventh value is first, the log is the second to eleventh values newest first, and the first value is gone unless it came again |
| Frontend.ReceivedField | frontend/src/App.jsx:61 | `response.data.received` is present exactly for a success reply, and then it is that reply's `received` text |
| Frontend.LogAfterSend | frontend/src/App.jsx:55-65 | a rejected post leaves the log unchanged; a delivered reply's `received` value is prepended, with at most ten entries kept |
| Frontend.ResponseTo | frontend/src/App.jsx:56-64 | `axios.post` rejects exactly when the collector answered with a server error, and otherwise delivers the reply unchanged |
| Frontend.Cycle | frontend/src/App.jsx:49-65 | one cycle changes the log only when the text was relevant and the reply came back; it changes the collector's state only when the text was relevant and reached it, and then the new state is what the collector's step makes of the flattened text |
| Frontend.CycleOutcome | frontend/src/App.jsx:49-65 | one cycle changes the log only when the text was relevant, the reply came back and it was not a server error; the new entry is present exactly when the collector accepted the sent text, and it then extracts to the same item as the sent text |

## Left out

- Screen capture, the 1.5-second `setInterval`, the ready-state check and canvas drawing (`frontend/src/App.jsx:14-42`) are left out. They are browser I/O, timers and floating-point image geometry.
- Tesseract OCR (`frontend/src/App.jsx:45-46`) is left out: a foreign library. Its output is the parameter `ocrText` of `Frontend.Cycle`.
- `axios.post` and `new Date().toISOString()` (`frontend/src/App.jsx:57-60`) are left out. The network is modelled only as the three outcomes of `Frontend.Transport`, and the request's timestamp is not modelled: the collector ignores it.
- Concurrency is not modelled. Nothing stops a new cycle from starting while an earlier send is still in flight, since `sendToServer` is not awaited. Replies may therefore reach the log in a different order than the texts were sent. The model treats cycles one at a time.
- React rendering and the status text (`frontend/src/App.jsx:67-82`) are left out: UI only.
- FastAPI setup, CORS, pydantic validation, the `print` log line and `health_check` (`backend/main.py:1-23, 55, 63-65`) are left out: framework plumbing and console output.
- The reply's `"time": current_time.isoformat()` string and the `reason`/`message` strings of the "ignored" and "duplicate" replies are left out. The model keeps the time as the integer `now` and the reply kind as a constructor, because no caller reads those strings.
- The body of the HTTP 500 answer to a failed `int()` is left out. `Backend.Reply.ServerError` carries nothing, because `axios.post` rejects on it and the page only logs the error to the console.
- The digit limit is fixed at CPython's default of 4300 (`Text.MaxStrDigits`). Python before 3.11 without the 2022 security fix has no limit. A limit changed with `sys.set_int_max_str_digits` or `PYTHONINTMAXSTRDIGITS` is not modelled.
- Backend.Extract: `\d` is restricted to the ASCII digits `0`–`9`. Python also accepts other Unicode decimal digits, and `int()` reads them.
- Text.IsSpace: one predicate serves both `\s` and `str.strip()`. It lists the 29 code points for which `str.isspace()` holds in Python 3, which is also the set `\s` matches in a `str` pattern.
- Frontend.Normalize: JavaScript strings are UTF-16, and the model works on code points. All characters the pattern and the filter test lie in the Basic Multilingual Plane, so nothing observable changes.
- The clock is not assumed monotonic. `now` is any integer, as `datetime.now()` may step backwards, and the lemmas hold for every value.
