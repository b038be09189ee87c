# exbot polling notifier — a Dafny model

The notifier watches web pages that announce registration for the Polish
language certificate exam. It reduces each page to a coarse status — `open`,
`closed`, `unknown` or `error` — by searching the page text for fixed phrases.
It remembers the last status of every page in a JSON state file
(`exam_status.json`) and sends a Telegram message when a page's status
changes. It has two entry points:

- `check_and_notify.py`, the multi-source checker. It makes one pass over a
  configured list of pages. It builds the page list from the environment
  (`CHECK_URLS`, else `CHECK_URL`, else a built-in list of eight pages). It
  classifies each fetch outcome, compares the result with the stored record
  (older single-status files are still read) and notifies on every change.
  When something changed it writes back every reading.
- `pol_exam_bot.py`, the older single-page bot. It uses a case-sensitive
  four-phrase classifier and a state file holding `{"status": ...}`. Each
  check saves and notifies iff the reading changed and is not `error`.

The model is functional. The network fetch, `str.lower`, BeautifulSoup's text
extraction and the parsed state file are explicit inputs. A run is a fold
over the page list, and its result is the notifications it emits, the record
it writes (if any) and the `changes_found` flag.

Modules, one per concern of the source:

- `Types`: statuses, fetch outcomes, the JSON shape of the state file, and
  `Option` and `Result`.
- `Text`: the Python string operations the code relies on, such as
  substring `in`, `split`, `strip` and `replace`.
- `Classifier`: `get_status`, plus the phrase scan seen as an ordered rule
  list.
- `UrlConfig`: the page-list parsing.
- `Store`: `load_prev` and `save`.
- `Notify`: the site label and the message text.
- `Checker`: the run performed by `main`, and the corrected run of the
  finding below.
- `ExamBot`: `get_exam_status`, `load_status`, `save_status` and
  `check_updates`.

The code itself treats an `error` reading as no information about the page.
`main` never notifies on one (check_and_notify.py:169-175 skips the
notification and logs that the check failed). The single-page bot never
saves one (pol_exam_bot.py:56-57). Yet `main` stores every reading of a run,
`error` included, whenever some other page changed
(check_and_notify.py:164,180-181). The model keeps that behaviour as
written. A corrected variant is under "## Findings".

## Model

| member | source | states |
|---|---|---|
| Text.IndexOf | check_and_notify.py:135 | the position found is an occurrence of the pattern and no earlier position is; None means the pattern occurs nowhere |
| Text.ContainsIff | check_and_notify.py:93 | Python's substring test `p in s` holds exactly when `p` occurs at some position of `s` |
| Text.Split | check_and_notify.py:19 | `str.split(sep)` yields at least one piece, and joining the pieces with `sep` gives back the input |
| Text.SplitPiecesFree | check_and_notify.py:19 | no piece of a split contains the separator |
| Text.SplitSingle | check_and_notify.py:135 | a split gives a single piece exactly when the separator does not occur |
| Text.SplitHead | check_and_notify.py:135 | the first piece of a split is a prefix of the input, followed there by the separator when more pieces follow, and the whole input when it is the only piece |
| Text.SplitSecond | check_and_notify.py:135 | when the separator occurs there is a second piece: the first piece of the text after the first separator |
| Text.SplitJoin | check_and_notify.py:19 | splitting parts that were joined with a one-character separator not inside any part gives back exactly those parts |
| Text.IsSpace | check_and_notify.py:16-19 | the whitespace that `str.strip()` removes: Python's `isspace` set, i.e. the characters of Unicode bidirectional class WS, B or S or general category Zs |
| Text.JoinAppend | check_and_notify.py:19 | joining two non-empty lists is joining the two joins with one more separator between them |
| Text.SplitNoSep | check_and_notify.py:19 | text without the separator character splits into itself alone |
| Text.SplitAppend | check_and_notify.py:19 | splitting at a separator character splits the text before it and the text after it separately, and concatenates the pieces |
| Text.Strip | check_and_notify.py:16 | `str.strip()` never lengthens its input, leaves no Python whitespace at either end, and is empty exactly when the input is all whitespace |
| Text.StripIsSlice | check_and_notify.py:19 | stripping removes only whitespace, and only from the two ends: the result is a contiguous slice of the input |
| Text.StripTrimmed | check_and_notify.py:19 | stripping text with no surrounding whitespace changes nothing |
| Text.StripIdempotent | check_and_notify.py:19 | stripping twice is the same as stripping once |
| Text.StripAvoidsChar | check_and_notify.py:19 | stripping introduces no character the input lacked |
| Text.ReplaceChar | check_and_notify.py:19 | `replace('\n', ',')` keeps the length and leaves no newline behind |
| Text.ReplaceCharAt | check_and_notify.py:19 | each character is replaced when it is the target and kept otherwise |
| Text.ReplaceAbsent | check_and_notify.py:19 | replacing a character the text does not contain changes nothing |
| Text.ReplaceJoin | check_and_notify.py:19 | turning newline separators into commas turns a newline-joined list into the comma-joined list of the same parts |
| Types.UpperName | check_and_notify.py:137 | `status.upper()` has the name's length, and each character is the ASCII upper case of the name's character |
| Classifier.AnyOccurs | check_and_notify.py:92-98 | one phrase loop succeeds exactly when some phrase of the list is a substring of the text |
| Classifier.ClassifyLowered | check_and_notify.py:76-100 | a page never reads `error`; `open` iff some open phrase occurs; `closed` iff no open phrase but some closed phrase occurs; otherwise `unknown` |
| Classifier.GetStatus | check_and_notify.py:42-113 | the reading is `error` exactly for an exception of any kind, a code of 500 or more, or a 404 whose body has at most 100 characters; otherwise it is the phrase classification of the lower-cased body |
| Classifier.ServerErrorIgnoresBody | check_and_notify.py:58-60 | a code of 500 or more gives `error` whatever the body |
| Classifier.LongNotFoundReadLikeOk | check_and_notify.py:63-73 | a 404 page longer than 100 characters is read exactly like a 200 page with the same body |
| Classifier.OpenPhraseWins | check_and_notify.py:92-98 | an open phrase gives `open` even when a closed phrase is on the page too |
| Classifier.RuleScan | check_and_notify.py:92-100 | a first-match scan over an ordered rule list gives `unknown` when no phrase occurs, and otherwise the status of a rule whose phrase occurs |
| Classifier.RuleScanFirstMatch | check_and_notify.py:92-98 | the earliest rule whose phrase occurs decides the scan, whatever later rules say |
| Classifier.TwoTierScan | check_and_notify.py:92-100 | scanning all open rules, then all closed rules, is the same as the two consecutive phrase loops |
| Classifier.ClassifyIsRuleScan | check_and_notify.py:76-100 | the multi-source checker's classification equals a first-match scan of its 18 rules, open rules first |
| UrlConfig.DefaultUrlsDiffer | check_and_notify.py:27-36 | no two entries of the built-in list are the same address |
| UrlConfig.DefaultUrls | check_and_notify.py:26-36 | the built-in list has exactly eight non-empty entries, in the source's order, and no page appears twice |
| UrlConfig.StripNonBlank | check_and_notify.py:19 | the comprehension yields only non-empty stripped entries, and never more than it was given pieces; which entries is fixed by StripNonBlankOne and StripNonBlankAppend |
| UrlConfig.StripNonBlankOne | check_and_notify.py:19 | a single piece is kept, stripped, exactly when it is not blank |
| UrlConfig.StripNonBlankAppend | check_and_notify.py:19 | the comprehension works piece by piece: on a concatenation of piece lists it gives the concatenation of the results, so every non-blank piece is kept, stripped, in its place |
| UrlConfig.StripNonBlankClean | check_and_notify.py:19 | pieces that are already non-empty and stripped pass through the comprehension unchanged |
| UrlConfig.ListedUrls | check_and_notify.py:19 | every entry read from `CHECK_URLS` is non-empty and stripped, and contains neither a comma nor a newline; which entries is fixed by ListedOne and ListedAppend |
| UrlConfig.ListedOne | check_and_notify.py:19 | text without a comma or newline lists itself stripped, or nothing when blank |
| UrlConfig.ListedAppend | check_and_notify.py:19 | a comma or a newline anywhere splits the listing: the entries are those before it followed by those after it, so commas and newlines may be mixed |
| UrlConfig.ListedPieces | check_and_notify.py:19 | pieces without separators, joined by commas or by newlines, list exactly their non-blank pieces, stripped, in order; surrounding whitespace and blank entries are tolerated |
| UrlConfig.ParseUrls | check_and_notify.py:16-36 | the page list is never empty and never holds an empty entry. A non-blank `CHECK_URLS` is used when it lists an entry. A blank one falls back to `[CHECK_URL]` when that is non-empty, and otherwise to the built-in list |
| UrlConfig.ListedJoined | check_and_notify.py:19 | clean entries separated by commas or by newlines are read back as exactly those entries |
| UrlConfig.ParseJoined | check_and_notify.py:16-24 | a comma- or newline-separated `CHECK_URLS` of clean URLs configures exactly those URLs, whatever `CHECK_URL` holds |
| Store.LegacyKey | check_and_notify.py:123 | a legacy status is filed under the first configured page, or under "" when there is none |
| Store.LoadPrev | check_and_notify.py:115-125 | loading aborts exactly when the file is not JSON, not an object, or has a `"urls"` entry that is not an object. A missing file gives the empty record. A legacy `{"status": s}` gives the one-entry record of the first page. Otherwise the record is the `"urls"` object, or empty |
| Store.Lookup | check_and_notify.py:162 | the stored value of a page, and `"unknown"` for a page with no entry |
| Store.Encode | check_and_notify.py:127-130 | the written record has the same pages, each holding its reading's name |
| Store.Save | check_and_notify.py:127-130 | the file written is an object whose only key is `"urls"` |
| Store.LoadSaveJson | check_and_notify.py:115-130 | loading what `save` wrote gives back exactly the record written, whatever pages are configured |
| Store.LookupAfterSave | check_and_notify.py:115-130 | after a save, the next run looks up each saved page's reading by name, and `"unknown"` for any other page |
| Notify.SiteLabel | check_and_notify.py:135 | without `//` the label is the whole URL. Otherwise it is the text after the first `//`, up to but excluding the next `/` or the end |
| Notify.LabelOfRest | check_and_notify.py:135 | cutting the text after `//` at a later `//` and then at the first `/` leaves the prefix before the first `/` |
| Notify.Message | check_and_notify.py:137 | the message contains the site label, the upper-cased status and the URL |
| Notify.MessageTellsStatus | check_and_notify.py:137 | messages about the same page with different statuses differ |
| Checker.Notifies | check_and_notify.py:162-169 | the decision rule for one page: the reading is not `error` and differs from the stored value, `"unknown"` when the page has none |
| Checker.Step | check_and_notify.py:156-172 | an empty URL is skipped. Otherwise the reading is recorded, and a notification is added and the flag set exactly when the decision rule fires |
| Checker.RunAll | check_and_notify.py:152-178 | after the loop, `changes_found` holds exactly when a notification went out, and no more notifications went out than the list has entries |
| Checker.RunKeys | check_and_notify.py:156-164 | the record built by the loop holds exactly the non-empty configured URLs |
| Checker.RunLastReading | check_and_notify.py:161-164 | for each page the record holds the reading of its last occurrence in the list |
| Checker.RunSound | check_and_notify.py:156-172 | every notification is for a non-empty configured page, carries that page's reading, and was emitted because the reading is not `error` and differs from the stored value (`"unknown"` when absent) |
| Checker.RunComplete | check_and_notify.py:156-172 | every non-empty page whose reading is not `error` and differs from the stored value gets its notification |
| Checker.RunOncePerPage | check_and_notify.py:156-172 | over a page list without repeats no page is announced twice; with RunSound and RunComplete, each changed page gets exactly one notification |
| Checker.RepeatedPageAnnouncedTwice | check_and_notify.py:156-172 | a page listed twice is judged twice against the same stored value: both occurrences can be announced, and the later reading is recorded |
| Checker.RunQuietWhenStored | check_and_notify.py:162-172 | when no page's reading differs from its stored value (or every differing reading is `error`), nothing is sent |
| Checker.Readings | check_and_notify.py:161 | one reading per configured page, each the classification of that page's fetch outcome |
| Checker.Finish | check_and_notify.py:180-186 | the record is written exactly when some notification went out; it is the loop's record, and the return value is the same condition |
| Checker.RunOutputFacts | check_and_notify.py:164-186 | a written record covers exactly the configured pages, and no notification carries `error` |
| Checker.Main | check_and_notify.py:148-186 | the run aborts exactly when the state file cannot be loaded. Otherwise it writes iff it returns true iff it notified, a written record's keys are exactly the configured pages, and no notification carries `error` |
| Checker.AllErrorsQuiet | check_and_notify.py:169-181 | a run whose every reading is `error` sends nothing and writes nothing |
| Checker.RerunQuiet | check_and_notify.py:162-172 | against the record a run built, a second run with the same readings sends nothing |
| Checker.MainRerunQuiet | check_and_notify.py:148-186 | for a configured page list without repeats: after a run that wrote its record, repeating it with the same fetch outcomes notifies nothing and writes nothing |
| Checker.DefaultsRerunQuiet | check_and_notify.py:16-186 | with neither URL variable set the eight built-in pages are checked, and a repeated run after one that wrote its record is silent |
| Checker.ErrorReadingResurfaces | check_and_notify.py:164-181 | as written: an `error` reading is stored when another page changed, and the page's next normal reading is announced as a change |
| Checker.StepKeeping | check_and_notify.py:164 | corrected step: a non-error reading replaces the page's entry, and an `error` reading adds no page outside the record and the stored file |
| Checker.RunKeepingUpTo | check_and_notify.py:156-172 | corrected loop: the record only holds non-empty configured URLs |
| Checker.KeepingSendsTheSame | check_and_notify.py:156-172 | the corrected loop emits the same notifications and sets the same flag as the source |
| Checker.KeepingNeverStoresError | check_and_notify.py:164 | the corrected loop never writes `"error"` for a page unless the file already held it |
| Checker.KeepingErrorKeepsStored | check_and_notify.py:164 | in the corrected loop a page that only read `error` keeps exactly its stored entry, or stays absent |
| Checker.ErrorReadingKept | check_and_notify.py:164-181 | corrected: in the same two runs the stored `closed` survives the `error` reading, and the second run is silent |
| ExamBot.RaisesForStatus | pol_exam_bot.py:25 | `raise_for_status()` raises for client and server error codes, 400 up to 599, and lets every other code through |
| ExamBot.GetExamStatus | pol_exam_bot.py:21-37 | `error` exactly for an exception or a code `raise_for_status` rejects (400 to 599). `open` iff the page text contains, case-sensitively, "Zapisy otwarte" or "Rejestracja otwarta". `closed` iff it contains neither of those but "Brak miejsc" or "Zamknięta". Otherwise `unknown` |
| ExamBot.ExamIsRuleScan | pol_exam_bot.py:29-34 | for a page that loaded, the bot's reading is a first-match scan of its four rules, open rules first |
| ExamBot.LoadStatus | pol_exam_bot.py:39-44 | a missing file reads as `{"status": "unknown"}`, a parsed file as itself, and invalid JSON aborts |
| ExamBot.PreviousStatus | pol_exam_bot.py:54 | the previous status is the object's `"status"` entry, or None without one; a value that is not an object aborts |
| ExamBot.SaveStatus | pol_exam_bot.py:46-49 | the file written holds exactly one key, `"status"` |
| ExamBot.ExamMessage | pol_exam_bot.py:58 | the message contains the upper-cased status and the page URL |
| ExamBot.Changed | pol_exam_bot.py:56 | the bot's decision rule: the reading is not `error` and differs from the stored status |
| ExamBot.CheckUpdates | pol_exam_bot.py:51-65 | the check aborts exactly when the stored status cannot be read. Otherwise the file is written, and a message built, iff the reading is not `error` and differs from the stored status. What is written is `{"status": reading}` |
| ExamBot.ErrorKeepsFile | pol_exam_bot.py:56 | an `error` reading neither writes the file nor sends anything |
| ExamBot.CheckIdempotent | pol_exam_bot.py:49-57 | after a check saved a status, a check that reads it again neither saves nor notifies |
| ExamBot.FirstCheck | pol_exam_bot.py:41-56 | with no file yet, the first check saves and notifies exactly for `open` or `closed` |
| ExamBot.CheckerFileReadsAsMissing | pol_exam_bot.py:54-56 | a file written by the multi-source checker has no `"status"`, so the bot notifies for any reading except `error` |
| ExamBot.BotFileIsLegacy | check_and_notify.py:121-123 | a file written by the bot reads, for the checker, as the one-entry record of the first configured page |

## Left out

- Network I/O is not modelled: `requests.get` and `requests.post`, the timeouts, the browser-like headers and TLS. Each page fetch is a `FetchOutcome` input: an exception kind, or a status code and body.
- BeautifulSoup's `soup.text` is a foreign library. It is the parameter `soupText`, and nothing is assumed about it.
- Python's Unicode `str.lower()` is the parameter `lower`, and nothing is assumed about it.
- The Telegram call is not modelled: `requests.post` to `sendMessage`, the async `bot.send_message`, their response checks and swallowed exceptions. A run only records which notifications it emits. A failed send never undoes a save in the source either.
- The environment is not read: `dotenv`, `os.getenv`, the token and the chat id. The two URL variables are inputs, and an unset variable is the empty string.
- File I/O and JSON text are not modelled: `os.path.exists`, `open`, `json.load` and `json.dump`. The state file is a `StoredFile` input (missing, not JSON, or a parsed value). JSON numbers, booleans, null and arrays are collapsed into one value, `JOther`. The indentation of the written file is not modelled.
- The bot's scheduling loop (pol_exam_bot.py:67-86) is plumbing with no state of its own: `schedule`, `time.sleep`, `asyncio.run` and `main`. A single check is modelled.
- `print` logging is not modelled.
- The bot's `URL` may be `None`. The fetch then fails, which is a `FetchOutcome` exception, and the message would show `None`. The model takes the URL as a string.
- Checker.MainRerunQuiet: requires a configured page list without duplicates, for the same reason as `RerunQuiet`. The built-in list has none (`DefaultsRerunQuiet`).
- Checker.RerunQuiet: requires a page list without duplicates. With a duplicated URL the record keeps only the last occurrence's reading, so an earlier occurrence can differ from it on the rerun.
- Classifier.RuleScan: its contract states only what any match or no match yields. That the first matching rule decides is the separate lemma `RuleScanFirstMatch`.
- Text.Split: its contract states the join round trip only. The facts about the pieces are the separate lemmas `SplitPiecesFree`, `SplitHead` and `SplitSecond`.
- Text.ReplaceChar: its contract states length and absence of the target only. The character-by-character description is the lemma `ReplaceCharAt`.
- UrlConfig.DefaultUrl: it is a plain table with no contract of its own. Each address is written as a few glued literal pieces rather than one literal, because the solver cannot look far into one long literal. `DefaultUrls` states the list's length, order and distinctness.
- UrlConfig.DefaultUrls: does not state that each built-in address is a clean entry (no surrounding whitespace, comma or newline). Checking every character of the eight literals is too costly for the solver. Non-emptiness, which the run relies on, is stated.

## Findings

| source | as written | input that shows it | evidently intended | confidence | as-written member | corrected member |
|---|---|---|---|---|---|---|
| check_and_notify.py:164-181 | every reading, `error` included, goes into the record that is written whenever some page changed | two pages `a` and `b`, both stored `closed`. Run 1 reads `a` open and `b` error, so it notifies for `a` and stores `b` as `"error"`. Run 2 reads `a` open and `b` closed, and notifies a change for `b` that never happened | an `error` reading keeps the page's stored status, so transient failures never cause a notification | medium (not executed) | Checker.ErrorReadingResurfaces | Checker.RunKeepingUpTo |

The corrected loop `Checker.RunKeepingUpTo` emits the same notifications as
the source (`Checker.KeepingSendsTheSame`). It never writes `"error"`
(`Checker.KeepingNeverStoresError`), and it keeps a failing page's stored
entry (`Checker.KeepingErrorKeepsStored`). `Checker.ErrorReadingKept` replays
the scenario above against it: the second run is silent.
