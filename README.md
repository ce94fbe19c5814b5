# Masa Meter, modelled in Dafny

Masa Meter is a Discord bot that counts how often people say "Sushi Masa".
A message that matches a permissive regular expression records one *mention*
for its author in a small SQLite ledger. The ledger has two tables:
`speakers`, keyed by username, and `masa_mentions`, each row with an id, a
UTC timestamp and a foreign key to its speaker. Several read-only queries
sit over the ledger: the meter, the history, the leaderboard and five
achievements. A Discord view renders the top five of the leaderboard. The
web frontend is served through a cache-busting rewrite of its HTML.

This project models that core and proves what the code promises about it.

- `wrappers.dfy`: `Option`.
- `text.dfy`: decimal rendering of integers (`str(n)`), with its parse round
  trip. Also SQLite's byte-wise text comparison, the newline counter used for
  line counts, and `Join`.
- `models.dfy` (`db/models.py`): the two row types, as values. Also the
  defaults the database fills in (the next integer id; the insertion-time
  UTC `isoformat()` string), the keys, and the `speaker.mentions`
  relationship.
- `crud.dfy` (`db/crud.py`, writes): class `Ledger` holds the two tables as a
  `map` and a `seq`. Its methods `CreateSpeaker`, `DeleteSpeaker`,
  `CreateMention` and `DeleteMention` update them in place and keep the key
  invariants. `CheckSpeaker` is a function that reads them.
- `queries.dfy` (`db/crud.py`, reads): `get_meter`, `get_history` and
  `get_leaderboard`, as functions of the mention table.
  - Where SQL leaves the row order open, the contracts say "some permutation"
    (history) or "sorted, ties in any order" (leaderboard).
  - Any two admissible leaderboards are proved equal as multisets.
- `achievements.dfy` (`db/crud.py:226-297`): the five achievements, and
  `GetAchievements`, which builds the list by successive appends. "Now" is a
  parameter: the year, and whether this year's birthday has passed.
  `_get_birthday` prefixes a year to a string that already begins with the
  year, so its bounds carry two years. SQLite compares them as text. The
  model keeps those bounds as the code builds them and proves which dates
  fall inside.
- `matcher.dfy`: the regular expression of `on_message`, defined
  declaratively as `Matches`. A word boundary is followed by the nine letter
  groups, each a non-empty run, with whitespace allowed between them.
  - A greedy scanner, `Search`, is proved equal to `Matches`.
  - Also proved: case-insensitivity, and that the phrase still matches inside
    a longer text.
- `matcher_examples.dfy`: the example inputs of the matcher, proved to match
  or not to match.
- `message_handler.dfy` (`bot/cogs/message_handler.py`): `OnMessage` and
  `Increment` as methods of a `Handler` that writes to a `Ledger`.
- `leaderboard_ui.dfy` (`bot/ui/leaderboard_ui.py`): the medal table and
  `results_to_embed`. The loop is a method, proved equal to a recursive
  reading. The text is proved to be exactly the lines of the first
  min(5, n) rows.
- `cache_busting.dfy` (`api/cache_busting.py`): `hash_file` with MD5 and the
  file system as parameters, and `re.sub(pattern, replace, html)`. The
  substitution takes the replacement callable as a function parameter, as
  `re.sub` does.
  - The page is cut into pieces: matches, and single characters between
    them. Gluing the pieces gives the page back.
  - The output is each match replaced and every other character copied.

## Model

| member | source | states |
|---|---|---|
| Models.IsoFormatShape | db/models.py:64-66 | the default `date` of a valid instant is a 25- or 32-character ISO timestamp (32 when there are microseconds); its first ten characters are the zero-padded YYYY-MM-DD, followed by `T` |
| Models.ZeroPadWidth | db/models.py:64-66 | a number below 10^w zero-pads to exactly w characters, as the fields of `isoformat()` do |
| Models.NextId | db/models.py:63 | the id given to a new row is at least 1 and differs from every id already in the table |
| Models.NewMention | db/models.py:63-69 | the inserted row references the username, carries the clock's timestamp and has an id no existing row has |
| Models.InsertKeepsIdsUnique | db/models.py:63 | appending the inserted row keeps the primary key on `id` unique |
| Models.MentionsOf | db/models.py:67-69 | `speaker.mentions` holds exactly the rows whose foreign key is that username, each as often as it occurs in the table and no other row |
| Crud.Ledger.CheckSpeaker | db/crud.py:40-51 | returns the row exactly when the username is a key, and that row carries the username |
| Crud.Ledger.CreateSpeaker | db/crud.py:54-77 | find-or-create: an existing username returns its row and changes nothing; otherwise exactly one row `Speaker(username)` is added; mentions are untouched |
| Crud.Ledger.DeleteSpeaker | db/crud.py:80-97 | returns what `check_speaker` returned before; removes only that speaker row; its mentions stay, with the foreign key set to NULL; an absent username changes nothing; the meter is unchanged |
| Crud.Orphan | db/crud.py:91-97 | the mentions after their speaker is deleted: same rows, same ids and dates, the foreign key NULL exactly where it named that speaker |
| Crud.OrphanCounts | db/crud.py:91-97 | after deleting a speaker the meter is unchanged, the speaker's group is empty, the NULL group grows by exactly its count, and every other group is as before |
| Crud.Ledger.CreateMention | db/crud.py:100-124 | the speaker exists afterwards (created if absent); exactly one row is appended, earlier rows are unchanged, the meter and that speaker's count rise by exactly 1 |
| Crud.FindId | db/crud.py:138 | the lookup by primary key finds a row with that id, or there is none |
| Crud.RemoveAt | db/crud.py:140-142 | removing one row leaves a table one shorter holding every other row in its old order (multiset difference, and position by position) |
| Crud.RemoveAtKeepsIds | db/crud.py:140-142 | removing the row keeps ids unique, removes that id and keeps every other row |
| Crud.Ledger.DeleteMention | db/crud.py:127-144 | an absent id returns None and changes nothing; a present id returns that row and removes exactly it, keeping the other rows in table order; speakers are untouched |
| Queries.History | db/crud.py:175-181 | one (date, speaker_username) row per mention, no id, in table order, so an admissible answer |
| Queries.HistoryInTableOrder | db/crud.py:175-181 | rows matching the mentions position by position are an admissible history |
| Queries.HistoryBagSize | db/crud.py:175-181 | the bag of history rows has one element per mention |
| Queries.HistoryBagMembers | db/crud.py:175-181 | a pair is in the history exactly when some mention has that date and username |
| Queries.HistoryOnePerMention | db/crud.py:175-181 | every admissible history, in any order, has `get_meter` rows, each from some mention, and each mention's pair appears |
| Queries.CountAppend | db/crud.py:118-120 | inserting a row raises its speaker's group count by one and no other |
| Queries.CountPositive | db/crud.py:197-199 | a group has a positive count exactly when some row carries that key |
| Queries.Keys | db/crud.py:199 | `GROUP BY speaker_username`: distinct keys, exactly those present (NULL included) |
| Queries.InsertDesc | db/crud.py:200 | inserting a row gives a list one longer holding exactly the old rows and the new one |
| Queries.InsertDescSorted | db/crud.py:200 | inserting a row into a count-descending list keeps it descending |
| Queries.SortDesc | db/crud.py:200 | `ORDER BY count DESC`: a permutation of its input in non-increasing count order |
| Queries.Leaderboard | db/crud.py:197-205 | the query's result is admissible: one row per present key, each with its group's count, keys distinct, every mention's key covered, non-increasing counts |
| Queries.LeaderboardFromGroups | db/crud.py:197-205 | any descending permutation of the group rows is admissible |
| Queries.LeaderboardTotalIsMeter | db/crud.py:197-205 | in an admissible leaderboard the counts sum to `get_meter` and every count is at least 1 |
| Queries.LeaderboardUniqueUpToTies | db/crud.py:200 | two admissible leaderboards are equal as multisets: only the order of ties is open |
| Queries.MentionRaisesOneCount | db/crud.py:118-124 | one insertion raises the meter and its speaker's count by one and leaves other groups alone |
| Achievements.LeaderboardNonEmpty | db/crud.py:234-240 | a non-empty table has a non-empty group-by, so `scalar` sees a row |
| Achievements.LeaderboardBounds | db/crud.py:234-250 | every group's count lies between the first and the last leaderboard count |
| Achievements.MasaMaster | db/crud.py:234-240 | None on an empty table; otherwise a present key with a maximal count (None standing for the NULL group) |
| Achievements.SilentSashimi | db/crud.py:244-250 | None on an empty table; otherwise a present key with a minimal count |
| Achievements.SuperlativesNamed | db/crud.py:234-250 | with no NULL keys both are named exactly when the table is non-empty |
| Achievements.BusiestIndex | db/crud.py:263-268 | the first row whose (speaker, day) count is maximal: no row is bigger, and every earlier row is strictly smaller |
| Achievements.TempuraTitan | db/crud.py:254-270 | None on an empty table; otherwise the key of some row with a maximal single-day count. A named result is that speaker; a None on a non-empty table is a NULL-key row with a maximal count. Always named when the table is non-empty and has no NULL keys |
| Achievements.FirstSolo | db/crud.py:274-280 | the first row from a position that is alone on its day (none earlier is), or no such row exists |
| Achievements.NigiriNinja | db/crud.py:274-281 | the speaker of some mention alone on its day. None when no day has exactly one mention, or when a solo mention has a NULL key; with solo mentions present and no NULL keys, it is named |
| Achievements.BirthdayWindowOrdered | db/crud.py:208-223 | the window's lower bound sorts before its upper bound as SQLite text |
| Achievements.BirthdayWindowYears | db/crud.py:208-223 | with the bounds as the code builds them (a year prefixed to a string that already begins with the year), past the birthday every date of this year is inside and every date of last year outside; before it, every date of next year is inside |
| Achievements.FirstInWindow | db/crud.py:287-294 | the first row from a position whose date text lies in the window (none earlier does), or no such row exists |
| Achievements.SpecialSushi | db/crud.py:285-295 | the speaker of some mention dated in the window. None when no date is, or when a mention in the window has a NULL key; with mentions in the window and no NULL keys, it is named |
| Achievements.GetAchievements | db/crud.py:226-297 | the five appends give exactly [Masa Master, Silent Sashimi, Tempura Titan, Nigiri Ninja, Special Sushi] |
| Text.ParseNatToString | bot/ui/leaderboard_ui.py:69 | reading back the decimal text of a score gives the score |
| Text.NatToStringInjective | bot/ui/leaderboard_ui.py:69 | distinct scores have distinct decimal texts |
| Text.TextLessTrichotomy | db/crud.py:290-291 | the text comparison used on dates is total and asymmetric |
| Text.TextLessIrreflexive | db/crud.py:290-291 | no text sorts before itself |
| Matcher.Fold | bot/cogs/message_handler.py:72 | `re.I` on ASCII: upper-case letters fold to lower case and nothing else changes |
| Matcher.SeparatedDisjoint | bot/cogs/message_handler.py:71 | neighbouring groups of the pattern share no character |
| Matcher.RunEndMaximal | bot/cogs/message_handler.py:71 | a greedy `[...]+` run ends at the first character outside its group |
| Matcher.SpaceEndMaximal | bot/cogs/message_handler.py:71 | a greedy `\s*` ends at the first non-space |
| Matcher.DecompositionIsGreedy | bot/cogs/message_handler.py:71 | any way to read a group and its spaces before the rest of the phrase is the greedy one |
| Matcher.GreedyIsPhrase | bot/cogs/message_handler.py:71 | for the pattern's groups the greedy reading succeeds exactly when the phrase can be read |
| Matcher.PatternIsChain | bot/cogs/message_handler.py:71 | the nine groups of the pattern allow the greedy reading |
| Matcher.ScanFromSound | bot/cogs/message_handler.py:74 | trying each start from p succeeds exactly when some later boundary starts the phrase |
| Matcher.Search | bot/cogs/message_handler.py:74 | `pattern.search` finds a match exactly when `Matches` holds |
| Matcher.GreedyMatch | bot/cogs/message_handler.py:71-74 | a greedy reading at a boundary is a match |
| Matcher.AlikeMatches | bot/cogs/message_handler.py:71-72 | texts equal up to case and up to swapping characters the pattern ignores match alike |
| Matcher.CaseInsensitive | bot/cogs/message_handler.py:71-72 | texts equal up to ASCII case match alike |
| Matcher.InertSwap | bot/cogs/message_handler.py:71 | replacing one ignored character by another does not change the verdict |
| Matcher.MatchInContext | bot/cogs/message_handler.py:74 | a matching text still matches with any text after it and any text before it that does not end in a word character |
| MatcherExamples.PlainPhrase | bot/cogs/message_handler.py:71 | "sushi masa" matches |
| MatcherExamples.UpperCasePhrase | bot/cogs/message_handler.py:71-72 | "SUSHI MASA" matches |
| MatcherExamples.PhraseInSentence | bot/cogs/message_handler.py:74 | "lol sushi masa tonight" matches |
| MatcherExamples.TrailingLetter | bot/cogs/message_handler.py:71 | "sushi masas" matches: the trailing `\s*` may be empty |
| MatcherExamples.NoSeparator | bot/cogs/message_handler.py:71 | "sushimasa" matches |
| MatcherExamples.SpacedLetters | bot/cogs/message_handler.py:71 | "s u s h i  m a s a" matches |
| MatcherExamples.LongRuns | bot/cogs/message_handler.py:71 | "ssuushiii maasa" matches |
| MatcherExamples.SymbolsAfterWord | bot/cogs/message_handler.py:71 | "a$u$#1 nna$4" matches: the symbol spelling works after a word character |
| MatcherExamples.SymbolsAlone | bot/cogs/message_handler.py:71 | "$u$#1 nna$4" alone does not match: no boundary before the leading `$` |
| MatcherExamples.DashBetween | bot/cogs/message_handler.py:71 | "sushi-masa" does not match |
| MatcherExamples.DotBetween | bot/cogs/message_handler.py:71 | "sushi.masa" does not match |
| MatcherExamples.GluedToWord | bot/cogs/message_handler.py:71 | "xsushi masa" does not match |
| MatcherExamples.LeadingDollar | bot/cogs/message_handler.py:71 | "$ushi masa" does not match |
| MatcherExamples.LeadingDollarAfterSpace | bot/cogs/message_handler.py:71 | " $ushi masa" does not match |
| MessageHandler.Handler.OnMessage | bot/cogs/message_handler.py:67-79 | the bot's own messages and non-matching ones change nothing and get no reply; a matching message appends exactly one mention for its author, however often the phrase occurs, ensures the speaker and replies "Masa Meter has gone up!"; the meter rises by exactly that |
| MessageHandler.Handler.Increment | bot/cogs/message_handler.py:96-100 | the same ledger write for the named member, without the matcher, always with the reply |
| LeaderboardUi.EmojiDefined | bot/ui/leaderboard_ui.py:35-41 | ranks 1 to 5 are in the medal table: first, second and third place, then medal twice |
| LeaderboardUi.UserText | bot/ui/leaderboard_ui.py:69 | the f-string shows a username as itself, and the NULL group as "None" |
| LeaderboardUi.LineText | bot/ui/leaderboard_ui.py:69 | row i renders as "{emoji} - {username} - **{score}**" and a line break |
| LeaderboardUi.RenderEmpty | bot/ui/leaderboard_ui.py:63-71 | no rows render as the empty string |
| LeaderboardUi.RenderIgnoresTail | bot/ui/leaderboard_ui.py:65-67 | rows after rank 5 do not affect the text |
| LeaderboardUi.RenderIsLines | bot/ui/leaderboard_ui.py:63-71 | the text is the lines of the first k rows followed by the text of the rest |
| LeaderboardUi.LinesAppend | bot/ui/leaderboard_ui.py:69 | one more row adds its line at the end |
| LeaderboardUi.RenderTopFive | bot/ui/leaderboard_ui.py:63-71 | the text is exactly the lines of the first min(5, n) rows, in input order |
| LeaderboardUi.LineBreaks | bot/ui/leaderboard_ui.py:69 | a line holds exactly one line break when the username has none |
| LeaderboardUi.RenderLineCount | bot/ui/leaderboard_ui.py:65-69 | from rank r, the text has min(n, 6 - r) line breaks |
| LeaderboardUi.RenderLines | bot/ui/leaderboard_ui.py:65-69 | the text has min(5, n) lines |
| LeaderboardUi.LeaderboardUI.ResultsToEmbed | bot/ui/leaderboard_ui.py:48-71 | the loop with its break after rank 5 returns exactly the rendered text |
| LeaderboardUi.LeaderboardUI.constructor | bot/ui/leaderboard_ui.py:32-46 | the view holds the medal table and an embed titled "Masa Meter Leaderboard" whose single unnamed field is the rendered text |
| CacheBusting.HashFile | api/cache_busting.py:37-53 | "" exactly for a missing file, otherwise the first 8 characters of the 32-character MD5 hex digest, so the length is 0 or 8 |
| CacheBusting.OpenerAtIs | api/cache_busting.py:76 | the alternation finds `href="` or `src="` exactly where either stands, and names the one found |
| CacheBusting.NextQuoteFirst | api/cache_busting.py:76 | `[^"]+` cannot pass a quote: the value runs to the first quote |
| CacheBusting.RefAtIsMatch | api/cache_busting.py:76 | the pattern matches at i with groups (attr, value) exactly when `attr="value"` stands at i and the value is quote-free and ends in `.css` or `.js` with a character before the dot |
| CacheBusting.PieceAtText | api/cache_busting.py:76 | each piece stands in the page where it was cut, and a match piece qualifies |
| CacheBusting.PiecesUnparse | api/cache_busting.py:76 | the matches and the characters between them, glued together, give the page back |
| CacheBusting.RewriteFromIsRender | api/cache_busting.py:76 | from any position, the substitution outputs every piece in order, a match by its replacement and a character as itself |
| CacheBusting.RewriteIsRender | api/cache_busting.py:56-78 | `apply_cache_busting` replaces each match and copies all other text, over a cut that glues back to the page |
| CacheBusting.StripPrefix | api/cache_busting.py:72 | the first `len("/static/")` = 8 characters are dropped whatever they are; a shorter value leaves "" |
| CacheBusting.ReplacementShape | api/cache_busting.py:71-74 | the replacement is `attr="/static/<value without its first 8 characters>?v=<hash>"`; it keeps the attribute name and the hash has length 0 or 8, "" for a missing file |
| CacheBusting.CopyPlain | api/cache_busting.py:76 | where no `href="` or `src="` starts, the text is copied unchanged |
| CacheBusting.CopyTail | api/cache_busting.py:76 | a tail with no opener is copied as it is |
| CacheBusting.NoMatchUnchanged | api/cache_busting.py:76 | a page with no match anywhere comes back unchanged |
| CacheBusting.RewriteAtMatch | api/cache_busting.py:71-76 | at a qualifying reference the output is its replacement, and the scan resumes right after it |
| CacheBusting.SubstituteOne | api/cache_busting.py:76 | for any replacement function, one reference between opener-free text is replaced and the text on both sides kept |
| CacheBusting.RewriteOne | api/cache_busting.py:56-78 | a page with one qualifying reference and no other opener becomes the text before, the replacement, and the text after |
| CacheBusting.OtherExtensionKept | api/cache_busting.py:76 | a value with another extension is not a match, so the attribute is left as it is |
| CacheBusting.PngNotAsset | api/cache_busting.py:76 | `/static/logo.png` is not rewritten |

## Left out

- Discord I/O: the replies are returned as values. Logging, cogs, presence,
  voice, the admin commands and the other views are not modelled. The
  `/leaderboard` command's fetch-and-send is not modelled; the leaderboard
  rows come from db/crud.py.
- SQLAlchemy sessions, `commit`/`refresh`, and concurrency. Each operation is
  one atomic, sequential step, so there is no claim about races between the
  check and the create in `create_speaker`/`create_mention`.
- The clock and MD5 are parameters:
  - `now` for the default date;
  - year and past-birthday for `_get_birthday`;
  - `md5Hex` constrained only to 32 characters.
  The file system is the `files` function. Joining with `FRONTEND_DIR` is
  folded into `files`.
- CacheBusting.HashFile: `files` gives a file's bytes or nothing, so the model
  has no directory case. In the program a path naming a directory exists, and
  `read_bytes` raises IsADirectoryError (api/cache_busting.py:50-53). This
  always happens for an asset value of 8 characters or fewer: the stripped
  path is "", and `FRONTEND_DIR / ""` is the frontend directory itself. It
  also happens for a value that names a directory. There
  `apply_cache_busting` raises, but the model's ApplyCacheBusting returns a
  rewritten page with whatever hash `files` gives for that path.
- MessageHandler: bot/cogs/message_handler.py:21 imports `increment_meter`,
  which db/crud.py does not define. As written, the cog fails to import. The
  model reads both calls (lines 76 and 97) as `create_mention`, the only crud
  function that records a mention.
- CacheBusting: api/cache_busting.py:34 imports `FRONTEND_DIR`, which
  config.py does not define. As written, the module fails to import. The
  model reads it as some directory that `files` resolves paths against.
- Models.IsoFormatShape: covers years 1 to 9999 as Python does. For the
  birthday window, years are held to 1000-9999, so that `str(year)` has four
  digits.
- Length limits (`String(50)`) are not enforced; SQLite does not enforce them.
- Crud.Ledger.DeleteMention: the id is an `int`. `delete_mention` annotates it
  as `str`, and SQLite converts it.
- Models.DayOf: SQLite's `date()` of a stored timestamp is modelled as its
  first ten characters. What `date()` returns for a malformed string is not
  modelled.
- Matcher: `\s`, `\w`, `\b` and `re.I` are modelled on ASCII. Python's
  Unicode-aware classes and case folding (for example 'ſ' matching 's') are
  not.
- Matcher.Matches: the trailing `(\b|$|\s*)` is modelled as `\s*`. It always
  matches the empty string, so a search's verdict does not depend on it.
- Behaviour a reader might not expect; the model follows the code:
  - Deleting a speaker does not delete their mentions. No cascade is declared
    (db/models.py:48, 69), so the ORM sets the mentions' foreign key to NULL.
    The mentions stay and are still counted, with the NULL group shown as
    "None".
  - `create_speaker` and `create_mention` accept any username, the empty one
    included.
  - `get_history` returns (date, speaker_username) without the id. Its
    docstring (db/crud.py:171-172) says the rows are (id, date,
    speaker_username).
- The `__main__` drop/create script in db/models.py is not modelled.
