# natega-search: the Arabic name-search core in Dafny

natega-search answers `/search?q=<name>` over a table of exam results. A
name is matched through its *normalised* form, which is computed with the
same function at import time and at query time. The project models four pieces:

- **the normaliser** `normalizeArabicName`. It is seven one-character
  rewrites: drop diacritics, drop tatweel, fold the alif and hamza variants,
  fold ta marbuta and alif maqsura, and delete everything outside the kept
  Arabic ranges and U+0020. Whitespace runs are then collapsed and the text
  trimmed (`Normalizer`, built on the string vocabulary in `Text`). The
  import script carries its own copy, with the same regular expressions in
  the same order. Both copies are the
  one `Normalizer.Normalize`, so index-time and query-time forms agree by
  construction;
- **query planning** in the `/search` handler. An absent or empty `q` gets
  `[]`. Otherwise `q` is normalised and split into terms, and the three
  strings bound to the SQL statement are built (`Planner`);
- **the SQL statement's meaning**: the `LIKE` filter, the tier `CASE`, the
  `ORDER BY` and the `LIMIT 20` (`SqlLike` for SQLite's `LIKE`, `Ranker`,
  `SearchHandler`). The three patterns are proved equal to ordered containment,
  equality and prefix. Ranking is an explicit filter, sort key and cut;
- **the import's per-row handler**. A row with a name becomes one insert of
  (seating number, raw name, degree cell, normalised name). A row without a
  name makes the normaliser throw, and it is skipped (`Ingestion`).

Strings are `seq<char>`, where a `char` is one Unicode scalar value. Every
character the normaliser keeps lies in the Basic Multilingual Plane, and it
deletes everything else, including both halves of a surrogate pair. So on
normalised text a `char` is one UTF-16 code unit and one SQLite character,
and `|s|` is the `LENGTH(arabic_name_normalized)` of the sort key. SQLite's
default `LIKE` folds the case of ASCII letters only (`SqlLike.FoldCase`). The
three patterns contain no ASCII letter, so on normalised text they match
exactly.

Four facts about the code shape the model:

- Import validates neither `seating_no` nor the score, and nothing rolls back
  a failed insert. The only per-row failure is a missing name.
- Rows with equal (tier, length) come back in no fixed order, because the
  SQL fixes none; `Ranker.IsRanking` leaves such ties open.
- For the query "احمد علي", the name "احمد محمد علي" is tier 1, because it
  starts with the first term "احمد" (`Ranker.TieringExample`).
- Only `""` is rejected before normalising. A whitespace-only query gets `[]`
  because it has no terms.

## Model

| member | source | states |
|---|---|---|
| Normalizer.Normalize | server.js:15-26 | the output is canonical: only canonical Arabic letters and U+0020; no space at either end; never two spaces in a row |
| Normalizer.NormalizedCharacters | server.js:17-23 | no output character is a diacritic, tatweel, أ إ آ ؤ ئ ة or ى. Every output character is in U+0621–U+063A or U+0641–U+064A, or is U+0020 |
| Normalizer.CanonChar | server.js:17-23 | the fused per-character table yields at most one character, and it is in the canonical alphabet. An alphabet character maps to itself |
| Normalizer.LetterPass | server.js:17-23 | the seven rewrites chained in source order. It has no contract of its own: `Normalizer.LetterPassIsSinglePass` equates it with one pass of the fused table `Normalizer.CanonChar`, and `Normalizer.LetterPassAppend` shows it works character by character |
| Normalizer.LetterPassOfChar | server.js:17-23 | on a single character, the seven chained rewrites give exactly the fused table's output |
| Normalizer.LetterPassIsSinglePass | server.js:17-23 | the seven chained global replacements equal one pass of the fused table over the whole text |
| Normalizer.LetterPassAppend | server.js:17-23 | the seven rewrites treat each character on its own: they distribute over concatenation |
| Normalizer.NormalizeIsJoinedWords | server.js:15-26 | independent definition: the normalised text is the words of the single-pass text, joined by single spaces |
| Normalizer.NormalizeFixesCanonical | server.js:15-26 | canonical text is left unchanged by the normaliser |
| Normalizer.NormalizeIdempotent | server.js:15-26 | normalising twice gives the same as normalising once |
| Normalizer.ForeignSpaceVanishes | server.js:23-24 | a whitespace character other than U+0020 is deleted before collapsing, so removing it does not change the result |
| Normalizer.TabJoinsLettersExample | server.js:23-24 | "ب\tا" normalises to "با": the tab does not become a word break |
| Normalizer.NoArabicNormalizesEmpty | server.js:23-25 | a text with no character in the kept Arabic ranges (Latin, digits, whitespace) normalises to "" |
| Normalizer.VocalisedNameExample | server.js:17 | "مُحَمَّد" normalises to "محمد" |
| Normalizer.HamzaAlifExample | server.js:19-25 | "نور إيمان" normalises to "نور ايمان" |
| Normalizer.TrimCollapsedIsCanonical | server.js:24-25 | collapsing and then trimming text over the alphabet yields canonical text |
| Text.RewriteAppend | server.js:17-23 | a global one-character replacement distributes over concatenation |
| Text.CollapseSpaces | server.js:24 | `replace(/\s+/g, " ")`. It has no contract of its own: `Text.CollapseSpacesShape`, `Text.CollapseSpacesLast`, `Text.CollapseNoLonger`, `Text.CollapseKeeps` and `Text.WordsCollapse` state that each run, including a leading or trailing one, becomes one U+0020, that the result is never longer (so "" stays ""), that nothing else is added, and that the words are unchanged |
| Text.CollapseSpacesShape | server.js:24 | after collapsing, every whitespace character is a lone U+0020, and the text starts with whitespace exactly when the input did |
| Text.CollapseSpacesLast | server.js:24 | after collapsing, the text ends with whitespace exactly when the input did: a trailing run becomes one U+0020 and is not dropped |
| Text.CollapseNoLonger | server.js:24 | collapsing never makes the text longer, so the empty text collapses to the empty text |
| Text.CollapseFixesSingleSpaced | server.js:24 | collapsing changes nothing in text without non-U+0020 or doubled whitespace |
| Text.CollapseKeeps | server.js:24 | collapsing introduces no character other than U+0020 |
| Text.WordsCollapse | server.js:24 | collapsing whitespace runs does not change the words of a text |
| Text.TrimStart | server.js:25 | the result is no longer than the input and does not start with whitespace |
| Text.TrimStartSuffix | server.js:25 | the result of `trimStart` is a suffix of its input |
| Text.TrimStartDropsSpaces | server.js:25 | every character `trimStart` removes is whitespace |
| Text.TrimEnd | server.js:25 | the result is a prefix of the input that does not end with whitespace |
| Text.TrimEndDropsSpaces | server.js:25 | every character `trimEnd` removes is whitespace |
| Text.TrimSingleSpaced | server.js:25 | trimming text whose whitespace is lone U+0020 characters gives single-spaced text |
| Text.TrimKeeps | server.js:25 | trimming keeps only characters the text already had |
| Text.WordsTrim | server.js:25 | trimming does not change the words of a text |
| Text.Words | server.js:33 | `split(/\s+/).filter(Boolean)`. It has no contract of its own: `Text.WordsShape`, `Text.JoinWords` and `Text.WordsJoin` state that the terms are non-empty and whitespace-free, and that splitting and joining with one space are inverse |
| Text.TakeWord | server.js:33 | the first word is a whitespace-free prefix, followed by whitespace or the end of the text |
| Text.WordsShape | server.js:33 | splitting on whitespace and dropping empty pieces gives non-empty, whitespace-free terms |
| Text.WordsKeep | server.js:33 | every character of every term is a character of the text, so any property of all the text's characters holds for the terms |
| Text.JoinWords | server.js:33 | a single-spaced text is its terms joined by one space |
| Text.WordsJoin | server.js:33 | splitting non-empty, whitespace-free terms joined by one space gives back those terms |
| Text.WordsOfBlank | server.js:33-34 | a text that is all whitespace has no terms |
| Text.JoinContainsInOrder | server.js:33-36 | the joined terms contain the terms in order |
| Planner.PlanQuery | server.js:29-37 | there is no plan exactly when `q` is absent, `q` is "", or `q` normalises to "". Otherwise the plan is well formed: its normalised query is `q` normalised, its terms are non-empty, whitespace-free and wildcard-free and rebuild the normalised query when joined by one space, and its patterns are `%t1%...%tn%` and `t1%` |
| Planner.CanonicalTerms | server.js:32-34 | the terms of a normalised query are empty only for "". Otherwise they rebuild the query and are non-empty, whitespace-free and free of `%`, `_` and ASCII letters |
| Planner.PlanPatterns | server.js:36-45 | for every well-formed plan, against any stored name, the three bound strings test ordered containment of the terms, equality with the normalised query, and a prefix test with the first term |
| Planner.ExactPassesFilterAndPrefix | server.js:41-45 | a name equal to the normalised query passes the contains-all filter and starts with the first term |
| Planner.InsideWordsExample | server.js:36-41 | terms need not fall on word boundaries: a plan with terms "حمد" and "ل" passes the name "محمد علي", where the first sits inside "محمد" and the second inside "علي" |
| SqlLike.Like | server.js:41-45 | SQLite's `s LIKE p` with `%`, `_` and ASCII case folding. It has no contract of its own: `SqlLike.LikeExact`, `SqlLike.LikePrefix` and `SqlLike.LikeContainsAll` state what it means for the three patterns the handler binds |
| SqlLike.LikePercent | server.js:41 | a leading `%` lets the rest of the pattern match any suffix of the text |
| SqlLike.LikeLiteral | server.js:44-45 | a literal pattern prefix must be a prefix of the text |
| SqlLike.LikeExact | server.js:44 | `LIKE` with a literal pattern is string equality |
| SqlLike.LikePrefix | server.js:45 | `LIKE` with a literal followed by `%` is a prefix test |
| SqlLike.LikeGaps | server.js:41 | `%t1%...%tn%` with literal terms holds exactly when the text contains t1 … tn in order, as non-overlapping substrings with arbitrary gaps |
| SqlLike.JoinedGaps | server.js:36 | the pattern built by joining the terms with `%` and wrapping the result in `%` is the gap pattern |
| SqlLike.LikeContainsAll | server.js:36-41 | the contains-all pattern holds exactly when the text contains the terms in order |
| Ranker.SqlAgrees | server.js:41-47 | for every well-formed plan (every plan the handler builds is one), the SQL filter and the `CASE` tier agree with the explicit containment predicate and tier function on every stored name |
| Ranker.Tier | server.js:43-47 | the `CASE` gives 0, 1 or 2. `Ranker.SqlAgrees` carries its meaning: on every name it equals the `CASE` written with `LIKE` against the normalised query and the `t1%` pattern |
| Ranker.TierMeaning | server.js:41-44 | a name the `CASE` puts in tier 0 passes the `WHERE` filter and starts with the first term, so tier 0 never names a row the filter drops |
| Ranker.TieringExample | server.js:37-47 | for the query "احمد علي", "احمد علي" is tier 0 and "احمد محمد علي" is tier 1 |
| Ranker.Matches | server.js:41 | a candidate is among the matches exactly when it is a stored candidate that passes the filter |
| Ranker.MatchesCount | server.js:41 | the filter keeps each passing candidate as often as it occurs and drops every other one |
| Ranker.Insert | server.js:42-48 | inserting into a list sorted by (tier, length) keeps it sorted and adds exactly the one element |
| Ranker.SortByKey | server.js:42-48 | the result is a permutation of the input, sorted by (tier, length) |
| Ranker.TopOfSorted | server.js:42-49 | a prefix of a sorted list is sorted, and nothing after it has a smaller key than anything in it |
| Ranker.Rank | server.js:39-49 | the result has min(20, number of passing candidates) entries, all passing candidates, sorted by (tier, length). No passing candidate left out has a smaller key than one kept |
| Ranker.ExactMatchRanksFirst | server.js:43-49 | when some candidate equals the normalised query, the first result is an exact match |
| SearchHandler.Answer | server.js:39-53 | the answer is the display columns of some ranking of the stored rows: min(20, number of passing rows) passing rows, ordered by (tier, length), with no passing row left out that ranks strictly before a kept one |
| SearchHandler.Search | server.js:29-53 | an absent, empty or letterless query gets `[]` whatever is stored. Otherwise the answer is the display columns of some ranking of the stored rows under the query's plan: min(20, passing rows) hits, each from a passing stored row, ordered by (tier, length), and no passing row left out ranks strictly before a kept one |
| SearchHandler.NoArabicNoHits | server.js:30-34 | a query with no Arabic letter in the kept ranges gets `[]` whatever is stored |
| SearchHandler.StoredNameFindsItself | server.js:29-53 | with one imported row, any query that normalises to the same non-empty text as the row's name finds exactly that row |
| Ingestion.Ingest | setup.js:46-60 | the `data` handler applied to each parsed row in order. It has no contract of its own: `Ingestion.IngestDerived`, `Ingestion.IngestCount`, `Ingestion.IngestNamed` and `Ingestion.IngestSkipsNameless` state what it inserts |
| Ingestion.InsertFor | setup.js:49-59 | a row with a name yields one insert, carrying the row's own seating number, raw name and degree cell and the name's normalised form. A row without a name yields none |
| Ingestion.IngestDerived | setup.js:50-55 | every inserted row's normalised column is the normaliser applied to its own display name |
| Ingestion.IngestCount | setup.js:48-59 | the number of inserts is the number of rows that have a name |
| Ingestion.IngestAppend | setup.js:48-59 | rows are handled one at a time in order: importing two batches in sequence inserts what each would |
| Ingestion.IngestNamed | setup.js:48-59 | a row with a name is inserted exactly once, right after the inserts of the rows before it and before those of the rows after it |
| Ingestion.IngestSkipsNameless | setup.js:49-59 | a row without a name inserts nothing: removing it from the file leaves the inserts unchanged |

## Left out

- The `/student-result` handler (server.js:57-126). It fetches a third-party page over the network and extracts from it with an HTML library.
- Express routing, body parsing, static files, `listen` and the 500 response when the database call fails (server.js:1-13, 28, 52, 128-130). These are I/O.
- SQLite mechanics: connection, PRAGMAs, schema, index, transaction and statement objects (setup.js:10, 26-45, 61-67). The model covers the statement's meaning only. `SearchHandler.Search` takes the stored rows as a sequence parameter.
- Deleting the database file and streaming the CSV (setup.js:5-8, 46-48). `Ingestion.Ingest` takes the parsed rows as a sequence.
- A duplicate `seating_no`. The PRIMARY KEY violation is reported asynchronously by the insert, outside the `try`, and nothing rolls it back. `Ingestion.Ingest` lists every insert attempted.
- Ingestion.InsertFor: stores the raw `total_degree` cell instead of `parseFloat` of it. The score is a floating-point payload that nothing in the core inspects, and a non-numeric cell gives NaN, which SQLite stores as NULL; the row is inserted, not rejected.
- Ranker.Rank: states no order among candidates with the same (tier, length), because SQLite guarantees none. The body happens to use a stable insertion sort.
- SqlLike.Like: models SQLite's default `LIKE`, with ASCII-only case folding and no `ESCAPE`. Non-default `case_sensitive_like` settings and ICU are not modelled.
- A non-string `q`, such as an array from a repeated parameter (server.js:29). That is Express query parsing. `q` is modelled as an absent or present string.
- Errors thrown by the normaliser on input other than a missing name. The normaliser is total on strings, and a CSV cell is either absent or a string.
- The `console.error('Row error:', ...)` log of a skipped row (setup.js:58). It is output only; `Ingestion.IngestSkipsNameless` states that the row inserts nothing.
