# News digest bot: a verified model of its data pipeline

The bot (`bot.py`) gathers entries from a list of RSS/Atom feeds, keeps those
published in the last 24 hours, writes them as `;`-separated CSV, asks a
completion endpoint for a summary and sends that summary to a Telegram chat in
chunks of at most 4000 characters, except that a longer single paragraph is
sent whole as one chunk. This project models the four data steps of that
pipeline in Dafny and proves what they promise:

- `Chunker` (`chunker.dfy`): `split_message`, the greedy paragraph-preserving
  chunker. The text is split at `'\n'`. Each paragraph plus `'\n'` is added to
  a running chunk. A chunk is closed when the next paragraph would take it past
  `max_length`. Every emitted chunk is whitespace-stripped.
- `Feeds` (`feeds.dfy`): `fetch_feeds` (the entries of all sources, in source
  order, skipping sources that raise) and `filter_entries_last_24_hours` (keep
  an entry iff it has `published_parsed` and its instant is `>= now - 24h`).
- `Csv` (`csv.dfy`): the row structure of `create_csv_data`: the header
  `Date;Title;Description;Link`, then one row per entry in input order.
- `Text` (`text.dfy`): Python's `str.split` on one character, `str.join` and
  `str.strip()` (with the exact `str.isspace` character set), which the chunker
  is built on.

Each imperative Python loop is a Dafny `method` with a loop and invariants. Its
`ensures` ties the result to a specification function: `Pieces` for the
chunker, `Aggregate` for fetching, `Recent` for the filter, `Render(Table(..))`
for the CSV text. The properties asked of the source are then lemmas about
those functions.

Modelling choices:

- Instants are integers counting microseconds, the resolution of Python's
  `datetime`. The current time is read once per call in the source. Here it is
  the parameter `now`.
- Things the core calls but does not define are function-typed parameters, so
  every result holds for any function in their place:
  - `feedparser.parse(url)` is `fetch: string -> FetchOutcome`, which returns
    `Parsed(entries)` or `Raised`.
  - `BeautifulSoup(..).get_text()` is `getText`.
  - Converting and formatting an instant as `%Y-%m-%d %H:%M:%S` in UTC+3 is
    `formatDate`.
  - The csv writer's QUOTE_MINIMAL quoting of one field is `quote`.
- Lengths are Python's `len` on `str`, counted in code points. A Dafny `char`
  is a Unicode scalar value, so lengths agree on every string without lone
  surrogates.

bot.py does none of the following, and neither does the model:

- `split_message` only cuts at paragraph boundaries and strips each chunk. It
  does not otherwise touch the text.
- Only `published_parsed` is consulted. No other date field is read.
- The window has no upper bound, so future-dated entries are kept.
- `create_csv_data` does not skip an entry without `published_parsed`. It
  raises `AttributeError`, so the whole call produces nothing. The model
  returns `None` in that case.

## Model

| member | source | states |
|---|---|---|
| Text.Split | bot.py:130 | `text.split('\n')` always yields at least one piece and no piece contains the separator |
| Text.JoinSplit | bot.py:130 | joining the pieces of a split with the separator gives the text back |
| Text.SplitJoin | bot.py:130 | splitting a join of separator-free pieces gives the pieces back |
| Text.SplitCount | bot.py:130 | a split yields exactly one piece more than the text has separators |
| Text.Strip | bot.py:137 | `strip()` yields a contiguous middle part of its input whose removed prefix and suffix are all whitespace; it neither starts nor ends with whitespace, and it is empty exactly when the input is all whitespace |
| Chunker.SplitMessage | bot.py:124-147 | the result is never empty, has one chunk per unstripped piece of `Pieces(text, max_length)` and the k-th chunk is the k-th piece stripped |
| Chunker.SplitMessageDefault | bot.py:124 | the default `max_length` is 4000 |
| Chunker.PiecesReconstruct | bot.py:130-145 | concatenating the unstripped chunks gives exactly `text + "\n"` |
| Chunker.PiecesParagraphs | bot.py:130-145 | the paragraphs of the chunks, in chunk order, are exactly the paragraphs of the text: none is split, lost, repeated or moved |
| Chunker.PiecesShape | bot.py:134-141 | every unstripped chunk is non-empty and ends with `'\n'`, and a chunk holding two or more paragraphs is at most `max_length` long |
| Chunker.OversizePieceIsOneParagraph | bot.py:134-138 | a chunk longer than `max_length` holds a single paragraph `p` with `len(p) + 1 > max_length` |
| Chunker.PiecesGreedy | bot.py:134-141 | a chunk is closed only when the next paragraph does not fit: each chunk's length plus the next chunk's first paragraph plus 1 exceeds `max_length` |
| Chunker.ShortTextIsOneChunk | bot.py:134-145 | a text with `len(text) + 1 <= max_length` gives the single unstripped chunk `text + "\n"` |
| Chunker.PieceParagraphCount | bot.py:132-141 | the number of `'\n'` in an unstripped chunk is its number of paragraphs, so `PiecesShape` bounds every chunk of two or more paragraphs |
| Chunker.ChunksAtMostParagraphs | bot.py:130-145 | there are never more chunks than paragraphs in the text |
| Chunker.EmptyTextGivesOneEmptyChunk | bot.py:127-145 | the empty text yields the single chunk `""`, for every `max_length` |
| Feeds.FetchFeeds | bot.py:37-45 | the result is the concatenation, in source order, of the entries of every source that parsed |
| Feeds.AggregateAppend | bot.py:39-42 | aggregating two runs of sources gives the first's entries followed by the second's |
| Feeds.FailingSourceSkipped | bot.py:40-44 | a source that raises, wherever it stands in the list, leaves the result as if it were absent, and later sources are still read |
| Feeds.AggregateMembership | bot.py:39-42 | an entry is in the result iff some source that parsed returned it |
| Feeds.FilterLast24Hours | bot.py:47-61 | the result is an in-order subsequence of the input, and an entry is in it iff it is in the input and has an instant `>= now - 24h` |
| Feeds.RecentIsSubsequence | bot.py:52-59 | the kept entries are a subsequence of the input, in input order |
| Feeds.RecentMembership | bot.py:53-58 | an entry is kept iff it has `published_parsed` and is no older than 24 hours before `now` |
| Feeds.RecentAppend | bot.py:52-59 | filtering a concatenation filters each part, so relative order is kept |
| Feeds.RecentCount | bot.py:52-59 | a recent entry is kept as many times as it occurs, any other entry never |
| Feeds.WindowBoundary | bot.py:49-58 | the bound is inclusive (an entry at exactly `now - 24h` is kept, one microsecond older is not), future entries are kept, and entries without an instant are dropped |
| Csv.CreateCsvData | bot.py:63-77 | text is produced iff every entry has `published_parsed`, and it is then the writer's rendering of the header row followed by the data rows |
| Csv.TableShape | bot.py:66-75 | N entries give N + 1 rows: the header, then for each entry in order its date, title text, description text and link |
| Csv.RenderAppend | bot.py:66-75 | the writer's text for two runs of rows is the first's lines followed by the second's |
| Csv.HeaderLine | bot.py:65-66 | with quoting that leaves the plain header words alone, the header line is `Date;Title;Description;Link\r\n` |
| Csv.CsvOpensWithHeader | bot.py:65-75 | the CSV text is the header line followed by the data rows' lines |

## Left out

- Loading configuration from the environment and the `.instructions` file (bot.py:15-33). This is I/O and global state.
- `summarize` (bot.py:82-108). It is an HTTP POST whose only logic is the choice between the answer text on status 200 and the string `"Error: <status> - <body>"`.
- `get_response` (bot.py:111-121). It is unreachable code that refers to an undefined `client`.
- `send_message` and `main` (bot.py:150-190). These are Telegram network calls, the 0.5 s pacing sleep and async orchestration.
- The conversion of `published_parsed` to an instant (bot.py:54-57, 69-72). It reads the time tuple as local time of the host. Entries carry the resulting instant as a given integer.
- An entry whose `published_parsed` attribute exists but is `None` makes the source raise `TypeError` in the filter. The model's `published` is either an instant or absent, so it has no such case.
- An entry without `title`, `summary` or `link` makes `create_csv_data` raise. The model's entries always have these fields.
- `fetch` is a function of the URL, so a URL listed twice gets the same outcome both times. Two real `feedparser.parse` calls on one URL can differ, and the model does not capture that.
- Strings with lone surrogates, which a Python `str` can hold: a Dafny `char` excludes them, so such text is outside the model.
- The `print` of the failing URL and exception (bot.py:44). This is console output only.
- `feedparser.parse`, BeautifulSoup's `get_text`, `strftime` and the csv module's QUOTE_MINIMAL quoting. These are foreign libraries, taken as parameters and not modelled.
- Csv.CreateCsvData: the text it states is the writer's text in terms of the abstract `quote` parameter. Nothing is proved about how quoted fields parse back.
