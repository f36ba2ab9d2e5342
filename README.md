# educom_bot core, modelled in Dafny

`educom_bot` is a Telegram bot. Every 30 seconds it fetches the news page of a
school director's web account (lk.educom.ru). It reads the newest entry from
that page: its id, date, title and document link. When that entry differs from
the last one sent, the bot sends a notification to a fixed list of chats. This
project models the decision and string logic at its core, in
`educom_bot/bot.py`:

- **Session refresh** (`refresh_session`). The cookie file is created empty when
  it is missing. The session logs in again when the refresh is forced, when the
  file is empty, or when it is strictly older than `COOKIE_LIFETIME` (1800 s).
- **One tick** (`check_for_updates`). The bot fetches the page. If the page has
  no `div.logout-button`, it does one forced refresh and one refetch, and uses
  the second page without checking it.
- **Extraction.** The record is built from the first entry on the page.
- **Title normalisation.** The title is stripped, each whitespace run becomes
  one space, the date is removed, and the result is stripped again.
- **`html.escape`** is applied to every field.
- **Change detection** over the entry file: a first-run path, an overwrite when
  the record differs, and nothing when it is equal.
- **Fan-out.** `notify_users` sends to every user chat and `error_handler` to
  every admin chat, one message per chat, in list order.

Files:

- `wrappers.dfy`: `Option` and `Result`.
- `text.dfy` (module `Text`): the string operations over `seq<char>`:
  - Python whitespace (`str.isspace`, which is also what `\s` matches);
  - `str.strip`;
  - `re.sub(r"\s+", " ", s)`;
  - `s.replace(p, "")`;
  - `html.escape`, modelled as the five replacements it performs. It is
    proved equal to a per-character map, and its output is proved to decode
    back to its input.
- `session.dfy` (module `Session`): the refresh decision as a predicate and the
  state of the cookie file after a refresh.
- `scrape.dfy` (module `Scrape`): the page summary, title normalisation,
  extraction, the notification text, and a parser that reads the date, title and
  link back out of a notification.
- `bot.dfy` (module `EducomBot`): class `Bot`. Its fields are the cookie file,
  the entry file, a count of entry-file writes, the log of requests to the site
  and the log of Telegram messages. Its methods are the refresh, the tick, the
  change detector and the two send loops. The module also has a parser that
  reads the traceback back out of an admin report.

How the outside world is modelled:

- A fetched page is a summary of what the CSS selections return: how many
  `div.logout-button` elements it has, and for each `div.ui.form` entry, its
  `data-element` attribute, its title blocks (text and label texts) and its
  file links (`href`).
- A login or a page fetch is appended to `requests`.
- A Telegram send is appended to `sent`.
- The clock and the pages the site returns are parameters of a tick. So is the
  size of the cookie jar that a login writes.

Two consequences of the code that are easy to miss:

- Title normalisation is not idempotent. `Scrape.NormalizeTitleNotIdempotent`
  gives an input where a second pass changes the title.
- The code never checks the refetched page (`educom_bot/bot.py:170-171`). A
  second page without the logout button is not an error. Extraction fails only
  when a selection is empty: no entry, title, date label or file link.

## Model

| member | source | states |
|---|---|---|
| `Text.Strip` | educom_bot/bot.py:176-179 | `str.strip()`: the result is a slice of the input with only whitespace cut from its ends, and neither its first nor its last character is whitespace |
| `Text.StripTrimmed` | educom_bot/bot.py:179 | `strip()` leaves text that neither starts nor ends with whitespace unchanged |
| `Text.CollapseWs` | educom_bot/bot.py:178 | `re.sub(r"\s+", " ", s)`: the result is empty exactly when the input is, and is never longer than the input; `Text.CollapsePlain` and `Text.CollapseRun` state what happens run by run |
| `Text.CollapsePlain` | educom_bot/bot.py:178 | text without whitespace passes through unchanged, and the rest of the input is collapsed after it |
| `Text.CollapseRun` | educom_bot/bot.py:178 | a maximal whitespace run (one followed by the end or by a non-whitespace character) becomes exactly one space |
| `Text.CollapseWsShape` | educom_bot/bot.py:45 | `re.sub(r"\s+", " ", s)`: every whitespace character in the result is a plain space, no two whitespace characters are adjacent, and the result starts with whitespace exactly when the input does |
| `Text.CollapseWsKeepsText` | educom_bot/bot.py:178 | collapsing whitespace keeps all non-whitespace characters, in order |
| `Text.RemoveAll` | educom_bot/bot.py:179 | `s.replace(date, "")`: an empty pattern leaves `s` unchanged, and the result only has characters of `s` and is no longer than `s` |
| `Text.RemoveAllAbsent` | educom_bot/bot.py:179 | removing a pattern that does not occur in `s` gives back `s` |
| `Text.RemoveAllFirst` | educom_bot/bot.py:179 | when `p` first occurs right after `x`, the replacement keeps `x`, drops that occurrence and goes on after it; with `RemoveAllAbsent` this is the left-to-right, non-overlapping removal |
| `Text.EscapeStepsPerChar` | educom_bot/bot.py:183-186 | `html.escape`'s five sequential replacements (`&` first) equal escaping each character on its own |
| `Text.Escape` | educom_bot/bot.py:183-186 | `html.escape(s)`: the result has no raw `<`, `>`, `"` or `'`, each `&` in it begins one of `&amp; &lt; &gt; &quot; &#x27;`, and decoding those five entities gives back `s` |
| `Text.EscapeKeepsShape` | educom_bot/bot.py:177-185 | escaping a normalised title adds no whitespace and keeps its first and last characters non-whitespace |
| `Session.NeedsLogin` | educom_bot/bot.py:119-126 | a login happens if and only if the refresh is forced, the file is missing, the file is empty, or `mtime < now - 1800` |
| `Session.MissingFileLogsIn` | educom_bot/bot.py:119-126 | a missing cookie file is created empty and so always leads to a login |
| `Session.LifetimeBoundary` | educom_bot/bot.py:122-126 | the age comparison is strict: a non-empty file exactly 1800 s old is kept, and at 1801 s it is replaced |
| `Session.AfterRefresh` | educom_bot/bot.py:119-142 | after a refresh, a login has rewritten the file at `now`; without a login the file was present and is unchanged; either way the file is not stale, since a login writes at least `{}` |
| `Session.RefreshedStaysFresh` | educom_bot/bot.py:122-135 | after a login, no unforced refresh within the next 1800 s logs in again |
| `EducomBot.Bot.RefreshSession` | educom_bot/bot.py:114-142 | the imperative refresh leaves the cookie file as `AfterRefresh` says, and it adds one `Login(forced)` request exactly when `NeedsLogin` holds |
| `Scrape.NormalizeTitle` | educom_bot/bot.py:177-179 | every whitespace character in the normalised title is a plain space, and the title neither starts nor ends with whitespace |
| `Scrape.NormalizeTitleNotIdempotent` | educom_bot/bot.py:177-179 | the title "a d b" with date "d" normalises to "a  b", and a second pass gives "a b" |
| `Scrape.BuildEntry` | educom_bot/bot.py:182-187 | each field is escaped and decodes back to the value read; a missing `data-element` or `href` becomes the text "None" and does not fail; the escaped title keeps its normalised shape |
| `Scrape.ExtractEntry` | educom_bot/bot.py:174-186 | an empty title, date-label or file-link selection fails, checked in the code's order; otherwise the record is built from the first title block, its stripped first label, and the first link |
| `Scrape.Extract` | educom_bot/bot.py:173-187 | extraction fails if and only if one of the selections `div.ui.form`, the title block, `div.ui.label` or `a.item.alf-file-show` is empty; a success is the record built from the first `div.ui.form` entry |
| `Scrape.NotificationText` | educom_bot/bot.py:73-77 | the notification starts with the header line and the date, and ends with the document link; `NotificationUnambiguous` shows that it can be read back |
| `Scrape.NotificationUnambiguous` | educom_bot/bot.py:73-77 | from a notification built from escaped fields, the parser recovers exactly the date, title and document link |
| `Scrape.NotificationTextInjective` | educom_bot/bot.py:73-77 | for escaped entries, two notifications are equal if and only if the date, title and link are equal (the id is not in the text) |
| `EducomBot.Fanout` | educom_bot/bot.py:80-83 | a round has one message per recipient, with the i-th message going to the i-th id, all with the same text |
| `EducomBot.Bot.SendAll` | educom_bot/bot.py:80-83 | the send loop appends exactly one round for the given ids and text to the message log, in list order |
| `EducomBot.ErrorText` | educom_bot/bot.py:97-109 | the report is the header for the error kind (`update` present or not, with the escaped update, chat data and user data) followed by the escaped traceback in a `<pre>` block, and `ReportTraceback` reads the traceback back out of the report |
| `EducomBot.ReportTracebackOf` | educom_bot/bot.py:105-109 | after any header, `<pre>` + the escaped traceback + `</pre>` parses back to the traceback: escaping leaves no `<` in it, so the block starts at the last `<` |
| `EducomBot.ErrorTextTracebackInjective` | educom_bot/bot.py:97-109 | two reports are equal only if their tracebacks are, whatever updates they describe; for the same update, equal tracebacks give equal reports |
| `EducomBot.Bot.NotifyUsers` | educom_bot/bot.py:67-83 | one notification round: the entry's text goes to every `BOT_USERS_CHAT_ID`, in order |
| `EducomBot.Bot.ErrorHandler` | educom_bot/bot.py:86-111 | the escaped error report goes to every `BOT_ADMIN_CHAT_ID`, in order |
| `EducomBot.Bot.RecordEntry` | educom_bot/bot.py:189-201 | afterwards the entry file holds the new record. With no prior record, or a different one, the file is written once and exactly one round is sent (on the first run, not two). With an equal record there is no write and no send |
| `EducomBot.TickRequestBounds` | educom_bot/bot.py:163-171 | a tick fetches the page once, or twice when the first page lacks the logout button. It makes at most one forced login and at most one unforced login |
| `EducomBot.PageUsed` | educom_bot/bot.py:163-171 | the record comes from the first page when it has the logout button, and otherwise from the refetched page; so a page without the logout button is used only when it is the refetched page |
| `EducomBot.Bot.CheckForUpdates` | educom_bot/bot.py:158-204 | a tick's requests, its cookie file, and the record it extracts from the first page (or from the second page, unchecked); a failed extraction persists and sends nothing; after a success the change-detection outcomes of `RecordEntry` hold |
| `EducomBot.TwoEqualTicks` | educom_bot/bot.py:189-201 | two ticks over the same page extract the same result. The entry file is written once and one round is sent exactly when the first tick finds a record that differs from the stored one, so the second tick sends nothing and writes nothing. Afterwards the entry file holds the record, or is unchanged when extraction fails |

## Left out

- The Telegram `Updater`, dispatcher, job queue, polling, the `start` command
  and `main` (lines 48-64, 207-226) are framework glue. In particular, the
  model does not connect a failed tick to `ErrorHandler`; the framework does
  that.
- The mechanicalsoup login (opening the page, selecting the form, filling in
  and submitting the credentials), HTTP GETs, disabled TLS warnings and the
  cookie-jar conversion (lines 127-140, 145-155, 165) are network and library
  calls. A login is a `Login` request plus the number of bytes it writes. A
  missing login form (a library exception) is not modelled.
- The contents of the cookie jar and how the browser loads them are not
  modelled: a page is a parameter, not a function of the cookies.
- JSON encoding and decoding, and real file I/O. The entry file is
  `Option<Entry>`; the cookie file is its size and mtime. Storage failures and
  failures to deliver a Telegram message are not modelled: every write and
  every send succeeds.
- `time()` is a float; the model uses whole seconds. One `now` serves both
  refreshes of a tick.
- A login's cookie write is stamped with the tick's `now`, the `time()` read
  at line 122. In the code the file is written after the login's network
  calls (lines 127-135), so its real mtime is a little later.
- Loading `.env`, splitting the chat-id lists on commas, the proxy settings
  and logging. The id lists are the constructor's arguments.
- `error_handler` builds its report from `json.dumps(update.to_dict())`,
  `str(context.chat_data)`, `str(context.user_data)` and a formatted
  traceback. These are parameters (`UpdateDump` and `traceback`); only their
  escaping and placement are modelled. `if update:` is modelled as
  `update.Some?`.
- `Text.Unescape` decodes only the five entities that `html.escape` writes. It
  is the reference for the round trip, not a model of `html.unescape`.
- `Scrape.NormalizeTitleNotIdempotent` uses one-character dates such as "d".
  With a date like "01.02" the same thing happens.
- A login is assumed to write a cookie jar of at least two bytes (`{}`), the
  least `json.dump` of a dictionary writes (`Session.JarSize`).
- The retry depends on the Python `assert` at line 166. The model assumes
  assertions are enabled. Under `python -O` the assert is removed, and the first
  page is always used without a retry.
