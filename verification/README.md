# ARC Raiders trade bot — a Dafny model of its domain core

The bot (`arc-trade-bot.mjs`) lets members of a Discord server post trade
listings ("have → want"), search and list the active ones, and close them or
mark them traded. Behind the Discord and SQLite plumbing sit a small table of
listings, a handful of prepared SQL statements, a per-user cooldown and a few
text helpers. This project models that core as pure Dafny functions and proves
what they guarantee.

- `basics.dfy` — `Option`, used for nullable columns and omitted options.
- `text.dfy` — JavaScript's `trim` (with its full white-space set), ASCII
  lower-casing as SQLite's `LOWER` does it, and substring containment.
- `like.dfy` — SQLite's `LIKE` (`%`, `_`, ASCII case folding), and the proof
  that the search pattern `%q%` means "contains `q`" when `q` has no wildcards.
- `format.dfy` — `truncate`, `boldCut` and `chunkLines`.
- `custom_id.dfy` — the button custom id `action:id`, its `split(':')` and
  `Number` parse, and the round trip between them.
- `store.dfy` — the `trades` row, the table as a map from id to row plus the
  AUTOINCREMENT high-water mark, and the statements `insertTrade`,
  `findById`, `markStatus`, `attachMessage` and `purgeExpired`.
- `query.dfy` — `listActive`, `listByUser` and `simpleSearch`: filter, order
  newest first, LIMIT/OFFSET.
- `cooldown.dfy` — `onCooldown` with the clock and the window as parameters.
- `posting.dfy` — how `/trade post` normalises its options and computes the
  expiry.
- `bot.dfy` — the handlers for `/trade post|search|list|close|help` and the
  three buttons, the owner-or-moderator rule, and the cooldown gate.

The model follows the code as written:

- `markStatus` never looks at the current status. A closed listing can later be
  marked traded (`Bot.ClosedListingCanBeMarkedTraded`).
- `have` and `want` are trimmed but never checked for emptiness.
- The sweep expires a listing only when `expires_at < now`, strictly.
- A negative `expires_hours` is accepted and gives a listing that is already
  due for the sweep (`Posting.ExpiryOfPostedRow`).
- `/trade list` with another user selected shows the latest active listings of
  everyone, not that user's (`Bot.ListIgnoresOtherUser`).
- Reads are not filtered for expiry themselves. `/trade search` and
  `/trade list` run the sweep first, so what they return is never overdue.
- The cooldown is spent before the listing is looked up. A `/trade close`
  that finds nothing still starts it (`Bot.FailedCloseStartsCooldown`).

SQL does not fix the order of rows with equal `created_at`. The model breaks
such ties by the larger id first, and the ordering contracts (`NewestFirst`)
state that fixed order: `created_at` never increases along a result, and among
rows with equal `created_at` the larger id comes first.

## Model

| member | source | states |
|---|---|---|
| `Text.Trim` | arc-trade-bot.mjs:246-247 | the result is the part of the input left once only JavaScript white space is cut from both ends, and it neither starts nor ends with white space |
| `Text.TrimIdempotent` | arc-trade-bot.mjs:246-247 | trimming an already trimmed have/want text changes nothing |
| `Text.TrimEmptyIff` | arc-trade-bot.mjs:248-250 | `trim()` gives the empty string exactly when the input is all white space, which is when an optional field becomes NULL |
| `Text.TrimKeepsLowerCase` | arc-trade-bot.mjs:271 | trimming the lower-cased search keyword keeps it lower-case |
| `Text.ContainsIffInfix` | arc-trade-bot.mjs:63 | the containment test used for search results holds exactly when some infix of the text equals the keyword |
| `SqlLike.PercentMatchesAll` | arc-trade-bot.mjs:273 | the patterns `%` and `%%` (what an empty keyword builds) match every text, so an empty search returns every active listing up to the limit |
| `SqlLike.LikeInfix` | arc-trade-bot.mjs:273 | `s LIKE '%q%'` holds exactly when `q` occurs in `s` ignoring ASCII case, for every `q` without `%` or `_` |
| `Format.Truncate` | arc-trade-bot.mjs:159 | the result is the prefix of the input of length `min(len, n)` |
| `Format.BoldCut` | arc-trade-bot.mjs:310 | the result is the first 80 characters of the input between two `**` markers |
| `Format.ChunkLines` | arc-trade-bot.mjs:311-315 | for `per > 0`: `ceil(len/per)` chunks, each non-empty and at most `per` long, all but the last exactly `per`, and laid end to end they give back the input |
| `CustomId.SplitFields` | arc-trade-bot.mjs:186 | the first field is the text before the first colon; the second is present iff there is a colon, holds no colon, and ends at the next colon or at the end |
| `CustomId.DigitsValueOfNatToString` | arc-trade-bot.mjs:153-155 | reading back the decimal rendering of a trade id gives the id |
| `CustomId.ParseBuild` | arc-trade-bot.mjs:153-187 | for an action without a colon and any id `n ≥ 0`, parsing `action:n` gives back the action and `n` |
| `Store.EmptyValid` | arc-trade-bot.mjs:40-53 | a new, empty table meets the table invariant (rows stored under their own ids, ids between 1 and the high-water mark) |
| `Store.InsertTrade` | arc-trade-bot.mjs:57 | adds exactly one row, under an id greater than every existing id, with status active and the bound values; existing rows are unchanged and the invariant is kept |
| `Store.FindById` | arc-trade-bot.mjs:62 | finds a row exactly when the id is in the table, and it is the row stored under that id |
| `Store.MarkStatus` | arc-trade-bot.mjs:60 | sets the status of the row with that id whatever it was; no other field and no other row changes; an unknown id changes nothing |
| `Store.MarkStatusOverwrites` | arc-trade-bot.mjs:60 | with no status guard, a later update overrides an earlier one and repeating an update is a no-op |
| `Store.AttachMessage` | arc-trade-bot.mjs:61 | sets only the message and channel ids of that row; no other row changes |
| `Store.PurgeExpired` | arc-trade-bot.mjs:64 | changes exactly the active rows with an expiry strictly before `now`, and changes only their status, to expired; afterwards no row is overdue |
| `Store.PurgeIdempotent` | arc-trade-bot.mjs:64 | a second sweep with the same `now` changes nothing |
| `Store.PurgeMonotone` | arc-trade-bot.mjs:166 | an earlier sweep followed by a later one leaves the same table as the later sweep alone |
| `Query.SortNewestFirst` | arc-trade-bot.mjs:58 | the result is a permutation of the input ordered newest first, with no row twice |
| `Query.AllMatches` | arc-trade-bot.mjs:58-59 | every row of the table satisfying the condition, newest first, and nothing else |
| `Query.Select` | arc-trade-bot.mjs:58 | at most `limit` matching rows, newest first; the skipped matches are all newer or all older than the window; with offset 0 a match is left out only when the limit is reached, and it is older than every row returned |
| `Query.ListActive` | arc-trade-bot.mjs:58 | only active rows of the table, newest first, at most `limit`; with offset 0 they are the newest active rows |
| `Query.ListByUser` | arc-trade-bot.mjs:59 | only the user's active rows, newest first, at most `limit`, and they are that user's newest active rows |
| `Query.SimpleSearch` | arc-trade-bot.mjs:63 | at most 20 active rows whose lower-cased have or want matches the pattern, newest first, and they are the newest such rows |
| `Query.SearchMatchIsContainment` | arc-trade-bot.mjs:63 | with the pattern `%q%`, a row matches exactly when `q` occurs in its have or want text, ASCII case ignored |
| `Cooldown.OnCooldown` | arc-trade-bot.mjs:67-74 | blocked iff `now - (last use or 0) < window`; when blocked the map is unchanged, otherwise the user's entry becomes `now` and every other entry is unchanged |
| `Cooldown.BlockedUntilWindowPasses` | arc-trade-bot.mjs:70-72 | after an action is let through at `now`, the same user is blocked exactly until `now + window` |
| `Cooldown.UsersIndependent` | arc-trade-bot.mjs:72 | one user's action never changes another user's verdict |
| `Cooldown.ThreeCalls` | arc-trade-bot.mjs:68-73 | with a 1000 ms window: let through at `t`, blocked at `t + 500`, let through at `t + 1000` |
| `Posting.OptionalText` | arc-trade-bot.mjs:248-250 | an optional text is NULL exactly when it is missing or only white space, and otherwise stored trimmed and non-empty |
| `Posting.ExpiresAt` | arc-trade-bot.mjs:254 | the expiry is NULL exactly when the hour count is missing or 0; otherwise it lies `hours × 3 600 000` ms after creation, later than creation iff the count is positive |
| `Posting.ExpiryOfPostedRow` | arc-trade-bot.mjs:254 | a posted listing is due for the sweep exactly when it has a non-zero hour count and its expiry is before `now`; with a negative count it is due at once |
| `Bot.HandlePost` | arc-trade-bot.mjs:245-267 | exactly one new row, under the next AUTOINCREMENT id above all others, active, owned by the poster, with trimmed texts, created `now` and the computed expiry; other rows unchanged. When the card is sent the row gets its message and channel ids and the reply is "posted". When sending fails (line 262), no reply is sent, because line 181 returns the handler's promise without awaiting it, and the row stays active with no message id and the invoking channel |
| `Bot.KeywordIsLowerCase` | arc-trade-bot.mjs:271 | the prepared search keyword has no ASCII capitals |
| `Bot.HandleSearch` | arc-trade-bot.mjs:270-273 | the table afterwards is the swept table; the reply is at most 20 of its active rows, newest first, each matching `%keyword%` on lower-cased have or want, and a matching row is left out only when 20 newer ones are shown; for a keyword without wildcards, matching means containing the lower-cased trimmed keyword |
| `Bot.HandleList` | arc-trade-bot.mjs:284-288 | the table afterwards is the swept table; the reply is at most 20 of its active rows, newest first; without another user selected they are the actor's own newest 20, otherwise the newest 20 of everyone |
| `Bot.ListIgnoresOtherUser` | arc-trade-bot.mjs:286-288 | whichever other user is selected, the reply is the same page of the latest active listings |
| `Bot.HandleClose` | arc-trade-bot.mjs:299-306 | not found iff the id is unknown; closed iff the listing exists and the actor owns it or is a moderator; only then does the table change, and only that row's status, to closed |
| `Bot.HandleCommand` | arc-trade-bot.mjs:171-184 | help changes nothing; search and list never consult or touch the cooldown; post and close are refused iff on cooldown, with no change, and otherwise stamp the cooldown; a command let through gives exactly the table and reply of its subcommand's handler |
| `Bot.FailedCloseStartsCooldown` | arc-trade-bot.mjs:177-184 | a `/trade close` of an unknown id replies not found, leaves the table alone and still starts the user's cooldown |
| `Bot.HandleButton` | arc-trade-bot.mjs:186-189 | a press replies not found exactly when the custom id has no numeric id or names no listing |
| `Bot.ButtonChangesStatusIff` | arc-trade-bot.mjs:205-221 | a button changes the table iff it is Mark as Traded or Close, its listing exists and the presser owns it or is a moderator; it then sets only that listing's status; refusal happens exactly in the remaining status-button cases |
| `Bot.CloseButtonOfCard` | arc-trade-bot.mjs:151-218 | pressing the Close button a card was built with closes that very listing for its owner or a moderator |
| `Bot.ClosedListingCanBeMarkedTraded` | arc-trade-bot.mjs:205-209 | a listing closed with `/trade close` can still be marked traded by its owner: no status is terminal |

## Left out

- The discord.js client, intents, slash-command registration, REST and login
  (lines 77-133 and 317-322): platform plumbing with no logic of its own.
- Embeds, the button row's rendering, the text of replies, follow-ups and the
  joining of chunks with newlines (lines 136-157, 276-281, 291-296): display
  only. A reply is modelled as its kind plus the rows it shows.
- The Contact button's direct messages (lines 191-203): I/O. The model returns
  the listing the buyer asked about and changes nothing.
- The SQLite engine, its index, the database path and the directory creation
  (lines 33-35, 54). The table is abstract. The file as shown never defines
  `db` and imports `fs`/`path` twice; neither matters to the model.
- The `setInterval` sweep (line 166) is not scheduled. `Store.PurgeMonotone`
  covers successive sweeps with a growing clock.
- `Date.now()`: every clock reading is the `now` parameter, and one handler
  uses one value.
- The generic "Something went wrong" reply (lines 223-227) is not
  modelled. The slash-command handlers and most replies are returned as
  promises without `await` (lines 174, 178, 181-184, 189, 207, 216). A
  rejection from them escapes the catch, so no generic reply is sent. The
  one failure modelled is a failed card reply in `/trade post`. It leaves a
  listing with no message id and sends no reply (`Bot.HandlePost`).
- A failing SQL statement is not modelled. This includes `attachMessage` at
  line 267, which runs after the insert: its failure would leave the same
  listing with no message id.
- The awaited card updates of the two status buttons (lines 210 and 219)
  would reach the catch if they failed. They run after `markStatus`, so the
  table is as modelled and only the reply would differ. That reply is not
  modelled.
- `commandName !== 'trade'` (line 172) is not modelled.
- Concurrency and atomicity: the handlers are modelled as running one at a
  time.
- Store.InsertTrade: AUTOINCREMENT running out of ids at 2^63 - 1 is not
  modelled, because ids are unbounded integers here.
- Query.Select: for a non-zero offset the contract says the window is
  ordered and contiguous, but not that exactly `offset` newer matches precede
  it. The bot only calls it with offset 0.
- Query.ListActive: likewise, with a non-zero offset it does not state how
  many newer rows are skipped.
- Query.Select: rows with equal `created_at` come out larger id first. SQLite
  promises no order among them, so this is one of the orders it may produce,
  fixed so that results are determined.
- Query.Select: LIMIT and OFFSET are natural numbers. SQLite's meaning for
  negative values (no limit, no offset) is not modelled, since the bot only
  passes 20 and 0.
- Bot.HandleSearch: JavaScript's `toLowerCase` folds all of Unicode. The model
  folds only ASCII, as SQLite's `LOWER` and `LIKE` do. Its containment
  guarantee also assumes the keyword has no `%` or `_`. Otherwise the keyword
  acts as a `LIKE` pattern, and the contract states only the match against
  `%keyword%`.
- CustomId.ParseId: reads decimal digit strings only. JavaScript's `Number`
  also accepts surrounding white space, `0x`/`0o`/`0b` prefixes, fractions and
  exponents. The bot's own custom ids never contain those.
- Format.Truncate: counts Unicode scalar values, while JavaScript's `slice`
  counts UTF-16 code units. A null argument (which `truncate` turns into `''`)
  is not modelled because every caller passes a string.
- Posting.ExpiresAt: computes with unbounded integers. JavaScript computes with
  doubles, which lose precision above 2^53.
- Cooldown.OnCooldown: the window is a parameter, 45 000 ms by default. A
  malformed `COOLDOWN_SECONDS` would make the window NaN so that nothing ever
  blocks; that case is not modelled.
