# Telegram image raffle bot: a verified model of its core

The bot drops an image once an hour to every registered chat. The image is
obscured and carries a "claim" button. The first three chats to press the
button win the original picture. `/start` registers a chat, `/rating` lists
the ten chats with the most prizes, and `/get_my_score` builds a collage. In
the collage every picture the chat has won is shown in the clear and every
other picture is obscured.

This project models that core in Dafny:

- `Store.DatabaseManager` is the prize store, a class whose three tables
  `users`, `prizes` and `winners` are sequence fields.
  - Its mutators are methods that reassign those fields.
  - Its queries are functions over the pure table operations in `Tables`.
  - The `get_rating` ranking is in `Rating`.
  - `Valid()` holds the three uniqueness invariants: user ids, prize ids,
    and one winners row per (user, prize).
- `Collage` covers `create_collage`:
  - the integer grid arithmetic (`floor(sqrt(n))` columns,
    `ceil(n / cols)` rows);
  - the loop that keeps the paths that exist;
  - the in-place placement of image `i` at cell `(i / cols, i % cols)` of a
    canvas (`array2`).
- `Decimal` holds `str(int)` and `int(str)`: the claim button's payload.
- `RatingText` formats the `/rating` table.
- `Bot` holds the handlers:
  - `/start`, `/rating` and `/get_my_score`;
  - the claim callback;
  - the hourly drop.

  Every send is returned as a `Send` value. An exception that escapes a
  handler becomes a `Failure` carrying a `Fault`.

Modules by file:

| file | module |
|---|---|
| wrappers.dfy | Wrappers |
| tables.dfy | Tables |
| rating.dfy | Rating |
| store.dfy | Store |
| decimal.dfy | Decimal |
| collage.dfy | Collage |
| rating_text.dfy | RatingText |
| bot.dfy | Bot |

Environment inputs are parameters:

- `os.path.exists` is a set of present paths.
- `os.listdir('img')` is a sequence of names.
- The files `hide_img` can read are a set of image names.
- Chats a send fails for are a set of ids.
- `datetime.now()` is a string argument.

A new prize row gets the rowid SQLite assigns by default when no row was
deleted: one more than the largest id, or 1 for an empty table.

## Model

| member | source | states |
|---|---|---|
| Store.DatabaseManager.constructor | logic.py:10-33 | The store opens with three empty tables, which satisfy the key and pair-uniqueness invariants. |
| Store.DatabaseManager.AddUser | logic.py:35-38 | INSERT OR IGNORE. An id already present leaves `users` unchanged. Otherwise exactly the row (id, name) is appended. The other tables are untouched and the invariants are kept. |
| Store.DatabaseManager.AddPrize | logic.py:40-43 | One new row per input image, in order, with that image and `used` false. The new ids are distinct from every old id and from each other. Old rows and other tables are unchanged. |
| Tables.NextPrizeId | logic.py:22 | The default rowid is greater than every id in the table: 1 for an empty table, otherwise the largest id plus one. |
| Tables.AppendFreshPrize | logic.py:22 | A row whose id is above every existing id keeps prize ids unique and leaves the earlier rows in place. |
| Store.DatabaseManager.AddWinner | logic.py:45-55 | Returns 0 and leaves `winners` unchanged when the (user, prize) row exists. Otherwise appends exactly that row and returns 1. The uniqueness invariant is kept. |
| Tables.AddWinnerKeepsUniqueClaims | logic.py:50-55 | Check-then-insert keeps at most one winners row per (user, prize), and the pair is present afterwards. |
| Tables.AddWinnerTwice | logic.py:50-55 | A second `add_winner` for the same pair changes nothing. |
| Store.DatabaseManager.GetUsers | logic.py:57-62 | An id is in the returned list exactly when a users row has it. |
| Store.DatabaseManager.GetPrizeImg | logic.py:64-69 | No image exactly when no prizes row has the id; this is the TypeError of `fetchone()[0]` on None. Otherwise the image of a row with that id. |
| Store.DatabaseManager.GetRandomPrize | logic.py:71-76 | The pick is a stored prize whose `used` is false. Nothing is picked exactly when every prize is used. |
| Tables.UserIds | logic.py:62 | The list has one id per users row, in row order. |
| Tables.RegisteredIffListed | logic.py:57-62 | A user is registered if and only if their id is in the listed ids. |
| Tables.PrizeImage | logic.py:64-69 | No image exactly when no row has the id; this is the TypeError of indexing `None`. Otherwise the image of a row with that id. |
| Tables.FirstUnused | logic.py:71-76 | The pick is a stored prize whose `used` is false. Nothing is picked exactly when every prize is used. |
| Tables.FirstUnusedAppend | logic.py:71-76 | Prizes added later are picked only once every earlier prize is used. |
| Store.DatabaseManager.MarkPrizeUsed | logic.py:78-81 | Sets `used` on the rows with that id only. Every other row and the other tables are unchanged. |
| Tables.MarkUsed | logic.py:81 | Same length; a row with that id gets `used` set and every other row stays as it was. |
| Tables.MarkUsedProperties | logic.py:78-81 | Marking is idempotent. It never clears a flag and keeps ids and images. The marked prize cannot be the next pick. |
| Store.DatabaseManager.GetWinnersCount | logic.py:83-88 | The count equals the number of winners rows for the prize. |
| Tables.WinnersCount | logic.py:87 | The count for a prize is never more than the number of winners rows. |
| Tables.WinnersCountIsRowCount | logic.py:87 | The count is the length of the list of winners rows for the prize. |
| Tables.RowsFor | logic.py:87 | A row is listed exactly when it is a winners row for the prize. |
| Tables.WinnersCountAppend | logic.py:53-54 | Appending a row raises the count of its prize by one and leaves every other count unchanged. |
| Tables.PairColumn | logic.py:50 | One (user_id, prize_id) pair per winners row, in row order. |
| Tables.HasClaimIffRow | logic.py:50-51 | `add_winner`'s SELECT finds a row exactly when some winners row has both the user id and the prize id. |
| Tables.AddWinnerRows | logic.py:50-55 | Afterwards the pair has a row. The existing rows stay in place and at most one row is added. |
| Tables.ClaimAppend | logic.py:50-54 | After an append, a pair has a row exactly when it had one before or the new row has that pair. |
| Tables.ClaimIsCounted | logic.py:50 | A user's row for a prize counts towards that prize's winners. |
| Tables.WonImages | logic.py:90-98 | An image is returned exactly when a winners row of the user joins a prize row with that image. |
| Tables.PrizeImages | logic.py:96 | The images joined to one winners row are exactly those of the prize rows with its id. |
| Store.DatabaseManager.GetWinnersImg | logic.py:90-98 | An image is listed exactly when one of the user's winners rows joins a prize row with that image. |
| Tables.UserColumn | logic.py:107-108 | One user id per winners row, in row order; the group count of a user is its multiplicity. |
| Rating.StandingsFromMembers | logic.py:104-108 | A group is produced exactly for each users row that has at least one winners row, with that user's win count. |
| Rating.StandingsFromDistinct | logic.py:108 | With unique user ids, GROUP BY yields one group per user. |
| Rating.Insert | logic.py:109 | Insertion adds exactly one group to the multiset. |
| Rating.InsertDescending | logic.py:109 | Inserting into a list ordered by decreasing count keeps it ordered. |
| Rating.SortDesc | logic.py:109 | The sort is a permutation of the groups. |
| Rating.SortDescSorted | logic.py:109 | The sort orders by decreasing count and keeps users distinct. |
| Rating.TopStandingsSorted | logic.py:104-111 | The rating has at most ten rows, in decreasing order of count, with distinct users. |
| Rating.TopStandingsAreTheTop | logic.py:104-111 | Every rating row is a group. A group left out means ten rows are shown, and it has no more prizes than any row shown. |
| Rating.TopStandings | logic.py:109-110 | LIMIT 10 of the sorted groups: at most ten, a prefix of the sorted list, and all of it when fewer than ten. |
| Rating.RatingRows | logic.py:105 | Each returned row is the (user_name, count) of the corresponding top group. |
| Store.DatabaseManager.GetRating | logic.py:100-112 | At most ten rows, ordered by decreasing number of prizes. |
| Collage.Isqrt | logic.py:127 | `floor(sqrt(n))`: r*r <= n < (r+1)*(r+1), and at least 1 for n >= 1. |
| Collage.CeilDiv | logic.py:128 | `ceil(n / d)`: the least multiple of d not below n. |
| Collage.GridFor | logic.py:126-128 | For n >= 1 images: cols >= 1 and rows*cols >= n. (rows-1)*cols < n, so no row is empty. cols <= rows. |
| Collage.PlacementInjective | logic.py:132-135 | Image i goes to an in-bounds cell, and different images go to different cells. |
| Collage.IndexCell | logic.py:133-134 | The cell of index r*cols+c is (r, c). |
| Collage.CellOf | logic.py:133-134 | The column is below cols, and row times cols plus column gives the index back. |
| Collage.Existing | logic.py:119-122 | The paths kept are exactly those listed that exist. |
| Collage.LoadImages | logic.py:119-122 | The loading loop keeps exactly the existing paths, in order. |
| Collage.PaintStep | logic.py:135 | Copying image k changes only its own cell. |
| Collage.CreateCollage | logic.py:115-136 | None exactly when no path exists, which includes an empty path list. Otherwise a fresh canvas of the grid's shape. Cell (r, c) holds image r*cols+c, and cells beyond the last image stay empty. |
| Decimal.NatToString | bot.py:22 | `str` of a natural number is a non-empty run of digits without a leading zero. |
| Decimal.NatRoundTrip | bot.py:22 | The digits of `str(n)` read back to n. |
| Decimal.IntToString | bot.py:22 | `str(i)` is non-empty. For i >= 0 it is digits with no leading zero unless i is 0. For i < 0 it is '-' followed by digits. |
| Decimal.ParseInt | bot.py:69 | `int` of an empty string fails. |
| Decimal.IntRoundTrip | bot.py:22 | `int(str(i)) == i` for every integer i. |
| Decimal.IntToStringInjective | bot.py:22 | Different prize ids give different payloads. |
| Bot.MarkupRoundTrip | bot.py:19-23 | The callback handler's `int(call.data)` recovers the prize id `gen_markup` wrote. |
| Bot.GenMarkup | bot.py:19-23 | The callback data is non-empty, and all digits for a non-negative prize id. |
| Bot.HandleStart | bot.py:26-34 | A registered chat gets "already registered" and no state changes. A new chat is appended with its username and gets the welcome reply. |
| Bot.HandleRating | bot.py:37-42 | Sends the header and the formatted rating lines, at most ten. |
| RatingText.PadRight | bot.py:40 | `format(s, '<11')` keeps s and pads with spaces to at least 11 characters. |
| RatingText.Line | bot.py:40 | A line is as long as its two padded fields plus seven characters, and starts and ends with a bar. |
| RatingText.LineShowsName | bot.py:40 | The user name comes right after the opening bar, a space and `@`. |
| RatingText.LineWidth | bot.py:40 | A name and a count that fit their fields give a 29-character line: two more than the 27-character header. The line's bars are at 15 and 28 and the header's at 14 and 26, so the rows do not line up under the header. |
| RatingText.LineHasNoNewline | bot.py:40 | A line has no newline when the name has none. |
| RatingText.LinesAsWrittenFailIffUnnamed | bot.py:40 | The comprehension as written fails exactly when some rating row has no user name. |
| RatingText.LinesAsWritten | bot.py:40 | When the comprehension as written succeeds, it gives one line per rating row. |
| RatingText.LinesAgreeWhenNamed | bot.py:40 | When every row has a name, the corrected lines equal those written by the source. |
| RatingText.Lines | bot.py:40 | One line per rating row. |
| RatingText.LinesCons | bot.py:40 | The lines of a non-empty list are the first row's line followed by the lines of the rest. |
| RatingText.Split | bot.py:41-42 | `str.split('\n')` returns at least one part. |
| RatingText.SplitAfterLine | bot.py:41 | Splitting after a newline-free first line yields that line followed by the split of the rest. |
| RatingText.SplitOneLine | bot.py:41 | A string without newline splits to itself. |
| RatingText.SplitJoin | bot.py:41 | Joining newline-free lines with '\n' splits back to the same lines. |
| RatingText.Join | bot.py:41 | Joining no lines gives the empty string. Otherwise the text starts with the first line. |
| RatingText.Text | bot.py:42 | The message starts with the header and a newline, and is exactly that when there are no rows. |
| RatingText.TextLines | bot.py:41-42 | The sent text splits into the header followed by exactly one line per rating row, or the header and an empty line when there are no rows. |
| Bot.UnnamedWinnerBreaksRating | bot.py:40 | A rated winner with no username makes the as-written formatting fail. |
| Bot.ScorePaths | bot.py:54 | One path per directory entry. |
| Bot.PathInInjective | bot.py:54 | `dir/x` determines x. |
| Bot.ScorePathsChoose | bot.py:54 | `img/x` is listed exactly when x is in the directory and was won. `hidden_img/x` is listed exactly when x is in the directory and was not won. |
| Bot.GetMyScore | bot.py:45-64 | No prizes gives "no prizes" with no collage attempted. No existing path gives "collage failed". Otherwise a collage photo of the existing paths. |
| Bot.CallbackQuery | bot.py:67-81 | Winners become `Claim` of the old table. A payload that is not an integer raises. At three or more winners the reply is "too late" and nothing changes. A repeat claimant gets "already got it" and nothing changes. A new claimant gets one row and the original photo, or the error of a missing prize row or file. At most three winners per prize is kept. |
| Tables.Claim | bot.py:72-77 | From three winners on nothing changes. A claim never lifts a prize's count above three, or above its old count if that was already higher. Other prizes' counts are unchanged. |
| Tables.ClaimKeepsInvariants | bot.py:72-77 | One claim keeps at most three winners per prize and one row per pair. |
| Tables.ClaimsNeverExceedThree | bot.py:72-77 | Any sequence of claims keeps at most three winners per prize and one row per pair. |
| Tables.FreshClaim | bot.py:72-73 | A first claim below the cap appends exactly that row and raises the count by one. |
| Tables.FourthClaimantIsTooLate | bot.py:72-81 | Three distinct users claiming a fresh prize all win, in order. A fourth claim then changes nothing. |
| Bot.Broadcast | bot.py:93-95 | One photo per recipient, in order, each carrying the prize's button. Sending stops at the first chat whose send fails. |
| Bot.DropPhoto | bot.py:94-95 | The drop photo goes to the chat, shows the obscured copy, and has a button whose payload parses back to the dropped prize. |
| Bot.SendMessage | bot.py:84-95 | Without an unused prize nothing changes and nothing is sent. Otherwise the picked prize is marked used before anything can fail. An image `hide_img` cannot read raises before any send. Otherwise one drop photo is sent to each id of `get_users()` in order. The tick reports no fault exactly when no id is unreachable. Otherwise it stops at the first unreachable id and reports that id. |

## Left out

- SQLite itself is not modelled: connections, `with conn` transactions, SQL text, and the table schema as DDL. The tables are sequences of rows.
- Tables are kept in insertion order.
  - The model gives no particular answer to SQLite's unspecified order: the rows of `get_users` and `get_winners_img`, the row `get_random_prize` picks among unused prizes, and the order of equal counts in `get_rating`.
  - The model picks the first in insertion order. Equal counts stay in the order the model's insertion sort leaves them.
- The schema declares foreign keys from `winners` to `users` and `prizes`. SQLite leaves them unenforced unless they are switched on, and the code never does. The model therefore lets `winners` mention unknown users or prizes, although the FOREIGN KEY clauses suggest referential integrity.
- The model takes the default rowid rule. It does not model the rowid chosen after the largest id has reached 2^63 - 1.
- `datetime.now()` is a `winTime` parameter.
- `create_tables` is not modelled as a separate call: the constructor opens with empty tables.
- OpenCV is not modelled: `cv2.imread`, `cv2.imwrite`, and the `hide_img` blur and pixelation.
  - The collage canvas holds the path of the image in each cell instead of its pixels, so the image-size arithmetic `row*height` is not modelled.
  - A file that exists but does not decode is not modelled.
  - Collage.CreateCollage: always returns a canvas once a path exists. The source copies each image into a slot the size of the first. An image of another size makes that slice assignment raise a numpy ValueError, so `/get_my_score` raises for an `img/` with pictures of mixed sizes. That error path is not modelled, and Bot.GetMyScore does not promise it either.
  - `hide_img` is reduced to whether `img/<name>` can be read.
- Collage.Isqrt: `floor(sqrt(n))` and `ceil` on floats are replaced by exact integer arithmetic. Floating-point rounding is not modelled; it is exact in range for any realistic image count.
- Decimal.ParseInt: accepts an optional sign and decimal digits only. It does not model Python `int()`'s tolerance of surrounding whitespace, underscores or non-ASCII digits. Telegram payloads produced by `gen_markup` never contain them.
- The temporary PNG of `/get_my_score` is not modelled: writing it, sending it and removing it.
- The Telegram API is not modelled: replies, keyboard objects, polling, and the wording of the Russian messages. A send is a `Send` value. Only the drop loop models a failed send, as a chat id in `unreachable`.
- Bot.HandleStart, Bot.HandleRating, Bot.GetMyScore, Bot.CallbackQuery: their sends always succeed. A failing `reply_to`, `send_message` or `send_photo` is not modelled. In particular, the photo at bot.py:77 is sent after the winners row is committed, so a failing send there leaves the row in place. The model does not show that case.
- Bot.Broadcast: models one failing send aborting the loop. It does not model Telegram errors that are retried or partial network failures.
- Threading, `schedule` and the hourly timer are not modelled.
- The check-then-act race between concurrent callbacks is not modelled: claims run one after another.
- Bot.HandleRating: sends the corrected lines (see Findings). The source raises instead when a user without a username is among the ten rated rows.

## Findings

| source | as written | input that shows it | evidently intended | confidence | as-written member | corrected member |
|---|---|---|---|---|---|---|
| bot.py:40 | the row format string pads `x[0]`, which is `users.user_name`, which is NULL for a Telegram user without a username. `format(None, '<11')` raises TypeError, so `/rating` raises, and the chat that asked gets no table, whenever a user without a username is among the ten rated rows. | users row (7, NULL) and winners row (7, 1, t): the rating row is (None, 1) | one line per rating row, with an empty name for a user without a username | not executed | RatingText.LinesAsWritten (with Bot.UnnamedWinnerBreaksRating, RatingText.LinesAsWrittenFailIffUnnamed) | RatingText.Lines (with RatingText.TextLines, RatingText.LinesAgreeWhenNamed) |
