# Prize bot core in Dafny

A model of the prize-claim core of a Telegram bot. Once a minute the bot
releases a hidden picture to every registered user. The first three users
to press "Получить!" win it. A user can list their wins as a collage, and a
leaderboard counts wins per user.

The model has five modules:

- `store.dfy` (module `Store`): the SQLite tables `users`, `prizes` and `winners` of
  `DatabaseManager`, as an immutable `Store` value. Every statement the
  class issues becomes a pure transition or query on it.
- `rating.dfy` (module `Rating`): the leaderboard query `get_rating`. It is
  an inner join, a `GROUP BY` per user, an `ORDER BY` and `LIMIT 10`.
- `collage.dfy` (module `Collage`): the integer grid arithmetic of
  `create_collage`. That is the row count, the thumbnail size and each
  image's cell.
- `bot.dfy` (module `Bot`): the decision logic of the handlers, run one
  after another against the store:
  - the claim button `callback_query`;
  - the scheduled release `send_message`;
  - registration `handle_start`;
  - the "my wins" command `handle_get_my_score`.

  What the bot would send is returned as a value.
- `wrappers.dfy` (module `Wrappers`): `Option` and `Result`.

Prize ids are rowids. `prize_id INTEGER PRIMARY KEY` aliases the rowid, and
a new row gets the largest rowid plus one. Rows are never deleted, so the
prize table is a sequence in which `prizes[k - 1]` is the prize with id `k`.
`get_users` lists ids in ascending order, the order of a rowid table scan.
SQLite does not enforce foreign keys unless asked to. So a `winners` row can
name a prize or a user that does not exist, and the model allows it.

The random choice in `get_random_prize` (`ORDER BY random()`) is a
parameter `pick`. It selects among the unused prizes, and
`Store.EveryUnusedPrizeCanBeDrawn` shows that every unused prize is some
pick's answer. An image that fails to open inside `create_collage` is an
index in the parameter `failing`.

## Model

| member | source | states |
|---|---|---|
| `Store.AddUser` | logic.py:43-47 | Registering a new id adds exactly that id with its name and keeps every other user, prize and winner. An id that is already a primary key is refused (IntegrityError), and only then. |
| `Store.AddUserTwice` | logic.py:43-47 | The same id cannot be registered twice: the first insert succeeds, the second is refused. |
| `Store.AddPrizes` | logic.py:49-53 | One new prize per image, in order. The new ids follow the existing ones, and each new prize is unused (the column default `used = 0`). Existing prizes, users and winners are unchanged. A prize is unused afterwards exactly when it was unused before or is new. |
| `Store.AddWinner` | logic.py:55-66 | A pair that is already recorded gives 0 and changes nothing. A new pair appends exactly one row and gives 1. Afterwards the pair is recorded and the pairs stay unique. The prize's count rises by the value returned, and every other prize's count is unchanged. |
| `Store.MarkPrizeUsed` | logic.py:68-72 | Sets `used` on the given prize only. Every other prize, the users and the winners are unchanged, and the unused set loses exactly that id. |
| `Store.MarkPrizeUsedIdempotent` | logic.py:68-72 | Marking a prize used twice is the same as marking it once. |
| `Store.GetUsers` | logic.py:74-79 | Lists every registered id once, nothing else, in strictly increasing order. |
| `Store.GetPrizeImg` | logic.py:81-86 | Returns the image of an existing prize. For an unknown id there is no row, so `[0]` raises IndexError. |
| `Store.GetRandomPrize` | logic.py:88-96 | Gives nothing exactly when no prize is unused. Otherwise it gives an unused prize together with its image. |
| `Store.EveryUnusedPrizeCanBeDrawn` | logic.py:92 | For every unused prize, some outcome of the random order returns it first. |
| `Store.GetWinnersCount` | logic.py:99-104 | The number of winners rows for the prize: zero exactly when nobody holds it, and never more than the table's length. |
| `Store.CountIsClaimants` | logic.py:99-104 | While pairs are unique, a prize's count equals the number of distinct users who won it. |
| `Store.GetWinnersImg` | logic.py:119-128 | An image is listed exactly when the user has a winners row for a prize that exists with that image. There are at most as many images as the user has rows. |
| `Store.AddWinnerExtendsWonImages` | logic.py:119-128 | Recording a new win of an existing prize appends exactly that prize's image to the user's list. |
| `Store.NoImagesWithoutKnownPrize` | logic.py:123-127 | The list is empty exactly when none of the user's winners rows joins with an existing prize. |
| `Rating.Groups` | logic.py:111-113 | One row per registered user with at least one win, carrying the user's name and number of winners rows, and no other row. |
| `Rating.Ranking` | logic.py:110-116 | Ordering the groups by count and keeping the first ten gives at most ten rows, ordered, one per user, each a real group row. If fewer than ten rows come back, every group is listed. No group left out would come before a listed one. |
| `Rating.GetRating` | logic.py:106-117 | The query as written: at most ten group rows in non-decreasing order of wins, one per registered winning user. Every group left out has at least as many wins as every row listed. |
| `Rating.AscendingRatingOmitsLeader` | logic.py:114 | With more than ten winning users, two of whom have different numbers of wins, the query as written leaves out a user who has more wins than a user it lists. |
| `Rating.GetTopRating` | logic.py:110-116 | The leaderboard with `ORDER BY count_prize DESC`: the same rows kept, in non-increasing order of wins. Every group left out has at most as many wins as every row listed. |
| `Rating.TopRatingListsLeader` | logic.py:110-116 | The corrected leaderboard always lists a row with the highest number of wins. |
| `Collage.GridLayout` | logic.py:149-155 | An empty list gives no collage. `per_row = 0` raises ZeroDivisionError. Otherwise `rows` is the least number of rows of `per_row` that hold every image, and each thumbnail side is the largest whole size whose multiple fits the canvas. |
| `Collage.PlacedTiles` | logic.py:159-167 | Exactly the images that load are pasted, each at its own cell, in index order. |
| `Collage.CreateCollage` | logic.py:140-170 | The empty-list and zero-per-row outcomes as above. Otherwise the layout is the grid of `rows = ceil(n / per_row)`, `thumb_w = W // per_row` and `thumb_h = H // rows`. Each pasted thumbnail sits at its index's cell, in index order, inside the canvas, and every image that loads is pasted. With non-zero thumbnail sides, no two thumbnails overlap. |
| `Collage.PlacedTilesFit` | logic.py:159-165 | For a grid layout, every pasted tile lies inside the canvas and every loading image is pasted. Tiles of non-empty size are pairwise disjoint. |
| `Collage.CellInBounds` | logic.py:163-164 | For every index below the image count, `x + thumb_w <= W` and `y + thumb_h <= H`. |
| `Collage.CellsDisjoint` | logic.py:163-165 | Two different indices get cells that do not overlap when both thumbnail sides are positive. |
| `Collage.CellsCollideWithoutHeight` | logic.py:153-155 | When the canvas is shorter than the number of rows, `thumb_h` is 0 and the cells of index 0 and index `per_row` coincide. |
| `Bot.CallbackQuery` | bot.py:19-33 | A prize with three or more winners gives "too late" and changes nothing. A recorded pair gives "already received" and changes nothing. A new pair appends exactly that row and wins that prize's image, or fails on an unknown prize after inserting. A win is exactly a rise of the prize's count by one. |
| `Bot.ClaimKeepsInvariants` | bot.py:24-25 | One press keeps every prize at three winners or fewer and keeps the pairs unique. |
| `Bot.SequentialClaimsKeepInvariants` | bot.py:24-25 | Any sequence of presses handled one after another keeps both invariants. |
| `Bot.ClaimsFromEmptyKeepInvariants` | bot.py:24-25 | Starting from a freshly created database, every prize has at most three winners and every pair is recorded once, after any sequence of presses. |
| `Bot.FirstComeFirstServed` | bot.py:24-33 | Distinct users pressing for one prize that has `c <= 3` winners: exactly the first `3 - c` win, every later one is "too late", and the final count is `min(3, c + presses)`. |
| `Bot.FiveClaimantsOnFreshPrize` | bot.py:24-33 | Five distinct users pressing for a prize nobody holds: three wins, then two "too late", and the count ends at 3. |
| `Bot.SecondPressIsAlreadyReceived` | bot.py:24-31 | While at least two places remain, a first press wins and a repeat press by the same user gives "already received" and changes nothing. |
| `Bot.LastWinnerPressingAgainIsTooLate` | bot.py:24-33 | The user who takes the third place and presses again gets "too late", because the count is checked before the pair. |
| `Bot.SendMessage` | bot.py:36-47 | With no unused prize, nothing changes and nothing is sent. Otherwise exactly one previously unused prize becomes used, and every other prize, user and winner is unchanged. Every registered user receives exactly one invitation, and each invitation carries that prize. |
| `Bot.RunTicks` | bot.py:36-47 | Successive releases only ever take prizes that were unused at the start. A prize is still unused afterwards exactly when it was unused and was not released. |
| `Bot.TicksReleaseDistinct` | bot.py:37-43 | No prize is released twice. |
| `Bot.TicksReleaseWhileAvailable` | bot.py:37-43 | `k` ticks release `min(k, u)` prizes, where `u` is the number of unused prizes. |
| `Bot.EveryPrizeReleasedOnce` | bot.py:36-43 | With at least as many ticks as unused prizes, exactly the unused prizes are released. None is left, and every later tick sends nothing. |
| `Bot.HandleStart` | bot.py:58-64 | A registered id is told it is already registered and nothing changes. A new id is added once with its name, and nothing else changes. |
| `Bot.StartIsIdempotent` | bot.py:58-64 | A second `/start` from the same chat changes nothing and answers "already registered". |
| `Bot.HandleGetMyScore` | bot.py:99-118 | The "no pictures yet" notice is sent exactly when the user holds no existing prize. Otherwise the collage is the three-per-row grid of the user's images on a 500x500 canvas. Exactly the images that load are pasted, each at its cell, in order, inside the canvas, without overlaps, and at most one tile per winners row. The "collage failed" reply cannot happen with the default three per row. |

## Notes on the code's behaviour

The model follows the code in each case below.

- The capacity check and the insert of a claim are separate statements: the count is read in `callback_query` and the row is inserted later in `add_winner`. The model covers only presses handled one after another (`Bot.SequentialClaimsKeepInvariants`, `Bot.ClaimsFromEmptyKeepInvariants`). Under real interleaving the bound of three winners does not hold.
- The count is tested before the pair. So the user who took the third place gets "too late" on a second press (`Bot.LastWinnerPressingAgainIsTooLate`), and "already received" is answered only while places remain (`Bot.SecondPressIsAlreadyReceived`).
- A tick calls `get_random_prize` and then `mark_prize_used` as two steps, and the model composes the two.
- `add_user` raises on a known id. Only `handle_start`'s membership check makes `/start` idempotent.
- The leaderboard sorts ascending (see Findings).

## Left out

- SQLite connections, SQL text and commits: the tables are values. An unreachable database is not modelled.
- The polling and schedule threads and the once-a-minute timer: operations run one at a time, and a tick is one call of `Bot.SendMessage`.
- `ORDER BY random()` and `datetime.now()`: randomness is the `pick` parameter, and `win_time` is dropped.
- `hide_img` and all image work (OpenCV blur and resize, PIL open, resize, paste and save): only the grid arithmetic is kept. An image that fails is an index in `failing`.
- Telegram calls and file opening. A `send_photo` that raises midway through the invitation loop would stop the remaining invitations; the model sends all of them.
- `gen_markup`, `handle_help`, the text formatting in `handle_rating`, and the `__main__` seeding of prizes from the image directory: these are I/O or presentation.
- The callback data carries `prize_id` as a string and relies on SQLite type affinity. Ids are integers here.
- A user with no Telegram username has `user_name` NULL. Names are strings here.
- `create_tables` uses `CREATE TABLE IF NOT EXISTS` and keeps the rows of an existing database. `Store.Empty` is a freshly created database, and every operation also accepts any other store.
- `Rating.GetRating`: does not fix the order among users with equal counts, which SQLite's grouping leaves unspecified.
- `Store.GetWinnersImg`: states which images appear and how many at most, not their order, which the join does not fix either.
- `Bot.SendMessage`: states that the invitations reach each registered user once, not that they go out in ascending id order.
- `Collage.CreateCollage`: does not model what PIL does when resizing to a zero side. Such an image can be put in `failing` by the caller.

## Findings

| source | as written | input that shows it | evidently intended | confidence | as-written member | corrected member |
|---|---|---|---|---|---|---|
| logic.py:114 | `ORDER BY count_prize` with `LIMIT 10` keeps the ten users with the FEWEST wins | eleven registered users with wins, one holding 2 prizes and ten holding 1: the user with 2 wins is not listed | `ORDER BY count_prize DESC`, the ten users with the most wins | medium, not executed | `Rating.AscendingRatingOmitsLeader` | `Rating.GetTopRating` |
