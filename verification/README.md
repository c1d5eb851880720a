# Economy-Bot battle royale, message plumbing, labels and shortcuts — a Dafny model

This project models four parts of the Economy-Bot Discord bot. Discord, TinyDB and
`random` are left out of all four.

- **The battle royale** (`Cogs/battleroyale.py`):
  - *Lobby.* The `battleroyale <bet>` command opens a lobby with a forced bet. `joinbr`
    adds participants who pay the same fee. Holiday points are spent before the balance.
    When too few participants join, the lobby is cancelled and every fee refunded.
  - *Fight.* The fight runs in rounds. A round targets a random number of participants.
    Each target kills itself, is killed by another participant, or blocks the attack.
  - *Scoring.* A kill scores a point plus a weapon bonus, a streak bonus and a shutdown
    bonus in `kill_map`.
  - *Scoreboard.* It lists every participant once, highest score first.
  - *Lookups.* The statistics lookups that the battle royale adds to `!check` and to the
    rankings.
- **The message plumbing of `bot.py`**:
  - splitting a message into chunks that fit Discord's 2000-character limit, with code
    fences re-wrapped around every chunk;
  - the sanitised quote that heads an error post;
  - the start-up check of the configured cog list.
- **The label store** (`Cogs/labels.py`): `set` (upsert, rejecting upper-case labels),
  `show`, `delete`, and the sorted `labels` listing split into messages of bounded size.
- **The nickname shortcuts** (`Cogs/core.py`): `addshortcut` and the aligned, sorted
  `shortcuts` listing.

## How the program is represented

- **Random choices are inputs.**
  - A round's `random.uniform(0, 1)` draw is a `real`.
  - The target of an elimination is an index into the roster.
  - The killer re-draw loop is an index into the roster without the target. The loop can
    only end on one of those names.
  - The exotic weapon is the token drawn.
  - A whole fight takes one draw function per round (`xs`, `draws`).
- **Probabilities are exact reals**, not floats.
- **Dicts are insertion-ordered lists of pairs.** This covers Python dicts and the
  `defaultdict(int)` kill map (`Dicts.Dict`). Python iterates a dict in insertion order
  and assignment keeps a key's position. The stable sorts of the listings depend on this
  when two entries tie. A map view (`Dicts.ToMap`) is proved to agree with lookup and
  update.
- **Tables.**
  - The label table is the list of its TinyDB documents.
  - The user database is a map from user name to the fields the lobby touches.
- **Python's `sorted` is an insertion sort.** It is stable, ascending by a `str` key for
  the listings and descending by value for the scoreboard (`Sorting`).
- **Strings are `seq<char>`.** `str` comparison is by code point (`Strings.StrLe`).
  `os.linesep` is a parameter.

Modules:
- `Wrappers`: `Option` and `Result`.
- `Strings`, `Dicts`, `Sorting`: the Python built-ins the bot relies on.
- `Arena`: the fight.
- `Scoreboard`: the end-of-fight listing.
- `Lobby`: fees, joining and cancellation.
- `BattleStats`: the lookups.
- `Bot`: `bot.py`.
- `Labels`: the label store.
- `Shortcuts`: the shortcuts of the core cog.

## Model

| member | source | states |
|---|---|---|
| Arena.AssignWeapons | Cogs/battleroyale.py:457-461 | Every participant gets a weapon and no one else does. The weapon is the participant's custom weapon when one is configured, otherwise the emote drawn for them. |
| Arena.RoundSize | Cogs/battleroyale.py:473-495 | With at most three participants alive, a round schedules exactly one elimination. With more, it schedules between 1 and ceil(n/3), and ceil(n/3) ≥ 2, so the 0.5/(max_killed-1) split never divides by zero. Any draw below 0.5 gives 1. |
| Arena.FirstAbove | Cogs/battleroyale.py:487-493 | The scan over the cumulative probabilities stops at an outcome between its start and the last outcome. |
| Arena.FirstAboveIsBucket | Cogs/battleroyale.py:484-493 | The scan stops at outcome r exactly when the draw lies in r's bucket [cum(r-1), cum(r)). The last outcome takes every draw above the sum. |
| Arena.RoundSizeIsInverseCdf | Cogs/battleroyale.py:475-493 | Outcome k is chosen exactly for draws in its bucket. Outcome 1 owns [0, 0.5). Each later outcome owns a slice of width 0.5/(ceil(n/3)-1). The buckets end at 1. |
| Arena.RoundSizeLeavesOne | Cogs/battleroyale.py:473-474 | A round never schedules as many eliminations as there are participants: ceil(n/3) ≤ n-1. |
| Arena.Remove | Cogs/battleroyale.py:508 | `pop(index(x))` shortens the roster by one and adds no name. |
| Arena.RemoveFromDistinct | Cogs/battleroyale.py:517 | On a roster without repeats, removal drops exactly the removed name and keeps every other name. |
| Arena.Killer | Cogs/battleroyale.py:511-514 | The killer the re-draw loop ends on is alive. |
| Arena.KillerIsAnother | Cogs/battleroyale.py:511-514 | On a roster without repeats, the killer is alive and is not the target. |
| Arena.BombThreshold | Cogs/battleroyale.py:523-524 | The bomb/melee boundary is at least the suicide probability exactly when the suicide probability is at most the bomb-or-melee probability. It never exceeds the end of the bomb-or-melee range. |
| Arena.BombShare | Cogs/battleroyale.py:523-524 | The boundary is the midpoint of the bomb-or-melee range only when the suicide probability is 0. Otherwise bombs get less than half of that range, and none of it once the suicide probability reaches the bomb-or-melee probability. |
| Arena.KillBy | Cogs/battleroyale.py:516-558 | A kill leaves the roster as it was given and is reported as a kill event. |
| Arena.Eliminate | Cogs/battleroyale.py:497-562 | One elimination shrinks the roster by one, except a block, which leaves it whole. It never adds a name. |
| Arena.SuicideRemovesOnlyTarget | Cogs/battleroyale.py:501-509 | A suicide removes the target from the roster. The kill points, streak, last killer and streak record stay as they were. |
| Arena.BlockChangesNothing | Cogs/battleroyale.py:561-562 | A blocked attack leaves the whole state unchanged. It is reported with the drawn attacker and the target. |
| Arena.CreditScores | Cogs/battleroyale.py:519-550 | Crediting a kill raises only the killer's points. The raise is 1, plus the weapon bonus, plus the new streak length for a continued streak or 1 for a shutdown. |
| Arena.SeparateIncrements | Cogs/battleroyale.py:519-550 | The separate `kill_map[killer] +=` steps of the source (1, then the weapon bonus when there is one, then the streak or shutdown bonus when there is one) leave the same `kill_map` as the model's single credit of their sum. |
| Arena.KillScoring | Cogs/battleroyale.py:516-553 | A kill removes exactly the target, and the killer is another alive participant. The killer is credited 1 plus the weapon bonus (1 bomb/melee, 10 exotic, 0 own weapon) plus the streak or shutdown bonus. No other participant's points change. |
| Arena.KillWeaponChoice | Cogs/battleroyale.py:523-537 | A bomb is used below the boundary, within the bomb-or-melee range. Melee takes the rest of that range. The exotic range uses the drawn exotic token. Otherwise the killer's own weapon is used. |
| Arena.CreditStreak | Cogs/battleroyale.py:539-553 | The same killer again raises the streak by one, is noted with the new length, and raises the record to the new length when it beats it; otherwise the record and its holder stay. Another killer starts a streak of 1 and keeps the record, and is noted for a shutdown exactly when the previous streak was above 1 and the victim held it. The killer becomes the last killer. |
| Arena.KillStreak | Cogs/battleroyale.py:539-553 | The same streak and shutdown bookkeeping, for a whole elimination step that ends in a kill, including that the record holder changes only when the record is beaten. |
| Arena.StartIsValid | Cogs/battleroyale.py:450-455 | A fight among distinct, non-empty names starts in a valid state. |
| Arena.AddToKeepsScores | Cogs/battleroyale.py:519 | Adding positive points to a roster member keeps every `kill_map` entry a roster member with at least 1 point. |
| Arena.EliminateKeepsValid | Cogs/battleroyale.py:497-562 | Every elimination keeps the state valid. Valid means: distinct, non-empty alive names from the roster; kill points held only by roster members and at least 1; a zero streak exactly before the first kill; and a longest-streak record of 0 or at least 2. |
| Arena.RemoveKeepsValid | Cogs/battleroyale.py:517 | Removing an alive participant keeps the state valid. |
| Arena.CreditKeepsValid | Cogs/battleroyale.py:519-553 | Crediting a kill to a roster member keeps the state valid. |
| Arena.CreditKeepsStreak | Cogs/battleroyale.py:539-553 | Crediting a kill keeps the streak state consistent: a continued streak is at least 2, so a record is 0 or at least 2. |
| Arena.EliminateKeepsRecord | Cogs/battleroyale.py:544-546 | The longest-streak record never shrinks. |
| Arena.Eliminations | Cogs/battleroyale.py:497-562 | The number of eliminating events never exceeds the number of events. |
| Arena.EliminationsAppend | Cogs/battleroyale.py:497-562 | The eliminations of two event logs add up. |
| Arena.PlayDraws | Cogs/battleroyale.py:497-562 | When one more participant is alive than eliminations remain, every elimination finds a target and a killer. At least one participant survives, and only original participants. |
| Arena.PlayDrawsCount | Cogs/battleroyale.py:497-562 | Each draw yields one event, and the roster shrinks by one per event that is not a block. |
| Arena.PlayRound | Cogs/battleroyale.py:473-562 | A round among at least two participants leaves at least one, all of them from before the round. |
| Arena.PlayRoundCount | Cogs/battleroyale.py:473-562 | A round yields as many events as its drawn size, and the roster shrinks by one per event that is not a block. |
| Arena.PlayDrawsKeepsValid | Cogs/battleroyale.py:497-562 | Every elimination of a round keeps the state valid, and the record does not shrink. |
| Arena.PlayRoundKeepsValid | Cogs/battleroyale.py:470-562 | A round keeps the state valid, and the record does not shrink. |
| Arena.Run | Cogs/battleroyale.py:470-562 | The fight loop never empties the roster, and only original participants remain. |
| Arena.RunCount | Cogs/battleroyale.py:470-562 | Over a whole fight, the roster shrinks by one per event that is not a block. |
| Arena.RunKeepsValid | Cogs/battleroyale.py:470-562 | Every state of the fight is valid, and the record only grows. |
| Arena.RunSpec | Cogs/battleroyale.py:450-564 | For a fight among distinct names, the roster never empties and every removal is one suicide or kill. When one participant is left, that participant is an original participant, the winner, after exactly n-1 eliminations. The streak record is 0 or at least 2. |
| Arena.SuicidesOnly | Cogs/battleroyale.py:501-509 | When every draw falls below the suicide probability, every event of a round is a suicide and no points or streak state change. |
| Arena.RunOfSuicides | Cogs/battleroyale.py:501-509 | The same for a whole fight. This is the situation the fallback suicide probability of 1 creates. |
| Arena.TwoKillsInARow | Cogs/battleroyale.py:516-553 | Among A, B and C with only own-weapon kills, B killing A and then C scores B 1 + (1 + 2) = 4 points, and B holds the longest streak, 2. |
| Scoreboard.ZeroRows | Cogs/battleroyale.py:577-580 | The zero rows name exactly the participants without a `kill_map` entry, each with 0 points. |
| Scoreboard.ZeroRowsInOrder | Cogs/battleroyale.py:577-580 | The zero rows are built piece by piece over the participant list: the rows for a concatenation are the rows for each part, concatenated. |
| Scoreboard.ZeroRowsOfOne | Cogs/battleroyale.py:577-580 | One participant gives a 0 row exactly when it has no `kill_map` entry. With the previous row, the zero rows follow `br_participants` order. |
| Scoreboard.ZeroRowsDistinct | Cogs/battleroyale.py:577-580 | Distinct participants give zero rows with distinct names. |
| Scoreboard.ScoreLines | Cogs/battleroyale.py:574 | One line per row, each showing that row. |
| Scoreboard.SettleRestoresPoints | Cogs/battleroyale.py:571-584 | Adding the pool to the winner for display and subtracting it again leaves everyone's points as they were. The winner gains a (possibly zero) entry in the `defaultdict`. |
| Scoreboard.SortedRows | Cogs/battleroyale.py:571-573 | The sorted rows are the boosted kill map's entries, each name once. They cover those with kill points and the winner, each showing its points plus the pool for the winner. |
| Scoreboard.SortedRowsPoints | Cogs/battleroyale.py:571-573 | Rows taken from the boosted kill map show each name's points plus the pool for the winner. |
| Scoreboard.ScoreRowsSpec | Cogs/battleroyale.py:571-580 | Every participant appears on exactly one row, showing its points (plus the pool for the winner). The kill-map rows come first in descending order. The participants without points follow with 0. |
| Scoreboard.ZeroPart | Cogs/battleroyale.py:577-580 | The zero rows are distinct participants who are neither in the kill map nor the winner, and every such participant is among them. |
| Scoreboard.JoinRows | Cogs/battleroyale.py:573-580 | The two parts of the scoreboard together list every participant once. |
| Scoreboard.JoinDistinct | Cogs/battleroyale.py:573-580 | No name is on both parts of the scoreboard. |
| Scoreboard.JoinKeys | Cogs/battleroyale.py:573-580 | The names on the scoreboard are exactly the participants. |
| Scoreboard.ScoreboardLayout | Cogs/battleroyale.py:566-582 | The message is the header, a blank line, one line per row and the closing fence. Every name is padded to the longest participant name, so the points line up, and each line shows the participant's points. |
| Scoreboard.NamesFit | Cogs/battleroyale.py:568 | Every participant's name fits the padding width. |
| Scoreboard.ZeroIsShownAsZero | Cogs/battleroyale.py:579 | A participant without points is shown as `0`. |
| Sorting.SortDescending | Cogs/battleroyale.py:573 | Sorting by value with `reverse=True` permutes the entries into descending order and keeps tied entries in their original order. |
| Sorting.InsertDescendingStable | Cogs/battleroyale.py:573 | An inserted entry lands after every entry it ties with. |
| Sorting.SortByKey | Cogs/labels.py:59 | Sorting by a string key permutes the entries into ascending key order and keeps entries with equal keys in their original order. |
| Sorting.InsertByKeyStable | Cogs/labels.py:59 | An inserted entry lands after every entry with the same key. |
| Lobby.LoadSettings | Cogs/battleroyale.py:40-49 | Loading fails exactly when the configured minimum number of participants is below 3. Otherwise the settings are taken as configured. |
| Lobby.DefaultOddsMeanSuicide | Cogs/battleroyale.py:43-44 | With the fallback probabilities, every draw below 1 is a suicide. |
| Lobby.PayFee | Cogs/battleroyale.py:269-288 | The fee spends min(holiday, bet) holiday points when the user has any. The rest comes from balance and gambling profit. Balance plus holiday drops by exactly the bet. |
| Lobby.AffordableFee | Cogs/battleroyale.py:269-288 | A fee the user can afford never overdraws the balance or the holiday points, and records between 0 and the bet as holiday points used. |
| Lobby.Refund | Cogs/battleroyale.py:432-442 | A refund gives back the balance part and the recorded holiday points, and restores the gambling profit by the balance part. |
| Lobby.RefundUndoesFee | Cogs/battleroyale.py:432-442 | For a non-negative bet, refunding a paid fee restores the account exactly. |
| Lobby.NegativeFeeIsNotUndone | Cogs/battleroyale.py:386-396 | A negative bet paid from holiday points records a negative number of points used, and its refund does not restore the account. |
| Lobby.StartBattle | Cogs/battleroyale.py:335-400 | The command fails with the first failing check, in the order: no bet, not an integer, in progress (a bet is already set), horse race running, below minimum (naming the minimum), cannot pay, above the lock limit (naming the limit). It succeeds exactly when none applies. Then the author is the first participant, the pool and bet are the bet, and the fee is paid. |
| Lobby.JoinBattle | Cogs/battleroyale.py:252-292 | Joining fails when the lobby is closed or the author already joined. It succeeds exactly when the lobby is open, the author is new and can pay. A join appends the author and the holiday points used, raises the pool by the bet, and pays the fee. |
| Lobby.StartIsWellFormed | Cogs/battleroyale.py:382-400 | A started lobby has one holiday-points entry per participant, no one twice, and a pool of one bet per participant. |
| Lobby.JoinKeepsWellFormed | Cogs/battleroyale.py:269-288 | Every join keeps that bookkeeping and adds one participant. |
| Lobby.RefundAll | Cogs/battleroyale.py:432-442 | Refunding touches only the participants' accounts and adds or drops no user. |
| Lobby.Close | Cogs/battleroyale.py:428-446 | The fight goes ahead exactly when the minimum number of participants is reached, with no account touched. |
| Lobby.IdleOwesNothing | Cogs/battleroyale.py:25-30 | The idle lobby owes no refund. |
| Lobby.StartOwes | Cogs/battleroyale.py:382-400 | After a start, refunding the author's recorded fee restores their account. |
| Lobby.JoinOwes | Cogs/battleroyale.py:269-288 | After every join, refunding every participant's recorded fee would restore every account. |
| Lobby.RefundAllRestores | Cogs/battleroyale.py:432-442 | Refunding every participant what the lobby owes restores every account. |
| Lobby.CancelRestores | Cogs/battleroyale.py:430-442 | A cancelled battle royale leaves every account as it was before the lobby opened. |
| BattleStats.CheckMessage | Cogs/battleroyale.py:200-212 | A `check` message exists exactly for the four battle-royale fields. |
| BattleStats.CommandLabel | Cogs/battleroyale.py:215-227 | A ranking label exists exactly for the four battle-royale fields. |
| BattleStats.LookupsAreInjective | Cogs/battleroyale.py:200-227 | Different fields get different messages and different labels. |
| Bot.Unfence | bot.py:134-137 | Stripping the fences removes three characters from each end. When the fences overlap, nothing is left. |
| Bot.Slices | bot.py:139-140 | The slices concatenate back to the text. All but the last are full, none is empty or longer than the chunk size, and there are ceil(len/size) of them. |
| Bot.WrapAll | bot.py:142-144 | Every chunk is wrapped in fences. |
| Bot.PlainChunks | bot.py:132-140 | An unfenced message becomes ceil(len/2000) non-empty chunks of at most 2000 characters that concatenate back to the message. An empty message gives none. |
| Bot.FencedChunks | bot.py:134-144 | A fenced message becomes ceil(len/1994) chunks of its unfenced text. Each chunk is fenced again and is between 7 and 2000 characters, and the chunk bodies concatenate back to the unfenced text. |
| Bot.OverlappingFences | bot.py:134-139 | A fenced message of three to five characters produces no chunk. |
| Bot.RemoveAll | bot.py:117-118 | `replace(c, '')` leaves no `c`, and every other character of the input is still there. |
| Bot.RemoveAllKeepsCounts | bot.py:117-118 | Removal drops every `c` and keeps every other character exactly as often as it occurs. |
| Bot.RemoveAllDistributes | bot.py:117-118 | Removal works piece by piece: removing from a concatenation is removing from each part and concatenating the results. |
| Bot.RemoveAllOfOne | bot.py:117-118 | A single character is dropped exactly when it is `c`. With the previous row, the kept characters stay in their order. |
| Bot.Sanitize | bot.py:117-118 | The sanitised content contains no at-sign and no backtick. |
| Bot.SanitizeKeepsTheRest | bot.py:117-118 | Sanitising removes exactly the at-signs and backticks, and keeps every other character in order. |
| Bot.SanitizeFixesSafeText | bot.py:117-118 | A message with nothing to strip is quoted verbatim, and sanitising twice is sanitising once. |
| Bot.QuoteIsSealed | bot.py:117-120 | The error post opens with a backtick, the author and `: `, then the sanitised message, in which no backtick or at-sign can close the quote or tag anyone. Then come the closing backtick, two line separators, and the error text. |
| Bot.CountFailed | bot.py:54-60 | The failure count is the number of list entries whose `load_extension` raises: the `Cogs.` module fails to load, or the same name came earlier in the list. |
| Bot.NoneFailed | bot.py:54-67 | The count is zero exactly when every cog loads and no name is listed twice. |
| Bot.RepeatedCogFails | bot.py:54-67 | The list `labels, labels`, with every module loading, reports one failed extension. |
| Bot.CheckCogs | bot.py:48-67 | Start-up succeeds exactly when the timed task, if configured, comes first, every cog loads and no cog is listed twice. A misplaced timed task is reported as such. Otherwise the reported count is the number of entries that fail to load, and it is positive. |
| Labels.UpdateUrl | Cogs/labels.py:30 | Every document with the label gets the new value, and every other document is kept. |
| Labels.SetLabel | Cogs/labels.py:25-34 | `set` fails exactly when the label has an upper-case letter. An existing label has only its value replaced, and a new label is appended. |
| Labels.FirstUrl | Cogs/labels.py:46 | The value returned is that of the first stored document with the label, as TinyDB's `get` returns. |
| Labels.ShowLabel | Cogs/labels.py:43-47 | `show` fails exactly for a missing label, and otherwise yields the value of the first document stored under it. |
| Labels.RemoveLabel | Cogs/labels.py:86 | Removal keeps exactly the documents with other labels. |
| Labels.RemoveLabelDistributes | Cogs/labels.py:86 | Removal works document by document: removing from a concatenation of tables is removing from each part and concatenating the results. |
| Labels.RemoveLabelOfOne | Cogs/labels.py:86 | One document is dropped exactly when it has the label. With the previous row, the kept documents stay in their order. |
| Labels.DeleteLabel | Cogs/labels.py:83-87 | `delete` fails exactly for a missing label, and otherwise removes exactly that label's documents. |
| Labels.RemoveShrinks | Cogs/labels.py:83-86 | Deleting a stored label removes at least one document. |
| Labels.SetKeepsLabelsUnique | Cogs/labels.py:29-33 | A table of distinct labels stays one after `set`. |
| Labels.SetThenShow | Cogs/labels.py:29-47 | After `set`, `show` yields the new value for that label and answers as before for every other label. |
| Labels.UniqueShow | Cogs/labels.py:46 | With distinct labels, `show` yields the one stored value. |
| Labels.DeleteThenShow | Cogs/labels.py:43-86 | After `delete`, `show` of that label fails and every other label is shown as before. |
| Labels.RemoveKeepsUnique | Cogs/labels.py:86 | Removing documents keeps the labels distinct. |
| Labels.LabelLines | Cogs/labels.py:61-62 | One listing line per document. |
| Labels.Pack | Cogs/labels.py:61-72 | The listing loop posts at least one message, every message is fenced, and the first one continues the message begun. |
| Labels.PackRoundTrip | Cogs/labels.py:61-72 | With the fences removed, the posted messages spell the header followed by every line, in order. Nothing is lost or repeated. |
| Labels.PackBounded | Cogs/labels.py:65-71 | When every line fits, no message exceeds 2000 characters. |
| Labels.PackSplitsOnlyWhenFull | Cogs/labels.py:63-67 | When the messages up to message i hold the header and the first j lines, message i+1 begins with line j, and that line would have pushed message i past 1997 characters. |
| Labels.ListingSpec | Cogs/labels.py:56-74 | An empty table posts only the no-labels notice. Otherwise the labels appear in strictly ascending order, each stored label exactly once, every message is fenced, and no message exceeds 2000 characters when the lines fit. |
| Labels.DistinctAfterPermutation | Cogs/labels.py:59 | Sorting a table of distinct labels keeps them distinct. |
| Shortcuts.AddShortcut | Cogs/core.py:73 | `addshortcut` makes the shortcut name the user and leaves every other shortcut as it was. As a map, this is exactly the update of that key. Keys stay distinct. |
| Shortcuts.ShortcutLines | Cogs/core.py:57-58 | One line per shortcut. |
| Shortcuts.ShortcutListing | Cogs/core.py:51-61 | Listing fails exactly for an empty table, because `max` of nothing raises. Otherwise the text starts with the header and two separators, and ends with the closing fence. |
| Shortcuts.LineIsAligned | Cogs/core.py:58 | A shortcut is padded to the indent, never cut, followed by two spaces and the nickname. |
| Shortcuts.ShortcutListingSpec | Cogs/core.py:51-60 | The listing has one aligned line per shortcut, in strictly ascending order. The indent is the length of the longest shortcut. |
| Dicts.Put | Cogs/core.py:73 | Assignment overwrites an existing key in place and appends a new one. |
| Dicts.PutIsMapUpdate | Cogs/core.py:73 | Assignment acts on the dict's contents as a map update of that one key. |
| Dicts.PutTwice | Cogs/battleroyale.py:519 | Assigning a key twice leaves only the second value, at the key's first position. |
| Dicts.AddToTwice | Cogs/battleroyale.py:519-550 | Two `+=` steps on one key equal one step by their sum, as a whole dict and not only at that key. |
| Dicts.AddToScores | Cogs/battleroyale.py:519 | `d[k] += n` raises `k`'s value by `n` (from 0 when absent) and leaves every other key's value. |
| Dicts.PermutationKeepsEntries | Cogs/battleroyale.py:573 | Sorting a dict's entries keeps the keys distinct and every entry's value. |
| Strings.LJust | Cogs/core.py:58 | `ljust` pads with spaces to the width and never truncates. |
| Strings.MaxLength | Cogs/core.py:51 | The indent is at least every name's length and equals one of them. |
| Strings.IntToString | Cogs/battleroyale.py:574 | `str(k)` is the numeral of `k`: digits denoting its absolute value, with no leading zero unless it is `0`, after a minus sign when `k` is negative. |
| Strings.NatToString | Cogs/battleroyale.py:574 | `str(k)` of a non-negative number is a non-empty string of digits that denotes `k`, without a leading zero. |
| Strings.StrLeTotal | Cogs/labels.py:59 | Python's `str` ordering is total, so sorting by label is well defined. |

## Left out

- Discord messaging, reactions and channel lookup, and the `asyncio.sleep` delays, are I/O and timing.
- The join-window wait loop (Cogs/battleroyale.py:413-427) is timing. The model closes a lobby directly (`Lobby.Close`).
- `post_message` returns as soon as one chunk is sent (bot.py:150), so at most one chunk is delivered: the first that sends successfully. A chunk whose every repost attempt fails is skipped and the next is tried. The model states what the loop computes, the full chunk list, and not delivery or the retry loop.
- TinyDB persistence, the JSON configuration and the shortcut file are out. Tables are lists of documents, or maps.
- `random.choice` and `random.uniform` are out. Their outcomes are parameters; no generator is modelled.
- The announcement re-draw loop (Cogs/battleroyale.py:402-405) and the announcement texts are presentation driven by randomness.
- Floating-point arithmetic is not modelled. Probabilities and draws are exact reals.
- Arena.Run: the fight loop ends only with probability 1, because blocks eliminate no one. A `fuel` bound on the number of rounds stands in for termination. Its properties hold for any fuel, but the model does not show that the loop ends.
- Arena.Eliminate: a drawn target or killer index is taken modulo the roster size. This covers every name `random.choice` can pick, without a precondition on the draw.
- The post-fight payout, statistics and trivia updates (Cogs/battleroyale.py:586-669), and the trivia and season text builders (Cogs/battleroyale.py:76-197), are database writes inside swallow-all exception handlers.
- The exception rollback of `joinbr` (Cogs/battleroyale.py:293-307) is out. It only runs when a database call raises.
- `__main__.py` is only the entry point.
- Bot.CheckCogs: a repeated cog counts as a failure, as `load_extension` raises for an extension that is already loaded from discord.py 1.1 on. Under discord.py 1.0, which returned silently, the repeat would not count.
- `str.isupper` is restricted to ASCII letters (`Labels.IsUpper`).
- `int(bet)` parsing is abstracted as `Lobby.BetArg`: missing, not an integer, or a number.
- The forbidden-character, channel and admin checks that open each command belong to the base cog, which is not part of this model.
- Lobby.StartBattle: when a horse race is running, the source posts its error without returning. It falls through to the reset at the end of the command (Cogs/battleroyale.py:674-679). This check is only reached when the bet is 0 (Cogs/battleroyale.py:346-350). Usually the lobby is then idle and the reset changes nothing. But when the configured minimum bet is 0 or less, a lobby with a bet of 0 can be open, and the reset closes it and drops its participants and holiday-point records without a refund; every fee in such a lobby is 0, so no balance is lost. The model returns the error and leaves the lobby as it was in every case.
- Lobby.RefundUndoesFee: the round trip is proved for non-negative bets only. `Lobby.NegativeFeeIsNotUndone` shows that it fails for a negative bet, which only a negative configured minimum bet allows.
- Lobby.StartOwes, Lobby.JoinOwes: they assume a non-negative minimum bet or bet, for the same reason.
- Labels.ListingSpec: the 2000-character bound is stated for line separators of at most 100 characters, so that the header fits in one message.

## Notes on the code's behaviour

- **Bomb/melee boundary.** A bomb is used when the draw is below `(p_suicide + p_bomb_or_melee) / 2`, and melee for the rest of the bomb-or-melee range (Cogs/battleroyale.py:523-524). That boundary is the midpoint of the range only when `p_suicide` is 0. With a positive `p_suicide`, bombs get less than half of the range. `Arena.BombThreshold` and `Arena.BombShare` state this.
- **Two kills in a row score 4.** Among A, B and C, when B kills A and then C with their own weapon, B scores 1 for the first kill and 1 plus a streak bonus of 2 for the second (Cogs/battleroyale.py:519, 539-542). B ends with 4 points (`Arena.TwoKillsInARow`).
- **Probabilities are not validated.** The four probabilities are read from the configuration (Cogs/battleroyale.py:43-46) and used as they are. Nothing checks that they lie in [0, 1] or that they sum to at most 1. The model takes them as they come (`Arena.Odds`).
- **Default suicide probability.** The fallback suicide probability is 1 (Cogs/battleroyale.py:43). Without configuration, every event is a suicide and no one scores (`Lobby.DefaultOddsMeanSuicide`, `Arena.RunOfSuicides`).
