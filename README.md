# rpibot-discord, modelled in Dafny

A model of the two parts of the rpibot-discord bot that carry logic of their own.

**The RPI alert poller** (`RpiAlertCog`, `cogs/rpialert.py`):
- Every minute it fetches the campus alert script.
- It cuts the alert text out of the script with two `find`s, a Python slice and `strip()`.
- It compares that text with the cached one.
- It decides whether a new alert embed is produced.
- It updates the two cached fields `LAST_ALERT_CACHED` and `ALERT_CACHE_TIME`.

**The `delete` purge command**, which exists three times:
- In `rpibot.py`, the deletion window and the fourteen-day cutoff are measured from the wall clock. An individually deleted chunk is deleted one message after the other.
- In `cogs/general.py` and `cogs/moderation.py`, both times are measured from the invoking message's `created_at`. An individually deleted chunk is deleted by one `asyncio.gather`.

All three versions work the same way:
1. They classify the range argument. An empty argument or one that is not a number gets the usage hint, `me` gets "No." and `all` means no bound.
2. They keep the invoker's own messages in the history.
3. They cut them into chunks of 100.
4. They route each chunk. A chunk goes to individual deletion when its first or last message is at least fourteen days old, and to one bulk call otherwise.

Files:
- `wrappers.dfy`: `Option`.
- `py_str.dfy`: the Python string operations used, namely `find`, slicing with index wrapping and clamping, `strip()` and `lower()`.
- `rpi_alert.dfy`: the extraction, the cache state machine as functions over `AlertState`, and the class `AlertCache` whose `Poll` method updates the two fields in place.
- `purge.dfy`: the logic the three commands share, and the two plans they produce.
- `rpibot.dfy`, `general_cog.dfy`, `moderation_cog.dfy`: each version of the command as a method with its chunk loop.

How time and external calls are represented:
- Times are integers in microseconds.
- A call into Discord is an `Action` recorded in a trace:
  - `DeleteOne` is one `m.delete()`;
  - `DeleteBulk` is one `delete_messages(c)`;
  - `DeleteGathered` is one `asyncio.gather` over a chunk, whose completion order is unspecified and is therefore a multiset.
- The poller's HTTP fetch arrives as an already fetched document, or `None` when it raised.
- `float(rng)` with `timedelta(hours=rng)` is an opaque parameter `parse` that yields the window length or `None` when it raises.
- `datetime.utcnow()` in `rpibot.py` is a parameter `clock`. `clock(0)` is the reading taken for the lower bound and `clock(k + 1)` the reading that routes chunk `k`.

Two consequences of the code worth stating:
- A document missing a marker does not raise an error. `find` returns -1 and the slice silently clamps (`RpiAlert.ExtractWithoutMarkers`).
- A first poll that finds no alert stores the sentinel "No active alerts detected.". The first real alert after it is therefore announced rather than suppressed (`RpiAlert.EmptyThenAlertNotifies`).

## Model

| member | source | states |
|---|---|---|
| PyStr.Find | cogs/rpialert.py:57-58 | `find` returns the first index where the marker occurs, and -1 exactly when it occurs nowhere |
| PyStr.PySlice | cogs/rpialert.py:61 | a slice never fails. It is the run of the string between the bounds as `ClampIndex` normalises them (a negative index counted from the end once, then clamped to the string), empty when they cross, and the ordinary subsequence for in-range bounds |
| PyStr.Strip | cogs/rpialert.py:61 | the result has no outer whitespace, sits in the input right after its leading whitespace, only whitespace follows it, and it is empty exactly when the input is all whitespace |
| PyStr.NegativeStop | cogs/rpialert.py:61 | a negative stop index of a slice counts from the end |
| PyStr.SliceInRange | cogs/rpialert.py:61 | with bounds inside the string, the stripped slice is the stripped subsequence |
| PyStr.StripSliceSubstring | cogs/rpialert.py:61 | stripping any slice of a string yields a substring of it |
| PyStr.StripIdempotent | cogs/rpialert.py:61 | stripping twice is stripping once |
| PyStr.Lower | rpibot.py:67-69 | `lower()` keeps the length and lower-cases every ASCII letter in place |
| RpiAlert.ExtractAlert | cogs/rpialert.py:57-61 | the extracted text has no outer whitespace and is no longer than the document |
| RpiAlert.ExtractIsSubstring | cogs/rpialert.py:57-61 | for every document, extraction yields a substring of it |
| RpiAlert.ExtractBetweenMarkers | cogs/rpialert.py:57-61 | with both markers present and in order, the result is the stripped text from 17 characters past the start marker's index to 3 before the end marker |
| RpiAlert.ExtractWithoutMarkers | cogs/rpialert.py:57-61 | when `find` returns -1 for both markers, the result is the stripped slice `doc[16:-4]`, not an error; for a document shorter than 20 characters (an empty body among them) it is the empty string |
| RpiAlert.Observe | cogs/rpialert.py:52-61 | a failed fetch gives no text; a document gives its extracted text |
| RpiAlert.Evaluate | cogs/rpialert.py:63-79 | a poll notifies exactly when its text is non-empty, the cache is non-empty and the two differ. No text stores the sentinel. Any text is cached, and re-polling the cached text leaves the state untouched. The timestamp changes only together with a store. The cache is never empty afterwards |
| RpiAlert.Step | cogs/rpialert.py:52-84 | a failed fetch changes nothing and does not notify; otherwise the poll behaves as `Evaluate` |
| RpiAlert.Run | cogs/rpialert.py:92-97 | a run gives one notification flag per tick, and a non-empty cache stays non-empty |
| RpiAlert.FailedFetchesChangeNothing | cogs/rpialert.py:81-84 | ticks whose fetch raised leave the state unchanged and notify nothing |
| RpiAlert.RunSplit | cogs/rpialert.py:92-97 | a run over two sequences of ticks is the second run started from the first run's final state |
| RpiAlert.RunAt | cogs/rpialert.py:92-97 | tick `i` notifies exactly as its own poll does from the state the first `i` ticks leave |
| RpiAlert.NonEmptyAfterSuccess | cogs/rpialert.py:63-72 | after any successful poll the cache is never empty again |
| RpiAlert.SilentStoreAtMostOnce | cogs/rpialert.py:68-72 | the startup suppression ("don't spam on startup") fires at most once in a run |
| RpiAlert.NoNotifyBeforeFirstSuccess | cogs/rpialert.py:21-22 | from the constructed state, no tick notifies while no poll has yet succeeded |
| RpiAlert.EmptyThenAlertNotifies | cogs/rpialert.py:63-79 | a first poll without an alert followed by an alert announces that alert |
| RpiAlert.AlertLifecycle | cogs/rpialert.py:63-79 | the ticks no alert, alert, same alert, no alert notify only on the second, and the run ends on the sentinel |
| RpiAlert.RepeatIsQuiet | cogs/rpialert.py:74 | polling the text already cached changes nothing, not even the timestamp, and is silent |
| RpiAlert.ObserveAll | cogs/rpialert.py:92-97 | one event per tick, each the observation of that tick's fetch |
| RpiAlert.EvaluateAsWritten | cogs/rpialert.py:74-84 | as written, a poll never notifies, and it moves the cache exactly as the intended `Evaluate` does |
| RpiAlert.ChangedAlertNeverAnnounced | cogs/rpialert.py:74-84 | a changed alert is announced by the intended poll and silently cached by the written one |
| RpiAlert.AlertCache.constructor | cogs/rpialert.py:21-22 | the new cache is in the `Initial` state: empty, and stamped with the construction time |
| RpiAlert.AlertCache.Poll | cogs/rpialert.py:52-84 | the fields after the call and the returned flag are those `Step` gives for the old fields and the observed fetch |
| RpiAlert.AlertCache.PollEach | cogs/rpialert.py:92-97 | polling a sequence of fetches leaves the fields and returns the flags that `Run` gives |
| Purge.ClassifyRange | rpibot.py:64-78 | an empty or non-numeric argument gets the usage hint and `me` in any case gets "No.", each in both directions. `all` in any case means no bound. A number means the bound `ref - hours` |
| Purge.LowerIsAll | rpibot.py:67 | `rng.lower() == 'all'` holds exactly for the three-letter spellings of "all" in any mix of cases |
| Purge.LowerIsMe | rpibot.py:69 | `rng.lower() == 'me'` holds exactly for "me" in any mix of cases |
| Purge.Filter | rpibot.py:80 | filtering keeps every element that passes the test, as often as it occurs, drops every other, and keeps order |
| Purge.FilterAppend | rpibot.py:80 | filtering a concatenation filters each part in order |
| Purge.Reversed | rpibot.py:79 | the channel back to front: same length, element `i` is element `n - 1 - i` of the input, same multiset |
| Purge.HistoryUnbounded | rpibot.py:79 | without a bound the history holds every message of the channel, as often as the channel does |
| Purge.HistoryOrder | rpibot.py:79 | for a channel in time order, the history without a bound is the channel newest first, and with a bound it is oldest first |
| Purge.FilterChronological | rpibot.py:80 | filtering keeps an oldest-first list oldest first |
| Purge.FilterNewestFirst | rpibot.py:80 | filtering keeps a newest-first list newest first |
| Purge.SelectedOrder | rpibot.py:79-80 | for a channel in time order, the invoker's selected messages run newest first for `all` and oldest first under a bound |
| Purge.SelectedMessages | rpibot.py:79-80 | a message is selected as often as it occurs in the channel when it is newer than the bound and written by the invoker, and never otherwise |
| Purge.Chunks | rpibot.py:81 | chunks of 1 to 100 messages, all but the last of exactly 100, ceiling of n/100 of them, joining back to the input |
| Purge.ChunksFrom | rpibot.py:81 | the same for the chunking started at any offset |
| Purge.RouteIgnoresInterior | rpibot.py:83 | changing the age of any message strictly inside a chunk never changes its route |
| Purge.OldInteriorGoesToBulk | rpibot.py:83 | a chunk whose only old message is in the middle goes to the bulk call |
| Purge.MonotoneRouteExact | rpibot.py:83 | for a chunk in time order, oldest first or newest first, the boundary test holds exactly when some message of it is old |
| Purge.SequentialPlan | rpibot.py:82-87 | every call is a single delete or a bulk call of 1 to 100 ids |
| Purge.SequentialPlanOrder | rpibot.py:82-87 | the sequential plan has no gathered batch and deletes exactly the chunked messages, each once, in their order |
| Purge.GatheredPlan | cogs/general.py:61-65 | one call per chunk, each a bulk call or a gathered batch of 1 to 100 ids |
| Purge.GatheredPlanIds | cogs/general.py:61-65 | the gathered plan deletes exactly the chunked messages, each as often as it occurs |
| Purge.GatheredPlanAt | cogs/general.py:62-65 | call `k` is a gathered batch of chunk `k`'s ids when that chunk's boundary messages are old, else a bulk call of them |
| Purge.DeletedIdsAppend | rpibot.py:82-87 | the ids deleted by two traces in a row add up |
| Purge.DeletionOrderAppend | rpibot.py:82-87 | deletion order over two traces in a row is the concatenation |
| Purge.OneByOneOrder | rpibot.py:84-85 | deleting message by message (`OneByOne`, one `DeleteOne` per message) has no gathered batch and deletes the chunk's ids (`Ids`) in order |
| Purge.SequentialChunkOrder | rpibot.py:83-87 | each chunk, whichever way it is routed, deletes exactly its own ids in order |
| Purge.GatheredChunkIds | cogs/general.py:62-65 | each chunk, whichever way it is routed, deletes exactly its own ids |
| RpiBot.Delete | rpibot.py:61-91 | a rejected argument replies with its message and deletes nothing. Otherwise the command replies with the check mark after running the sequential plan over the chunked selection, which deletes every selected message exactly once and in history order. Every call is a single delete or a bulk call of at most 100 ids |
| RpiBot.DeleteEach | rpibot.py:84-85 | the inner loop issues one single delete per message of the chunk, in order |
| RpiBot.DeleteChunks | rpibot.py:82-87 | the chunk loop, routing chunk `k` against clock reading `k + 1`, issues exactly the sequential plan |
| GeneralCog.Delete | cogs/general.py:39-69 | a rejected argument replies with its message and deletes nothing. Otherwise the command replies with the check mark after the gathered plan, which deletes every selected message exactly once and routes each chunk by its boundary messages against the command's own timestamp |
| GeneralCog.DeleteChunks | cogs/general.py:61-65 | the chunk loop issues exactly the gathered plan |
| ModerationCog.Delete | cogs/moderation.py:12-42 | the same as `GeneralCog.Delete`, with the corrected chunk loop (see Findings) |
| ModerationCog.DeleteChunks | cogs/moderation.py:34-38 | the corrected chunk loop issues exactly the gathered plan |
| ModerationCog.PlanAsWritten | cogs/moderation.py:34-38 | as written, the loop raises exactly when some chunk is routed to individual deletion. Until then it has issued a prefix of the gathered plan, made of bulk calls only, and the whole plan when it does not raise |
| ModerationCog.UndefinedNameAbortsPurge | cogs/moderation.py:35-36 | one message fourteen days old: the written loop raises having deleted nothing, the intended one deletes it |

## Findings

| source | as written | input that shows it | evidently intended | confidence | as-written member | corrected member |
|---|---|---|---|---|---|---|
| cogs/rpialert.py:79 | `createAlertEmbed()` is called without `self.`. The resulting `NameError` is caught at line 81, after both cached fields were updated, so the poll returns `None` | cached "Snow day", then a poll that extracts "Lockdown" | return the embed for the new alert so the loop posts it | high (not executed) | RpiAlert.EvaluateAsWritten, RpiAlert.ChangedAlertNeverAnnounced | RpiAlert.Evaluate |
| cogs/moderation.py:36 | the generator calls `m.delete()` while binding `msg`. `m` is bound nowhere in the method, so the first individually routed chunk raises `NameError` and the command ends without its reply | one own message exactly fourteen days older than the command | delete every message of the chunk concurrently, as `cogs/general.py:63` does | high (not executed) | ModerationCog.PlanAsWritten, ModerationCog.UndefinedNameAbortsPurge | ModerationCog.DeleteChunks |

## Left out

- Network and Discord I/O are not modelled: the HTTP session, `ctx.send`, `ctx.channel.send`, embeds, `ctx.typing()` and the channel history fetch. Their results are parameters and their effects are the recorded `Action`s and `Reply`s.
- The `tasks.loop` scheduling, `wait_until_ready`, `cog_unload` and the 60-second period are not modelled. `PollEach` is the loop's sequence of ticks.
- `createAlertEmbed` and the `alert` command only render the cached fields, so they are not modelled.
- Sending the embed to the alert channel is not modelled; `notify` stands for that send.
- The other commands of the bot and the cogs (`help`, `info`, `ping`, `mute` and the rest) are not modelled, because they are glue around Discord calls.
- Floating point is not modelled. `float(rng)` and `timedelta(hours=rng)` are the opaque `parse`, so the model does not capture rounding, `nan`, `inf` or a `timedelta` overflow. Each of these becomes either a duration or `None`.
- Unicode is only modelled in part. `strip()` covers ASCII whitespace plus the four separators 0x1c-0x1f, and `lower()` covers ASCII letters only. Non-ASCII whitespace and case mappings are not modelled.
- The history's `after` bound is modelled as strictly newer than the bound. The channel is given oldest first. The history is that order under a bound and reversed without one, as `history()` orders it by default. Paging of the history is not modelled.
- RpiBot.DeleteChunks: the cutoff at `rpibot.py:83` may read the clock twice per chunk. The model takes one reading per chunk.
- `self.` is missing at `cogs/rpialert.py:95`, so the first tick raises `NameError` before polling. That unhandled exception ends the loop task, so no poll ever runs. The model polls as if the call were qualified.
- `__init__` takes no `bot` while `setup` passes one, in `cogs/rpialert.py` and the two cogs. The model starts from a constructed cog.
- `cogs/moderation.py` mixes tab and space indentation from line 11, which Python 3 rejects when loading the module. The model reads the method as the indentation evidently intends.
- `cogs/general.py` uses `timedelta` and `asyncio` without importing them. A numeric range therefore hits the bare `except` at line 55 and gets the usage hint. The routing test at line 62 evaluates `timedelta` for every chunk, so with `all` the first chunk raises `NameError` whatever its route, and nothing is deleted. The model follows the evident intent, as `cogs/moderation.py` imports both.
- Concurrency inside `asyncio.gather` is not modelled beyond its outcome: the batch is a multiset, so the completion order is left open.
- A failed `m.delete()` or `delete_messages` call is not modelled; each call is assumed to succeed.
