# LiveTrading engine model

A Dafny model of the live trading engine of kuegiBot (`LiveTrading` in
`kuegi_bot/trade_engine.py`). The engine holds a newest-first list of
time-bucketed bars and an account made of open orders and an order history.
It polls on a short period, and when its trigger fires it either shuts down
on a closed venue connection or runs a tick. A tick refreshes the bars and
the account, hands them to the strategy and clears every bar's change flag.

The model has four modules:

- `Bars` (`bars.dfy`): bars and their subbars as values.
  - It defines the specification of the incremental bar merge:
    - `Refine` covers one bucket;
    - `Step` covers one incoming bar;
    - `MergeBatch` covers a whole fetch;
    - `UpdatedBars` covers `update_bars`.
  - The subbar merge of lines 120-134 is an imperative method, `MergeSameBucket`. Its two loops are proved against that specification.
  - The module also holds the lemmas for ordering, preservation, refinement and idempotence.
- `Orders` (`orders.dfy`): the two selections the account reconciler makes from a fetched order list: the still-active orders and the recorded closings.
- `Schedule` (`schedule.dfy`): the polling loop's trigger as a predicate.
- `Engine` (`engine.dfy`):
  - the `Account` and `LiveTrading` classes, whose `seq` fields the methods update in place;
  - start-up, `update_bars`, `update_account`, `handle_tick`, `exit`, one pass of `run_loop`, and `run_loop` itself over a finite run of polls.

The venue, the clock and the connection health are parameters:
- `full` and `recent` are what `get_bars` and `recent_bars` return;
- `orders` is what `get_orders` returns;
- `current`, `firedAt`, `lastTick` and `connected` are the clock readings, the push time and the result of `is_open`;
- a `Poll` bundles one loop pass's worth of them.

Subbars are newest-first: index 0 is the latest sample, the last index (`subbars[-1]` in Python) the oldest one, and `add_subbar` puts the new sample at index 0. This is the only reading under which lines 116, 120 and 130 compare the right samples; the `Bar` class itself is not part of this model.

Design notes:
- The merge of two partial views of one bucket (lines 120-133) is not their union by timestamp. The model follows the code:
  - For strictly ordered subbars, when the head started recording the bucket first, the result is every incoming sample followed by the head's samples older than the incoming oldest one (`MergedSubbarsUnion`). Head samples from the incoming oldest one on are dropped, whether or not the incoming bar carries their times (`MergeDropsNewerHeadSamples`). No time is lost when it does carry them (`MergedSubbarsKeepsStamps`).
  - For strictly ordered subbars, when the incoming bar holds samples older than the head's oldest one, the merge keeps the head's oldest sample as the bucket's opening. It drops every incoming sample that is not newer than that one (`MergedSubbarsLateHead`, `MergeDropsEarlierIncomingSamples`, `MergeOpensLate`).
- A bar rebuilt by the merge is taken to carry `didChange == true`, the state of a freshly constructed bar.
- The incremental path requires that the head and every incoming bar have at least one subbar. Line 116 reads `subbars[-1]` of an incoming bar of the head's bucket and of the head, and may raise without one. The cold-start path needs nothing of a full fetch. For the polling loop, the first bar of a full fetch of ten or more bars carries a subbar, because it becomes the compared head.

## Model

| member | source | states |
|---|---|---|
| Bars.ScanDown | kuegi_bot/trade_engine.py:124-128 | the copy of the head's own samples covers exactly the run of samples older than the incoming bar's oldest one, walking from the head's oldest towards newer ones, and stops at the first sample that is not older |
| Bars.Ascent | kuegi_bot/trade_engine.py:129-133 | the second merge loop as a function: the incoming samples visited oldest first, each taken only when newer than the newest taken so far; its properties are the three `Ascent*` lemmas below |
| Bars.AscentMembers | kuegi_bot/trade_engine.py:129-133 | every sample the second loop takes comes from the incoming bar and is newer than the seed |
| Bars.AscentOrdered | kuegi_bot/trade_engine.py:129-133 | the samples the second loop takes are strictly newest-first, whatever order the incoming bar has |
| Bars.AscentKeepsOldest | kuegi_bot/trade_engine.py:129-133 | the second loop takes the incoming oldest sample whenever it is newer than the seed, and it stays the oldest taken |
| Bars.AscentStep | kuegi_bot/trade_engine.py:129-133 | one pass of the second loop, taking or skipping a sample, leaves the final result unchanged |
| Bars.OlderThanMembers | kuegi_bot/trade_engine.py:124-128 | the reference filter "head samples older than t" holds exactly the samples of the list older than t |
| Bars.NewerThanMembers | kuegi_bot/trade_engine.py:129-133 | the reference filter "samples newer than t" holds exactly the samples of the list newer than t |
| Bars.AscentOfOrdered | kuegi_bot/trade_engine.py:129-133 | on a newest-first incoming list, the running-newest walk of the second merge loop is the plain filter "newer than the seed" |
| Bars.Refine | kuegi_bot/trade_engine.py:114-134 | the head rewritten by a bar of its bucket keeps the bucket's timestamp and has at least one subbar |
| Bars.MergeSameBucket | kuegi_bot/trade_engine.py:119-134 | the rebuilt bar has the incoming timestamp, the head's oldest subbar's open, the merged subbars and the changed flag; it ends with the head's oldest sample, and its subbars are strictly ordered when the head's are |
| Bars.CopyOlderHeadSamples | kuegi_bot/trade_engine.py:120-128 | the first loop, seeded with the head's oldest sample, ends holding exactly the head's suffix at the index where the scan stops |
| Bars.AddNewerSamples | kuegi_bot/trade_engine.py:129-133 | the second loop prepends exactly the incoming samples that the running-newest walk takes, in front of what was held |
| Bars.MergedSubbarsOrdered | kuegi_bot/trade_engine.py:119-134 | no out-of-order or duplicate subbar: when the head's subbars are strictly ordered, so are the merged ones, whatever order the incoming ones have |
| Bars.MergedSubbarsSources | kuegi_bot/trade_engine.py:120-133 | every merged sample is an incoming sample, the head's oldest sample, or a head sample older than the incoming bar's oldest one |
| Bars.MergedSubbars | kuegi_bot/trade_engine.py:120-133 | the subbars of the rebuilt bar are never empty and always end with the head's oldest sample, the seed of line 120 |
| Bars.MergedSubbarsUnion | kuegi_bot/trade_engine.py:119-134 | when the head started the bucket first, the merged subbars are all incoming samples, then the head's samples older than the incoming oldest one; other head samples are dropped |
| Bars.MergedSubbarsKeepsStamps | kuegi_bot/trade_engine.py:119-134 | when the head started the bucket first and the incoming bar carries the time of every head sample from its own oldest one on, the merged times are exactly the times of both inputs |
| Bars.MergeDropsNewerHeadSamples | kuegi_bot/trade_engine.py:124-128 | head times 5, 4, 3, 2, 1 merged with incoming times 3, 2 give 3, 2, 1: the head's samples at 5 and 4 are lost |
| Bars.MergeDropsEarlierIncomingSamples | kuegi_bot/trade_engine.py:129-133 | head times 5, 3 merged with incoming times 4, 1 give 4, 3: the incoming sample at 1 is lost |
| Bars.MergeOpensLate | kuegi_bot/trade_engine.py:119-134 | in that case the rebuilt bar opens at the head's later sample (3.0), not at the earliest sample of the bucket (1.0) |
| Bars.MergedSubbarsLateHead | kuegi_bot/trade_engine.py:119-134 | when the incoming bar starts earlier than the head, the merge keeps the head's oldest sample and only the incoming samples newer than it |
| Bars.MergedSubbarsStable | kuegi_bot/trade_engine.py:119-134 | merging the same incoming subbars into an already merged head gives the same subbars again |
| Bars.RescanMerged | kuegi_bot/trade_engine.py:124-128 | the first loop run again over merged subbars stops where the head's kept samples start |
| Bars.RefineSameBucket | kuegi_bot/trade_engine.py:114-134 | same-bucket refinement: a matching oldest subbar makes the head exactly the incoming bar; otherwise the new head keeps the bucket timestamp and the old head's opening sample and open, is marked changed, and keeps strictly ordered subbars |
| Bars.RefineIdempotent | kuegi_bot/trade_engine.py:114-134 | refining the head twice with one incoming bar is refining it once |
| Bars.Step | kuegi_bot/trade_engine.py:112-136 | one incoming bar leaves a head bucket that has a subbar to compare against |
| Bars.MergeBatch | kuegi_bot/trade_engine.py:111-136 | walking the fetch oldest first keeps a head bucket with a subbar to compare against |
| Bars.UpdatedBars | kuegi_bot/trade_engine.py:105-136 | with ten or more bars held, the update keeps a head bucket with a subbar, never shortens the bars and keeps every bar older than the old head as it was |
| Bars.Settled | kuegi_bot/trade_engine.py:159-160 | clearing the flags keeps every bar in place, clears its change flag and touches nothing else |
| Bars.StepOrdered | kuegi_bot/trade_engine.py:112-136 | one incoming bar keeps the bars strictly decreasing in start time |
| Bars.MergeBatchOrdered | kuegi_bot/trade_engine.py:111-136 | ordering preserved: strictly decreasing bars stay strictly decreasing after an incremental update |
| Bars.StepExtends | kuegi_bot/trade_engine.py:112-136 | one incoming bar is skipped, rewrites the head's slot with a bar of the same bucket, or is prepended as a strictly newer bar |
| Bars.MergeBatchKeepsTail | kuegi_bot/trade_engine.py:111-136 | nothing else changes: the length never decreases, every bar older than the old head is kept unchanged and in order, the old head's slot keeps its bucket, and everything in front of it is strictly newer |
| Bars.MergeBatchHeadNewest | kuegi_bot/trade_engine.py:111-136 | after the merge the head is at least as new as the old head and as every fetched bar |
| Bars.MergeBatchSplit | kuegi_bot/trade_engine.py:111 | walking a concatenated fetch oldest first is walking its older part, then its newer part |
| Bars.MergeBatchSkipsOlder | kuegi_bot/trade_engine.py:112-113 | a fetch whose every bar is older than the head changes nothing |
| Bars.StepIdempotent | kuegi_bot/trade_engine.py:112-136 | applying one incoming bar twice is applying it once |
| Bars.MergeBatchIdempotent | kuegi_bot/trade_engine.py:111-136 | applying the same newest-first fetch twice gives the bars that applying it once gives |
| Orders.ActiveOrders | kuegi_bot/trade_engine.py:93-96 | the open set as a filter: the fetched orders that are active, in fetch order; `ActiveOrdersExact` states its contents |
| Orders.Closes | kuegi_bot/trade_engine.py:97 | the recording condition: inactive, a non-empty id, and that id open before |
| Orders.Transitions | kuegi_bot/trade_engine.py:97-103 | the orders recorded as closed, as a filter by `Closes` in fetch order; `TransitionsExact` states its contents |
| Orders.IdsOf | kuegi_bot/trade_engine.py:89-91 | the list of previously open ids has one id per previously open order |
| Orders.IdsOfMembers | kuegi_bot/trade_engine.py:89-91 | an id is in the list of previously open ids exactly when some previously open order carries it |
| Orders.ActiveOrdersExact | kuegi_bot/trade_engine.py:93-96 | open set: the rebuilt open orders are the fetched active orders, each exactly as often as fetched, and no inactive order |
| Orders.TransitionsExact | kuegi_bot/trade_engine.py:89-103 | history: a fetched order is recorded if and only if it is inactive, has a non-empty id and its id was open before, each as often as fetched |
| Orders.NothingClosesFromEmpty | kuegi_bot/trade_engine.py:45-46 | with no order open before, as on the first account fetch, no fetched order enters the history |
| Schedule.ShouldTick | kuegi_bot/trade_engine.py:171 | the trigger: the last tick is more than the loop interval ago, or a push came after it and is more than two seconds old |
| Schedule.StalePushIgnored | kuegi_bot/trade_engine.py:171 | a push not newer than the last tick never triggers; only the polling interval does |
| Schedule.PushWithinInterval | kuegi_bot/trade_engine.py:171 | within the polling interval, the trigger fires exactly when a push is newer than the last tick and older than two seconds |
| Schedule.FiveSecondScenario | kuegi_bot/trade_engine.py:171 | with a five-second interval, the last tick at 0 and a push at 3, the trigger fires exactly after second 5 |
| Engine.LastBefore | kuegi_bot/trade_engine.py:166-172 | the loop's `last` before a pass is 0 or the time some earlier pass fired at |
| Engine.LastBeforeAfterFiring | kuegi_bot/trade_engine.py:166-172 | with a clock that never runs backwards, once a pass fires, `last` never again drops below the time it fired at |
| Engine.PushFiresOnce | kuegi_bot/trade_engine.py:170-172 | debounce: with a clock that never runs backwards, one push fires the push branch at most once; every later pass that still sees that push fires only on the loop interval |
| Engine.Account.constructor | kuegi_bot/trade_engine.py:45 | a new account has no open orders and an empty history |
| Engine.LiveTrading.constructor | kuegi_bot/trade_engine.py:35-50 | the engine is alive exactly when the connection is open; it then holds the full bar fetch, the fetched active orders and an empty history, and otherwise holds nothing |
| Engine.LiveTrading.OnTick | kuegi_bot/trade_engine.py:52-53 | the push callback records the notification time |
| Engine.LiveTrading.UpdateBars | kuegi_bot/trade_engine.py:105-136 | cold start: with fewer than ten bars the bars become exactly the full fetch; otherwise the in-place loop leaves exactly the incremental merge of the recent fetch |
| Engine.LiveTrading.UpdateAccount | kuegi_bot/trade_engine.py:86-103 | the open orders become the fetched active orders; the history only grows, by the fetched orders that close a previously open id |
| Engine.LiveTrading.ClearChangeFlags | kuegi_bot/trade_engine.py:159-160 | every bar's change flag is cleared and nothing else changes |
| Engine.LiveTrading.HandleTick | kuegi_bot/trade_engine.py:154-163 | bars, then account, then flags: the bars are the cleared update, no bar is marked changed, and the account is reconciled |
| Engine.LiveTrading.Exit | kuegi_bot/trade_engine.py:142-152 | shutting down always leaves the engine stopped and changes nothing else |
| Engine.LiveTrading.RunLoopStep | kuegi_bot/trade_engine.py:167-177 | scheduler step: `last` moves to the firing time exactly when the trigger fires; a fired pass on a closed connection stops the engine, otherwise it runs exactly one tick; a pass that does not fire changes nothing |
| Engine.LiveTrading.RunLoop | kuegi_bot/trade_engine.py:165-179 | the loop polls while the engine is alive and stops right after the first pass that fires on a closed connection; a stopped engine polls nothing and changes nothing; afterwards the bars, the open orders, the history and the push time are those the passes it consumed leave, as `BarsAfter`, `OpenAfter` and `HistoryAfter` fold them |
| Engine.Ticks | kuegi_bot/trade_engine.py:171-177 | a pass runs a tick exactly when the trigger fires and the connection is open |
| Engine.BarsAfter | kuegi_bot/trade_engine.py:165-179 | the bars after a run of passes: each ticking pass applies the bar update and clears the flags, the others leave the bars; a held list of ten or more keeps a head with a subbar |
| Engine.OpenAfter | kuegi_bot/trade_engine.py:165-179 | the open orders after a run of passes are the active orders of the last tick's fetch, or the initial ones when no pass ticked |
| Engine.HistoryAfter | kuegi_bot/trade_engine.py:165-179 | the history after a run of passes is the initial one followed, tick by tick, by the orders closing an order open before that tick |

## Left out

- The venue: constructing the Bitmex or Bybit interface, and every call to it (`get_bars`, `recent_bars`, `get_orders`, `is_open`, `exit`, `get_instrument`). Their results are method parameters. The balance update `exchange.update_account(account)` is taken to change no field this model holds.
- `send_order`, `update_order` and `cancel_order`. They pass straight to the venue and change no local state.
- The strategy's callbacks (`prepare`, `reset`, `init`, `on_tick`). They are foreign code and are taken to leave the bars and the account as they were.
- `print_status` and `sanity_check`. They are thin wrappers over venue calls.
- `prepare_plot` (presentation), and every log message, including the "executed"/"canceled" label of a recorded order.
- Exceptions: the venue's exceptions in `exit` are only logged, so `Exit` ends stopped unconditionally. `handle_tick` logs an exception and re-raises it; the model has no exceptions and runs each tick to completion.
- The wall clock and `sleep`: times are parameters. The push callback runs concurrently in the source; the model applies it once per loop pass, before the trigger is evaluated.
- `Engine.LiveTrading.RunLoop`: runs over a finite sequence of polls instead of forever, so it does not state what happens after the polls run out.
- `Bars.MergeSameBucket`: tracks only a subbar's timestamp and open. The high, low, close and volume that `add_subbar` folds in with floating-point arithmetic are not modelled.
- Bars.MergedSubbarsUnion: the merge of two partial views of a bucket is not their union. Head samples from the incoming oldest one on that the incoming bar lacks are lost, and incoming samples older than the head's oldest one are lost with the bucket's earliest open. The model keeps the code's behaviour and states the loss (`MergeDropsNewerHeadSamples`, `MergeDropsEarlierIncomingSamples`, `MergeOpensLate`). It proves no loss only under the condition of `MergedSubbarsKeepsStamps`.
- Bars.UpdatedBars, Bars.Step, Bars.MergeBatch, Engine.LiveTrading.RunLoop: require a subbar on the head and on every incoming bar of the incremental path. The source needs one only on an incoming bar of the head's bucket and on the head it meets at line 116. A stale bar without subbars, or a newer bar without subbars that no later bar of its bucket meets, passes in the source but is outside the model. `RunLoop` asks the same of the first bar of every full fetch of ten or more bars, because that bar can become the head.
- The bars are values. The source hands the same list and bar objects to the strategy, and that aliasing is not modelled.
