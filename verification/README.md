# jiji: pair registry, neural-net agent scheduling, price formatting

This project is a Dafny model of three small pieces of the jiji FX trading
system. Each piece is specified and proved separately.

- **`Pairs`** (`pairs.dfy`) is the instrument registry of
  `src/jiji/model/trading/pair.rb`. It keeps two views of the registered
  pairs: one by Symbol name (`@by_name`) and one by numeric `pair_id`
  (`@by_id`).
  - `register` normalises the name to a Symbol. It returns the cached pair when
    the name is known. Otherwise it allocates `max(pair_id) + 1` (or 0),
    saves the new pair, and only then publishes it in both views.
  - The lookups raise not-found on a miss.
  - `all` lists the pairs sorted by document id.
  - `reload` rebuilds both views from storage.
  - Storage is a sequence of saved pairs. A save fails exactly when one of the
    collection's unique keys (document id, `pair_id`, name) is taken. That is
    the only failure modelled, and it reaches the caller as an error value.
- **`NeuralNetAgent`** (`neural_net_agent.dfy`) is the trading logic of the
  sample agent in `src/jiji/model/agents/builtin_files/simple_nn_agent.rb`.
  - Two moving averages warm up on the USDJPY bid.
  - Once both report a value, `do_trade` schedules or runs an evaluation.
  - An evaluation closes every sell position and then every buy position. It
    reschedules, places at most one 1000-unit order (buy above 0.8, otherwise
    sell above 0.8) and remembers the bid.
  - `state`/`restore_state` snapshot the averages.
  - The net is a function parameter. The broker is a list of open positions,
    a list of closed positions and a log of orders.
- **`NumberFormatter`** (`number_formatter.dfy`) models `paddingZero` and the
  integer part of `formatPrice`, as the test suite
  `sites/spec/specs/viewmodel/utils/number-formatter-spec.js` pins them down.
  - Digits are grouped in threes from the right.
  - Negatives get a leading `-`.
  - `null` becomes `""`.
  - The model proves that removing the commas and parsing gives back the
    integer.
- **`Wrappers`** (`wrappers.dfy`) holds the `Option` and `Result` types.

Where the code and its documentation differ, the model follows the code:

- `all` sorts by the document `id`, not by `pair_id`.
- `do_trade` evaluates only when the tick time is strictly after `next_time`.
  A tick at exactly `next_time` does nothing.
- `restore_state(nil)` raises, because it reads `state[:mvs]` from nil; only
  a hash snapshot, with or without `:mvs`, is tolerated. The model's
  `Snapshot` is always such a hash, so the raising call is not modelled.

## Model

| member | source | states |
|---|---|---|
| Pairs.ToSym | src/jiji/model/trading/pair.rb:43 | normalising a name yields a Symbol with the same text |
| Pairs.ToH | src/jiji/model/trading/pair.rb:27-29 | the hash carries exactly the pair's `pair_id` and name |
| Pairs.Save | src/jiji/model/trading/pair.rb:89-96 | saving fails, rejecting the pair, exactly when one of its unique-indexed keys is already stored; otherwise the pair is appended and the store keeps its unique keys |
| Pairs.NewId | src/jiji/model/trading/pair.rb:97-100 | the new id is 0 for an empty registry, otherwise one more than the largest `pair_id`, and above every existing id |
| Pairs.NewIdFresh | src/jiji/model/trading/pair.rb:97-100 | in a consistent registry the new id is not yet a key of the id view |
| Pairs.Register | src/jiji/model/trading/pair.rb:42-56 | a known name returns the cached pair and changes neither map nor the store; for a new name the save succeeds exactly when the new pair clashes with no stored unique key, and then the pair with the new id is stored first and added to both views; a failed save leaves maps and store untouched |
| Pairs.RegisterAfterLoadSucceeds | src/jiji/model/trading/pair.rb:89-96 | over a registry loaded from a store with unique keys, a new name under an unused document id is always saved and registered |
| Pairs.RegisterIdempotent | src/jiji/model/trading/pair.rb:45-50 | registering the same name again, as String or Symbol, returns the same pair and changes nothing |
| Pairs.RegisterPreservesInvariants | src/jiji/model/trading/pair.rb:45-48 | registration keeps both views agreeing, every published pair stored, and the store's keys unique |
| Pairs.RegisterNewGrows | src/jiji/model/trading/pair.rb:46-48 | a new registration gets an id above all existing ids and grows each view by exactly one |
| Pairs.RegisterThenLookup | src/jiji/model/trading/pair.rb:46-50 | after registration the pair is found under its Symbol name and under its id |
| Pairs.GetById | src/jiji/model/trading/pair.rb:58-62 | success with the mapped pair iff the id is present, else not-found carrying the id |
| Pairs.GetByName | src/jiji/model/trading/pair.rb:64-68 | success with the mapped pair iff the name is present, else not-found carrying the name |
| Pairs.GetByNameStringMisses | src/jiji/model/trading/pair.rb:64-66 | lookup does not normalise, so a String name misses in a consistent registry |
| Pairs.ValidViews | src/jiji/model/trading/pair.rb:24-25 | in a consistent registry both views hold the same pairs and `pair_id` is injective over the name view |
| Pairs.ToHInjective | src/jiji/model/trading/pair.rb:27-29 | distinct registered pairs have distinct hashes |
| Pairs.All | src/jiji/model/trading/pair.rb:70-74 | the result lists every value of the id view exactly once, sorted by document id |
| Pairs.LoadFromStore | src/jiji/model/trading/pair.rb:81-88 | the rebuilt views hold only stored pairs under their own name and id, and every stored key is present |
| Pairs.LoadReachable | src/jiji/model/trading/pair.rb:84-87 | with unique stored keys, every stored pair is reachable by name and by id |
| Pairs.LoadValid | src/jiji/model/trading/pair.rb:81-88 | with unique stored keys, the rebuilt views agree with each other |
| Pairs.Reload | src/jiji/model/trading/pair.rb:76-78 | reload discards the old views; the result holds only stored pairs and publishes each of them, and both lookups find every stored pair when keys are unique |
| Pairs.ExampleAllocation | src/jiji/model/trading/pair.rb:97-100 | from empty, USDJPY gets id 0 and EURUSD id 1, and USDJPY is then found by Symbol |
| NeuralNetAgent.NextData | src/jiji/model/agents/builtin_files/simple_nn_agent.rb:72 | a moving average reports nothing until `period` bids are seen, then the mean of the last `period` |
| NeuralNetAgent.PostCreate | src/jiji/model/agents/builtin_files/simple_nn_agent.rb:27-52 | fresh averages with the given periods, the given trade interval, no schedule, reference bid 0, no input |
| NeuralNetAgent.NextTick | src/jiji/model/agents/builtin_files/simple_nn_agent.rb:55-91 | both averages are fed; nothing is plotted iff either has no value, and then schedule, reference bid, input and broker are unchanged; otherwise both values are plotted, the input becomes the four features of the averages and bids, and the rest of the tick is exactly `do_trade` on the fed agent |
| NeuralNetAgent.WarmTickTrades | src/jiji/model/agents/builtin_files/simple_nn_agent.rb:72-116 | a tick on which both averages report is plotted; with no schedule it only schedules `timestamp + trade_time` and leaves the broker alone; past the schedule it reschedules, takes the tick's bid and leaves at most one position open |
| NeuralNetAgent.ColdTicksDoNothing | src/jiji/model/agents/builtin_files/simple_nn_agent.rb:72-73 | while the long average cannot yet report, any run of ticks leaves broker, schedule, reference bid and input unchanged, the long window grows by one bid per tick and the short window fills up to its period |
| NeuralNetAgent.DefaultWarmUp | src/jiji/model/agents/builtin_files/simple_nn_agent.rb:18-25 | with the default periods, 74 ticks place nothing and set no schedule |
| NeuralNetAgent.DefaultFirstSchedule | src/jiji/model/agents/builtin_files/simple_nn_agent.rb:93-96 | with the default periods, the 75th tick schedules the first evaluation 60 seconds after it and the broker is still untouched |
| NeuralNetAgent.DoTrade | src/jiji/model/agents/builtin_files/simple_nn_agent.rb:93-123 | with no schedule, only schedule `timestamp + trade_time`; at or before the scheduled time change nothing; strictly after it, evaluate |
| NeuralNetAgent.ScheduleExample | src/jiji/model/agents/builtin_files/simple_nn_agent.rb:95-103 | schedule 1000→1060; ticks at 1059 and 1060 do nothing; 1061 evaluates and schedules 1121 |
| NeuralNetAgent.Evaluate | src/jiji/model/agents/builtin_files/simple_nn_agent.rb:99-116 | sell positions are closed before buy positions, the schedule becomes `timestamp + trade_time`, at most one order is placed, the reference bid becomes the tick's bid |
| NeuralNetAgent.EvaluationClosesAll | src/jiji/model/agents/builtin_files/simple_nn_agent.rb:100-114 | after an evaluation the only open position is the one just ordered, if any, and the order log grows by that order |
| NeuralNetAgent.Decide | src/jiji/model/agents/builtin_files/simple_nn_agent.rb:110-114 | buy iff the buy output exceeds 0.8; sell iff it does not and the sell output does; no order iff neither does |
| NeuralNetAgent.BuyWinsTie | src/jiji/model/agents/builtin_files/simple_nn_agent.rb:110-112 | when both outputs exceed 0.8 the agent buys |
| NeuralNetAgent.CloseExistPositions | src/jiji/model/agents/builtin_files/simple_nn_agent.rb:125-129 | no position on the side stays open, closed positions only grow by positions on the side, no position is lost, orders are unchanged |
| NeuralNetAgent.CloseExistPositionsExact | src/jiji/model/agents/builtin_files/simple_nn_agent.rb:125-129 | every copy of a position on the side moves from open to closed; every other position stays open with all its copies |
| NeuralNetAgent.State | src/jiji/model/agents/builtin_files/simple_nn_agent.rb:132-136 | the snapshot lists the short and then the long average's state |
| NeuralNetAgent.RestoreState | src/jiji/model/agents/builtin_files/simple_nn_agent.rb:139-143 | no `:mvs` entry changes nothing; otherwise the short average takes entry 0 and the long average entry 1, an absent or nil entry being handed to the library's restore as nil, and nothing else changes |
| NeuralNetAgent.StateRoundTrip | src/jiji/model/agents/builtin_files/simple_nn_agent.rb:132-143 | restoring what `state` returned reproduces both averages, whatever the library does with nil, so the next tick plots the same values |
| NeuralNetAgent.RestoreShortList | src/jiji/model/agents/builtin_files/simple_nn_agent.rb:139-143 | without `:mvs` nothing changes; an empty list hands nil to both restores; a one-entry list restores the short average and hands nil to the long one |
| NumberFormatter.Digits | sites/spec/specs/viewmodel/utils/number-formatter-spec.js:24 | the decimal is non-empty, all digits, without a leading zero, and one character iff below 10 |
| NumberFormatter.DigitsValue | sites/spec/specs/viewmodel/utils/number-formatter-spec.js:24-39 | the decimal reads back as the number |
| NumberFormatter.PaddingZero | sites/spec/specs/viewmodel/utils/number-formatter-spec.js:7-15 | the result has length max(width, digits), ends with the decimal and is zeros before it |
| NumberFormatter.PaddingZeroValue | sites/spec/specs/viewmodel/utils/number-formatter-spec.js:7-9 | the padded string is all digits and still reads as the number |
| NumberFormatter.PaddingZeroExamples | sites/spec/specs/viewmodel/utils/number-formatter-spec.js:7-15 | the listed padding cases, including width 0 |
| NumberFormatter.FormatPrice | sites/spec/specs/viewmodel/utils/number-formatter-spec.js:21-63 | "" iff null; a negative starts with `-`, a non-negative with a digit |
| NumberFormatter.GroupLength | sites/spec/specs/viewmodel/utils/number-formatter-spec.js:26-48 | grouping adds one comma per full group of three above the first |
| NumberFormatter.FormatPriceGroupsFromRight | sites/spec/specs/viewmodel/utils/number-formatter-spec.js:26-63 | in the formatted integer, after the sign of a negative, commas sit exactly every fourth place from the right and digits everywhere else |
| NumberFormatter.GroupCommas | sites/spec/specs/viewmodel/utils/number-formatter-spec.js:26-48 | commas sit exactly every fourth place from the right |
| NumberFormatter.FormatPriceRemoveCommas | sites/spec/specs/viewmodel/utils/number-formatter-spec.js:26-63 | removing the commas gives the plain signed decimal |
| NumberFormatter.DecimalRoundTrip | sites/spec/specs/viewmodel/utils/number-formatter-spec.js:24-63 | the plain signed decimal parses back to the integer |
| NumberFormatter.FormatPriceRoundTrip | sites/spec/specs/viewmodel/utils/number-formatter-spec.js:26-63 | the formatted integer, with its commas removed, parses back to the integer |
| NumberFormatter.FormatPriceNegative | sites/spec/specs/viewmodel/utils/number-formatter-spec.js:56-63 | a negative formats as `-` followed by the formatting of its absolute value |
| NumberFormatter.FormatPriceSeparator | sites/spec/specs/viewmodel/utils/number-formatter-spec.js:35-54 | below 1000 in absolute value the result is the plain decimal; a comma appears iff the absolute value is at least 1000 |
| NumberFormatter.FormatPriceSmallExamples | sites/spec/specs/viewmodel/utils/number-formatter-spec.js:21-54 | null, 0, 89 and -999 format as the tests expect |
| NumberFormatter.FormatPriceThousandExample | sites/spec/specs/viewmodel/utils/number-formatter-spec.js:27 | 1000 formats as "1,000" |
| NumberFormatter.FormatPriceNegativeExample | sites/spec/specs/viewmodel/utils/number-formatter-spec.js:60 | -1001 formats as "-1,001" |
| NumberFormatter.FormatPriceWideExample | sites/spec/specs/viewmodel/utils/number-formatter-spec.js:63 | -10100 formats as "-10,100" |

## Left out

- Concurrency: the `Mutex` and `Singleton` only serialise calls. Every registry call is modelled as one atomic step, including the unlocked `reload`.
- Persistence: Mongoid, its indexes and `Pair.each` are reduced to a sequence of saved pairs. A save fails only on a unique-key clash, and the caller supplies the new document id. Other database failures are not modelled.
- Pairs.Register: an exception raised by the save is modelled as a `Failure` result. It leaves the registry and the store as they were, which is what the Ruby code leaves behind.
- The neural net (`NeuralNet.load`, `@nn.run`) is a function parameter. Loading it and the trial run in `post_create` are I/O.
- The moving-average library (`Signals::MovingAverage`) is not part of this model. It is modelled as a window of the last `period` bids, whose state is that window.
- NeuralNetAgent.RestoreState: what `Signals::MovingAverage#restore_state(nil)` does is not part of this model. It is the parameter `restoreNil`, so nothing is claimed about a missing or nil entry beyond that the library's restore receives nil.
- NeuralNetAgent.RestoreShortList: for the same reason it states only that the lacking entries reach the library's restore as nil, not that the averages are kept.
- NeuralNetAgent.NextTick: the features are not rounded (`.round(3)`, `.round(5)`); their values are plain real differences. Rounding is floating-point behaviour.
- The broker is reduced to open positions, closed positions and an order log. Broker failures are not modelled.
- The graph, the logger, `description` and `property_infos` are side effects or static metadata. Only the default periods are used.
- NumberFormatter.PaddingZero: `n` is a natural number. No test pins down a negative `n`.
- The implementation file `src/viewmodel/utils/number-formatter.js` is not part of this model. The functions are modelled on the behaviour its tests assert.
- `formatPrice` on fractional numbers and `formatRatio` are floating-point formatting.
- NumberFormatter.FormatPrice: JavaScript numbers are doubles. Integers above 2^53 in magnitude are not represented exactly, and `String(n)` uses exponent form from 1e21. The model formats every unbounded integer, so it matches the JavaScript behaviour only for integers of magnitude up to 2^53.
- The React components `position-list-item.js` and `notification-list.js` only render.
