# Portfolio rebalancer — Dafny model of its core

The portfolio rebalancer is a single React component. The user enters holdings,
each with a name, a share count, a price and a target weight in percent. For
every holding the component shows the trade that would bring its value to its
target share of the whole portfolio. This project models the two pieces of logic
inside the component and proves what they promise:

- **Position store** (`store.dfy`, module `Store`). The component's `positions`
  list is the `positions` field of class `PositionStore`. It has three
  handlers: add, update and delete. Each handler rebuilds the list the way the
  component does: add appends, update maps and delete filters. The pure
  rebuilds (`Updated`, `WithoutId`) and the add guard (`AcceptsNewPosition`)
  are functions, and the lemmas about them state what each handler changes and
  what it leaves alone. The class invariant is that ids are unique.
- **Rebalance calculator** (`rebalancer.dfy`, module `Rebalancer`). This is a
  pure function from the list to one result row per position. It uses the
  total value Σ shares·price and the separate sum of target weights that
  drives the "should equal 100%" warning. Arithmetic is exact over `real`, so
  the sum facts hold exactly: the current values add up to the total, the
  target values add up to total·Σweight/100, and the differences add up to
  zero when the weights add up to 100.
- `positions.dfy` (module `Positions`) holds the `Position` record, with the
  fields of the component's `Position` interface
  (PortfolioRebalancer.React.js:16-22), and the id predicates. `jstext.dfy` (module `JsText`) models JavaScript's
  `String.prototype.trim`, which the add guard uses.

Modelling decisions:

- Form numbers arrive already parsed, as `Option<real>`. `None` stands for the
  `NaN` that `Number(...)` gives for text that is not a number.
- The add handler draws its id from `crypto.randomUUID()`. In the model the id
  is a parameter, and the precondition says it is not already in the list.
- A rejected add returns `false` and leaves the list as it is. The component
  shows an alert instead.
- `tradeQuantity` is a `JsNumber`: `Finite`, `PositiveInfinity`,
  `NegativeInfinity` or `NaN`. So a price that an update has set to zero still
  gives a defined result, as IEEE-754 division does: ±Infinity with the sign of
  the difference, or NaN for 0/0. The Buy/Sell label treats NaN the way
  JavaScript's `>` does, so NaN shows as "Sell".
- The add guard checks only `isNaN` and `<= 0`
  (PortfolioRebalancer.React.js:38-43), so a field that parses to `Infinity`
  is accepted. A `real` cannot be infinite, so the model has no such input.

## Model

| member | source | states |
|---|---|---|
| `JsText.TrimStart` | PortfolioRebalancer.React.js:37 | leading part of `trim`: the result is a suffix of the name, every dropped character is ECMAScript white space, and the result does not start with white space |
| `JsText.TrimEnd` | PortfolioRebalancer.React.js:37 | trailing part of `trim`: the result is a prefix, every dropped character is white space, and the result does not end with white space |
| `JsText.Trim` | PortfolioRebalancer.React.js:37 | `name.trim()` is never longer than the name, and a non-empty result neither starts nor ends with white space |
| `JsText.TrimKeepsUnpadded` | PortfolioRebalancer.React.js:37 | a string with no white space at either end is its own trim, e.g. any name with letters at both ends |
| `JsText.TrimEmptyIffBlank` | PortfolioRebalancer.React.js:37 | `!name.trim()` holds exactly when the name is blank, i.e. every character is white space, including the empty name |
| `JsText.TrimIdempotent` | PortfolioRebalancer.React.js:37 | trimming twice gives the same result as trimming once |
| `Store.AcceptsNewPosition` | PortfolioRebalancer.React.js:36-47 | add accepts exactly when the name is not blank and shares, price and weight all parsed and are all > 0; any one failing field rejects |
| `Store.PositionStore.constructor` | PortfolioRebalancer.React.js:25 | the store starts empty, which satisfies the unique-id invariant |
| `Store.PositionStore.AddPosition` | PortfolioRebalancer.React.js:31-56 | returns true exactly when the guard accepts; on rejection the list is unchanged; on acceptance exactly one record with the fresh id and the given name, shares, price and weight is appended after the unchanged old records; ids stay unique |
| `Store.AddKeepsUniqueIds` | PortfolioRebalancer.React.js:49-56 | appending a record whose id is fresh keeps ids pairwise distinct |
| `Store.Merge` | PortfolioRebalancer.React.js:73 | the object spread keeps the id; every field the edit leaves out keeps the old value; the merged record carries every supplied field; it equals the old record exactly when every supplied field already had that value |
| `Store.MergeIdempotent` | PortfolioRebalancer.React.js:73 | applying the same edit twice gives the same record as applying it once |
| `Store.Updated` | PortfolioRebalancer.React.js:72-74 | the map keeps length, order and every id; records with another id are unchanged; records with the id are merged with the edit, with no validation |
| `Store.UpdateAbsentIdIsNoop` | PortfolioRebalancer.React.js:72-74 | an id not in the list leaves the list identical |
| `Store.UpdateChangesOnlyThatRecord` | PortfolioRebalancer.React.js:72-74 | with unique ids, updating record k's id replaces record k in place and nothing else |
| `Store.UpdateKeepsUniqueIds` | PortfolioRebalancer.React.js:72-74 | update preserves id uniqueness |
| `Store.PositionStore.UpdatePosition` | PortfolioRebalancer.React.js:69-78 | the new list is the mapped old list, and the unique-id invariant is kept |
| `Store.WithoutId` | PortfolioRebalancer.React.js:82 | the filter never lengthens the list, and no record with the deleted id is left in it |
| `Store.WithoutIdMembers` | PortfolioRebalancer.React.js:82 | the filter keeps exactly the records whose id differs, so no record with the id is left |
| `Store.WithoutIdShorterIffPresent` | PortfolioRebalancer.React.js:82 | the filtered list is shorter exactly when the id was present |
| `Store.WithoutIdAppend` | PortfolioRebalancer.React.js:82 | filtering a concatenation filters each part, so relative order is kept |
| `Store.DeleteAbsentIdIsNoop` | PortfolioRebalancer.React.js:82 | deleting an absent id leaves the list identical |
| `Store.DeleteRemovesExactlyThatRecord` | PortfolioRebalancer.React.js:80-85 | with unique ids, deleting record k's id yields the list with just record k removed, the rest in their original order |
| `Store.DeleteKeepsUniqueIds` | PortfolioRebalancer.React.js:82 | delete preserves id uniqueness |
| `Store.PositionStore.DeletePosition` | PortfolioRebalancer.React.js:80-85 | the new list is the filtered old list, and the unique-id invariant is kept |
| `Rebalancer.Sum` | PortfolioRebalancer.React.js:91-94 | the `reduce` from 0 gives 0 for an empty list and the single term for a one-element list |
| `Rebalancer.TotalValue` | PortfolioRebalancer.React.js:91-94 | the total value is 0 with no positions and shares·price with one |
| `Rebalancer.TotalTargetWeight` | PortfolioRebalancer.React.js:114 | the weight total is 0 with no positions and the position's own weight with one, so a lone position warns unless its weight is 100 |
| `Rebalancer.TotalValuePositive` | PortfolioRebalancer.React.js:91-94 | when every holding has positive shares and price (as add ensures), the total value is positive exactly when the list is non-empty |
| `Rebalancer.Divide` | PortfolioRebalancer.React.js:100 | with a non-zero divisor the quotient times the divisor gives back the dividend; with a zero divisor the result is +Infinity, -Infinity or NaN according to the sign of the dividend |
| `Rebalancer.RowFor` | PortfolioRebalancer.React.js:96-108 | a row keeps the position's fields; currentValue = shares·price; targetValue = total·weight/100, not renormalised; difference = target − current; tradeQuantity = difference ÷ price as IEEE-754 divides (see `Divide`), so it is finite exactly when the price is not zero |
| `Rebalancer.TradeReachesTarget` | PortfolioRebalancer.React.js:97-100 | at a non-zero price, tradeQuantity·price = difference, and holding shares + tradeQuantity is worth exactly the target value |
| `Rebalancer.CalculateRebalancing` | PortfolioRebalancer.React.js:87-110 | one row per position in input order, all computed against the same total, so an empty list gives an empty result |
| `Rebalancer.CurrentValuesSumToTotal` | PortfolioRebalancer.React.js:91-97 | the rows' current values add up to the total portfolio value |
| `Rebalancer.TargetValuesSumToWeightedTotal` | PortfolioRebalancer.React.js:91-98 | the rows' target values add up to total·(Σ targetWeight)/100 |
| `Rebalancer.DifferencesSum` | PortfolioRebalancer.React.js:91-99 | the rows' differences add up to total·(Σ targetWeight − 100)/100 |
| `Rebalancer.BalancedWhenWeightsSumTo100` | PortfolioRebalancer.React.js:91-114 | when the weights add up to 100, the differences add up to 0 and the target values add up to the total |
| `Rebalancer.WarningMeansImbalance` | PortfolioRebalancer.React.js:245 | the warning is only shown when there are positions; when it is not shown the rows' differences add up to 0; when it is shown and the portfolio's total is not 0 they do not |
| `Rebalancer.IsAboveZero` | PortfolioRebalancer.React.js:291 | `tradeQuantity > 0` is false on NaN, and a quantity above zero is its own absolute value, so Buy and Sell show the same number for it |
| `Rebalancer.Magnitude` | PortfolioRebalancer.React.js:293 | `Math.abs` keeps a finite number's size and drops its sign (non-zero stays non-zero), maps both infinities to +Infinity, and NaN to NaN |
| `Rebalancer.AdviceFor` | PortfolioRebalancer.React.js:291-293 | the label is Buy exactly when the quantity is > 0 (NaN is not); the quantity shown is the absolute value of the trade quantity, never negative, and NaN exactly when the quantity is NaN |
| `Rebalancer.AdviceFollowsDifference` | PortfolioRebalancer.React.js:291-293 | at a positive price the label is Buy exactly when the difference is positive, and the shown quantity times the price is the size of the difference |
| `Rebalancer.NegativePriceInvertsAdvice` | PortfolioRebalancer.React.js:291-293 | at a negative price, which an update can set, the label is Buy exactly when the difference is negative, and the shown quantity times the price's size is still the size of the difference |
| `Rebalancer.ZeroPriceGivesNonFiniteTrade` | PortfolioRebalancer.React.js:100 | at a zero price the current value is 0 and the difference is the target value; the label is Buy Infinity, Sell Infinity or Sell NaN according to the target's sign |
| `Rebalancer.SinglePositionExample` | PortfolioRebalancer.React.js:87-110 | 10 shares at 20 with weight 100: the values are 200 and 200, the difference is 0, the trade is 0, and the label is "Sell 0" |
| `Rebalancer.TwoPositionExample` | PortfolioRebalancer.React.js:87-110 | A(10 at 10, 50%) and B(5 at 10, 50%): A sells 2.5, B buys 2.5, and the targets are both 75 |
| `Rebalancer.ZeroPriceExample` | PortfolioRebalancer.React.js:100 | the same pair after A's price is edited to 0: A's row has current value 0, target value 25 and the label Buy Infinity |

## Left out

- The rendering (PortfolioRebalancer.React.js:116-304) is not modelled: the JSX, the styling, the animation, the `Input`, `Button` and `Table` components and the `cn` helper. Only the warning condition (line 245) and the Buy/Sell label (lines 291-293) are modelled.
- `alert` (line 45) is not modelled. A rejected add returns `false` instead.
- `crypto.randomUUID()` (line 50) is not modelled. The new id is a parameter, and a precondition says it is fresh.
- `Number(...)` parsing and `isNaN` (lines 32-40 and the edit fields) are not modelled. The add handler receives `Option<real>`.
- Store.PositionStore.UpdatePosition: an edit value is a `real`, so an edit that `Number(...)` would turn into `NaN` is not modelled.
- IEEE-754 rounding, signed zero (a price of `-0` gives the opposite infinity), infinite inputs and `toFixed(2)` formatting (lines 272-293) are not modelled. The arithmetic is exact over `real`.
- React state machinery is not modelled: `useState`, `useCallback`, re-rendering, and the clearing of the form fields after an add (lines 57-60).
