# Generic list reducer

A model of the client's generic list reducer `GenericListReducer<T>`. It is a
pure state transition: it takes a list and one of three actions and returns a
new list, never changing the old one.

- `Add(data)` appends `data` (array spread).
- `Remove(idx)` keeps every element whose position is not `idx` (array
  `filter` with an index callback).
- `Edit(idx, data)` replaces the element whose position is `idx` (array `map`
  with an index callback).

Indices are compared with `===`/`!==` against each position and are never
range-checked. So a negative or too-large index leaves the list unchanged and
raises no error. The model keeps that behaviour: `idx` is an unbounded `int`
and no action has a precondition.

The module `GenericReducer` (in `generic_reducer.dfy`) holds:
- the action datatype;
- `FilterIndexed` and `MapIndexed`, the index-aware `filter` and `map` the
  reducer is built from, each with its own contract;
- `Reduce`, whose contract states the effect of each action;
- lemmas that relate several reductions: a round trip, last-edit-wins,
  idempotence and commutation of edits.

## Model

| member | source | states |
|---|---|---|
| GenericReducer.FilterIndexed | src/client/genericReducer.ts:15 | the result is never longer than the input; when the callback keeps every position, the result is the input itself |
| GenericReducer.MapIndexed | src/client/genericReducer.ts:17-19 | the length is unchanged and position `i` of the result is the callback applied to the element at `i` and to `i` |
| GenericReducer.FilterDropsOne | src/client/genericReducer.ts:15 | filtering out exactly one in-range position splices that element out and keeps the survivors in order |
| GenericReducer.Reduce | src/client/genericReducer.ts:7-24 | Add gives a list one longer with the old list as prefix and `data` last; Remove at an in-range index gives the list with that element spliced out (one shorter, order kept); Remove at a negative or too-large index gives the list unchanged; Edit keeps the length, puts `data` at `idx` and leaves every other position as it was; Edit at an out-of-range index gives the list unchanged and never appends |
| GenericReducer.AddThenRemoveLast | src/client/genericReducer.ts:12-15 | Remove at the old length after Add gives back the original list |
| GenericReducer.LastEditWins | src/client/genericReducer.ts:16-19 | two edits at the same index equal the second edit alone |
| GenericReducer.EditIdempotent | src/client/genericReducer.ts:16-19 | applying the same edit twice equals applying it once |
| GenericReducer.EditsAtDistinctIndicesCommute | src/client/genericReducer.ts:16-19 | edits at two different indices give the same list in either order |
| GenericReducer.EditSameValueIsIdentity | src/client/genericReducer.ts:16-19 | editing a position to the value it already holds leaves the list unchanged |
| GenericReducer.RemoveShiftsSurvivors | src/client/genericReducer.ts:14-15 | after an in-range Remove, elements before the removed position keep their position and elements after it move down by one |

## Left out

- The `default` branch (src/client/genericReducer.ts:20-22) is a compile-time exhaustiveness check over the closed action type. The Dafny `match` is exhaustive, so the branch has no counterpart.
- JavaScript number quirks of `idx` (fractions, `NaN`, infinities) are not modelled: `idx` is an integer. A fractional or `NaN` index would equal no position, so it would behave like an out-of-range one.
- The persistence store and the HTTP endpoint router are not part of this model. src/server/index.ts only answers `/hello` with a raw database call and echoes every other path, so there is no store logic to model.
- The React UI (src/client/main.tsx) is not modelled. Its inline list edits (append, toggle, splice) have the same shapes as Add, Edit and Remove but are interleaved with network calls and UI state updates.
- The HTTP client wrappers (src/client/api.ts), the headless-browser launcher (src/index.ts), the React context (src/client/context.ts) and the endpoint constants and row types (src/shared.ts) hold I/O or declarations only. The reducer is modelled for any element type `T`, so no concrete row type is needed.
