# Historical token balance: block resolver and balance route

This project models the `GET` handler of `app/api/balance/route.ts` in the
balance-retriever repository. The handler answers "what was wallet W's balance of
token T on date D?" in four steps:

1. It checks the query parameters `address`, `tokenAddress` and `date`.
2. It resolves the date's Unix time `ts` to a block height by binary search over
   the heights `0..latestBlock`.
3. It reads `balanceOf`, `decimals` and `symbol` of the token at that one height.
4. It answers with a JSON body.

The node is a value, `ChainReader.Node`. Each of its fields stands for one
answer the viem client can give: the latest height (or the error it rejects
with), the timestamp of each block (`None` where `getBlock` yields no block),
and the three contract reads as functions of token, holder and height. The
handler then becomes a function of what the node answers.

The resolver loop is an imperative method, `BlockResolver.Resolve`, with the
source's `left`, `right` and `blockNumber`. Its loop invariants tie it to
`BlockSearch.Search`, a recursive function that gives the height the loop
settles on from any bounds. The properties of the resolver are lemmas about
`Search`, in `ResolverProperties`.

Files:
- `wrappers.dfy`: `Option` and `Result`.
- `chain_reader.dfy`: the node and `BlockAt`.
- `block_search.dfy`: the midpoint, `Search` and the round-trip count `Probes`.
- `block_resolver.dfy`: the `Resolve` loop, proved against `Search` and `Probes`.
- `resolver_properties.dfy`: what the resolver finds on sorted chains, at the chain's ends, at ties and around missing blocks.
- `balance_route.dfy`: the parameter check, the snapshot of three reads, the 500 responses and `Get`.

## Behaviour the model follows

Three behaviours of the code are easy to misread. The model follows the code:

- A target earlier than the genesis block resolves to `latestBlock`, not to
  height 0. `blockNumber` starts at `latestBlock` (route.ts:58) and is replaced
  only by a block not later than `ts` (`BeforeGenesisResolvesToLatest`).
- The `!block` branch (route.ts:64-67) narrows the search instead of failing.
  The loop sets `right = mid - 1` and goes on, so every height above the gap
  drops out of the search (`MissingBlockHidesLaterBlocks`).
- The midpoint is `(left + right) / 2` (route.ts:61). Heights are `BigInt`, so
  the sum cannot overflow.

## Model

| member | source | states |
|---|---|---|
| `BlockSearch.Midpoint` | app/api/balance/route.ts:61 | the probed height lies in `left..right`, and each half that the loop keeps after it is at most half the range |
| `BlockSearch.SearchSettles` | app/api/balance/route.ts:56-78 | the search result is the untouched fallback `best`, or a height within the bounds whose block is present and not later than `ts` |
| `BlockResolver.Resolve` | app/api/balance/route.ts:52-78 | the loop terminates (`right - left + 1` decreases); its result is `Search` from `0..latestBlock` with fallback `latestBlock`, is at most `latestBlock`, and is either `latestBlock` or a present block not later than `ts`; its ghost `probes` counts the `getBlock` round trips, equals `Probes` and is at most the number of binary digits of `latestBlock + 1` |
| `BlockSearch.ProbesLogarithmic` | app/api/balance/route.ts:60-78 | from any bounds, the number of `getBlock` round trips the loop makes (`Probes`, which `Resolve` counts) is at most the number of binary digits of the range's size |
| `ResolverProperties.SearchOnSortedChain` | app/api/balance/route.ts:60-78 | on a complete chain with non-decreasing timestamps, entered with every height below `left` earlier than `ts`, every height above `right` later and `best` just below `left`, the search settles on a height not later than `ts`; every higher block is no earlier than `ts`, and strictly later unless that height hits `ts`; and it hits `ts` whenever some block does |
| `ResolverProperties.ResolveOnSortedChain` | app/api/balance/route.ts:55-78 | with every block present, timestamps non-decreasing and block 0 not later than `ts`: the result `h` has timestamp at most `ts`; every higher block is no earlier than `ts`; `h` hits `ts` exactly if and only if some block does; when none does, `h` is the greatest height not later than `ts` |
| `ResolverProperties.NothingEarlierKeepsFallback` | app/api/balance/route.ts:58-77 | when no block in the bounds is present and not later than `ts`, the search returns its fallback unchanged |
| `ResolverProperties.BeforeGenesisResolvesToLatest` | app/api/balance/route.ts:56-58 | on a sorted complete chain, a target before block 0 resolves to `latestBlock`, not to 0 |
| `ResolverProperties.AfterTipResolvesToLatest` | app/api/balance/route.ts:55-78 | on a sorted complete chain, a target after the newest block resolves to `latestBlock` |
| `ResolverProperties.TieResolvesToFirstProbed` | app/api/balance/route.ts:69-71 | with heights 1 to 4 all stamped `ts`, the exact-match `break` returns height 2, neither the lowest nor the highest tying height |
| `ResolverProperties.MissingBlockHidesLaterBlocks` | app/api/balance/route.ts:64-67 | a missing block only lowers `right`: with height 1 missing, the search settles on 0 although height 2 is present and earlier than `ts` |
| `BalanceRoute.ParseQuery` | app/api/balance/route.ts:37-50 | status 400 with "address, tokenAddress and date are required" exactly when a parameter is missing or empty; "Invalid date" (500) exactly when all three parameters are given and the date has no Unix time; otherwise a query carrying the two addresses and `ts` |
| `BalanceRoute.ServerError` | app/api/balance/route.ts:112-118 | status 500 with the error's message when it is non-empty, and "internal error" when it is empty |
| `BalanceRoute.ReadSnapshot` | app/api/balance/route.ts:80-100 | the snapshot succeeds exactly when all three reads do; it then carries their values and the one height they were all read at; otherwise it fails with the error of a read that failed |
| `BalanceRoute.Get` | app/api/balance/route.ts:35-119 | a rejected request is answered with no chain read; a failed `getBlockNumber` answers 500; otherwise the answer is the snapshot at the resolved height, which is at most `latestBlock`, or the 500 of a failed read; status 400 exactly when a parameter is missing |

## Left out

- Date parsing: `Math.floor(new Date(date).getTime() / 1000)` and its `isNaN` check depend on JavaScript's `Date` and floating point. They are the parameter `toUnixSeconds` of `ParseQuery` and `Get`, with `None` for NaN.
- `Number(block.timestamp)`: timestamps are exact integers. The bigint-to-double conversion before the comparisons is not modelled.
- `formatUnits`: the viem library is not part of this model. The response body has no `balance` string.
- `toString()` of `blockNumber` and `rawBalance`: the body carries the numbers themselves, not their decimal strings.
- `getBlock` rejections: a block that is missing is `None`, as in the `!block` branch. A transport error thrown by `getBlock` (answered with 500) is not modelled. If viem's `getBlock` (not part of this model) throws when the node has no block at a height, instead of yielding none, the `!block` branch is never reached and such a height answers 500 through the `catch`.
- ReadSnapshot: when several reads fail, `Promise.all` rejects with whichever fails first in time. The contract says only that the error is one of the failed reads' errors.
- ABI encoding and decoding, the `uint256` range of `rawBalance`, the HTTP transport, JSON serialisation, the concurrency of `Promise.all` and `console.error` logging.
- `app/page.tsx` (user interface) and `app/api/balance.ts` (delegates resolution to the node's `alchemy_getBlockByTimestamp`) are not part of this model.
