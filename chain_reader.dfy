/** The blockchain node as the balance route sees it through its viem client.
    Every answer the node can give is a field of `Node`, so that the handler
    becomes a function of what the node answers. */
module ChainReader {
  import opened Wrappers

  /** `decimals()` is declared `uint8` in the ERC-20 ABI of route.ts. */
  newtype Uint8 = x: int | 0 <= x < 256

  datatype Node = Node(
    /** `client.getBlockNumber()`: the latest height, or the error it rejects with. */
    latestBlock: Result<nat, string>,
    /** `client.getBlock({ blockNumber })`: the timestamp of each height,
        `None` where the node gives back no block. */
    blocks: seq<Option<int>>,
    /** `balanceOf(holder)` on `token`, evaluated at a height. */
    balanceOf: (string, string, nat) -> Result<nat, string>,
    /** `decimals()` on `token`, evaluated at a height. */
    decimals: (string, nat) -> Result<Uint8, string>,
    /** `symbol()` on `token`, evaluated at a height. */
    symbol: (string, nat) -> Result<string, string>)

  /** The timestamp of the block at `height`, or `None` when the node has no
      block there (heights past the end of `blocks` included). */
  function BlockAt(blocks: seq<Option<int>>, height: nat): Option<int>
  {
    if height < |blocks| then blocks[height] else None
  }
}
