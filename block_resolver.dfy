/** The resolver loop of the balance route, proved against the specification
    functions of `BlockSearch`. */
module BlockResolver {
  import opened Wrappers
  import opened ChainReader
  import opened BlockSearch

  /** The resolver loop. `blocks` stands for `client.getBlock`, `latest` for the
      height `client.getBlockNumber()` returned. The loop starts from the whole
      range with `latest` as the fallback, stops at the first exact timestamp
      match and otherwise keeps the last block seen before `ts`. `probes`
      counts its `getBlock` round trips. */
  method Resolve(blocks: seq<Option<int>>, latest: nat, ts: int) returns (blockNumber: nat, ghost probes: nat)
    ensures blockNumber == Search(blocks, ts, 0, latest, latest)
    ensures blockNumber <= latest
    ensures blockNumber == latest || (BlockAt(blocks, blockNumber).Some? && BlockAt(blocks, blockNumber).value <= ts)
    ensures probes == Probes(blocks, ts, 0, latest) && probes <= BitLength(latest + 1)
  {
    SearchSettles(blocks, ts, 0, latest, latest);
    ProbesLogarithmic(blocks, ts, 0, latest);
    probes := 0;
    var left: nat := 0;
    var right: int := latest;
    blockNumber := latest;
    ghost var settled := Search(blocks, ts, left, right, blockNumber);
    ghost var total := Probes(blocks, ts, left, right);
    while left <= right
      invariant left <= right + 1 <= latest + 1
      invariant Search(blocks, ts, left, right, blockNumber) == settled
      invariant probes + Probes(blocks, ts, left, right) == total
      decreases right - left + 1
    {
      var mid: nat := Midpoint(left, right);
      var block := BlockAt(blocks, mid);
      probes := probes + 1;
      if block.None? {
        right := mid - 1;
        continue;
      }
      if block.value == ts {
        blockNumber := mid;
        break;
      } else if block.value < ts {
        left := mid + 1;
        blockNumber := mid;
      } else {
        right := mid - 1;
      }
    }
  }
}
