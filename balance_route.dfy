/** The `GET` handler of `app/api/balance/route.ts`: check the query
    parameters, turn the date into a Unix time, resolve it to a block height,
    read the token's balance, decimals and symbol at that one height and
    answer with a JSON body. */
module BalanceRoute {
  import opened Wrappers
  import opened ChainReader
  import opened BlockSearch
  import opened BlockResolver

  /** The three query parameters, `None` where the URL does not carry one. */
  datatype Params = Params(address: Option<string>, tokenAddress: Option<string>, date: Option<string>)

  /** A request that passed the checks: both addresses and the target time. */
  datatype Query = Query(address: string, tokenAddress: string, ts: int)

  /** What the three contract reads return, at the height they were read at. */
  datatype Snapshot = Snapshot(blockNumber: nat, rawBalance: nat, decimals: Uint8, symbol: string)

  datatype Body = ErrorBody(error: string) | BalanceBody(snapshot: Snapshot)

  /** A JSON response: its HTTP status and its body. */
  datatype Response = Response(status: nat, body: Body)

  const RequiredMessage := "address, tokenAddress and date are required"

  /** JavaScript truthiness of `searchParams.get(...)`: neither null nor "". */
  predicate Given(param: Option<string>)
  {
    param.Some? && param.value != ""
  }

  /** The `catch` branch: status 500 with the error's message, or
      "internal error" when that message is empty. */
  function ServerError(message: string): (r: Response)
    ensures r.status == 500 && r.body.ErrorBody?
    ensures r.body.error != ""
    ensures message != "" ==> r.body.error == message
    ensures message == "" ==> r.body.error == "internal error"
  {
    Response(500, ErrorBody(if message == "" then "internal error" else message))
  }

  /** The checks done before any chain read. A missing or empty parameter
      answers 400; a date that does not convert to a Unix time throws
      "Invalid date", which the handler answers with 500. `toUnixSeconds`
      stands for `Math.floor(new Date(date).getTime() / 1000)`, `None` where
      that is NaN. */
  function ParseQuery(params: Params, toUnixSeconds: string -> Option<int>): (r: Result<Query, Response>)
    ensures r.Failure? && r.error.status == 400 <==>
      !(Given(params.address) && Given(params.tokenAddress) && Given(params.date))
    ensures r.Failure? && r.error.status == 400 ==> r.error.body == ErrorBody(RequiredMessage)
    ensures r.Failure? && r.error.status != 400 ==>
      Given(params.date) && toUnixSeconds(params.date.value).None? && r.error == ServerError("Invalid date")
    ensures r.Success? <==>
      Given(params.address) && Given(params.tokenAddress) && Given(params.date) &&
      toUnixSeconds(params.date.value).Some?
    ensures r.Success? ==>
      params.address == Some(r.value.address) && params.tokenAddress == Some(r.value.tokenAddress) &&
      toUnixSeconds(params.date.value) == Some(r.value.ts)
  {
    if !Given(params.address) || !Given(params.tokenAddress) || !Given(params.date) then
      Failure(Response(400, ErrorBody(RequiredMessage)))
    else
      match toUnixSeconds(params.date.value)
      case None => Failure(ServerError("Invalid date"))
      case Some(ts) => Success(Query(params.address.value, params.tokenAddress.value, ts))
  }

  /** The `Promise.all` of the three contract reads, all at `blockNumber`. It
      succeeds exactly when all three reads do, and then carries their values
      and that one height; otherwise it fails with the error of a read that
      failed. */
  function ReadSnapshot(node: Node, tokenAddress: string, holder: string, blockNumber: nat): (r: Result<Snapshot, string>)
    ensures r.Success? <==>
      node.balanceOf(tokenAddress, holder, blockNumber).Success? &&
      node.decimals(tokenAddress, blockNumber).Success? &&
      node.symbol(tokenAddress, blockNumber).Success?
    ensures r.Success? ==>
      r.value.blockNumber == blockNumber &&
      node.balanceOf(tokenAddress, holder, blockNumber) == Success(r.value.rawBalance) &&
      node.decimals(tokenAddress, blockNumber) == Success(r.value.decimals) &&
      node.symbol(tokenAddress, blockNumber) == Success(r.value.symbol)
    ensures r.Failure? ==>
      node.balanceOf(tokenAddress, holder, blockNumber) == Failure(r.error) ||
      node.decimals(tokenAddress, blockNumber) == Failure(r.error) ||
      node.symbol(tokenAddress, blockNumber) == Failure(r.error)
  {
    var balance := node.balanceOf(tokenAddress, holder, blockNumber);
    var decimals := node.decimals(tokenAddress, blockNumber);
    var symbol := node.symbol(tokenAddress, blockNumber);
    if balance.Failure? then Failure(balance.error)
    else if decimals.Failure? then Failure(decimals.error)
    else if symbol.Failure? then Failure(symbol.error)
    else Success(Snapshot(blockNumber, balance.value, decimals.value, symbol.value))
  }

  /** The handler. A rejected request is answered before the node is asked
      anything; otherwise the answer is the snapshot at the resolved height,
      which lies in 0..latestBlock, or the 500 response of the first failure. */
  method Get(params: Params, node: Node, toUnixSeconds: string -> Option<int>) returns (resp: Response)
    ensures ParseQuery(params, toUnixSeconds).Failure? ==> resp == ParseQuery(params, toUnixSeconds).error
    ensures resp.status == 400 <==>
      !(Given(params.address) && Given(params.tokenAddress) && Given(params.date))
    ensures ParseQuery(params, toUnixSeconds).Success? && node.latestBlock.Failure? ==>
      resp == ServerError(node.latestBlock.error)
    ensures ParseQuery(params, toUnixSeconds).Success? && node.latestBlock.Success? ==>
      var q := ParseQuery(params, toUnixSeconds).value;
      var latest := node.latestBlock.value;
      var h := Search(node.blocks, q.ts, 0, latest, latest);
      h <= latest &&
      resp == match ReadSnapshot(node, q.tokenAddress, q.address, h)
              case Success(snapshot) => Response(200, BalanceBody(snapshot))
              case Failure(message) => ServerError(message)
    ensures resp.status == 200 ==>
      resp.body.BalanceBody? && resp.body.snapshot.blockNumber <= node.latestBlock.value &&
      node.balanceOf(params.tokenAddress.value, params.address.value, resp.body.snapshot.blockNumber)
        == Success(resp.body.snapshot.rawBalance)
  {
    var parsed := ParseQuery(params, toUnixSeconds);
    if parsed.Failure? {
      return parsed.error;
    }
    var query := parsed.value;
    if node.latestBlock.Failure? {
      return ServerError(node.latestBlock.error);
    }
    var blockNumber;
    ghost var probes;
    blockNumber, probes := Resolve(node.blocks, node.latestBlock.value, query.ts);
    var snapshot := ReadSnapshot(node, query.tokenAddress, query.address, blockNumber);
    if snapshot.Failure? {
      return ServerError(snapshot.error);
    }
    return Response(200, BalanceBody(snapshot.value));
  }
}
