/** The resolver the HTTP client is built with: every address a name
    resolves to must be global, or the name does not resolve at all. */
module Resolver {
  import opened Wrappers
  import opened Net

  datatype ResolveError = LookupError(reason: string) | PermissionDenied(ip: IpAddr) | NotFound

  predicate AllGlobal(ips: seq<IpAddr>, isGlobal: IpAddr -> bool) {
    forall i :: 0 <= i < |ips| ==> isGlobal(ips[i])
  }

  /** `ips[k]` is the first address that is not global. */
  predicate FirstNonGlobal(ips: seq<IpAddr>, k: int, isGlobal: IpAddr -> bool) {
    0 <= k < |ips| && !isGlobal(ips[k]) && AllGlobal(ips[..k], isGlobal)
  }

  /** The loop over the answer: it stops at the first address that is not
      global, and otherwise pairs every address with port 0. */
  function CheckAll(ips: seq<IpAddr>, isGlobal: IpAddr -> bool): (r: Result<seq<SocketAddr>, ResolveError>)
    ensures r.Ok? <==> AllGlobal(ips, isGlobal)
    ensures r.Ok? ==> |r.value| == |ips| && forall i :: 0 <= i < |ips| ==> r.value[i] == SocketAddr(ips[i], 0)
    ensures r.Err? ==> exists k :: FirstNonGlobal(ips, k, isGlobal) && r.error == PermissionDenied(ips[k])
    decreases |ips|
  {
    if |ips| == 0 then Ok([])
    else if !isGlobal(ips[0]) then
      assert FirstNonGlobal(ips, 0, isGlobal);
      Err(PermissionDenied(ips[0]))
    else
      var rest := CheckAll(ips[1..], isGlobal);
      assert forall i :: 1 <= i < |ips| ==> ips[i] == ips[1..][i - 1];
      if rest.Err? then
        var k :| FirstNonGlobal(ips[1..], k, isGlobal) && rest.error == PermissionDenied(ips[1..][k]);
        assert ips[..k + 1] == [ips[0]] + ips[1..][..k];
        assert FirstNonGlobal(ips, k + 1, isGlobal);
        Err(rest.error)
      else
        Ok([SocketAddr(ips[0], 0)] + rest.value)
  }

  /** `resolve`: the lookup error, the first private address, an empty
      answer, or the addresses with port 0. */
  function Resolve(answer: Lookup, isGlobal: IpAddr -> bool): (r: Result<seq<SocketAddr>, ResolveError>)
    ensures answer.LookupFailed? ==> r == Err(LookupError(answer.reason))
    ensures r.Ok? <==> answer.Answer? && |answer.ips| > 0 && AllGlobal(answer.ips, isGlobal)
    ensures r.Ok? ==>
      && |r.value| == |answer.ips|
      && forall i :: 0 <= i < |r.value| ==> r.value[i] == SocketAddr(answer.ips[i], 0)
    ensures answer.Answer? && !AllGlobal(answer.ips, isGlobal) ==>
      exists k :: FirstNonGlobal(answer.ips, k, isGlobal) && r == Err(PermissionDenied(answer.ips[k]))
    ensures answer.Answer? && AllGlobal(answer.ips, isGlobal) && |answer.ips| == 0 ==> r == Err(NotFound)
  {
    match answer
    case LookupFailed(reason) => Err(LookupError(reason))
    case Answer(ips) =>
      match CheckAll(ips, isGlobal)
      case Err(e) => Err(e)
      case Ok(addrs) => if |addrs| == 0 then Err(NotFound) else Ok(addrs)
  }

  /** Fail closed: one private address anywhere in the answer blocks the
      name, whatever the other addresses are. */
  lemma OnePrivateBlocks(before: seq<IpAddr>, bad: IpAddr, after: seq<IpAddr>, isGlobal: IpAddr -> bool)
    requires !isGlobal(bad)
    ensures Resolve(Answer(before + [bad] + after), isGlobal).Err?
    ensures Resolve(Answer(before + [bad] + after), isGlobal) != Err(NotFound)
  {
    var ips := before + [bad] + after;
    assert ips[|before|] == bad;
  }

  /** Every address handed to the client is one the answer holds, and is
      global. */
  lemma ResolvedAreGlobal(answer: Lookup, isGlobal: IpAddr -> bool, i: int)
    requires Resolve(answer, isGlobal).Ok?
    requires 0 <= i < |Resolve(answer, isGlobal).value|
    ensures Resolve(answer, isGlobal).value[i].ip in answer.ips
    ensures isGlobal(Resolve(answer, isGlobal).value[i].ip)
    ensures Resolve(answer, isGlobal).value[i].port == 0
  {
  }
}
