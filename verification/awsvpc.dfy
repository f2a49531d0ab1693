/** `aws/vpc.go`: the CIDR blocks of peered VPCs, without repeated texts. */
module AwsVpc {
  import opened Wrap

  datatype Side = Side(vpcId: string, cidrs: seq<string>)

  datatype Peering = Peering(accepter: Side, requester: Side)

  /** The other side of a peering that `vpcId` takes part in. */
  function Peer(vpcId: string, p: Peering): Option<Side> {
    if vpcId == p.accepter.vpcId then Some(p.requester)
    else if vpcId == p.requester.vpcId then Some(p.accepter)
    else None
  }

  predicate Lists(vpcId: string, p: Peering, text: string) {
    Peer(vpcId, p).Some? && text in Peer(vpcId, p).value.cidrs
  }

  ghost predicate Unrepeated<T>(s: seq<T>) {
    forall i, j | 0 <= i < j < |s| :: s[i] != s[j]
  }

  /**
   * `DescribeVPCPeerCIDRs` (`:91-137`): each text that parses and that some peering lists for the
   * other side comes once, in no particular order.  `texts` are the keys that the networks came from.
   */
  method DescribeVPCPeerCIDRs<Net(!new)>(vpcId: string, peerings: seq<Peering>, parse: string -> Option<Net>)
    returns (nets: seq<Net>, texts: seq<string>)
    ensures |nets| == |texts| && forall i | 0 <= i < |texts| :: parse(texts[i]) == Some(nets[i])
    ensures Unrepeated(texts)
    ensures forall text :: text in texts <==> parse(text).Some? && exists p :: p in peerings && Lists(vpcId, p, text)
    ensures forall text | text in texts :: exists p ::
      (&& p in peerings
       && if vpcId == p.accepter.vpcId then text in p.requester.cidrs
          else vpcId == p.requester.vpcId && text in p.accepter.cidrs)
    ensures forall p, text | p in peerings && parse(text).Some? && text !in texts ::
      && (vpcId == p.accepter.vpcId ==> text !in p.requester.cidrs)
      && (vpcId == p.requester.vpcId != p.accepter.vpcId ==> text !in p.accepter.cidrs)
  {
    var cidrs: set<string> := {};
    for i := 0 to |peerings|
      invariant forall text :: text in cidrs <==>
        parse(text).Some? && exists k :: 0 <= k < i && Lists(vpcId, peerings[k], text)
    {
      var peer := Peer(vpcId, peerings[i]);
      if peer.None? { continue; }
      ghost var before := cidrs;
      for j := 0 to |peer.value.cidrs|
        invariant forall text :: text in cidrs <==>
          text in before || (text in peer.value.cidrs[..j] && parse(text).Some?)
      {
        if parse(peer.value.cidrs[j]).Some? { cidrs := cidrs + {peer.value.cidrs[j]}; }
      }
      assert peer.value.cidrs[..|peer.value.cidrs|] == peer.value.cidrs;
      assert forall text :: Lists(vpcId, peerings[i], text) <==> text in peer.value.cidrs;
    }
    ghost var all := cidrs;
    nets, texts := [], [];
    while cidrs != {}
      invariant cidrs <= all
      invariant forall text :: text in all <==> text in texts || text in cidrs
      invariant forall text | text in texts :: text !in cidrs
      invariant Unrepeated(texts)
      invariant |nets| == |texts| && forall i | 0 <= i < |texts| :: parse(texts[i]) == Some(nets[i])
    {
      var text :| text in cidrs;
      assert parse(text).Some?;
      nets, texts := nets + [parse(text).value], texts + [text];
      cidrs := cidrs - {text};
    }
  }

  /**
   * The texts are told apart, not the networks: the networks are free of repetitions exactly if no
   * two of the texts name the same one.
   */
  lemma RepeatedNetworks<Net(!new)>(texts: seq<string>, nets: seq<Net>, parse: string -> Option<Net>)
    requires |nets| == |texts| && forall i | 0 <= i < |texts| :: parse(texts[i]) == Some(nets[i])
    requires Unrepeated(texts)
    ensures Unrepeated(nets) <==> forall s, t | s in texts && t in texts && parse(s) == parse(t) :: s == t
  {
    if forall s, t | s in texts && t in texts && parse(s) == parse(t) :: s == t {
      forall i, j | 0 <= i < j < |nets| ensures nets[i] != nets[j] {
        assert texts[i] in texts && texts[j] in texts;
      }
    }
  }
}
