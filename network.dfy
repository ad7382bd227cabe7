/** The simulated network: one genesis transaction and the nodes that share it. */
module Simulation {
  import opened Transactions
  import opened Params
  import opened Avalanche

  class Network {
    const params: Parameters
    /** The genesis transaction, default-constructed. */
    const genesis: Transaction
    var nodes: seq<Node>

    /**
     Builds the genesis transaction and the nodes numbered 0 to `numNodes`
     inclusive (so `numNodes + 1` of them, none when `numNodes` is
     negative), each fresh, with its own copy of genesis.
     */
    constructor (params: Parameters, genesisId: Id)
      ensures this.params == params && genesis == Default(genesisId)
      ensures |nodes| == if params.numNodes < 0 then 0 else params.numNodes + 1
      ensures forall i :: 0 <= i < |nodes| ==>
                && fresh(nodes[i])
                && nodes[i].nodeId == i && nodes[i].params == params && nodes[i].genesisTx == genesis
                && nodes[i].Valid() && nodes[i].Empty()
      ensures forall i, j :: 0 <= i < j < |nodes| ==> nodes[i] != nodes[j]
    {
      this.params := params;
      var g := Default(genesisId);
      genesis := g;
      var ns: seq<Node> := [];
      var i := 0;
      while i <= params.numNodes
        invariant 0 <= i && |ns| == i
        invariant params.numNodes >= 0 ==> i <= params.numNodes + 1
        invariant params.numNodes < 0 ==> i == 0
        invariant forall j :: 0 <= j < |ns| ==>
                    && fresh(ns[j])
                    && ns[j].nodeId == j && ns[j].params == params && ns[j].genesisTx == g
                    && ns[j].Valid() && ns[j].Empty()
        invariant forall a, b :: 0 <= a < b < |ns| ==> ns[a] != ns[b]
      {
        var n := new Node(i, params, g);
        ns := ns + [n];
        i := i + 1;
      }
      nodes := ns;
    }
  }
}
