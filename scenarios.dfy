/**
 * Small concrete trees: a chain through one reroute, a reroute that fans
 * out, an input fed by two sources, and a virtual tree of two unconnected
 * nodes.
 */
module Scenarios {
  import opened NodeDna
  import opened IndexedTreeSpec
  import opened VirtualTreeSpec
  import opened VirtualTree

  // A.o1 -> R.rIn, R.rOut -> B.i1, with R a reroute.
  const o1 := Socket(1, "o1", SockOut)
  const rIn := Socket(2, "r_in", SockIn)
  const rOut := Socket(3, "r_out", SockOut)
  const i1 := Socket(4, "i1", SockIn)
  const nodeA := Node(1, "A", "ShaderNodeA", Ordinary, [], [o1])
  const nodeR := Node(2, "Reroute", "NodeReroute", Reroute, [rIn], [rOut])
  const nodeB := Node(3, "B", "ShaderNodeB", Ordinary, [i1], [])

  function ChainTree(): Tree {
    Tree([nodeA, nodeR, nodeB], [Link(nodeA, o1, nodeR, rIn), Link(nodeR, rOut, nodeB, i1)])
  }

  /** A one-node list keeps its node exactly when the node is actual. */
  lemma FilterActualSingle(n: Node)
    ensures FilterActual([n]) == if IsActual(n) then [n] else []
  {
    assert [n][..0] == [];
  }

  /** The actual nodes of the chain: the reroute is dropped. */
  lemma ChainActual()
    ensures FilterActual(ChainTree().nodes) == [nodeA, nodeB]
  {
    FilterActualSingle(nodeA);
    FilterActualSingle(nodeR);
    FilterActualSingle(nodeB);
    FilterActualConcat([nodeA], [nodeR]);
    FilterActualConcat([nodeA] + [nodeR], [nodeB]);
    assert ChainTree().nodes == [nodeA] + [nodeR] + [nodeB];
  }

  /** The direct connections of B's input and of the reroute's input. */
  lemma ChainDirect()
    ensures DirectOf(ChainTree().links, i1) == [SocketWithNode(rOut, nodeR)]
    ensures DirectOf(ChainTree().links, rIn) == [SocketWithNode(o1, nodeA)]
  {
    var t := ChainTree();
    var l0 := Link(nodeA, o1, nodeR, rIn);
    assert t.links[..1] == [l0] && [l0][..0] == [];
    assert DirectOf([l0], i1) == [];
    assert DirectOf([l0], rIn) == [SocketWithNode(o1, nodeA)];
  }

  /** The reroute is left out of the actual nodes, and B's input resolves through it to A's output alone. */
  lemma ChainThroughReroute()
    ensures FilterActual(ChainTree().nodes) == [nodeA, nodeB]
    ensures LinkedOf(ChainTree(), i1) == [SocketWithNode(o1, nodeA)]
    ensures SingleOriginLink(o1, i1, 1) in SingleOriginLinksOf(ChainTree())
  {
    var t := ChainTree();
    ChainActual();
    ChainDirect();
    assert FeedsThroughReroutes(t, rIn, Left, [], SocketWithNode(o1, nodeA), {nodeR});
    assert [nodeR][1..] == [];
    assert FeedsThroughReroutes(t, i1, Left, [nodeR], SocketWithNode(o1, nodeA), {});
    ChainResolvesToSource(t, i1, Left, [nodeR], SocketWithNode(o1, nodeA), {});
    assert i1 in SocketsOf(t.nodes[2]);
    SingleOriginLinksIff(t, SingleOriginLink(o1, i1, 1));
  }

  // A.o1 -> R.rIn, R.rOut -> B.i1 and R.rOut -> C.i2: the reroute fans out.
  const i2 := Socket(5, "i2", SockIn)
  const nodeC := Node(4, "C", "ShaderNodeC", Ordinary, [i2], [])

  function FanOutTree(): Tree {
    Tree([nodeA, nodeR, nodeB, nodeC],
         [Link(nodeA, o1, nodeR, rIn), Link(nodeR, rOut, nodeB, i1), Link(nodeR, rOut, nodeC, i2)])
  }

  /** The direct connections of A's output and of the reroute's output in the fan-out tree. */
  lemma FanOutDirect()
    ensures DirectOf(FanOutTree().links, o1) == [SocketWithNode(rIn, nodeR)]
    ensures DirectOf(FanOutTree().links, rOut) == [SocketWithNode(i1, nodeB), SocketWithNode(i2, nodeC)]
  {
    var t := FanOutTree();
    var l0 := Link(nodeA, o1, nodeR, rIn);
    var l1 := Link(nodeR, rOut, nodeB, i1);
    assert t.links[..2] == [l0, l1] && [l0, l1][..1] == [l0] && [l0][..0] == [];
    assert DirectOf([l0], o1) == [SocketWithNode(rIn, nodeR)] && DirectOf([l0], rOut) == [];
    assert DirectOf([l0, l1], o1) == DirectOf([l0], o1);
    assert DirectOf([l0, l1], rOut) == [SocketWithNode(i1, nodeB)];
  }

  /** An output feeding a reroute that fans out is linked to every target behind it, in link order. */
  lemma FanOutThroughReroute()
    ensures LinkedOf(FanOutTree(), o1) == [SocketWithNode(i1, nodeB), SocketWithNode(i2, nodeC)]
  {
    var t := FanOutTree();
    var targets := [SocketWithNode(i1, nodeB), SocketWithNode(i2, nodeC)];
    var w := SocketWithNode(rIn, nodeR);
    FanOutDirect();
    ResolveWithoutReroutes(t, targets, Right, {nodeR});
    assert Resolve(t, rOut, Right, {nodeR}) == targets;
    assert t.nodes[1] == nodeR && {} + {nodeR} == {nodeR};
    assert ResolveOne(t, w, Right, {}) == targets;
    assert [w][..0] == [];
    assert Resolve(t, o1, Right, {}) == ResolveAll(t, [w][..0], Right, {}) + ResolveOne(t, w, Right, {});
    assert o1 in SocketsOf(t.nodes[0]);
  }

  // X.out -> D.in and Y.out -> D.in.
  const xOut := Socket(10, "out", SockOut)
  const yOut := Socket(11, "out", SockOut)
  const dIn := Socket(12, "in", SockIn)
  const nodeX := Node(10, "X", "ShaderNodeX", Ordinary, [], [xOut])
  const nodeY := Node(11, "Y", "ShaderNodeY", Ordinary, [], [yOut])
  const nodeD := Node(12, "D", "ShaderNodeD", Ordinary, [dIn], [])

  function TwoSourcesTree(): Tree {
    Tree([nodeX, nodeY, nodeD], [Link(nodeX, xOut, nodeD, dIn), Link(nodeY, yOut, nodeD, dIn)])
  }

  /** An input fed by two sources is linked to both, and has no single-origin entry. */
  lemma TwoSourcesAmbiguous()
    ensures LinkedOf(TwoSourcesTree(), dIn) == [SocketWithNode(xOut, nodeX), SocketWithNode(yOut, nodeY)]
    ensures forall e :: e in SingleOriginLinksOf(TwoSourcesTree()) ==> e.to != dIn
  {
    var t := TwoSourcesTree();
    var ws := [SocketWithNode(xOut, nodeX), SocketWithNode(yOut, nodeY)];
    var l0 := Link(nodeX, xOut, nodeD, dIn);
    assert t.links[..1] == [l0] && [l0][..0] == [];
    assert DirectOf([l0], dIn) == [SocketWithNode(xOut, nodeX)];
    assert DirectOf(t.links, dIn) == DirectOf([l0], dIn) + [SocketWithNode(yOut, nodeY)];
    ResolveWithoutReroutes(t, ws, Left, {});
    assert dIn in SocketsOf(t.nodes[2]);
    forall e | e in SingleOriginLinksOf(t) ensures e.to != dIn {
      SingleOriginLinksIff(t, e);
    }
  }

  /** Two unconnected nodes added and frozen: two nodes, no links, no linked inputs. */
  method TwoUnconnectedNodes(bt: Tree, n1: Node, n2: Node) returns (vt: VirtualNodeTree)
    ensures fresh(vt) && vt.Valid() && vt.IsFrozen()
    ensures |vt.Nodes()| == 2 && vt.Links() == [] && vt.InputsWithLinks() == []
  {
    vt := new VirtualNodeTree();
    var k1 := vt.AddBnode(bt, n1);
    var k2 := vt.AddBnode(bt, n2);
    vt.FreezeAndIndex();
    NoLinksNoInputs(vt.ArenaOf(), |vt.sockets|);
  }
}
