/**
 * The raw node tree as the indexing layer sees it: nodes with ordered input
 * and output sockets, and directed links between sockets.  The raw tree is
 * owned elsewhere; the indices only read it.  Pointer identity of the raw
 * structures is modelled by value identity, with an `id` on every node and
 * socket so that two structurally equal sockets can still be told apart.
 */
module NodeDna {

  datatype Option<T> = None | Some(value: T)

  /** Direction of a raw socket (its `in_out` field). */
  datatype InOut = SockIn | SockOut

  /** The classification the indices use to skip pass-through and layout nodes. */
  datatype NodeKind = Ordinary | Reroute | Frame

  datatype Socket = Socket(id: nat, name: string, inOut: InOut)

  datatype Node = Node(id: nat, name: string, idname: string, kind: NodeKind,
                       inputs: seq<Socket>, outputs: seq<Socket>)

  /** A raw link from an output socket of `fromNode` to an input socket of `toNode`. */
  datatype Link = Link(fromNode: Node, fromSock: Socket, toNode: Node, toSock: Socket)

  datatype Tree = Tree(nodes: seq<Node>, links: seq<Link>)

  /** Which way a socket's connections are followed: towards sources or towards targets. */
  datatype Side = Left | Right

  predicate IsReroute(n: Node) { n.kind == Reroute }

  predicate IsFrame(n: Node) { n.kind == Frame }

  /** A node that is neither a reroute nor a frame. */
  predicate IsActual(n: Node) { !IsReroute(n) && !IsFrame(n) }

  function SocketsOf(n: Node): seq<Socket> { n.inputs + n.outputs }

  /** Inputs are resolved towards their sources, outputs towards their targets. */
  function SideOf(s: Socket): Side { if s.inOut == SockIn then Left else Right }

  /** `s` is declared by some node of `nodes`. */
  predicate IsSocketOf(nodes: seq<Node>, s: Socket) {
    exists i :: 0 <= i < |nodes| && s in SocketsOf(nodes[i])
  }

  /** The socket a reroute passes through to: its first input going left, its first output going right. */
  function Continuation(n: Node, side: Side): Option<Socket> {
    match side
    case Left => if n.inputs == [] then None else Some(n.inputs[0])
    case Right => if n.outputs == [] then None else Some(n.outputs[0])
  }

  // The invariants the raw tree keeps on its own; the indices rely on them.

  ghost predicate NodesDistinct(nodes: seq<Node>) {
    forall i, j :: 0 <= i < j < |nodes| ==> nodes[i] != nodes[j]
  }

  /** Every socket belongs to one node only. */
  ghost predicate SocketsOwnedOnce(nodes: seq<Node>) {
    forall i, j, s :: 0 <= i < |nodes| && 0 <= j < |nodes| && s in SocketsOf(nodes[i]) && s in SocketsOf(nodes[j]) ==> i == j
  }

  /** Sockets in an input list are inputs, sockets in an output list are outputs. */
  ghost predicate DirectionsConsistent(nodes: seq<Node>) {
    forall i :: 0 <= i < |nodes| ==>
      (forall s :: s in nodes[i].inputs ==> s.inOut == SockIn) &&
      (forall s :: s in nodes[i].outputs ==> s.inOut == SockOut)
  }

  /** Every link goes from an output of a node of the tree to an input of a node of the tree. */
  ghost predicate LinksWellFormed(t: Tree) {
    forall k :: 0 <= k < |t.links| ==>
      t.links[k].fromNode in t.nodes && t.links[k].fromSock in t.links[k].fromNode.outputs &&
      t.links[k].toNode in t.nodes && t.links[k].toSock in t.links[k].toNode.inputs
  }

  ghost predicate WellFormed(t: Tree) {
    NodesDistinct(t.nodes) && SocketsOwnedOnce(t.nodes) &&
    DirectionsConsistent(t.nodes) && LinksWellFormed(t)
  }
}

/** The multi-valued map of the indices: a key maps to the values added for it, in order. */
module MultiMap {

  /** The values stored under `k`, or none. */
  function LookupDefault<K, V>(m: map<K, seq<V>>, k: K): (r: seq<V>)
    ensures k !in m ==> r == []
  {
    if k in m then m[k] else []
  }

  /** Adds one more value under `k`. */
  function Add<K, V>(m: map<K, seq<V>>, k: K, v: V): map<K, seq<V>>
  {
    m[k := LookupDefault(m, k) + [v]]
  }

  /** Adding under `k` appends to the values of `k` and leaves every other key as it was. */
  lemma AddLookup<K, V>(m: map<K, seq<V>>, k: K, v: V, k': K)
    ensures LookupDefault(Add(m, k, v), k') == if k' == k then LookupDefault(m, k) + [v] else LookupDefault(m, k')
  {
  }
}
