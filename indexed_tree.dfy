/**
 * IndexedNodeTree: a snapshot index over one raw node tree.  It answers which
 * nodes have a given idname, which node owns a socket, and which sockets are
 * connected to a socket, directly and with reroutes passed through.  All of
 * it is computed once, by the constructor, and never changes afterwards, so
 * the fields are constants.
 */
module IndexedTree {
  import opened NodeDna
  import opened MultiMap
  import opened IndexedTreeSpec

  class IndexedNodeTree {
    const btree: Tree
    const originalNodes: seq<Node>
    const originalLinks: seq<Link>
    const actualNodes: seq<Node>
    const nodeBySocket: map<Socket, Node>
    const directLinks: map<Socket, seq<SocketWithNode>>
    const links: map<Socket, seq<SocketWithNode>>
    const nodesByIdname: map<string, seq<Node>>
    const singleOriginLinks: seq<SingleOriginLink>

    /** Every derived structure is the one the raw tree determines. */
    ghost predicate Valid() {
      WellFormed(btree) &&
      originalNodes == btree.nodes && originalLinks == btree.links &&
      actualNodes == FilterActual(btree.nodes) &&
      nodeBySocket == SocketOwnerMap(btree.nodes) &&
      directLinks == DirectMap(btree.links) &&
      links == LinksMap(btree, btree.nodes) &&
      nodesByIdname == IdnameMap(btree.nodes) &&
      singleOriginLinks == SingleOriginLinksOf(btree)
    }

    /** Builds every index in passes over the node list and the link list. */
    constructor (t: Tree)
      requires WellFormed(t)
      ensures btree == t && Valid()
    {
      var actual, bySocket, byIdname := IndexNodes(t.nodes);
      var direct := IndexDirectLinks(t.links);
      var resolved := IndexLinks(t, direct);
      LinksMapIsLinked(t);
      var singles := IndexSingleOriginLinks(t, resolved);
      btree := t;
      originalNodes := t.nodes;
      originalLinks := t.links;
      actualNodes := actual;
      nodeBySocket := bySocket;
      directLinks := direct;
      links := resolved;
      nodesByIdname := byIdname;
      singleOriginLinks := singles;
    }

    /** One pass over the nodes: the actual nodes, the owner of every socket, the nodes by idname. */
    static method IndexNodes(nodes: seq<Node>)
      returns (actual: seq<Node>, bySocket: map<Socket, Node>, byIdname: map<string, seq<Node>>)
      ensures actual == FilterActual(nodes)
      ensures bySocket == SocketOwnerMap(nodes)
      ensures byIdname == IdnameMap(nodes)
    {
      actual, bySocket, byIdname := [], map[], map[];
      var i := 0;
      while i < |nodes|
        invariant 0 <= i <= |nodes|
        invariant actual == FilterActual(nodes[..i])
        invariant bySocket == SocketOwnerMap(nodes[..i])
        invariant byIdname == IdnameMap(nodes[..i])
      {
        var n := nodes[i];
        assert nodes[..i + 1][..i] == nodes[..i];
        bySocket := AddOwners(bySocket, n.inputs, n);
        bySocket := AddOwners(bySocket, n.outputs, n);
        if IsActual(n) {
          actual := actual + [n];
        }
        byIdname := Add(byIdname, n.idname, n);
        i := i + 1;
      }
      assert nodes[..i] == nodes;
    }

    /** Records `n` as the node of every socket in `ss`. */
    static method AddOwners(m: map<Socket, Node>, ss: seq<Socket>, n: Node) returns (r: map<Socket, Node>)
      ensures r == AddOwner(m, ss, n)
    {
      r := m;
      var j := 0;
      while j < |ss|
        invariant 0 <= j <= |ss|
        invariant r == AddOwner(m, ss[..j], n)
      {
        assert ss[..j + 1][..j] == ss[..j];
        r := r[ss[j] := n];
        j := j + 1;
      }
      assert ss[..j] == ss;
    }

    /** One pass over the links: each link is added under its target and under its source. */
    static method IndexDirectLinks(ls: seq<Link>) returns (direct: map<Socket, seq<SocketWithNode>>)
      ensures direct == DirectMap(ls)
      ensures forall x :: LookupDefault(direct, x) == DirectOf(ls, x)
    {
      direct := map[];
      var k := 0;
      while k < |ls|
        invariant 0 <= k <= |ls|
        invariant direct == DirectMap(ls[..k])
      {
        var l := ls[k];
        assert ls[..k + 1][..k] == ls[..k];
        direct := Add(direct, l.toSock, SocketWithNode(l.fromSock, l.fromNode));
        direct := Add(direct, l.fromSock, SocketWithNode(l.toSock, l.toNode));
        k := k + 1;
      }
      assert ls[..k] == ls;
      forall x { DirectMapLookup(ls, x); }
    }

    /** The resolved connections of every socket: inputs towards their sources, outputs towards their targets. */
    static method IndexLinks(t: Tree, direct: map<Socket, seq<SocketWithNode>>) returns (resolved: map<Socket, seq<SocketWithNode>>)
      requires forall x :: LookupDefault(direct, x) == DirectOf(t.links, x)
      ensures resolved == LinksMap(t, t.nodes)
    {
      resolved := map[];
      var i := 0;
      while i < |t.nodes|
        invariant 0 <= i <= |t.nodes|
        invariant resolved == LinksMap(t, t.nodes[..i])
      {
        var n := t.nodes[i];
        assert t.nodes[..i + 1][..i] == t.nodes[..i];
        resolved := AddResolvedSockets(t, direct, resolved, n.inputs, Left);
        resolved := AddResolvedSockets(t, direct, resolved, n.outputs, Right);
        i := i + 1;
      }
      assert t.nodes[..i] == t.nodes;
    }

    /** Records the resolved connections on `side` of every socket in `ss`. */
    static method AddResolvedSockets(t: Tree, direct: map<Socket, seq<SocketWithNode>>, m: map<Socket, seq<SocketWithNode>>,
                                     ss: seq<Socket>, side: Side)
      returns (r: map<Socket, seq<SocketWithNode>>)
      requires forall x :: LookupDefault(direct, x) == DirectOf(t.links, x)
      ensures r == AddResolved(t, m, ss, side)
    {
      r := m;
      var j := 0;
      while j < |ss|
        invariant 0 <= j <= |ss|
        invariant r == AddResolved(t, m, ss[..j], side)
      {
        assert ss[..j + 1][..j] == ss[..j];
        var found := FindConnectedSockets(t, direct, ss[j], side, {}, []);
        assert found == Resolve(t, ss[j], side, {});
        assert ss[..j + 1][j] == ss[j];
        r := r[ss[j] := found];
        j := j + 1;
      }
      assert ss[..j] == ss;
    }

    /** One more pass over the links: the targets whose resolved links hold exactly one origin. */
    static method IndexSingleOriginLinks(t: Tree, resolved: map<Socket, seq<SocketWithNode>>) returns (singles: seq<SingleOriginLink>)
      requires forall s :: LookupDefault(resolved, s) == LinkedOf(t, s)
      ensures singles == SingleOriginLinksOf(t)
    {
      singles := [];
      var k := 0;
      while k < |t.links|
        invariant 0 <= k <= |t.links|
        invariant singles == SingleOriginPrefix(t, k)
      {
        var target := t.links[k].toSock;
        var origins := LookupDefault(resolved, target);
        if |origins| == 1 {
          singles := singles + [SingleOriginLink(origins[0].socket, target, k)];
        }
        k := k + 1;
      }
    }

    /**
     * Appends to `found` the connections of `s` on `side`, passing through
     * every reroute met (its first input going left, its first output going
     * right) unless the path has entered that reroute already.
     */
    static method FindConnectedSockets(t: Tree, direct: map<Socket, seq<SocketWithNode>>, s: Socket, side: Side,
                                       visited: set<Node>, found: seq<SocketWithNode>)
      returns (r: seq<SocketWithNode>)
      requires forall x :: LookupDefault(direct, x) == DirectOf(t.links, x)
      ensures r == found + Resolve(t, s, side, visited)
      decreases NodeSet(t.nodes) - visited, 1
    {
      var others := LookupDefault(direct, s);
      r := found;
      var i := 0;
      while i < |others|
        invariant 0 <= i <= |others|
        invariant r == found + ResolveAll(t, others[..i], side, visited)
      {
        ResolveAllStep(t, others, i, side, visited);
        r := FollowSocket(t, direct, others[i], side, visited, r);
        i := i + 1;
      }
      assert others[..i] == others;
    }

    /** Appends to `found` what the connection `w` resolves to: itself, or what the reroute it belongs to passes on to. */
    static method FollowSocket(t: Tree, direct: map<Socket, seq<SocketWithNode>>, w: SocketWithNode, side: Side,
                               visited: set<Node>, found: seq<SocketWithNode>)
      returns (r: seq<SocketWithNode>)
      requires forall x :: LookupDefault(direct, x) == DirectOf(t.links, x)
      ensures r == found + ResolveOne(t, w, side, visited)
      decreases NodeSet(t.nodes) - visited, 0
    {
      if !IsReroute(w.node) {
        r := found + [w];
      } else if w.node in t.nodes && w.node !in visited {
        match Continuation(w.node, side)
        case None =>
          r := found;
        case Some(c) =>
          r := FindConnectedSockets(t, direct, c, side, visited + {w.node}, found);
      } else {
        r := found;
      }
    }

    /** All nodes of the tree's node list, unfiltered and in order. */
    function OriginalNodes(): (r: seq<Node>)
      requires Valid()
      ensures r == btree.nodes
    {
      originalNodes
    }

    /** All links of the tree's link list, unfiltered and in order. */
    function OriginalLinks(): (r: seq<Link>)
      requires Valid()
      ensures r == btree.links
    {
      originalLinks
    }

    /** The nodes that are neither reroutes nor frames, in their original order. */
    function ActualNodes(): (r: seq<Node>)
      requires Valid()
      ensures forall n :: n in r <==> n in btree.nodes && IsActual(n)
      ensures r == FilterActual(btree.nodes)
    {
      FilterActualMembers(btree.nodes);
      actualNodes
    }

    /** The node that declares `s`; the raw tree must contain `s`. */
    function NodeOfSocket(s: Socket): (r: Node)
      requires Valid()
      requires IsSocketOf(btree.nodes, s)
      ensures r in btree.nodes && s in SocketsOf(r)
      ensures forall i :: 0 <= i < |btree.nodes| && s in SocketsOf(btree.nodes[i]) ==> r == btree.nodes[i]
    {
      SocketOwnerMapKeys(btree.nodes, s);
      nodeBySocket[s]
    }

    /** The nodes with idname `id`, in order; none when no node has it. */
    function NodesWithIdname(id: string): (r: seq<Node>)
      requires Valid()
      ensures forall n :: n in r <==> n in btree.nodes && n.idname == id
      ensures r == NodesWithIdnameOf(btree.nodes, id)
    {
      IdnameMapLookup(btree.nodes, id);
      NodesWithIdnameMembers(btree.nodes, id);
      LookupDefault(nodesByIdname, id)
    }

    /** The sockets connected to `s` once reroutes are passed through: exactly those a reroute path reaches; none for a socket outside the tree. */
    function Linked(s: Socket): (r: seq<SocketWithNode>)
      requires Valid()
      ensures r == LinkedOf(btree, s)
      ensures forall x :: x in r <==> IsSocketOf(btree.nodes, s) && Reaches(btree, s, SideOf(s), x, {})
      ensures forall w :: w in r ==> !IsReroute(w.node)
      ensures !IsSocketOf(btree.nodes, s) ==> r == []
    {
      LinksMapLookup(btree, btree.nodes, s);
      LinkedIff(btree, s);
      ResolvedAreReal(btree, s, SideOf(s), {});
      LookupDefault(links, s)
    }

    /** The link targets with exactly one resolved origin, in link order. */
    function SingleOriginLinks(): (r: seq<SingleOriginLink>)
      requires Valid()
      ensures r == SingleOriginLinksOf(btree)
    {
      singleOriginLinks
    }
  }
}
