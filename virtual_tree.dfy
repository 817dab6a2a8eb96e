/**
 * VirtualNodeTree: nodes of one or more raw trees gathered into one view.
 * While building, nodes and links are added; `FreezeAndIndex` then records
 * every socket's direct and resolved links, the linked inputs and the
 * nodes by idname, and only a frozen tree answers those queries.  The
 * virtual nodes, sockets and links live in the tree's arena and refer to
 * one another by handle.
 */
module VirtualTree {
  import opened NodeDna
  import opened MultiMap
  import opened VirtualTreeSpec

  class VirtualNodeTree {
    var frozen: bool
    var nodes: seq<VNode>
    var sockets: seq<VSocket>
    var links: seq<VLink>
    /** The direct links and the resolved links of each socket, by socket handle. */
    var directLinks: seq<seq<nat>>
    var resolvedLinks: seq<seq<nat>>
    var inputsWithLinks: seq<nat>
    var nodesByIdname: map<string, seq<nat>>

    function ArenaOf(): Arena
      reads this
    {
      Arena(nodes, sockets, links)
    }

    /** The indices a frozen tree holds, each the one its arena determines. */
    ghost predicate Indexed()
      reads this
    {
      |directLinks| == |sockets| && |resolvedLinks| == |sockets| &&
      (forall h :: 0 <= h < |sockets| ==> directLinks[h] == VDirectOf(links, h)) &&
      (forall h :: 0 <= h < |sockets| ==> resolvedLinks[h] == VLinkedOf(ArenaOf(), h)) &&
      inputsWithLinks == InputsWithLinksOf(ArenaOf()) &&
      nodesByIdname == VIdnameMap(nodes)
    }

    /** A consistent arena; no index before freezing, every index after. */
    ghost predicate Valid()
      reads this
    {
      Consistent(ArenaOf()) &&
      (frozen ==> Indexed()) &&
      (!frozen ==> directLinks == [] && resolvedLinks == [] && inputsWithLinks == [] && nodesByIdname == map[])
    }

    /** An empty tree in the building phase. */
    constructor ()
      ensures Valid() && !frozen
      ensures nodes == [] && sockets == [] && links == []
    {
      frozen := false;
      nodes, sockets, links := [], [], [];
      directLinks, resolvedLinks := [], [];
      inputsWithLinks := [];
      nodesByIdname := map[];
    }

    /** Adds a node wrapping `bnode`, with a socket for each of its inputs and outputs; returns the node's handle. */
    method AddBnode(btree: Tree, bnode: Node) returns (k: nat)
      requires Valid() && !frozen
      modifies this`nodes, this`sockets
      ensures Valid() && !frozen
      ensures ArenaOf() == AppendNode(old(ArenaOf()), btree, bnode)
      ensures k == old(|nodes|) && k < |nodes| && nodes[k].bnode == bnode && nodes[k].btree == btree
    {
      ghost var a := ArenaOf();
      k := |nodes|;
      var ins := AllocateSockets(k, btree, bnode.inputs);
      var outs := AllocateSockets(k, btree, bnode.outputs);
      nodes := nodes + [VNode(btree, bnode, ins, outs)];
      AppendNodeConsistent(a, btree, bnode);
    }

    /** Allocates one socket of node `k` per raw socket of `ss`, in order; returns their handles. */
    method AllocateSockets(k: nat, btree: Tree, ss: seq<Socket>) returns (hs: seq<nat>)
      modifies this`sockets
      ensures sockets == old(sockets) + NewSockets(k, btree, ss)
      ensures hs == Handles(old(|sockets|), |ss|)
    {
      hs := [];
      var i := 0;
      while i < |ss|
        invariant 0 <= i <= |ss|
        invariant sockets == old(sockets) + NewSockets(k, btree, ss[..i])
        invariant hs == Handles(old(|sockets|), i)
      {
        assert NewSockets(k, btree, ss[..i + 1]) == NewSockets(k, btree, ss[..i]) + [VSocket(k, btree, ss[i])];
        sockets := sockets + [VSocket(k, btree, ss[i])];
        hs := hs + [|sockets| - 1];
        i := i + 1;
      }
      assert ss[..i] == ss;
    }

    /** Links an input and an output socket of this tree, in either order; the output becomes the source. */
    method AddLink(x: nat, y: nat)
      requires Valid() && !frozen
      requires x < |sockets| && y < |sockets|
      requires IsInputSocket(ArenaOf(), x) != IsInputSocket(ArenaOf(), y)
      modifies this`links
      ensures Valid() && !frozen
      ensures links == old(links) + [Oriented(old(ArenaOf()), x, y)]
    {
      AppendLinkConsistent(ArenaOf(), x, y);
      links := links + [Oriented(ArenaOf(), x, y)];
    }

    /**
     * Adds every node of `btree`, then a link for every raw link, between the
     * sockets wrapping its raw endpoints in the nodes wrapping its raw nodes.
     */
    method AddAllOfTree(btree: Tree)
      requires Valid() && !frozen
      requires WellFormed(btree)
      modifies this`nodes, this`sockets, this`links
      ensures Valid() && !frozen
      ensures var mid := AppendNodes(old(ArenaOf()), btree, btree.nodes);
        nodes == mid.nodes && sockets == mid.sockets
      ensures |links| == old(|links|) + |btree.links| && links[..old(|links|)] == old(links)
      ensures forall k :: 0 <= k < |btree.links| ==> LinkWraps(sockets, old(|nodes|), btree, k, links[old(|links|)..][k])
    {
      ghost var a0 := ArenaOf();
      var base := |nodes|;
      var mapping := AddNodesOf(btree);
      AppendNodesShape(a0, btree, btree.nodes);
      forall j | 0 <= j < |btree.nodes| ensures nodes[base + j].bnode == btree.nodes[j] && nodes[base + j].btree == btree {}
      AddLinksOf(btree, mapping, base);
    }

    /** The node pass of `AddAllOfTree`: one node per raw node, remembering which handle wraps which raw node. */
    method AddNodesOf(btree: Tree) returns (mapping: map<Node, nat>)
      requires Valid() && !frozen
      requires NodesDistinct(btree.nodes)
      modifies this`nodes, this`sockets
      ensures Valid() && !frozen
      ensures ArenaOf() == AppendNodes(old(ArenaOf()), btree, btree.nodes)
      ensures forall j :: 0 <= j < |btree.nodes| ==> btree.nodes[j] in mapping && mapping[btree.nodes[j]] == old(|nodes|) + j
    {
      ghost var a0 := ArenaOf();
      mapping := map[];
      var i := 0;
      while i < |btree.nodes|
        invariant 0 <= i <= |btree.nodes|
        invariant Valid() && !frozen
        invariant ArenaOf() == AppendNodes(a0, btree, btree.nodes[..i])
        invariant |nodes| == |a0.nodes| + i
        invariant forall j :: 0 <= j < i ==> btree.nodes[j] in mapping && mapping[btree.nodes[j]] == |a0.nodes| + j
      {
        assert btree.nodes[..i + 1][..i] == btree.nodes[..i];
        var k := AddBnode(btree, btree.nodes[i]);
        mapping := mapping[btree.nodes[i] := k];
        i := i + 1;
      }
      assert btree.nodes[..i] == btree.nodes;
    }

    /** The link pass of `AddAllOfTree`: each raw link between the sockets of the nodes `mapping` names. */
    method AddLinksOf(btree: Tree, mapping: map<Node, nat>, base: nat)
      requires Valid() && !frozen
      requires WellFormed(btree)
      requires base + |btree.nodes| <= |nodes|
      requires forall j :: 0 <= j < |btree.nodes| ==> btree.nodes[j] in mapping && mapping[btree.nodes[j]] == base + j
      requires forall j :: 0 <= j < |btree.nodes| ==> nodes[base + j].bnode == btree.nodes[j] && nodes[base + j].btree == btree
      modifies this`links
      ensures Valid() && !frozen
      ensures |links| == old(|links|) + |btree.links| && links[..old(|links|)] == old(links)
      ensures forall k :: 0 <= k < |btree.links| ==> LinkWraps(sockets, base, btree, k, links[old(|links|)..][k])
    {
      ghost var added: seq<VLink> := [];
      var k := 0;
      while k < |btree.links|
        invariant 0 <= k <= |btree.links|
        invariant Valid() && !frozen
        invariant links == old(links) + added && |added| == k
        invariant forall j :: 0 <= j < k ==> LinkWraps(sockets, base, btree, j, added[j])
      {
        var l := btree.links[k];
        var fi := IndexOf(btree.nodes, l.fromNode);
        var ti := IndexOf(btree.nodes, l.toNode);
        var fromVnode := mapping[l.fromNode];
        var toVnode := mapping[l.toNode];
        var from := FindVSocket(sockets, nodes[fromVnode].outputs, l.fromSock);
        var to := FindVSocket(sockets, nodes[toVnode].inputs, l.toSock);
        FirstWrappingOutput(ArenaOf(), fromVnode, l.fromSock);
        FirstWrappingInput(ArenaOf(), toVnode, l.toSock);
        assert l.fromSock.inOut == SockOut && l.toSock.inOut == SockIn by {
          assert btree.nodes[fi] == l.fromNode && btree.nodes[ti] == l.toNode;
        }
        AddLink(from.value, to.value);
        added := added + [VLink(from.value, to.value)];
        k := k + 1;
      }
      assert links[old(|links|)..] == added;
    }

    /** Computes every index, then enters the frozen phase for good. */
    method FreezeAndIndex()
      requires Valid() && !frozen
      modifies this
      ensures Valid() && frozen
      ensures nodes == old(nodes) && sockets == old(sockets) && links == old(links)
    {
      InitializeDirectLinks();
      InitializeLinks();
      InitializeNodesByIdname();
      frozen := true;
    }

    /** Records every link as a direct link on both of its endpoints, in link order. */
    method InitializeDirectLinks()
      requires LinksConsistent(ArenaOf())
      modifies this`directLinks
      ensures |directLinks| == |sockets|
      ensures forall h :: 0 <= h < |sockets| ==> directLinks[h] == VDirectOf(links, h)
    {
      directLinks := seq(|sockets|, _ => []);
      var k := 0;
      while k < |links|
        invariant 0 <= k <= |links|
        invariant |directLinks| == |sockets|
        invariant forall h :: 0 <= h < |sockets| ==> directLinks[h] == VDirectOf(links[..k], h)
      {
        var l := links[k];
        assert links[..k + 1][..k] == links[..k];
        assert IsOutputSocket(ArenaOf(), l.from) && IsInputSocket(ArenaOf(), l.to);
        directLinks := directLinks[l.to := directLinks[l.to] + [l.from]];
        directLinks := directLinks[l.from := directLinks[l.from] + [l.to]];
        k := k + 1;
      }
      assert links[..k] == links;
    }

    /** Resolves the links of every socket and collects the inputs that have any, in socket order. */
    method InitializeLinks()
      requires Consistent(ArenaOf())
      requires |directLinks| == |sockets|
      requires forall h :: 0 <= h < |sockets| ==> directLinks[h] == VDirectOf(links, h)
      modifies this`resolvedLinks, this`inputsWithLinks
      ensures |resolvedLinks| == |sockets|
      ensures forall h :: 0 <= h < |sockets| ==> resolvedLinks[h] == VLinkedOf(ArenaOf(), h)
      ensures inputsWithLinks == InputsWithLinksOf(ArenaOf())
    {
      resolvedLinks, inputsWithLinks := ResolveEverySocket(ArenaOf(), directLinks);
    }

    /** Groups the node handles by idname, in node order. */
    method InitializeNodesByIdname()
      modifies this`nodesByIdname
      ensures nodesByIdname == VIdnameMap(nodes)
    {
      nodesByIdname := map[];
      var k := 0;
      while k < |nodes|
        invariant 0 <= k <= |nodes|
        invariant nodesByIdname == VIdnameMap(nodes[..k])
      {
        assert nodes[..k + 1][..k] == nodes[..k];
        nodesByIdname := Add(nodesByIdname, nodes[k].bnode.idname, k);
        k := k + 1;
      }
      assert nodes[..k] == nodes;
    }

    // ----- queries on the tree -----

    /** Whether the tree has been frozen; a frozen tree holds its indices. */
    function IsFrozen(): (r: bool)
      reads this
      requires Valid()
      ensures r == frozen
      ensures r ==> Indexed()
    {
      frozen
    }

    /** The handles of all nodes, reroutes included, in the order they were added. */
    function Nodes(): (r: seq<nat>)
      reads this
      requires Valid()
      ensures |r| == |nodes|
      ensures forall i :: 0 <= i < |r| ==> r[i] == i && NodeWraps(ArenaOf(), r[i])
    {
      Handles(0, |nodes|)
    }

    /** All links, in the order they were added; each goes from an output to an input. */
    function Links(): (r: seq<VLink>)
      reads this
      requires Valid()
      ensures r == links
      ensures forall k :: 0 <= k < |r| ==> IsOutputSocket(ArenaOf(), r[k].from) && IsInputSocket(ArenaOf(), r[k].to)
    {
      links
    }

    /** The input sockets that have at least one resolved link, each once and in handle order. */
    function InputsWithLinks(): (r: seq<nat>)
      reads this
      requires Valid() && frozen
      ensures forall h: nat :: h in r <==> h < |sockets| && IsInputSocket(ArenaOf(), h) && VLinkedOf(ArenaOf(), h) != []
      ensures StrictlyIncreasing(r)
    {
      InputsWithLinksIff(ArenaOf(), |sockets|);
      inputsWithLinks
    }

    /** The nodes whose raw node has idname `id`, each once and in handle order; none when no node has it. */
    function NodesWithIdname(id: string): (r: seq<nat>)
      reads this
      requires Valid() && frozen
      ensures forall k: nat :: k in r <==> k < |nodes| && nodes[k].bnode.idname == id
      ensures StrictlyIncreasing(r)
    {
      VIdnameMapMembers(nodes, id);
      LookupDefault(nodesByIdname, id)
    }

    // ----- queries on a node -----

    /** The input sockets of node `k`: one per raw input, each wrapping that raw input. */
    function Inputs(k: nat): (r: seq<nat>)
      reads this
      requires Valid() && k < |nodes|
      ensures |r| == |nodes[k].bnode.inputs|
      ensures forall i :: 0 <= i < |r| ==> r[i] < |sockets| && sockets[r[i]] == VSocket(k, nodes[k].btree, nodes[k].bnode.inputs[i])
    {
      assert NodeWraps(ArenaOf(), k);
      nodes[k].inputs
    }

    /** The output sockets of node `k`: one per raw output, each wrapping that raw output. */
    function Outputs(k: nat): (r: seq<nat>)
      reads this
      requires Valid() && k < |nodes|
      ensures |r| == |nodes[k].bnode.outputs|
      ensures forall i :: 0 <= i < |r| ==> r[i] < |sockets| && sockets[r[i]] == VSocket(k, nodes[k].btree, nodes[k].bnode.outputs[i])
    {
      assert NodeWraps(ArenaOf(), k);
      nodes[k].outputs
    }

    /** The `i`-th input socket of node `k`. */
    function Input(k: nat, i: nat): (r: nat)
      reads this
      requires Valid() && k < |nodes| && i < |Inputs(k)|
      ensures r == Inputs(k)[i]
      ensures r < |sockets| && sockets[r].vnode == k && sockets[r].bsocket == nodes[k].bnode.inputs[i]
    {
      nodes[k].inputs[i]
    }

    /** The `i`-th output socket of node `k`. */
    function Output(k: nat, i: nat): (r: nat)
      reads this
      requires Valid() && k < |nodes| && i < |Outputs(k)|
      ensures r == Outputs(k)[i]
      ensures r < |sockets| && sockets[r].vnode == k && sockets[r].bsocket == nodes[k].bnode.outputs[i]
    {
      nodes[k].outputs[i]
    }

    /** The raw node of node `k`; its sockets are the ones node `k`'s sockets wrap. */
    function Bnode(k: nat): (r: Node)
      reads this
      requires Valid() && k < |nodes|
      ensures |r.inputs| == |Inputs(k)| && |r.outputs| == |Outputs(k)|
      ensures forall i :: 0 <= i < |r.inputs| ==> sockets[Inputs(k)[i]].bsocket == r.inputs[i]
    {
      nodes[k].bnode
    }

    /** The raw tree of node `k`, which its sockets share. */
    function NodeBtree(k: nat): (r: Tree)
      reads this
      requires Valid() && k < |nodes|
      ensures forall i :: 0 <= i < |Inputs(k)| ==> sockets[Inputs(k)[i]].btree == r
    {
      nodes[k].btree
    }

    function Name(k: nat): (r: string)
      reads this
      requires k < |nodes|
      ensures r == nodes[k].bnode.name
    {
      nodes[k].bnode.name
    }

    function Idname(k: nat): (r: string)
      reads this
      requires k < |nodes|
      ensures r == nodes[k].bnode.idname
    {
      nodes[k].bnode.idname
    }

    // ----- queries on a socket -----

    /** Socket `h` is an input; it then is not an output, and the other way round. */
    function IsInput(h: nat): (r: bool)
      reads this
      requires h < |sockets|
      ensures r <==> sockets[h].bsocket.inOut == SockIn
      ensures r <==> !IsOutput(h)
    {
      sockets[h].bsocket.inOut == SockIn
    }

    function IsOutput(h: nat): (r: bool)
      reads this
      requires h < |sockets|
      ensures r <==> sockets[h].bsocket.inOut == SockOut
    {
      sockets[h].bsocket.inOut == SockOut
    }

    /** The raw socket of socket `h`; it is a raw socket of the raw node of `h`'s node. */
    function Bsocket(h: nat): (r: Socket)
      reads this
      requires Valid() && h < |sockets|
      ensures r in nodes[Vnode(h)].bnode.inputs || r in nodes[Vnode(h)].bnode.outputs
    {
      var k := sockets[h].vnode;
      assert SocketListed(ArenaOf(), h);
      assert NodeWraps(ArenaOf(), k);
      sockets[h].bsocket
    }

    /** The raw tree of socket `h`, which is that of its node. */
    function SocketBtree(h: nat): (r: Tree)
      reads this
      requires Valid() && h < |sockets|
      ensures r == nodes[Vnode(h)].btree
    {
      var k := sockets[h].vnode;
      assert SocketListed(ArenaOf(), h);
      assert NodeWraps(ArenaOf(), k);
      sockets[h].btree
    }

    /** The node of socket `h`: the one node that lists `h` among its inputs or outputs. */
    function Vnode(h: nat): (r: nat)
      reads this
      requires Valid() && h < |sockets|
      ensures r < |nodes| && (h in nodes[r].inputs || h in nodes[r].outputs)
      ensures forall k :: 0 <= k < |nodes| && (h in nodes[k].inputs || h in nodes[k].outputs) ==> k == r
    {
      assert SocketListed(ArenaOf(), h);
      VSocketOwnedOnce(ArenaOf(), h);
      sockets[h].vnode
    }

    /** The sockets directly linked to `h`, in link order: outputs for an input, inputs for an output. */
    function DirectLinks(h: nat): (r: seq<nat>)
      reads this
      requires Valid() && frozen && h < |sockets|
      ensures r == VDirectOf(links, h)
      ensures forall w :: w in r ==>
        w < |sockets| &&
        (IsInputSocket(ArenaOf(), h) ==> IsOutputSocket(ArenaOf(), w)) &&
        (IsOutputSocket(ArenaOf(), h) ==> IsInputSocket(ArenaOf(), w))
    {
      DirectNeighbours(ArenaOf(), |links|, h);
      assert links[..|links|] == links;
      directLinks[h]
    }

    /** The sockets linked to `h` once reroutes are passed through: exactly those a reroute path reaches, none of them on a reroute. */
    function SocketLinks(h: nat): (r: seq<nat>)
      reads this
      requires Valid() && frozen && h < |sockets|
      ensures r == VLinkedOf(ArenaOf(), h)
      ensures forall x :: x in r <==> VReaches(ArenaOf(), h, SideOf(sockets[h].bsocket), x, {})
      ensures forall w :: w in r ==> w < |sockets| && !IsRerouteSocket(ArenaOf(), w)
    {
      VResolvedAreReal(ArenaOf(), h, SideOf(sockets[h].bsocket), {});
      VLinkedIff(ArenaOf(), h);
      resolvedLinks[h]
    }

    function SocketName(h: nat): (r: string)
      reads this
      requires h < |sockets|
      ensures r == sockets[h].bsocket.name
    {
      sockets[h].bsocket.name
    }
  }

  /** The resolved links of every socket of `a`, by handle, and the inputs among them that have any. */
  method ResolveEverySocket(a: Arena, direct: seq<seq<nat>>) returns (resolved: seq<seq<nat>>, inputs: seq<nat>)
    requires Consistent(a)
    requires |direct| == |a.sockets|
    requires forall x :: 0 <= x < |a.sockets| ==> direct[x] == VDirectOf(a.links, x)
    ensures |resolved| == |a.sockets|
    ensures forall h :: 0 <= h < |a.sockets| ==> resolved[h] == VLinkedOf(a, h)
    ensures inputs == InputsWithLinksOf(a)
  {
    resolved := [];
    inputs := [];
    var h := 0;
    while h < |a.sockets|
      invariant 0 <= h <= |a.sockets|
      invariant |resolved| == h
      invariant forall j :: 0 <= j < h ==> resolved[j] == VLinkedOf(a, j)
      invariant inputs == InputsWithLinksPrefix(a, h)
    {
      var found := FindConnected(a, direct, h, SideOf(a.sockets[h].bsocket), {}, []);
      resolved := resolved + [found];
      if a.sockets[h].bsocket.inOut == SockIn && found != [] {
        inputs := inputs + [h];
      }
      h := h + 1;
    }
  }

  /** The first of the handles `hs` whose socket wraps the raw socket `bs`. */
  method FindVSocket(sockets: seq<VSocket>, hs: seq<nat>, bs: Socket) returns (r: Option<nat>)
    ensures r == FirstWrapping(sockets, hs, bs)
  {
    var i := 0;
    while i < |hs|
      invariant 0 <= i <= |hs|
      invariant FirstWrapping(sockets, hs, bs) == FirstWrapping(sockets, hs[i..], bs)
    {
      if hs[i] < |sockets| && sockets[hs[i]].bsocket == bs {
        return Some(hs[i]);
      }
      assert hs[i..][1..] == hs[i + 1..];
      i := i + 1;
    }
    return None;
  }

  /**
   * Appends to `found` the sockets linked to `h` on `side`, passing through
   * every reroute met unless the path has entered that reroute already.
   */
  method FindConnected(a: Arena, direct: seq<seq<nat>>, h: nat, side: Side, visited: set<nat>, found: seq<nat>)
    returns (r: seq<nat>)
    requires Consistent(a)
    requires |direct| == |a.sockets| && h < |a.sockets|
    requires forall x :: 0 <= x < |a.sockets| ==> direct[x] == VDirectOf(a.links, x)
    ensures r == found + VResolve(a, h, side, visited)
    decreases HandleSet(a.nodes) - visited, 1
  {
    var others := direct[h];
    DirectNeighbours(a, |a.links|, h);
    assert a.links[..|a.links|] == a.links;
    r := found;
    var i := 0;
    while i < |others|
      invariant 0 <= i <= |others|
      invariant r == found + VResolveAll(a, others[..i], side, visited)
    {
      assert others[i] in others;
      VResolveAllStep(a, others, i, side, visited);
      r := FollowConnection(a, direct, others[i], side, visited, r);
      i := i + 1;
    }
    assert others[..i] == others;
  }

  /** Appends to `found` what the connection `w` resolves to: itself, or what the reroute it belongs to passes on to. */
  method FollowConnection(a: Arena, direct: seq<seq<nat>>, w: nat, side: Side, visited: set<nat>, found: seq<nat>)
    returns (r: seq<nat>)
    requires Consistent(a)
    requires |direct| == |a.sockets| && w < |a.sockets|
    requires forall x :: 0 <= x < |a.sockets| ==> direct[x] == VDirectOf(a.links, x)
    ensures r == found + VResolveOne(a, w, side, visited)
    decreases HandleSet(a.nodes) - visited, 0
  {
    var k := a.sockets[w].vnode;
    if !(k < |a.nodes| && IsReroute(a.nodes[k].bnode)) {
      r := found + [w];
    } else if k in visited {
      r := found;
    } else {
      assert Handles(0, |a.nodes|)[k] == k;
      assert NodeWraps(a, k);
      match VContinuation(a.nodes[k], side)
      case None =>
        r := found;
      case Some(c) =>
        r := FindConnected(a, direct, c, side, visited + {k}, found);
    }
  }
}
