/**
 * The values behind VirtualNodeTree.  The tree owns one arena of virtual
 * nodes, sockets and links; every cross-reference between them (a node's
 * socket arrays, a socket's node, a link's endpoints) is a handle, that is,
 * an index into the arena's sequence of that kind.  The functions here say
 * what the building operations append and what the frozen indices hold.
 */
module VirtualTreeSpec {
  import opened NodeDna
  import opened MultiMap

  /** A virtual node: the raw node it wraps, its raw tree, and the handles of its input and output sockets. */
  datatype VNode = VNode(btree: Tree, bnode: Node, inputs: seq<nat>, outputs: seq<nat>)

  /** A virtual socket: the handle of its node, its raw tree and the raw socket it wraps. */
  datatype VSocket = VSocket(vnode: nat, btree: Tree, bsocket: Socket)

  /** A virtual link from the handle of an output socket to the handle of an input socket. */
  datatype VLink = VLink(from: nat, to: nat)

  datatype Arena = Arena(nodes: seq<VNode>, sockets: seq<VSocket>, links: seq<VLink>)

  predicate StrictlyIncreasing(s: seq<nat>) {
    forall i, j :: 0 <= i < j < |s| ==> s[i] < s[j]
  }

  /** The first position of `x` in `s`. */
  function IndexOf<T(==)>(s: seq<T>, x: T): (i: nat)
    requires x in s
    ensures i < |s| && s[i] == x && x !in s[..i]
  {
    if s[0] == x then 0
    else
      assert s == [s[0]] + s[1..];
      var j := IndexOf(s[1..], x);
      assert s[..j + 1] == [s[0]] + s[1..][..j];
      j + 1
  }

  // ----- the arena and its consistency -----

  function Handles(start: nat, n: nat): seq<nat> {
    seq(n, i => start + i)
  }

  function NewSockets(k: nat, bt: Tree, ss: seq<Socket>): seq<VSocket> {
    seq(|ss|, i requires 0 <= i < |ss| => VSocket(k, bt, ss[i]))
  }

  /** What `add_bnode` allocates: one node, then one socket per raw input and per raw output, in order. */
  function AppendNode(a: Arena, bt: Tree, bn: Node): Arena {
    var base := |a.sockets|;
    Arena(a.nodes + [VNode(bt, bn, Handles(base, |bn.inputs|), Handles(base + |bn.inputs|, |bn.outputs|))],
          a.sockets + NewSockets(|a.nodes|, bt, bn.inputs) + NewSockets(|a.nodes|, bt, bn.outputs),
          a.links)
  }

  /** `add_bnode` applied to each node of `ns` in turn. */
  function AppendNodes(a: Arena, bt: Tree, ns: seq<Node>): Arena {
    if ns == [] then a
    else AppendNode(AppendNodes(a, bt, ns[..|ns| - 1]), bt, ns[|ns| - 1])
  }

  predicate IsInputSocket(a: Arena, h: nat) {
    h < |a.sockets| && a.sockets[h].bsocket.inOut == SockIn
  }

  predicate IsOutputSocket(a: Arena, h: nat) {
    h < |a.sockets| && a.sockets[h].bsocket.inOut == SockOut
  }

  /** The link `add_link(x, y)` records: whichever of the two is the output becomes the source. */
  function Oriented(a: Arena, x: nat, y: nat): (r: VLink)
    requires x < |a.sockets| && y < |a.sockets|
    ensures {r.from, r.to} == {x, y}
    ensures IsInputSocket(a, x) != IsInputSocket(a, y) ==> IsOutputSocket(a, r.from) && IsInputSocket(a, r.to)
  {
    if IsInputSocket(a, x) then VLink(y, x) else VLink(x, y)
  }

  /** Node `k` wraps its raw node: one socket handle per raw socket, and each handle names the socket wrapping it. */
  ghost predicate NodeWraps(a: Arena, k: nat)
    requires k < |a.nodes|
  {
    var n := a.nodes[k];
    |n.inputs| == |n.bnode.inputs| && |n.outputs| == |n.bnode.outputs| &&
    (forall i :: 0 <= i < |n.inputs| ==>
       n.inputs[i] < |a.sockets| && a.sockets[n.inputs[i]] == VSocket(k, n.btree, n.bnode.inputs[i])) &&
    (forall i :: 0 <= i < |n.outputs| ==>
       n.outputs[i] < |a.sockets| && a.sockets[n.outputs[i]] == VSocket(k, n.btree, n.bnode.outputs[i]))
  }

  /** Socket `h` is listed by the node it names. */
  ghost predicate SocketListed(a: Arena, h: nat)
    requires h < |a.sockets|
  {
    var k := a.sockets[h].vnode;
    k < |a.nodes| && (h in a.nodes[k].inputs || h in a.nodes[k].outputs)
  }

  ghost predicate ArenaConsistent(a: Arena) {
    (forall k :: 0 <= k < |a.nodes| ==> NodeWraps(a, k)) &&
    (forall h :: 0 <= h < |a.sockets| ==> SocketListed(a, h))
  }

  /** Every link goes from an output socket of the arena to an input socket of the arena. */
  ghost predicate LinksConsistent(a: Arena) {
    forall k :: 0 <= k < |a.links| ==> IsOutputSocket(a, a.links[k].from) && IsInputSocket(a, a.links[k].to)
  }

  ghost predicate Consistent(a: Arena) {
    ArenaConsistent(a) && LinksConsistent(a)
  }

  /** Every socket belongs to exactly one node: the node it names, and no other lists it. */
  lemma VSocketOwnedOnce(a: Arena, h: nat)
    requires ArenaConsistent(a)
    requires h < |a.sockets|
    ensures forall k :: 0 <= k < |a.nodes| ==> ((h in a.nodes[k].inputs || h in a.nodes[k].outputs) <==> k == a.sockets[h].vnode)
  {
    assert SocketListed(a, h);
    forall k | 0 <= k < |a.nodes|
      ensures (h in a.nodes[k].inputs || h in a.nodes[k].outputs) <==> k == a.sockets[h].vnode
    {
      assert NodeWraps(a, k);
      if h in a.nodes[k].inputs {
        var i :| 0 <= i < |a.nodes[k].inputs| && a.nodes[k].inputs[i] == h;
      }
      if h in a.nodes[k].outputs {
        var i :| 0 <= i < |a.nodes[k].outputs| && a.nodes[k].outputs[i] == h;
      }
    }
  }

  /** Adding a node keeps the arena consistent; what was there before is unchanged and the new node wraps `bn`. */
  lemma AppendNodeConsistent(a: Arena, bt: Tree, bn: Node)
    requires Consistent(a)
    ensures Consistent(AppendNode(a, bt, bn))
    ensures var b := AppendNode(a, bt, bn);
      |b.nodes| == |a.nodes| + 1 && b.nodes[..|a.nodes|] == a.nodes &&
      b.sockets[..|a.sockets|] == a.sockets && b.links == a.links &&
      b.nodes[|a.nodes|].bnode == bn && b.nodes[|a.nodes|].btree == bt
  {
    var b := AppendNode(a, bt, bn);
    var k := |a.nodes|;
    var base := |a.sockets|;
    assert b.nodes[..k] == a.nodes;
    assert b.sockets[..base] == a.sockets;
    forall j | 0 <= j < |b.nodes| ensures NodeWraps(b, j) {
      if j < k {
        assert NodeWraps(a, j);
        assert b.nodes[j] == a.nodes[j];
        forall i | 0 <= i < |a.nodes[j].inputs| ensures b.sockets[a.nodes[j].inputs[i]] == a.sockets[a.nodes[j].inputs[i]] {}
        forall i | 0 <= i < |a.nodes[j].outputs| ensures b.sockets[a.nodes[j].outputs[i]] == a.sockets[a.nodes[j].outputs[i]] {}
      } else {
        assert b.nodes[j] == VNode(bt, bn, Handles(base, |bn.inputs|), Handles(base + |bn.inputs|, |bn.outputs|));
      }
    }
    forall h | 0 <= h < |b.sockets| ensures SocketListed(b, h) {
      if h < base {
        assert SocketListed(a, h);
        assert b.sockets[h] == a.sockets[h];
        assert b.nodes[a.sockets[h].vnode] == a.nodes[a.sockets[h].vnode];
      } else if h < base + |bn.inputs| {
        assert b.sockets[h].vnode == k;
        assert b.nodes[k].inputs[h - base] == h;
      } else {
        assert b.sockets[h].vnode == k;
        assert b.nodes[k].outputs[h - base - |bn.inputs|] == h;
      }
    }
    forall j | 0 <= j < |b.links| ensures IsOutputSocket(b, b.links[j].from) && IsInputSocket(b, b.links[j].to) {
      assert IsOutputSocket(a, a.links[j].from) && IsInputSocket(a, a.links[j].to);
    }
  }

  /** After adding the nodes of `ns`, the old arena is a prefix and the node at position `|a.nodes| + i` wraps `ns[i]`. */
  lemma {:induction false} AppendNodesShape(a: Arena, bt: Tree, ns: seq<Node>)
    requires Consistent(a)
    ensures var b := AppendNodes(a, bt, ns);
      Consistent(b) &&
      |b.nodes| == |a.nodes| + |ns| && b.nodes[..|a.nodes|] == a.nodes &&
      |b.sockets| >= |a.sockets| && b.sockets[..|a.sockets|] == a.sockets && b.links == a.links &&
      (forall i :: 0 <= i < |ns| ==> b.nodes[|a.nodes| + i].bnode == ns[i] && b.nodes[|a.nodes| + i].btree == bt)
  {
    if ns != [] {
      var p := ns[..|ns| - 1];
      AppendNodesShape(a, bt, p);
      var c := AppendNodes(a, bt, p);
      AppendNodeConsistent(c, bt, ns[|ns| - 1]);
      var b := AppendNode(c, bt, ns[|ns| - 1]);
      assert b.nodes[..|a.nodes|] == c.nodes[..|a.nodes|];
      assert b.sockets[..|a.sockets|] == c.sockets[..|a.sockets|];
      forall i | 0 <= i < |ns| ensures b.nodes[|a.nodes| + i].bnode == ns[i] && b.nodes[|a.nodes| + i].btree == bt {
        if i < |p| {
          assert b.nodes[|a.nodes| + i] == c.nodes[|a.nodes| + i];
          assert p[i] == ns[i];
        }
      }
    }
  }

  /** Adding a link between an input and an output keeps the arena consistent. */
  lemma AppendLinkConsistent(a: Arena, x: nat, y: nat)
    requires Consistent(a)
    requires x < |a.sockets| && y < |a.sockets| && IsInputSocket(a, x) != IsInputSocket(a, y)
    ensures Consistent(a.(links := a.links + [Oriented(a, x, y)]))
  {
    var b := a.(links := a.links + [Oriented(a, x, y)]);
    forall k | 0 <= k < |b.nodes| ensures NodeWraps(b, k) {
      assert NodeWraps(a, k);
    }
    forall h | 0 <= h < |b.sockets| ensures SocketListed(b, h) {
      assert SocketListed(a, h);
    }
  }

  /** The first of the handles `hs` whose socket wraps the raw socket `bs`. */
  function FirstWrapping(sockets: seq<VSocket>, hs: seq<nat>, bs: Socket): Option<nat> {
    if hs == [] then None
    else if hs[0] < |sockets| && sockets[hs[0]].bsocket == bs then Some(hs[0])
    else FirstWrapping(sockets, hs[1..], bs)
  }

  /** A raw output of node `k`'s raw node is found among `k`'s output handles, and the handle found wraps it. */
  lemma {:induction false} FirstWrappingOutput(a: Arena, k: nat, bs: Socket)
    requires ArenaConsistent(a) && k < |a.nodes| && bs in a.nodes[k].bnode.outputs
    ensures var r := FirstWrapping(a.sockets, a.nodes[k].outputs, bs);
      r.Some? && r.value in a.nodes[k].outputs && r.value < |a.sockets| && a.sockets[r.value] == VSocket(k, a.nodes[k].btree, bs)
  {
    assert NodeWraps(a, k);
    var i := IndexOf(a.nodes[k].bnode.outputs, bs);
    FirstWrappingFound(a.sockets, a.nodes[k].outputs, bs, i, VSocket(k, a.nodes[k].btree, bs));
  }

  /** A raw input of node `k`'s raw node is found among `k`'s input handles, and the handle found wraps it. */
  lemma {:induction false} FirstWrappingInput(a: Arena, k: nat, bs: Socket)
    requires ArenaConsistent(a) && k < |a.nodes| && bs in a.nodes[k].bnode.inputs
    ensures var r := FirstWrapping(a.sockets, a.nodes[k].inputs, bs);
      r.Some? && r.value in a.nodes[k].inputs && r.value < |a.sockets| && a.sockets[r.value] == VSocket(k, a.nodes[k].btree, bs)
  {
    assert NodeWraps(a, k);
    var i := IndexOf(a.nodes[k].bnode.inputs, bs);
    FirstWrappingFound(a.sockets, a.nodes[k].inputs, bs, i, VSocket(k, a.nodes[k].btree, bs));
  }

  /** When every handle of `hs` wrapping `bs` wraps it as `v`, and position `i` does, the search finds such a handle. */
  lemma {:induction false} FirstWrappingFound(sockets: seq<VSocket>, hs: seq<nat>, bs: Socket, i: nat, v: VSocket)
    requires i < |hs| && hs[i] < |sockets| && sockets[hs[i]].bsocket == bs
    requires forall j :: 0 <= j < |hs| && hs[j] < |sockets| && sockets[hs[j]].bsocket == bs ==> sockets[hs[j]] == v
    ensures var r := FirstWrapping(sockets, hs, bs);
      r.Some? && r.value in hs && r.value < |sockets| && sockets[r.value] == v
  {
    if !(hs[0] < |sockets| && sockets[hs[0]].bsocket == bs) {
      assert i > 0;
      forall j | 0 <= j < |hs[1..]| && hs[1..][j] < |sockets| && sockets[hs[1..][j]].bsocket == bs
        ensures sockets[hs[1..][j]] == v
      {
        assert hs[1..][j] == hs[j + 1];
      }
      FirstWrappingFound(sockets, hs[1..], bs, i - 1, v);
    }
  }

  /** Raw link `k` of `bt` is recorded as `vl`: between the wrappers of its sockets, in the wrappers of its nodes. */
  ghost predicate LinkWraps(sockets: seq<VSocket>, base: nat, bt: Tree, k: nat, vl: VLink) {
    k < |bt.links| &&
    var l := bt.links[k];
    l.fromNode in bt.nodes && l.toNode in bt.nodes &&
    vl.from < |sockets| && vl.to < |sockets| &&
    sockets[vl.from] == VSocket(base + IndexOf(bt.nodes, l.fromNode), bt, l.fromSock) &&
    sockets[vl.to] == VSocket(base + IndexOf(bt.nodes, l.toNode), bt, l.toSock)
  }

  // ----- direct links -----

  /** The far ends of the links that touch socket `h`, in link order. */
  function VDirectOf(links: seq<VLink>, h: nat): seq<nat> {
    if links == [] then []
    else
      var l := links[|links| - 1];
      VDirectOf(links[..|links| - 1], h)
        + (if l.to == h then [l.from] else [])
        + (if l.from == h then [l.to] else [])
  }

  /** `w` is a direct connection of `h` exactly when some link joins the two. */
  lemma {:induction false} VDirectOfIff(links: seq<VLink>, h: nat, w: nat)
    ensures w in VDirectOf(links, h) <==>
      exists k :: 0 <= k < |links| && (links[k] == VLink(w, h) || links[k] == VLink(h, w))
  {
    if links != [] {
      var p := links[..|links| - 1];
      VDirectOfIff(p, h, w);
      if w in VDirectOf(p, h) {
        var k :| 0 <= k < |p| && (p[k] == VLink(w, h) || p[k] == VLink(h, w));
        assert links[k] == p[k];
      }
      if exists k :: 0 <= k < |links| && (links[k] == VLink(w, h) || links[k] == VLink(h, w)) {
        var k :| 0 <= k < |links| && (links[k] == VLink(w, h) || links[k] == VLink(h, w));
        if k < |p| {
          assert p[k] == links[k];
        }
      }
    }
  }

  /** With consistent links, the direct connections of an input are outputs, and those of an output are inputs. */
  lemma {:induction false} DirectNeighbours(a: Arena, n: nat, h: nat)
    requires LinksConsistent(a) && n <= |a.links|
    ensures forall w :: w in VDirectOf(a.links[..n], h) ==>
      w < |a.sockets| &&
      (IsInputSocket(a, h) ==> IsOutputSocket(a, w)) &&
      (IsOutputSocket(a, h) ==> IsInputSocket(a, w))
  {
    if n > 0 {
      assert a.links[..n][..n - 1] == a.links[..n - 1];
      DirectNeighbours(a, n - 1, h);
      assert IsOutputSocket(a, a.links[n - 1].from) && IsInputSocket(a, a.links[n - 1].to);
    }
  }

  // ----- reroute resolution -----

  function HandleSet(nodes: seq<VNode>): set<nat> {
    set k | k in Handles(0, |nodes|)
  }

  /** Socket `w` belongs to a virtual node wrapping a reroute. */
  predicate IsRerouteSocket(a: Arena, w: nat) {
    w < |a.sockets| && a.sockets[w].vnode < |a.nodes| && IsReroute(a.nodes[a.sockets[w].vnode].bnode)
  }

  /** The socket a reroute passes through to: its first input going left, its first output going right. */
  function VContinuation(n: VNode, side: Side): Option<nat> {
    match side
    case Left => if n.inputs == [] then None else Some(n.inputs[0])
    case Right => if n.outputs == [] then None else Some(n.outputs[0])
  }

  /**
   * The connections of socket `h` once reroutes are passed through.  A
   * reroute node is entered at most once along any path: a path that comes
   * back to a reroute it has already passed stops there and adds nothing.
   */
  function VResolve(a: Arena, h: nat, side: Side, visited: set<nat>): seq<nat>
    decreases HandleSet(a.nodes) - visited, 2, 0
  {
    VResolveAll(a, VDirectOf(a.links, h), side, visited)
  }

  function VResolveAll(a: Arena, ws: seq<nat>, side: Side, visited: set<nat>): seq<nat>
    decreases HandleSet(a.nodes) - visited, 1, |ws|
  {
    if ws == [] then []
    else VResolveAll(a, ws[..|ws| - 1], side, visited) + VResolveOne(a, ws[|ws| - 1], side, visited)
  }

  function VResolveOne(a: Arena, w: nat, side: Side, visited: set<nat>): seq<nat>
    decreases HandleSet(a.nodes) - visited, 0, 0
  {
    if !IsRerouteSocket(a, w) then [w]
    else
      var k := a.sockets[w].vnode;
      if k in visited then []
      else
        assert Handles(0, |a.nodes|)[k] == k;
        match VContinuation(a.nodes[k], side)
        case None => []
        case Some(c) => VResolve(a, c, side, visited + {k})
  }

  /** What `links()` of socket `h` holds after freezing: inputs resolved towards sources, outputs towards targets. */
  function VLinkedOf(a: Arena, h: nat): seq<nat>
    requires h < |a.sockets|
  {
    VResolve(a, h, SideOf(a.sockets[h].bsocket), {})
  }

  lemma VResolveAllStep(a: Arena, ws: seq<nat>, i: nat, side: Side, visited: set<nat>)
    requires i < |ws|
    ensures VResolveAll(a, ws[..i + 1], side, visited) == VResolveAll(a, ws[..i], side, visited) + VResolveOne(a, ws[i], side, visited)
  {
    assert ws[..i + 1][..i] == ws[..i];
  }

  /** Resolution never stops at a reroute, and with consistent links every handle it yields exists. */
  lemma VResolvedAreReal(a: Arena, h: nat, side: Side, visited: set<nat>)
    requires LinksConsistent(a)
    ensures forall w :: w in VResolve(a, h, side, visited) ==> w < |a.sockets| && !IsRerouteSocket(a, w)
  {
    forall w | w in VResolve(a, h, side, visited) ensures w < |a.sockets| && !IsRerouteSocket(a, w) {
      VResolveRealOnly(a, h, side, visited, w);
    }
  }

  lemma {:induction false} VResolveRealOnly(a: Arena, h: nat, side: Side, visited: set<nat>, x: nat)
    requires LinksConsistent(a)
    requires x in VResolve(a, h, side, visited)
    ensures x < |a.sockets| && !IsRerouteSocket(a, x)
    decreases HandleSet(a.nodes) - visited, 2, 0
  {
    DirectNeighbours(a, |a.links|, h);
    assert a.links[..|a.links|] == a.links;
    VResolveAllRealOnly(a, VDirectOf(a.links, h), side, visited, x);
  }

  lemma {:induction false} VResolveAllRealOnly(a: Arena, ws: seq<nat>, side: Side, visited: set<nat>, x: nat)
    requires LinksConsistent(a)
    requires forall w :: w in ws ==> w < |a.sockets|
    requires x in VResolveAll(a, ws, side, visited)
    ensures x < |a.sockets| && !IsRerouteSocket(a, x)
    decreases HandleSet(a.nodes) - visited, 1, |ws|
  {
    var p := ws[..|ws| - 1];
    assert ws == p + [ws[|ws| - 1]];
    assert forall w :: w in p ==> w in ws;
    assert ws[|ws| - 1] in ws;
    if x in VResolveAll(a, p, side, visited) {
      VResolveAllRealOnly(a, p, side, visited, x);
    } else {
      VResolveOneRealOnly(a, ws[|ws| - 1], side, visited, x);
    }
  }

  lemma {:induction false} VResolveOneRealOnly(a: Arena, w: nat, side: Side, visited: set<nat>, x: nat)
    requires LinksConsistent(a)
    requires w < |a.sockets|
    requires x in VResolveOne(a, w, side, visited)
    ensures x < |a.sockets| && !IsRerouteSocket(a, x)
    decreases HandleSet(a.nodes) - visited, 0, 0
  {
    if IsRerouteSocket(a, w) {
      var k := a.sockets[w].vnode;
      assert Handles(0, |a.nodes|)[k] == k;
      VResolveRealOnly(a, VContinuation(a.nodes[k], side).value, side, visited + {k}, x);
    }
  }

  /** Connections that are not reroutes resolve to themselves. */
  lemma {:induction false} VResolveWithoutReroutes(a: Arena, ws: seq<nat>, side: Side, visited: set<nat>)
    requires forall w :: w in ws ==> !IsRerouteSocket(a, w)
    ensures VResolveAll(a, ws, side, visited) == ws
  {
    if ws != [] {
      var p := ws[..|ws| - 1];
      assert ws == p + [ws[|ws| - 1]];
      VResolveWithoutReroutes(a, p, side, visited);
    }
  }

  /** A socket none of whose direct connections is a reroute is linked to exactly its direct connections. */
  lemma VLinkedWithoutReroutes(a: Arena, h: nat)
    requires h < |a.sockets|
    requires forall w :: w in VDirectOf(a.links, h) ==> !IsRerouteSocket(a, w)
    ensures VLinkedOf(a, h) == VDirectOf(a.links, h)
  {
    VResolveWithoutReroutes(a, VDirectOf(a.links, h), SideOf(a.sockets[h].bsocket), {});
  }

  /** A neighbour that is not on a reroute is always among the resolved connections. */
  lemma VRealNeighbourResolved(a: Arena, ws: seq<nat>, side: Side, visited: set<nat>, w: nat)
    requires w in ws && !IsRerouteSocket(a, w)
    ensures w in VResolveAll(a, ws, side, visited)
  {
    VResolveAllIncludes(a, ws, side, visited, w, w);
  }

  /**
   * `h` reaches `x` through the reroute nodes of `chain`, one direct link per
   * hop: `h` has exactly one direct connection, to a socket of the first
   * reroute (or to `x` when the chain is empty), which passes on to the next.
   */
  ghost predicate VFeedsThroughReroutes(a: Arena, h: nat, side: Side, chain: seq<nat>, x: nat, visited: set<nat>)
    decreases |chain|
  {
    var direct := VDirectOf(a.links, h);
    |direct| == 1 &&
    if chain == [] then direct[0] == x && !IsRerouteSocket(a, x)
    else
      var k := chain[0];
      IsRerouteSocket(a, direct[0]) && a.sockets[direct[0]].vnode == k && k !in visited &&
      VContinuation(a.nodes[k], side).Some? &&
      VFeedsThroughReroutes(a, VContinuation(a.nodes[k], side).value, side, chain[1..], x, visited + {k})
  }

  /** A chain of any number of reroutes resolves exactly like a single direct link to its source. */
  lemma {:induction false} VChainResolvesToSource(a: Arena, h: nat, side: Side, chain: seq<nat>, x: nat, visited: set<nat>)
    requires VFeedsThroughReroutes(a, h, side, chain, x, visited)
    ensures VResolve(a, h, side, visited) == [x]
    decreases |chain|
  {
    var direct := VDirectOf(a.links, h);
    assert direct[..0] == [];
    if chain != [] {
      var k := chain[0];
      var c := VContinuation(a.nodes[k], side).value;
      VChainResolvesToSource(a, c, side, chain[1..], x, visited + {k});
      assert VResolveOne(a, direct[0], side, visited) == VResolve(a, c, side, visited + {k});
    }
    assert VResolve(a, h, side, visited) == VResolveAll(a, direct[..0], side, visited) + VResolveOne(a, direct[0], side, visited);
  }

  /**
   * `h` reaches the non-reroute socket `x` through the distinct reroute nodes
   * of `chain`, none of them in `visited`: some direct connection of `h` is
   * `x` itself (empty chain) or leads, via `VVia`, into the first reroute.
   */
  ghost predicate VReroutePath(a: Arena, h: nat, side: Side, chain: seq<nat>, x: nat, visited: set<nat>)
    decreases |chain|, 1
  {
    exists w :: w in VDirectOf(a.links, h) && VVia(a, w, side, chain, x, visited)
  }

  /** The socket `w` is `x` itself, or a socket of the reroute node `chain[0]`, whose continuation reaches `x` through the rest. */
  ghost predicate VVia(a: Arena, w: nat, side: Side, chain: seq<nat>, x: nat, visited: set<nat>)
    decreases |chain|, 0
  {
    if chain == [] then w == x && !IsRerouteSocket(a, x)
    else
      var k := chain[0];
      IsRerouteSocket(a, w) && a.sockets[w].vnode == k && k !in visited &&
      VContinuation(a.nodes[k], side).Some? &&
      VReroutePath(a, VContinuation(a.nodes[k], side).value, side, chain[1..], x, visited + {k})
  }

  /** Some path through reroutes leads from `h` to `x`. */
  ghost predicate VReaches(a: Arena, h: nat, side: Side, x: nat, visited: set<nat>) {
    exists chain :: VReroutePath(a, h, side, chain, x, visited)
  }

  /** A connection that resolves to `x` keeps doing so inside any list of connections. */
  lemma {:induction false} VResolveAllIncludes(a: Arena, ws: seq<nat>, side: Side, visited: set<nat>, w: nat, x: nat)
    requires w in ws && x in VResolveOne(a, w, side, visited)
    ensures x in VResolveAll(a, ws, side, visited)
  {
    var p := ws[..|ws| - 1];
    assert ws == p + [ws[|ws| - 1]];
    if w != ws[|ws| - 1] {
      VResolveAllIncludes(a, p, side, visited, w, x);
    }
  }

  /** Whatever a neighbouring reroute's continuation resolves to is among the resolved connections of `h`. */
  lemma VRerouteResolvedIncluded(a: Arena, h: nat, side: Side, visited: set<nat>, w: nat, c: nat)
    requires w in VDirectOf(a.links, h) && IsRerouteSocket(a, w) && a.sockets[w].vnode !in visited
    requires VContinuation(a.nodes[a.sockets[w].vnode], side) == Some(c)
    ensures forall x :: x in VResolve(a, c, side, visited + {a.sockets[w].vnode}) ==> x in VResolve(a, h, side, visited)
  {
    forall x | x in VResolve(a, c, side, visited + {a.sockets[w].vnode}) ensures x in VResolve(a, h, side, visited) {
      VResolveAllIncludes(a, VDirectOf(a.links, h), side, visited, w, x);
    }
  }

  /** Soundness: every resolved connection is reached by a path through reroutes. */
  lemma {:induction false} VResolveSound(a: Arena, h: nat, side: Side, visited: set<nat>, x: nat) returns (chain: seq<nat>)
    requires x in VResolve(a, h, side, visited)
    ensures VReroutePath(a, h, side, chain, x, visited)
    decreases HandleSet(a.nodes) - visited, 2, 0
  {
    var w;
    w, chain := VResolveAllSound(a, VDirectOf(a.links, h), side, visited, x);
  }

  lemma {:induction false} VResolveAllSound(a: Arena, ws: seq<nat>, side: Side, visited: set<nat>, x: nat)
    returns (w: nat, chain: seq<nat>)
    requires x in VResolveAll(a, ws, side, visited)
    ensures w in ws && VVia(a, w, side, chain, x, visited)
    decreases HandleSet(a.nodes) - visited, 1, |ws|
  {
    var p := ws[..|ws| - 1];
    assert ws == p + [ws[|ws| - 1]];
    if x in VResolveAll(a, p, side, visited) {
      w, chain := VResolveAllSound(a, p, side, visited, x);
    } else {
      w := ws[|ws| - 1];
      chain := VResolveOneSound(a, w, side, visited, x);
    }
  }

  lemma {:induction false} VResolveOneSound(a: Arena, w: nat, side: Side, visited: set<nat>, x: nat)
    returns (chain: seq<nat>)
    requires x in VResolveOne(a, w, side, visited)
    ensures VVia(a, w, side, chain, x, visited)
    decreases HandleSet(a.nodes) - visited, 0, 0
  {
    if !IsRerouteSocket(a, w) {
      chain := [];
    } else {
      var k := a.sockets[w].vnode;
      assert Handles(0, |a.nodes|)[k] == k;
      var c := VContinuation(a.nodes[k], side).value;
      var rest := VResolveSound(a, c, side, visited + {k}, x);
      chain := [k] + rest;
      assert chain[1..] == rest;
    }
  }

  /** Completeness: every path through reroutes ends at a resolved connection. */
  lemma {:induction false} VPathResolved(a: Arena, h: nat, side: Side, chain: seq<nat>, x: nat, visited: set<nat>)
    requires VReroutePath(a, h, side, chain, x, visited)
    ensures x in VResolve(a, h, side, visited)
    decreases |chain|, 1
  {
    var w :| w in VDirectOf(a.links, h) && VVia(a, w, side, chain, x, visited);
    VViaResolved(a, w, side, chain, x, visited);
    VResolveAllIncludes(a, VDirectOf(a.links, h), side, visited, w, x);
  }

  lemma {:induction false} VViaResolved(a: Arena, w: nat, side: Side, chain: seq<nat>, x: nat, visited: set<nat>)
    requires VVia(a, w, side, chain, x, visited)
    ensures x in VResolveOne(a, w, side, visited)
    decreases |chain|, 0
  {
    if chain != [] {
      var k := chain[0];
      VPathResolved(a, VContinuation(a.nodes[k], side).value, side, chain[1..], x, visited + {k});
    }
  }

  /** A socket is resolved from `h` exactly when a path through distinct, unvisited reroutes leads from `h` to it. */
  lemma VResolveIff(a: Arena, h: nat, side: Side, visited: set<nat>, x: nat)
    ensures x in VResolve(a, h, side, visited) <==> VReaches(a, h, side, x, visited)
  {
    if x in VResolve(a, h, side, visited) {
      var chain := VResolveSound(a, h, side, visited, x);
      assert VReroutePath(a, h, side, chain, x, visited);
    }
    if VReaches(a, h, side, x, visited) {
      var chain :| VReroutePath(a, h, side, chain, x, visited);
      VPathResolved(a, h, side, chain, x, visited);
    }
  }

  /** What `links()` of socket `h` holds: exactly the sockets a reroute path reaches on its side. */
  lemma VLinkedIff(a: Arena, h: nat)
    requires h < |a.sockets|
    ensures forall x :: x in VLinkedOf(a, h) <==> VReaches(a, h, SideOf(a.sockets[h].bsocket), x, {})
  {
    forall x ensures x in VLinkedOf(a, h) <==> VReaches(a, h, SideOf(a.sockets[h].bsocket), x, {}) {
      VResolveIff(a, h, SideOf(a.sockets[h].bsocket), {}, x);
    }
  }

  // ----- inputs with links -----

  /** The input sockets among the first `n` handles that have at least one resolved link, in handle order. */
  function InputsWithLinksPrefix(a: Arena, n: nat): seq<nat>
    requires n <= |a.sockets|
  {
    if n == 0 then []
    else InputsWithLinksPrefix(a, n - 1) + (if IsInputSocket(a, n - 1) && VLinkedOf(a, n - 1) != [] then [n - 1] else [])
  }

  function InputsWithLinksOf(a: Arena): seq<nat> {
    InputsWithLinksPrefix(a, |a.sockets|)
  }

  /** Exactly the linked inputs are listed, each once and in handle order. */
  lemma {:induction false} InputsWithLinksIff(a: Arena, n: nat)
    requires n <= |a.sockets|
    ensures forall h: nat :: h in InputsWithLinksPrefix(a, n) <==> h < n && IsInputSocket(a, h) && VLinkedOf(a, h) != []
    ensures StrictlyIncreasing(InputsWithLinksPrefix(a, n))
  {
    if n > 0 {
      InputsWithLinksIff(a, n - 1);
      var p := InputsWithLinksPrefix(a, n - 1);
      var e := if IsInputSocket(a, n - 1) && VLinkedOf(a, n - 1) != [] then [n - 1] else [];
      assert InputsWithLinksPrefix(a, n) == p + e;
      assert forall i :: 0 <= i < |p| ==> p[i] < n - 1 by {
        forall i | 0 <= i < |p| ensures p[i] < n - 1 { assert p[i] in p; }
      }
    }
  }

  /** Without links no socket is linked, so no input is listed. */
  lemma {:induction false} NoLinksNoInputs(a: Arena, n: nat)
    requires a.links == [] && n <= |a.sockets|
    ensures InputsWithLinksPrefix(a, n) == []
  {
    if n > 0 {
      NoLinksNoInputs(a, n - 1);
      assert VDirectOf(a.links, n - 1) == [];
      assert VLinkedOf(a, n - 1) == VResolveAll(a, [], SideOf(a.sockets[n - 1].bsocket), {});
    }
  }

  // ----- nodes by idname -----

  /** The idname multi-map: each node handle is added under its raw node's idname, in node order. */
  function VIdnameMap(nodes: seq<VNode>): map<string, seq<nat>> {
    if nodes == [] then map[]
    else Add(VIdnameMap(nodes[..|nodes| - 1]), nodes[|nodes| - 1].bnode.idname, |nodes| - 1)
  }

  /** Looking up `id` gives the handles of exactly the nodes with that idname, each once and in node order. */
  lemma {:induction false} VIdnameMapMembers(nodes: seq<VNode>, id: string)
    ensures forall k: nat :: k in LookupDefault(VIdnameMap(nodes), id) <==> k < |nodes| && nodes[k].bnode.idname == id
    ensures StrictlyIncreasing(LookupDefault(VIdnameMap(nodes), id))
  {
    if nodes != [] {
      var p := nodes[..|nodes| - 1];
      var q := LookupDefault(VIdnameMap(p), id);
      VIdnameMapMembers(p, id);
      AddLookup(VIdnameMap(p), nodes[|nodes| - 1].bnode.idname, |nodes| - 1, id);
      forall k: nat | k < |p| ensures p[k] == nodes[k] {}
      assert forall i :: 0 <= i < |q| ==> q[i] < |p| by {
        forall i | 0 <= i < |q| ensures q[i] < |p| { assert q[i] in q; }
      }
    }
  }
}
