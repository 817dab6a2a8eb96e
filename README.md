# Node-tree indexing layer: IndexedNodeTree and VirtualNodeTree

This project models the two indexing layers that `BKE_node_tree.hpp` puts over
a raw node tree (a `bNodeTree`: nodes with ordered input and output sockets,
and directed links from output sockets to input sockets).

* **IndexedNodeTree** is built once, in its constructor, over one raw tree.
  It keeps the original node and link lists and the actual nodes (neither
  reroutes nor frames). It also keeps a socket-to-node map, multi-maps for the
  direct links, the reroute-resolved links and the nodes by idname, and the
  list of single-origin links. In the model it is a class with `const` fields,
  filled by static passes over the nodes and the links. Each pass is proved
  equal to a specification function of the raw tree in `IndexedTreeSpec`. Each
  query is tied to the meaning of that function: membership, ownership, the
  empty answer when nothing is there, and resolution through reroutes.
* **VirtualNodeTree** goes through two phases. While building, `AddBnode`,
  `AddLink` and `AddAllOfTree` add virtual nodes, sockets and links to an
  arena that the tree owns. `FreezeAndIndex` then records each socket's direct
  links and resolved links, the inputs that have links, and the nodes by
  idname. The queries that need these indices require a frozen tree. The
  virtual nodes, sockets and links are values in three sequences of the
  class, and their cross-references are handles (indices) into those
  sequences. Every state change is stated as a function of the old state
  (`AppendNode`, `Oriented`, `AppendNodes`). The class invariant `Valid`
  (arena and links consistent; no index before freezing, every index after)
  is preserved by every public operation (`AddBnode`, `AddLink`,
  `AddAllOfTree`, `FreezeAndIndex`). The internal passes that these call
  (`AllocateSockets` and the three `Initialize*` passes) state only the
  fields they change.

Only the header is part of the source. The bodies of the IndexedNodeTree
constructor, `linked`, `single_origin_links`, `nodes_with_idname`,
`add_all_of_tree`, `add_bnode`, `add_link`, `freeze_and_index` and the
`initialize_*` passes are modelled from their declarations, the fields they
fill and the header's doc comment. Reroute resolution follows a reroute's
first input when going towards sources and its first output when going
towards targets. Along one path, each reroute is entered at most once. The
resolved links of a socket are characterised independently of the recursion:
a socket is among them exactly when a path through distinct reroutes leads to
it (`ResolveIff`, `VResolveIff`).

Files: `node_dna.dfy` holds the raw tree and the multi-map.
`indexed_tree_spec.dfy` and `indexed_tree.dfy` hold IndexedNodeTree.
`virtual_tree_spec.dfy` and `virtual_tree.dfy` hold VirtualNodeTree and its
node, socket and link wrappers. `scenarios.dfy` holds four small concrete
trees.

## Model

| member | source | states |
|---|---|---|
| MultiMap.LookupDefault | source/blender/blenkernel/BKE_node_tree.hpp:158-162 | a key that was never added has no values |
| MultiMap.AddLookup | source/blender/blenkernel/BKE_node_tree.hpp:117-119 | adding under a key appends to that key's values and leaves all other keys unchanged |
| IndexedTreeSpec.FilterActualMembers | source/blender/blenkernel/BKE_node_tree.hpp:88-94 | a node is an actual node exactly when it is an original node and neither a reroute nor a frame |
| IndexedTreeSpec.FilterActualConcat | source/blender/blenkernel/BKE_node_tree.hpp:88-94 | filtering keeps the original order: the actual nodes of two concatenated lists are those of each list in turn |
| IndexedTreeSpec.FilterPartition | source/blender/blenkernel/BKE_node_tree.hpp:88-94 | kept and dropped nodes together are the original nodes as a multiset, and every dropped node is a reroute or a frame |
| IndexedTreeSpec.AddOwnerLookup | source/blender/blenkernel/BKE_node_tree.hpp:116 | recording a node as owner of a socket list maps exactly those sockets to it and leaves other entries unchanged |
| IndexedTreeSpec.SocketOwnerMapKeys | source/blender/blenkernel/BKE_node_tree.hpp:96-99 | the socket map has an entry exactly for the sockets of the tree, and the entry is a node of the tree that declares the socket |
| IndexedTreeSpec.SocketOwnerMapIsOwner | source/blender/blenkernel/BKE_node_tree.hpp:96-99 | when each socket belongs to one node, the map's entry for a socket is the node that declared it |
| IndexedTreeSpec.DirectMapLookup | source/blender/blenkernel/BKE_node_tree.hpp:117 | looking a socket up in the direct-link multi-map gives its one-hop connections in link order |
| IndexedTreeSpec.DirectOfIff | source/blender/blenkernel/BKE_node_tree.hpp:117 | a socket is directly connected to a socket-with-node exactly when some link joins the two, in either direction |
| IndexedTreeSpec.ResolvedAreReal | source/blender/blenkernel/BKE_node_tree.hpp:109-110 | resolution never ends at a reroute: every socket it yields belongs to a non-reroute node |
| IndexedTreeSpec.ResolveWithoutReroutes | source/blender/blenkernel/BKE_node_tree.hpp:109-110 | connections that are not reroutes resolve to themselves, in order |
| IndexedTreeSpec.LinkedWithoutReroutes | source/blender/blenkernel/BKE_node_tree.hpp:41-50 | a socket with no reroute among its direct connections resolves to exactly its direct connections |
| IndexedTreeSpec.RealNeighbourResolved | source/blender/blenkernel/BKE_node_tree.hpp:109-110 | a direct connection to a non-reroute node appears among the resolved connections |
| IndexedTreeSpec.ChainResolvesToSource | source/blender/blenkernel/BKE_node_tree.hpp:41-50 | a chain of any number of reroutes resolves exactly like one direct link to its source |
| IndexedTreeSpec.ResolveAllIncludes | source/blender/blenkernel/BKE_node_tree.hpp:109-110 | what one connection resolves to stays in the resolution of any list that holds the connection |
| IndexedTreeSpec.RerouteResolvedIncluded | source/blender/blenkernel/BKE_node_tree.hpp:109-110 | everything behind a neighbouring reroute, fanning out or not, is among the resolved connections of the socket |
| IndexedTreeSpec.ResolveSound | source/blender/blenkernel/BKE_node_tree.hpp:109-110 | every resolved connection is reached from the socket by a path through distinct, unvisited reroutes |
| IndexedTreeSpec.PathResolved | source/blender/blenkernel/BKE_node_tree.hpp:109-110 | every non-reroute socket that such a path reaches is among the resolved connections |
| IndexedTreeSpec.ResolveIff | source/blender/blenkernel/BKE_node_tree.hpp:41-50 | a connection is resolved from a socket exactly when a reroute path leads from the socket to it |
| IndexedTreeSpec.LinkedIff | source/blender/blenkernel/BKE_node_tree.hpp:103 | `linked` of a tree socket holds exactly the connections that a reroute path on the socket's side reaches, and nothing for other sockets |
| IndexedTreeSpec.AddResolvedLookup | source/blender/blenkernel/BKE_node_tree.hpp:118 | recording resolved links for a socket list sets exactly those sockets' entries to their resolution |
| IndexedTreeSpec.LinksMapLookup | source/blender/blenkernel/BKE_node_tree.hpp:118 | the resolved-link map gives a tree socket its resolution, towards sources for an input and towards targets for an output, and gives other sockets nothing |
| IndexedTreeSpec.LinksMapIsLinked | source/blender/blenkernel/BKE_node_tree.hpp:103 | the map the constructor builds answers `linked` for every socket |
| IndexedTreeSpec.NodesWithIdnameMembers | source/blender/blenkernel/BKE_node_tree.hpp:102 | a node is listed under an idname exactly when it is a node of the tree with that idname |
| IndexedTreeSpec.IdnameMapLookup | source/blender/blenkernel/BKE_node_tree.hpp:119 | looking an idname up in the multi-map gives the nodes with that idname in order, and nothing when there are none |
| IndexedTreeSpec.SingleOriginPrefixIff | source/blender/blenkernel/BKE_node_tree.hpp:120 | an entry is among those of the first n links exactly when its link is among them and its target resolves to the single origin it names |
| IndexedTreeSpec.SingleOriginLinksIff | source/blender/blenkernel/BKE_node_tree.hpp:101 | a single-origin entry exists exactly when the target of its link resolves to one origin, which is the entry's source |
| IndexedTreeSpec.SingleOriginResolvesLeft | source/blender/blenkernel/BKE_node_tree.hpp:101 | in a well-formed tree an entry exists exactly when its link's target, resolved towards its sources, has one origin, the entry's source |
| IndexedTree.IndexedNodeTree.constructor | source/blender/blenkernel/BKE_node_tree.hpp:53 | indexes a well-formed tree; afterwards every index equals its specification function |
| IndexedTree.IndexedNodeTree.IndexNodes | source/blender/blenkernel/BKE_node_tree.hpp:113-119 | one pass over the nodes yields the actual nodes, the socket-to-node map and the idname multi-map |
| IndexedTree.IndexedNodeTree.AddOwners | source/blender/blenkernel/BKE_node_tree.hpp:116 | records a node as owner of each socket of a list |
| IndexedTree.IndexedNodeTree.IndexDirectLinks | source/blender/blenkernel/BKE_node_tree.hpp:117 | one pass over the links yields the direct-link multi-map, and looking up any socket gives its direct connections |
| IndexedTree.IndexedNodeTree.IndexLinks | source/blender/blenkernel/BKE_node_tree.hpp:118 | resolving every socket of every node yields the resolved-link map |
| IndexedTree.IndexedNodeTree.AddResolvedSockets | source/blender/blenkernel/BKE_node_tree.hpp:118 | records the resolution of each socket of a list |
| IndexedTree.IndexedNodeTree.IndexSingleOriginLinks | source/blender/blenkernel/BKE_node_tree.hpp:120 | one pass over the links keeps, in link order, the targets whose resolved links hold exactly one origin |
| IndexedTree.IndexedNodeTree.FindConnectedSockets | source/blender/blenkernel/BKE_node_tree.hpp:109-110 | appends the connections of a socket on a side, passing through reroutes, exactly as the resolution function gives them |
| IndexedTree.IndexedNodeTree.FollowSocket | source/blender/blenkernel/BKE_node_tree.hpp:109-110 | appends what one connection resolves to: itself, or what its reroute passes on |
| IndexedTree.IndexedNodeTree.OriginalNodes | source/blender/blenkernel/BKE_node_tree.hpp:72-78 | the tree's node list, unfiltered and in order |
| IndexedTree.IndexedNodeTree.OriginalLinks | source/blender/blenkernel/BKE_node_tree.hpp:80-86 | the tree's link list, unfiltered and in order |
| IndexedTree.IndexedNodeTree.ActualNodes | source/blender/blenkernel/BKE_node_tree.hpp:88-94 | exactly the original nodes that are neither reroutes nor frames, in original order |
| IndexedTree.IndexedNodeTree.NodeOfSocket | source/blender/blenkernel/BKE_node_tree.hpp:96-99 | for a socket of the tree, a node of the tree that declares it, and the only one |
| IndexedTree.IndexedNodeTree.NodesWithIdname | source/blender/blenkernel/BKE_node_tree.hpp:102 | exactly the nodes with the idname, in order; nothing when no node has it |
| IndexedTree.IndexedNodeTree.Linked | source/blender/blenkernel/BKE_node_tree.hpp:103 | the reroute-resolved connections of a socket: exactly those a reroute path on its side reaches, none of them a reroute; nothing for a socket outside the tree |
| IndexedTree.IndexedNodeTree.SingleOriginLinks | source/blender/blenkernel/BKE_node_tree.hpp:101 | the precomputed single-origin entries of the tree, in link order |
| VirtualTreeSpec.Oriented | source/blender/blenkernel/BKE_node_tree.hpp:138 | a link joins exactly the two given sockets, and when one is an input and the other an output it runs from the output to the input |
| VirtualTreeSpec.VSocketOwnedOnce | source/blender/blenkernel/BKE_node_tree.hpp:244 | in a consistent arena a socket is listed by exactly one node, the one it names |
| VirtualTreeSpec.AppendNodeConsistent | source/blender/blenkernel/BKE_node_tree.hpp:137 | adding a node and its sockets keeps the arena consistent, keeps the old nodes, sockets and links, and puts a node wrapping the raw node at the end |
| VirtualTreeSpec.AppendNodesShape | source/blender/blenkernel/BKE_node_tree.hpp:136 | adding a list of raw nodes keeps the arena consistent, keeps what was there, and puts one wrapper per raw node at the end, in order |
| VirtualTreeSpec.AppendLinkConsistent | source/blender/blenkernel/BKE_node_tree.hpp:138 | adding a link between an input and an output keeps every link going from an output to an input |
| VirtualTreeSpec.FirstWrappingOutput | source/blender/blenkernel/BKE_node_tree.hpp:136 | a raw output of a wrapped node is found among the wrapper's outputs, and the socket found wraps it |
| VirtualTreeSpec.FirstWrappingInput | source/blender/blenkernel/BKE_node_tree.hpp:136 | a raw input of a wrapped node is found among the wrapper's inputs, and the socket found wraps it |
| VirtualTreeSpec.FirstWrappingFound | source/blender/blenkernel/BKE_node_tree.hpp:136 | the search for a raw socket among handles succeeds whenever some handle wraps it |
| VirtualTreeSpec.VDirectOfIff | source/blender/blenkernel/BKE_node_tree.hpp:170 | a socket's direct links are exactly the far ends of the links that touch it |
| VirtualTreeSpec.DirectNeighbours | source/blender/blenkernel/BKE_node_tree.hpp:282-286 | the direct links of an input are outputs of the arena, and those of an output are inputs |
| VirtualTreeSpec.VResolvedAreReal | source/blender/blenkernel/BKE_node_tree.hpp:288-292 | resolution never ends at a reroute, and every socket it yields exists |
| VirtualTreeSpec.VResolveWithoutReroutes | source/blender/blenkernel/BKE_node_tree.hpp:171 | connections that are not reroutes resolve to themselves, in order |
| VirtualTreeSpec.VLinkedWithoutReroutes | source/blender/blenkernel/BKE_node_tree.hpp:171 | a socket with no reroute among its direct links has exactly its direct links as links |
| VirtualTreeSpec.VRealNeighbourResolved | source/blender/blenkernel/BKE_node_tree.hpp:171 | a direct link that is not on a reroute appears among the resolved links |
| VirtualTreeSpec.VChainResolvesToSource | source/blender/blenkernel/BKE_node_tree.hpp:288-292 | a chain of any number of reroutes, one link per hop, resolves exactly like one direct link to its source |
| VirtualTreeSpec.VResolveAllIncludes | source/blender/blenkernel/BKE_node_tree.hpp:171 | what one link resolves to stays in the resolution of any list that holds the link |
| VirtualTreeSpec.VRerouteResolvedIncluded | source/blender/blenkernel/BKE_node_tree.hpp:171 | everything behind a neighbouring reroute, fanning out or not, is among the resolved links of the socket |
| VirtualTreeSpec.VResolveSound | source/blender/blenkernel/BKE_node_tree.hpp:171 | every resolved link is reached from the socket by a path through distinct, unvisited reroute nodes |
| VirtualTreeSpec.VPathResolved | source/blender/blenkernel/BKE_node_tree.hpp:171 | every non-reroute socket that such a path reaches is among the resolved links |
| VirtualTreeSpec.VResolveIff | source/blender/blenkernel/BKE_node_tree.hpp:171 | a socket is resolved from another exactly when a reroute path leads from one to the other |
| VirtualTreeSpec.VLinkedIff | source/blender/blenkernel/BKE_node_tree.hpp:288-292 | `links()` of a socket holds exactly the sockets that a reroute path on its side reaches |
| VirtualTreeSpec.InputsWithLinksIff | source/blender/blenkernel/BKE_node_tree.hpp:152-156 | exactly the input sockets with at least one resolved link are listed, each once, in handle order |
| VirtualTreeSpec.NoLinksNoInputs | source/blender/blenkernel/BKE_node_tree.hpp:152-156 | without links no input is listed |
| VirtualTreeSpec.VIdnameMapMembers | source/blender/blenkernel/BKE_node_tree.hpp:158-162 | looking up an idname gives exactly the nodes with that idname, each once and in node order |
| VirtualTree.VirtualNodeTree.constructor | source/blender/blenkernel/BKE_node_tree.hpp:129 | a new tree is empty, not frozen and valid |
| VirtualTree.VirtualNodeTree.AddBnode | source/blender/blenkernel/BKE_node_tree.hpp:137 | while building, appends a node wrapping the raw node together with one socket per raw socket, and returns its handle |
| VirtualTree.VirtualNodeTree.AllocateSockets | source/blender/blenkernel/BKE_node_tree.hpp:134 | allocates the sockets of a node in the arena, in raw order, and returns their consecutive handles |
| VirtualTree.VirtualNodeTree.AddLink | source/blender/blenkernel/BKE_node_tree.hpp:138 | while building, appends a link between an input and an output of this tree, oriented from the output |
| VirtualTree.VirtualNodeTree.AddAllOfTree | source/blender/blenkernel/BKE_node_tree.hpp:136 | adds a wrapper for every raw node in order, then a link for every raw link between the wrappers of its sockets in the wrappers of its nodes |
| VirtualTree.VirtualNodeTree.AddNodesOf | source/blender/blenkernel/BKE_node_tree.hpp:136 | adds a wrapper for every raw node and maps each raw node to its wrapper's handle |
| VirtualTree.VirtualNodeTree.AddLinksOf | source/blender/blenkernel/BKE_node_tree.hpp:136 | adds a link for every raw link, between the sockets wrapping its raw endpoints |
| VirtualTree.VirtualNodeTree.FreezeAndIndex | source/blender/blenkernel/BKE_node_tree.hpp:140 | computes every index from the unchanged arena and enters the frozen phase |
| VirtualTree.VirtualNodeTree.InitializeDirectLinks | source/blender/blenkernel/BKE_node_tree.hpp:170 | records every link on both endpoints: each socket's direct links are the far ends of its links in link order |
| VirtualTree.VirtualNodeTree.InitializeLinks | source/blender/blenkernel/BKE_node_tree.hpp:171 | gives every socket its resolved links and collects the inputs that have any |
| VirtualTree.VirtualNodeTree.InitializeNodesByIdname | source/blender/blenkernel/BKE_node_tree.hpp:172 | groups the node handles by idname, in node order |
| VirtualTree.VirtualNodeTree.IsFrozen | source/blender/blenkernel/BKE_node_tree.hpp:164-167 | reports the frozen flag; a frozen tree holds all its indices |
| VirtualTree.VirtualNodeTree.Nodes | source/blender/blenkernel/BKE_node_tree.hpp:142-145 | the handles of all nodes, reroutes included, in order, each wrapping its raw node |
| VirtualTree.VirtualNodeTree.Links | source/blender/blenkernel/BKE_node_tree.hpp:147-150 | all links in order, each from an output socket to an input socket |
| VirtualTree.VirtualNodeTree.InputsWithLinks | source/blender/blenkernel/BKE_node_tree.hpp:152-156 | frozen only: exactly the inputs with a resolved link, each once and in handle order |
| VirtualTree.VirtualNodeTree.NodesWithIdname | source/blender/blenkernel/BKE_node_tree.hpp:158-162 | frozen only: exactly the nodes with the idname, each once and in order; nothing when there are none |
| VirtualTree.VirtualNodeTree.Inputs | source/blender/blenkernel/BKE_node_tree.hpp:187-190 | one input socket per raw input, the i-th wrapping the i-th raw input |
| VirtualTree.VirtualNodeTree.Outputs | source/blender/blenkernel/BKE_node_tree.hpp:192-195 | one output socket per raw output, the i-th wrapping the i-th raw output |
| VirtualTree.VirtualNodeTree.Input | source/blender/blenkernel/BKE_node_tree.hpp:197-200 | for an index in bounds, the i-th element of the inputs, a socket of this node wrapping the i-th raw input |
| VirtualTree.VirtualNodeTree.Output | source/blender/blenkernel/BKE_node_tree.hpp:202-205 | for an index in bounds, the i-th element of the outputs, a socket of this node wrapping the i-th raw output |
| VirtualTree.VirtualNodeTree.Bnode | source/blender/blenkernel/BKE_node_tree.hpp:207-210 | the wrapped raw node: as many raw inputs and outputs as the node has sockets, and its raw inputs are those the node's input sockets wrap, in order |
| VirtualTree.VirtualNodeTree.NodeBtree | source/blender/blenkernel/BKE_node_tree.hpp:212-215 | the raw tree of the node, which is the raw tree of each of its input sockets |
| VirtualTree.VirtualNodeTree.Name | source/blender/blenkernel/BKE_node_tree.hpp:229-232 | the raw node's name |
| VirtualTree.VirtualNodeTree.Idname | source/blender/blenkernel/BKE_node_tree.hpp:234-237 | the raw node's idname |
| VirtualTree.VirtualNodeTree.IsInput | source/blender/blenkernel/BKE_node_tree.hpp:252-255 | the raw socket's direction is input; a socket is an input exactly when it is not an output |
| VirtualTree.VirtualNodeTree.IsOutput | source/blender/blenkernel/BKE_node_tree.hpp:257-260 | the raw socket's direction is output |
| VirtualTree.VirtualNodeTree.Bsocket | source/blender/blenkernel/BKE_node_tree.hpp:262-265 | the wrapped raw socket, a raw socket of the raw node its node wraps |
| VirtualTree.VirtualNodeTree.SocketBtree | source/blender/blenkernel/BKE_node_tree.hpp:267-270 | the raw tree of the socket, which is that of its node |
| VirtualTree.VirtualNodeTree.Vnode | source/blender/blenkernel/BKE_node_tree.hpp:277-280 | the one node that lists the socket among its inputs or outputs |
| VirtualTree.VirtualNodeTree.DirectLinks | source/blender/blenkernel/BKE_node_tree.hpp:282-286 | frozen only: the socket's one-hop links in link order, outputs for an input and inputs for an output |
| VirtualTree.VirtualNodeTree.SocketLinks | source/blender/blenkernel/BKE_node_tree.hpp:288-292 | frozen only: the socket's reroute-resolved links: exactly the sockets a reroute path on its side reaches, none of them on a reroute |
| VirtualTree.VirtualNodeTree.SocketName | source/blender/blenkernel/BKE_node_tree.hpp:301-304 | the raw socket's name |
| VirtualTree.ResolveEverySocket | source/blender/blenkernel/BKE_node_tree.hpp:171 | every socket's resolved links by handle, and the inputs with any, in handle order |
| VirtualTree.FindVSocket | source/blender/blenkernel/BKE_node_tree.hpp:136 | the first of the given socket handles that wraps the raw socket, or none |
| VirtualTree.FindConnected | source/blender/blenkernel/BKE_node_tree.hpp:171 | appends a socket's links on a side, passing through reroutes, exactly as the resolution function gives them |
| VirtualTree.FollowConnection | source/blender/blenkernel/BKE_node_tree.hpp:171 | appends what one direct link resolves to: itself, or what its reroute passes on |
| Scenarios.ChainThroughReroute | source/blender/blenkernel/BKE_node_tree.hpp:41-50 | A feeding B through one reroute: the actual nodes are A and B, B's input is linked to A's output alone, and it has a single-origin entry |
| Scenarios.FanOutThroughReroute | source/blender/blenkernel/BKE_node_tree.hpp:109-110 | an output feeding a reroute that fans out to B and C is linked to both targets, in link order |
| Scenarios.TwoSourcesAmbiguous | source/blender/blenkernel/BKE_node_tree.hpp:101-103 | an input fed by two sources is linked to both and has no single-origin entry |
| Scenarios.TwoUnconnectedNodes | source/blender/blenkernel/BKE_node_tree.hpp:137-156 | two unconnected nodes added and frozen give two nodes, no links and no linked inputs |

## Left out

- `rna()` and `btree_id()` of all three classes (foreign calls into the RNA system) are not modelled. The IndexedNodeTree `btree()` getter is the class's public `btree` constant.
- The monotonic allocator is modelled as the tree's own sequences, indexed by handle. Teardown and memory are not modelled.
- Raw pointers are values. Nodes and sockets carry an `id` so that equal-looking sockets stay distinct. Aliasing of the raw tree is not modelled.
- The headers say an index is valid only while the raw tree is unmodified. The model has no mutable raw tree, so this is not modelled.
- `is_reroute` and `is_frame` have no bodies in the header. A node carries a `kind` field instead.
- The bodies that are not shown are modelled from the fields they fill. Along one resolution path a reroute is entered at most once: a path that comes back to a reroute it has already passed stops there and adds nothing, while the other branches of the same resolution are kept. A socket's resolved links run towards sources for an input and towards targets for an output.
- The order of the resolution loops follows the order of the link list. The freeze passes follow handle order.
- The single-origin pass reads the resolved links of each link's target from the map built just before.
- `nodes()` and `links()` have no frozen assertion in the header, so the model does not require a frozen tree for them.
- `add_link` takes its sockets in either order and records the output as the source. Its precondition is that one socket is an input and the other an output.
- A second `freeze_and_index` is a contract violation: `FreezeAndIndex` requires a tree that is not frozen. Mutation after freezing is ruled out the same way.
- The back-reference from a node to its tree is implicit: handles refer into the arena of the tree that owns them, and the frozen-only socket queries require that tree to be frozen.
- `VirtualLink` has no public accessors, so it is the `VLink` value `(from, to)` alone.
- VirtualTree.VirtualNodeTree.AddAllOfTree: states that each new link joins the sockets wrapping the raw endpoints. Which of several equal wrappers is picked is stated by `FindVSocket` instead.
- The three other files under `source/` are context, not core, and are not part of this model: the Python stroke-shader binding, the OBJ material exporter and the texture viewer node.
