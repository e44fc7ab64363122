# LLDP topology graph, modelled in Dafny

This is a model of the topology core of an LLDP network-discovery tool. The core is
`LLDP/Graph.py`, with its three classes:

- `GLink` is one adjacency a device reports: the local interface, the remote interface,
  the remote hostname and the capability codes.
- `GNode` is one device and the links it holds. A node is DIRECT when it was probed
  itself, and INDIRECT when it is known only because a neighbour named it.
- `GGraph` is the list of nodes. It has five parts:
  - the builder `add_node`. It merges a node into the graph and, for a DIRECT node,
    synthesises an INDIRECT node for every neighbour;
  - `get_node_names`;
  - `find_nodename`;
  - `compare`, a three-state diff of two graph snapshots: "added" / "removed" / "" for
    unchanged;
  - `draw`. It gives each node an icon coloured by its diff tag, and draws each
    adjacency once, by marking the reciprocal link at the far end as drawn.

The modules follow the source's structure:

| module | file | models |
|---|---|---|
| `Names` | `names.dfy` | `split('.')[0]` on hostnames, `split(':')[-1]` on interface names |
| `Links` | `links.dfy` | `GLink` as a value; link-key search, the duplicate-free merge of `append`, the link diff of `GNode.compare`, the reciprocal search of `set_link_drawn` |
| `DeviceTypes` | `devicetypes.dfy` | the capability-code classification of `set_device_type` |
| `Nodes` | `nodes.dfy` | the `GNode` class: fields updated in place by its methods |
| `Diffs` | `diff.dfy` | node snapshots (`NodeView`) and the graph diff stated on them |
| `Drawing` | `draw.dfy` | colours, icons, and the edge scan of `draw` as functions on snapshots |
| `Graphs` | `graph.dfy` | the `GGraph` class: `add_node` and its helpers, `compare`, `draw` |

`GNode` and `GGraph` are classes, because the source updates their fields in place. A
`GLink` is a datatype value held in the `links` sequence of its node. The methods of the
two classes are loops and in-place updates. Their contracts relate the new state to the
old state through the ghost snapshot `Views(nodes)`, and through pure specification
functions (`MergeLinks`, `CompareLinks`, `DiffViews`, `DrawScan`). The properties of those
functions are proved as separate lemmas.

## Model

| member | source | states |
|---|---|---|
| Names.HostPart | LLDP/Graph.py:66 | the host part has no '.', is a prefix of the name, and stops at the first '.' or at the end |
| Names.HostPartUnique | LLDP/Graph.py:32 | those three properties determine the host part uniquely |
| Names.HostPartOfPlain | LLDP/Graph.py:66 | a name without '.' is unchanged |
| Names.HostPartIdempotent | LLDP/Graph.py:66 | stripping twice equals stripping once |
| Names.IfPart | LLDP/Graph.py:110 | the interface part has no ':', is no longer than the name, and is preceded by ':' when shorter |
| Names.IfPartIsSuffix | LLDP/Graph.py:110 | the name is the dropped prefix followed by the interface part |
| Names.IfPartOfPlain | LLDP/Graph.py:110 | an interface name without ':' is unchanged |
| Names.IfPartIdempotent | LLDP/Graph.py:110 | stripping twice equals stripping once |
| Links.NewLink | LLDP/Graph.py:28-38 | the remote hostname has its domain stripped; interface names and capabilities are kept; the link is untagged and not drawn |
| Links.Reversed | LLDP/Graph.py:193-195 | the link a synthesised neighbour holds: interfaces swapped and stripped, pointing back at the node's stripped hostname, no capabilities, untagged, not drawn; for names without '.' or ':' it is a reciprocal of the original |
| Links.Link.SetComp | LLDP/Graph.py:41-42 | only the tag changes, to the given value |
| Links.Link.SetDrawn | LLDP/Graph.py:45-47 | only the drawn flag changes, to the given value |
| Links.FindKey | LLDP/Graph.py:113-117 | true exactly when some link has the same (local interface, remote interface, remote hostname) key |
| Links.MergeLinks | LLDP/Graph.py:127-132 | the existing links are a prefix; every result link comes from one of the two lists; every incoming key is present; every appended link has a key that was missing |
| Links.MergeLinksNoDup | LLDP/Graph.py:127-132 | a key-duplicate-free list stays duplicate-free |
| Links.MergeLinksKeys | LLDP/Graph.py:127-132 | a key is in the result exactly when it is in one of the two lists |
| Links.MergeLinksAllPresent | LLDP/Graph.py:127-132 | nothing is appended when every incoming key is already present |
| Links.MergeLinksSelf | LLDP/Graph.py:127-132 | appending a node's links to itself changes nothing |
| Links.MergeLinksIdempotent | LLDP/Graph.py:127-132 | appending the same links twice equals appending them once |
| Links.TagAll | LLDP/Graph.py:73-76 | same length; every link keeps its key and gets the tag |
| Links.TagOwn | LLDP/Graph.py:139-147 | one link per own link, in order; each is the own link with only its tag set: "" exactly when the other node holds its key, "added" exactly when it does not |
| Links.Unmatched | LLDP/Graph.py:149-159 | only links of the other node, each tagged "removed", and none whose key the own node holds |
| Links.UnmatchedComplete | LLDP/Graph.py:149-159 | every link of the other node whose key the own node lacks appears, tagged "removed" |
| Links.CompareLinks | LLDP/Graph.py:135-161 | at least the own links and at most both lists; the own links come first, with their keys and never "removed"; every later link is "removed" with a key the own node lacks |
| Links.CompareLinksSpec | LLDP/Graph.py:135-161 | own links first, in order; each tagged "added" exactly when unmatched and "" exactly when matched; then unmatched links of the other node only, tagged "removed", every one of them present |
| Links.UnmatchedCovered | LLDP/Graph.py:149-159 | nothing is unmatched when the own node holds every key of the other |
| Links.CompareLinksIdentity | LLDP/Graph.py:135-161 | comparing a link list with itself tags every link "" and adds none |
| Links.CompareLinksAgainstEmpty | LLDP/Graph.py:139-147 | against a node without links, every own link is "added" |
| Links.CompareLinksFromEmpty | LLDP/Graph.py:149-159 | from a node without links, every link of the other node is "removed" |
| Links.ReciprocalIndex | LLDP/Graph.py:120-125 | -1 exactly when no link is the reciprocal (swapped interfaces, pointing back); otherwise the first reciprocal |
| DeviceTypes.Classify | LLDP/Graph.py:84-101 | the result carries none of the codes R, T, S, B, W; it is empty exactly when the input is empty; a string without codes is kept |
| DeviceTypes.ClassifyIdempotent | LLDP/Graph.py:84-101 | classification maps its own results to themselves |
| DeviceTypes.StableIffNoCode | LLDP/Graph.py:84-101 | a type is a fixed point exactly when it has none of the codes |
| DeviceTypes.NextType | LLDP/Graph.py:79-101 | an empty capability string keeps the current type; any other gives a non-empty type without codes; a stable type stays stable |
| DeviceTypes.NextTypeOfStable | LLDP/Graph.py:79-101 | feeding a stable type back in gives that type, or keeps the current type when it is empty; stability is kept |
| DeviceTypes.NextTypeIdempotent | LLDP/Graph.py:79-101 | applying the same capability string twice equals applying it once |
| DeviceTypes.ClassifyIsFirstMatch | LLDP/Graph.py:84-101 | the if-chain equals first-match over the rule table RB, R, TB, T, S, B, W, with the raw string as fallback |
| DeviceTypes.RouterExactly | LLDP/Graph.py:84-88 | the type is "router" exactly when R is present without B, or when the input is literally "router" |
| Nodes.GNode.constructor | LLDP/Graph.py:57-70 | hostname stripped, origin kept, no links, untagged, empty device type, invariant holds |
| Nodes.GNode.SetComp | LLDP/Graph.py:73-76 | the node and every link get the tag; nothing else changes |
| Nodes.GNode.SetDeviceType | LLDP/Graph.py:79-101 | the device type becomes the classification, or is kept for an empty string; links and tag unchanged |
| Nodes.GNode.AddLink | LLDP/Graph.py:104-106 | the link is appended and the neighbour count rises by one |
| Nodes.GNode.AddLinkStr | LLDP/Graph.py:109-110 | appends the link built from the stripped interface names, the stripped hostname and the capabilities |
| Nodes.GNode.CheckLink | LLDP/Graph.py:113-117 | true exactly when a link with the same key is held |
| Nodes.GNode.SetLinkDrawn | LLDP/Graph.py:120-125 | marks the first reciprocal link drawn and returns it; returns None and changes nothing when there is none |
| Nodes.GNode.Append | LLDP/Graph.py:127-132 | the links become MergeLinks(own, other's); tag and device type unchanged |
| Nodes.GNode.Compare | LLDP/Graph.py:135-161 | a fresh untagged node with the same name, origin and device type; its links are CompareLinks(own, other's) |
| Diffs.TaggedValid | LLDP/Graph.py:73-76 | tagging keeps the node invariant |
| Diffs.Tagged | LLDP/Graph.py:73-76 | the node gets the tag and so does each link, which keeps its key; name, origin, device type, neighbour count and number of links are kept |
| Diffs.CompareView | LLDP/Graph.py:135-161 | keeps the first node's name, origin and device type; untagged; the neighbour count is the number of links |
| Diffs.CompareViewSelf | LLDP/Graph.py:135-161 | comparing a valid node with itself tags it and each of its links "" |
| Diffs.CompareViewValid | LLDP/Graph.py:135-161 | the node comparison keeps the node invariant |
| Diffs.FindView | LLDP/Graph.py:178-182 | -1 exactly when the hostname is absent; otherwise the first index with that hostname |
| Diffs.OnlyIn | LLDP/Graph.py:226-242 | exactly the hostnames of the difference; every node tagged; each node is the tagged original |
| Diffs.Common | LLDP/Graph.py:244-247 | exactly the common hostnames; every node untagged; each node is the comparison of the two namesakes |
| Diffs.DiffViews | LLDP/Graph.py:223-249 | the diff as compare builds it: the "added" nodes, then the "removed" nodes, then the compared common nodes; DiffNames, DiffSpec and DiffTags state what it holds |
| Diffs.DiffNames | LLDP/Graph.py:223-249 | the diff holds the union of the hostnames |
| Diffs.DiffUnique | LLDP/Graph.py:223-249 | the diff of two unique-hostname graphs has unique hostnames |
| Diffs.DiffValid | LLDP/Graph.py:223-249 | the diff keeps the node invariant |
| Diffs.DiffSpec | LLDP/Graph.py:223-249 | a newer-only node is that node tagged "added"; an older-only node is tagged "removed"; a common node is the node comparison |
| Diffs.DiffTags | LLDP/Graph.py:223-249 | tag "added" iff newer-only, "removed" iff older-only, "" iff in both; a tagged node's links carry its tag |
| Diffs.DiffSwap | LLDP/Graph.py:223-249 | comparing in the other direction swaps "added" and "removed" |
| Diffs.DiffSelf | LLDP/Graph.py:223-249 | comparing a graph with itself returns every node, in order, with it and its links tagged "" |
| Diffs.ComparePhases | LLDP/Graph.py:223-249 | the three passes, each reading the nodes the earlier passes tagged, assemble exactly the diff |
| Drawing.CompColor | LLDP/Graph.py:269-273 | green iff "added", red iff "removed", blue iff "" |
| Drawing.EdgeColor | LLDP/Graph.py:286-297 | the link's own tag decides; when untagged, the reciprocal link's tag decides; blue when neither is tagged |
| Drawing.Icon | LLDP/Graph.py:275 | None exactly when the device type has no icon entry; otherwise the prefix, the colour and ".png" |
| Drawing.IconOfClassified | LLDP/Graph.py:15-23 | a classified type has an icon exactly when the capabilities had a code or were already an icon key |
| Drawing.DevtypeFilesEntries | LLDP/Graph.py:15-23 | the table's keys are "" and the seven type names; "" maps to the l2switch icon and each type name to its own icon |
| Drawing.FarEnd | LLDP/Graph.py:284 | always a valid index; the node with the hostname when present (index -1 picks the last node) |
| Drawing.EdgeAt | LLDP/Graph.py:299-301 | the tail is the visited node; the tail label is the local interface and the head label the remote one; the head is the remote hostname when a node has it |
| Drawing.MarkDrawn | LLDP/Graph.py:282 | keeps the number of nodes and of each node's links |
| Drawing.MarkDrawnGrows | LLDP/Graph.py:282 | only that link's drawn flag rises, and it is set; every other node and link is unchanged |
| Drawing.MarkPair | LLDP/Graph.py:282-285 | keeps the number of nodes and of each node's links |
| Drawing.MarkPairGrows | LLDP/Graph.py:282-285 | only drawn flags rise; the link and its first reciprocal at the far end end up drawn |
| Drawing.MarkKeepsPartner | LLDP/Graph.py:282-291 | marking the own link moves and retags no reciprocal link, so the colour rule reads the same partner |
| Drawing.Visit | LLDP/Graph.py:280-301 | keeps the number of nodes and the number of links of the visited node |
| Drawing.VisitGrows | LLDP/Graph.py:280-285 | one iteration only raises drawn flags and leaves its link drawn |
| Drawing.VisitEmits | LLDP/Graph.py:280-301 | an undrawn link emits exactly one edge, EdgeAt; a drawn link changes nothing |
| Drawing.ScanNode | LLDP/Graph.py:279-301 | keeps the number of nodes and the number of links of the scanned node |
| Drawing.ScanNodeShape | LLDP/Graph.py:279-301 | the inner loop keeps the number of nodes and of each node's links |
| Drawing.ScanNodeGrows | LLDP/Graph.py:279-285 | the inner loop only raises drawn flags and leaves every passed link drawn |
| Drawing.ScanNodeMarks | LLDP/Graph.py:279-282 | the inner loop leaves every link it has passed drawn |
| Drawing.ScanNodeGrowsFrom | LLDP/Graph.py:279-285 | between any two iterations of the inner loop only drawn flags rise |
| Drawing.ScanNodeEdges | LLDP/Graph.py:279-301 | the inner loop emits at most one edge per link it passes |
| Drawing.ScanAll | LLDP/Graph.py:278-301 | keeps the number of nodes |
| Drawing.ScanAllShape | LLDP/Graph.py:278-301 | the outer loop keeps the number of nodes and of each node's links |
| Drawing.ScanNodeAppends | LLDP/Graph.py:279-301 | the inner loop only appends edges |
| Drawing.ScanAllGrows | LLDP/Graph.py:278-285 | the outer loop only raises drawn flags and leaves every link of the passed nodes drawn |
| Drawing.ScanAllGrowsFrom | LLDP/Graph.py:278-285 | between any two iterations of the outer loop only drawn flags rise |
| Drawing.ScanAllEdges | LLDP/Graph.py:278-301 | the outer loop emits at most one edge per link of the nodes it passes |
| Drawing.At | LLDP/Graph.py:278-281 | the scan when the loop reaches link `j` of node `i` keeps the number of nodes and of each node's links |
| Drawing.AtNext | LLDP/Graph.py:279-301 | the iteration at a position leads to the scan of the next position |
| Drawing.AtEnds | LLDP/Graph.py:278-279 | a node's inner loop starts from the outer loop's scan and ends at the scan of the next node |
| Drawing.AtGrowsNode | LLDP/Graph.py:279-285 | between two positions within one node only drawn flags rise |
| Drawing.AtGrows | LLDP/Graph.py:278-285 | between any two positions of the edge loop only drawn flags rise |
| Drawing.PartnerSkipped | LLDP/Graph.py:280-285 | take a link that was not drawn when the loop reached it, and its first reciprocal at the node find_nodename picks; if that reciprocal comes later in the loop, it is drawn when the loop reaches it and its iteration emits no edge |
| Drawing.ScanAllAppends | LLDP/Graph.py:278-301 | the outer loop only appends edges |
| Drawing.DrawScan | LLDP/Graph.py:278-301 | keeps the number of nodes and of each node's links |
| Drawing.DrawEdgeBound | LLDP/Graph.py:278-301 | draw emits at most one edge per link |
| Drawing.DrawPairOnce | LLDP/Graph.py:278-301 | two nodes that saw each other give exactly one blue edge, from the first node to the second |
| Drawing.DrawMarksAll | LLDP/Graph.py:278-285 | after draw every link is drawn and nothing else about the nodes changed |
| Drawing.ScanNodeDrawn | LLDP/Graph.py:281 | with every link drawn, the inner loop changes nothing |
| Drawing.ScanAllDrawn | LLDP/Graph.py:281 | with every link drawn, the outer loop changes nothing |
| Drawing.DrawTwice | LLDP/Graph.py:278-301 | drawing a second time emits no edge and changes nothing |
| Drawing.DrawKeepsValid | LLDP/Graph.py:278-285 | draw keeps the node invariant |
| Graphs.FirstIndex | LLDP/Graph.py:178-182 | -1 exactly when no node has the hostname; otherwise the first index that has it |
| Graphs.TargetsSnoc | LLDP/Graph.py:192 | the names a prefix of the links points at grow by the remote hostname of the next link |
| Graphs.LearntType | LLDP/Graph.py:79-101 | the type a name learns from the links, the classification of the last link to it with non-empty capabilities, is already classified: classifying it again keeps it |
| Graphs.Untargeted | LLDP/Graph.py:192-198 | a name no link points at is handed no reversed link and learns no type |
| Graphs.AbsorbUntargeted | LLDP/Graph.py:192-198 | a node no link points at keeps its links and its type |
| Graphs.AbsorbOwn | LLDP/Graph.py:192-198 | the node itself gains only links pointing back at it, and nothing at all when none of its links is a self-loop |
| Graphs.AbsorbStep | LLDP/Graph.py:192-198 | absorbing one more link is add_node merging the neighbour built from it: for the name it points at, MergeLinks with the one reversed link and NextType of its classification; for every other name, nothing |
| Graphs.ReversalsFrom | LLDP/Graph.py:192-195 | every reversed link handed to a name comes from a link pointing at it, and every link pointing at it hands its reversal |
| Graphs.NeighbourContents | LLDP/Graph.py:192-198 | a neighbour the pass creates holds at least one link and no two with the same key; each is the reversal of a link pointing at it, the key of every such reversal is present, and its type is that of the last such link with non-empty capabilities, "" if there is none |
| Graphs.NamedByStep | LLDP/Graph.py:192-198 | one neighbour added, appended or merged, keeps every node appended since the start INDIRECT and named by the links seen so far |
| Graphs.PropagatedStep | LLDP/Graph.py:192-198 | one neighbour added, appended holding the reversed link or merged into the node of that name, keeps every node, old or appended, equal to Absorb of its state at entry over the links seen so far |
| Graphs.GGraph.constructor | LLDP/Graph.py:171-175 | the name is kept and the graph is empty |
| Graphs.GGraph.IndexOf | LLDP/Graph.py:178-182 | -1 exactly when the hostname is absent; otherwise the first index with it |
| Graphs.GGraph.FindNodename | LLDP/Graph.py:178-182 | the loop returns IndexOf |
| Graphs.GGraph.NodeNames | LLDP/Graph.py:185-186 | one name per node, in order |
| Graphs.GGraph.NodeNamesDistinct | LLDP/Graph.py:185-186 | in a valid graph the names do not repeat and are exactly the hostnames |
| Graphs.GGraph.NeighbourOf | LLDP/Graph.py:193-197 | a fresh INDIRECT node with the remote hostname, one reversed link pointing back, and the type classified from the link's capabilities |
| Graphs.GGraph.AddNeighbour | LLDP/Graph.py:193-198 | a neighbour not yet in the graph is appended: INDIRECT, with the one reversed link and the type classified from the link's capabilities; a neighbour already present takes MergeLinks of the reversed link and NextType of that type, and no other node changes; the DIRECT node's links change only by self-loop links |
| Graphs.GGraph.AddNeighbourAt | LLDP/Graph.py:192-198 | one iteration of the loop: every node stays Absorb of its state at entry over one link more, the appended nodes stay INDIRECT and named by the links, and every name seen is in the graph |
| Graphs.GGraph.AddIndirectNodes | LLDP/Graph.py:189-198 | for a DIRECT node every node, old or appended, ends up as Absorb of its state at entry over the node's links at entry: the reversed links pointing at it merged in, and the last learnt type; hence a node no link points at keeps its state, the appended nodes are INDIRECT and named by the links, every remote hostname is in the graph, and the node's own links change only by self-loop links; nothing happens for an INDIRECT node |
| Graphs.GGraph.InsertNew | LLDP/Graph.py:204-207 | the node is appended and earlier nodes stay in place; for a DIRECT node every node ends up as Absorb, over the node's links at entry, of its state with the node appended, so every remote hostname of those links is present, a node no link points at keeps its state, and the further appended nodes are INDIRECT and named by the links; without a self-loop the node keeps its links and type; an INDIRECT node touches nothing else |
| Graphs.GGraph.ReplaceIndirect | LLDP/Graph.py:210-214 | the DIRECT node takes the INDIRECT node's place and its device type when that is non-empty; every node ends up as Absorb, over the node's links at entry, of its state with the node in that place, so every remote hostname of those links is present, a node no link points at keeps its state, and the appended nodes are INDIRECT and named by the links |
| Graphs.GGraph.MergeExisting | LLDP/Graph.py:216-220 | only the existing node changes: its links become MergeLinks and its type the NextType of the new one |
| Graphs.GGraph.AddNode | LLDP/Graph.py:200-220 | hostnames stay unique; no node is removed; only a DIRECT node replaces an INDIRECT one of its hostname; a hostname not yet held is appended; the hostname is present and DIRECT after a DIRECT add; the replacement inherits the device type; for an inserted or replacing DIRECT node every node ends up as Absorb of its state with the node in place, over the node's links at entry, whose remote hostnames are all present; a node of another name that no link points at keeps its state; the other appended nodes are INDIRECT and named by the links; otherwise a merge that leaves the new node object untouched; afterwards the node is absorbed, and adding an absorbed node changes nothing, so adding a node twice equals adding it once |
| Graphs.GGraph.AddFound | LLDP/Graph.py:208-220 | add_node's contract for a hostname already held: a replacement that propagates as in add_node, or a merge; a node of another name that no link points at keeps its state; the node is absorbed afterwards, and an absorbed node changes nothing |
| Graphs.GGraph.TagNode | LLDP/Graph.py:235 | only that node changes: it and its links get the tag |
| Graphs.GGraph.MoveTagged | LLDP/Graph.py:234-236 | the node of the other graph is tagged and appended here; listed nodes are untouched |
| Graphs.GGraph.TagStep | LLDP/Graph.py:233-242 | one pass keeps the loop invariant, from position i to i + 1 |
| Graphs.GGraph.AddTagged | LLDP/Graph.py:233-242 | appends OnlyIn of the two graphs, tags those nodes in place, leaves the other graph alone |
| Graphs.GGraph.AddBothTagged | LLDP/Graph.py:232-242 | the "added" pass and then the "removed" pass, the second reading the tags of the first; both inputs stay valid |
| Graphs.GGraph.CompareStep | LLDP/Graph.py:245-247 | one comparison pass keeps the loop invariant, from position i to i + 1 |
| Graphs.GGraph.AddCompared | LLDP/Graph.py:245-247 | appends Common of the two graphs; the inputs are unchanged and stay valid |
| Graphs.GGraph.Compare | LLDP/Graph.py:223-249 | a fresh valid graph whose snapshots are DiffViews of the two inputs' snapshots; both inputs, whose nodes are tagged in place, stay valid |
| Graphs.GGraph.NodeRecords | LLDP/Graph.py:267-276 | None exactly when some device type has no icon; otherwise one record per node with its icon and colour |
| Graphs.GGraph.MarkOwn | LLDP/Graph.py:282 | exactly that link of that node is marked drawn |
| Graphs.GGraph.MarkFar | LLDP/Graph.py:284-285 | set_link_drawn on the far node, stated on the snapshots |
| Graphs.GGraph.DrawLink | LLDP/Graph.py:280-301 | one iteration of the edge loop equals Visit on the snapshots |
| Graphs.GGraph.DrawNode | LLDP/Graph.py:279-301 | the inner loop equals ScanNode |
| Graphs.GGraph.DrawEdges | LLDP/Graph.py:278-301 | the whole edge loop equals DrawScan of the snapshots before it |
| Graphs.GGraph.Draw | LLDP/Graph.py:264-303 | None, with nothing changed, exactly when an icon lookup fails; otherwise the node records and the DrawScan edges, and the links left as DrawScan leaves them |

## Left out

- `LLDP/lldp.py` is not part of this model. It covers device access, command parsing, I/O, the command line and printing.
- `GGraph.save` / `GGraph.load` (jsonpickle files) and every `print` method are left out. They are I/O.
- The graphviz calls are left out; rendering is I/O. `Draw` returns the node records and edges it would hand over, as a `Picture`. Pen width and font sizes are not modelled.
- The `DEVTYPE_FILES` paths start with the working directory of the process. The model keeps only the file prefix after `devtype/`.
- `GGraph.compare` walks Python sets, whose order is unspecified. The model uses the nodes' list order. The contracts also state the result by hostname, which does not depend on that order.
- Links are values, not shared objects, so link aliasing is not modelled:
  - `GNode.compare` and `set_link_drawn` change the input nodes' link objects in place, and the result shares them;
  - in the model the result holds tagged copies, and the input nodes' links keep their tags.
- Node aliasing in compare is kept at the level of each pass:
  - the tagged nodes in a comparison result are the inputs' own node objects;
  - `AddTagged` and `AddCompared` state where each result node comes from;
  - `Compare` states the snapshots only.
- `add_indirect_nodes` and `append` iterate the link list as it is at loop entry. Python iterates the live list. The two differ only when a self-loop link merges into the node being iterated.
- Graphs.GGraph.Draw: requires distinct hostnames (every graph built by add_node or compare has them), because the frame reasoning needs distinct node objects; a graph listing one node object twice is not modelled.
- Graphs.GGraph.AddNode: the node's own links and device type afterwards are stated outright only when it has no self-loop link. With one, Python merges the reversed self-loop into the node while it is being iterated; the model states that state through Absorb over the links at entry.
- The node methods and the add_node and compare methods of the graph require the class invariant, and their constructors and each of them keep it (`Compare` for both inputs, whose nodes it tags in place). `Draw` and the tagging and drawing loop steps require only distinct hostnames and state their effect on the snapshots; `DrawKeepsValid` shows that drawing keeps the node invariant. The invariant is:
  - a stripped hostname;
  - the neighbour count equal to the number of links;
  - a stable device type;
  - stripped remote hostnames;
  - for graphs, unique hostnames.
- The `draw` edge loop reads its bounds once. Neither the number of nodes nor the number of links of a node changes inside it.
