# DESCHRAMBLER in Dafny

A model of the sequential core of DESCHRAMBLER, a tool that reconstructs ancestral
genome organisation from syntenic fragments (blocks) shared by a set of species. The
model covers three parts of the pipeline, together with the properties their code
promises:

- **Building blocks** (`code/makeBlocks`). The reference genome is partitioned into
  orthology blocks. Duplicated and messy pieces are cleaned out, and runs are merged
  into conserved segments. Outgroup pieces are tidied, and the blocks are turned into
  the per-species orders, genome and join files. Elsewhere in `code/makeBlocks`, CAR
  files are written, pieces between breakpoints are merged, and predicted adjacencies
  are compared with real ones.
- **Adjacency probabilities** (`code/inferAdjProb.c`). This part covers:
  - the block-end index space (`map`/`pam`);
  - the bit-packed compatibility matrices and their filling by `initSets`;
  - the sparse likelihood tables;
  - the memo caches;
  - the Newick-like tree reader, outgroup detection and re-rooting.
- **Greedy chaining** (`code/deschrambler.cpp`). Scored adjacencies are ranked by
  weight and joined, heaviest first, into chains, the contiguous ancestral regions.

One Dafny module per source file:

| module | models |
|---|---|
| `Wrappers` | `Option`, and `Result`, whose `Fatal` stands for the source's abort paths |
| `Lists` | linked-list unlinking as filtering, and sublists |
| `Species` | species.h and species.c |
| `Base` | base.c |
| `Partition` | partitionGenomes.c |
| `Orthology` | makeOrthologyBlocks.c |
| `OutgroupClean` | cleanOutgroupSegs.c |
| `Conserved` | makeConservedSegments.c |
| `Chromosomes` | the per-chromosome sorted lists shared by createGenomeFile.c, orthoBlocksToOrders.c and outgroupSegsToOrders.c |
| `GenomeFile` | createGenomeFile.c |
| `OrthoOrders` | orthoBlocksToOrders.c |
| `OutgroupOrders` | outgroupSegsToOrders.c |
| `CarFile` | createCarFile.c |
| `MergePieces` | mergePieces.c |
| `BpPosition` | bpPosition.c |
| `AdjacencyIndex` | `map`, `pam`, `Val`/`Set` of inferAdjProb.c |
| `CompatSets` | `initSets`, `updatePS` |
| `SparseTable` | `PVal`/`PSet`/`SVal`/`SSet`, `getPredecessor`/`getSuccessor` |
| `Memo` | `getLP`/`getLL` |
| `PhyloTree` | the tree functions |
| `Deschrambler` | deschrambler.cpp |

Linked lists are sequences. A C function that splices a list in place is a method with
the source's loop that returns the new sequence. State that the source keeps across
calls is a class with those fields:

- the assembler's `mapUsed`/`mapClasses`;
- the bit matrices;
- the sparse tables;
- the caches;
- the tree arena;
- the CAR writer;
- mergePieces' block `B`.

Loop-based methods are proved against a specification. Where the source computes a
value, the method's result equals a specification function. Where it places segments
into blocks one at a time (`add_descendent_segs`, `add_outgroup_segs`), each step is
stated as a relation on the blocks before and after. The properties
the source promises are lemmas about those functions: round trips, order, permutation,
hulls, and "nothing else changes". Abort paths are modelled as `Fatal` results. Input
files are taken as already-parsed lines, and output is the sequence of printed values.

## Model

| member | source | states |
|---|---|---|
| Deschrambler.LessIsStrictTotalOrder | code/deschrambler.cpp:35-40 | Edge::operator< is irreflexive, transitive and asymmetric, and two edges are incomparable exactly when they have the same key, so it is a strict total order on keys |
| Deschrambler.Reverse | code/deschrambler.cpp:42-54 | Edge::reverse always yields unit directions (+1/-1) |
| Deschrambler.ReverseInvolution | code/deschrambler.cpp:42-54 | reversing an edge with unit directions twice gives the edge back |
| Deschrambler.BackwardIsReverse | code/deschrambler.cpp:292-299 | the second key stored for a score line (bpr) is the reverse of the first (bpf), and bpf has unit directions |
| Deschrambler.ReadScores | code/deschrambler.cpp:284-305 | the loop over the score lines builds exactly the map in which each line overwrites its two keys, and numblocks is the largest absolute id read |
| Deschrambler.StoredKeys | code/deschrambler.cpp:291-305 | a key is in the score map if and only if some line mentions it |
| Deschrambler.LastLineWins | code/deschrambler.cpp:300-301 | a key's score is the score of the last line that mentions it |
| Deschrambler.StoredSymmetric | code/deschrambler.cpp:298-301 | the score map is closed under reversal and a key and its reverse have the same score |
| Deschrambler.StoredIdsBounded | code/deschrambler.cpp:303-304 | every stored key names fragment ids between 0 and numblocks |
| Deschrambler.ComputeWeights | code/deschrambler.cpp:70-80 | (with lines 311-324) an edge gets a weight if and only if it joins two distinct ids in 0..numblocks with unit directions and has a positive stored score, and its weight is that score |
| Deschrambler.InsertByWeightSorted | code/deschrambler.cpp:88-91 | inserting into a list ordered heaviest first by cmp keeps it ordered and is a permutation of the list plus the new element |
| Deschrambler.SortByWeight | code/deschrambler.cpp:327-328 | the ranked vector is ordered heaviest first and holds exactly the (edge, weight) pairs of the weight map, each once |
| Deschrambler.RevChainAt | code/deschrambler.cpp:231-235 | pushing the reversed edges of a chain one by one on the front puts at index k the reverse of the chain's k-th edge from the end |
| Deschrambler.RevChainGood | code/deschrambler.cpp:228-237 | a chain read backwards with every edge reversed is again a linked chain of unit edges with no interior sentinel, with its ends swapped and reversed |
| Deschrambler.LinkedConcat | code/deschrambler.cpp:248-257 | appending a chain whose first edge starts where the first chain ends (off the sentinel) gives a linked chain with the outer ends of the two |
| Deschrambler.PlaceCheckedKeepsChain | code/deschrambler.cpp:93-156 | a successful insertEdge adds exactly one edge, the given one or its reverse, at the front or the back, and the chain stays good; a refused one leaves the chain unchanged |
| Deschrambler.SentinelJoinAsWritten | code/deschrambler.cpp:98-111 | on the chain [0+ 5+] the as-written first case accepts the edge (0- 7-) and builds a chain that passes through the sentinel 0; with the sentinel check it is refused |
| Deschrambler.SentinelBackJoinAsWritten | code/deschrambler.cpp:142-154 | on the chain [5+ 0+] the as-written fourth case accepts the edge (7- 0-), reversed to (0+ 7+), and builds a chain that passes through the sentinel 0; with the sentinel check it is refused |
| Deschrambler.MergeCheckedKeepsChain | code/deschrambler.cpp:208-270 | a merge step keeps every edge of both chains (length is the sum) and yields a good chain |
| Deschrambler.SentinelMergeAsWritten | code/deschrambler.cpp:228-237 | the as-written first case of mergeLists splices [0+ 5+] and [0- 7-] through the sentinel; the checked merge refuses it |
| Deschrambler.SentinelBackMergeAsWritten | code/deschrambler.cpp:257-265 | the as-written fourth case of mergeLists splices [5+ 0+] and [7+ 0-] back to back through the sentinel; the checked merge refuses it |
| Deschrambler.CountUpdate | code/deschrambler.cpp:332 | replacing one chain of the class map changes the total edge count by the difference of the lengths |
| Deschrambler.CountRemove | code/deschrambler.cpp:236 | erasing a class removes exactly its edges from the total count |
| Deschrambler.MergeCheckedEnds | code/deschrambler.cpp:228-264 | the free ends of a merged chain are free ends of the two chains merged |
| Deschrambler.MergeFromKeeps | code/deschrambler.cpp:208-270 | mergeLists keeps class c, erases only classes, keeps every chain good and keeps every free end in the used map |
| Deschrambler.PlacedEnds | code/deschrambler.cpp:93-156 | after a placement the chain's free ends are its old ones or the end keys insertEdge marks used |
| Deschrambler.TryFromKeeps | code/deschrambler.cpp:341-382 | the class loop keeps every chain good with its free ends used, only adds to the used map, and raises clscnt by at most one |
| Deschrambler.ChainKeysRev | code/deschrambler.cpp:228-237 | a chain read backwards, every edge reversed, joins the same fragment end keys |
| Deschrambler.MergeCheckedKeys | code/deschrambler.cpp:208-270 | a merge step joins exactly the fragment end keys of the two chains merged, counted with repetition |
| Deschrambler.PlacedKeys | code/deschrambler.cpp:93-156 | a successful placement adds exactly the end keys of the edge placed to its chain, and insertEdge marks all of them used |
| Deschrambler.NextJoined | code/deschrambler.cpp:216-266 | one round of mergeLists keeps every chain good and the multiset of joined end keys over all classes unchanged |
| Deschrambler.MergeFromJoined | code/deschrambler.cpp:208-270 | mergeLists moves end keys between classes but joins no new one and drops none |
| Deschrambler.PlacedJoined | code/deschrambler.cpp:364-368 | a class that takes the edge, with the merges after it, joins exactly the edge's end keys more, and all of them are then used |
| Deschrambler.TryFromJoined | code/deschrambler.cpp:362-382 | the class loop either leaves the state unchanged (a CYCLE) or joins exactly the edge's end keys more and marks them used; the used map only grows |
| Deschrambler.StepOnce | code/deschrambler.cpp:345-382 | an edge with non-negative ids passes the used-map checks only when its end keys are free, so one greedy step keeps every end key joined at most once, and used |
| Deschrambler.JoinedOnceEnds | code/deschrambler.cpp:337-384 | end keys joined at most once over all classes means: no key twice within one chain, no key shared by two chains, and every joined key used |
| Deschrambler.GreedyOnce | code/deschrambler.cpp:337-384 | when every ranked edge has non-negative ids, every state of the greedy loop joins each end key at most once, and only used ones |
| Deschrambler.GreedyKeeps | code/deschrambler.cpp:337-384 | every state of the greedy loop has good chains whose free ends are all in the used map; the used map only grows and clscnt never exceeds the number of edges seen; when every ranked edge has non-negative ids, no fragment end key is joined twice within a chain or by two chains, and every joined key is used |
| Deschrambler.Assembler.constructor | code/deschrambler.cpp:330-336 | the assembly starts with no used ends, no classes and clscnt 0 |
| Deschrambler.Assembler.InsertEdge | code/deschrambler.cpp:93-156 | insertEdge on one class: the status, the new chain and the used ends it adds are those of the checked placement, and every other class is untouched |
| Deschrambler.Assembler.MergeLists | code/deschrambler.cpp:208-270 | mergeLists leaves exactly the class map of `MergeFrom`: ids 1..clscnt other than c are visited in order, and each one whose end meets an end of class c is spliced onto it and erased; no edge is lost or gained, the used ends and clscnt stay, and every chain stays good |
| Deschrambler.Assembler.StartChain | code/deschrambler.cpp:375-382 | an edge that no class takes becomes the new class clscnt+1 holding only that edge, and its non-sentinel end keys are marked used |
| Deschrambler.Assembler.Process | code/deschrambler.cpp:337-384 | one greedy step leaves exactly the state `Step` gives: a skipped edge changes nothing; otherwise the first class (in id order) whose insertEdge succeeds takes the edge and then absorbs the classes it meets, a CYCLE drops the edge with every class unchanged, and only when every class fails does the edge start class clscnt+1 as [e] with its non-sentinel ends marked |
| Deschrambler.Assemble | code/deschrambler.cpp:337-384 | the final state is `Greedy` over the ranked edges, each carrying its weight; every class is a good chain whose free ends are used, clscnt is at most the number of ranked edges, and the chains hold exactly as many edges as were placed; when the ranked ids are non-negative, no fragment end key is joined twice, within a chain or by two chains |
| Deschrambler.Deschramble | code/deschrambler.cpp:272-386 | the run ranks exactly the candidate edges of the score lines, heaviest first, each with its stored score, and ends in the state `Greedy` computes from that ranking, with good chains whose free ends are used and no fragment end key joined twice, within a chain or by two chains |
| AdjacencyIndex.MapInvolution | code/inferAdjProb.c:348-354 | map pairs the two ends of every block and the two chromosome ends: it stays in 0..Z, moves every index, and applying it twice gives the index back |
| AdjacencyIndex.PamOfMap | code/inferAdjProb.c:356-360 | pam of the other end of a block end is the opposite signed block |
| AdjacencyIndex.CanonOfBlock | code/inferAdjProb.c:375-378 | the index rewriting of Set sends a signed block e to the end whose pam is e, and -e to its map |
| AdjacencyIndex.CanonInSpace | code/inferAdjProb.c:375-380 | every signed argument Set accepts is rewritten to a row and a non-zero column inside the N x N matrix |
| AdjacencyIndex.PosInRange | code/inferAdjProb.c:382 | the bit position i*N + j of a cell lies below N*N |
| AdjacencyIndex.PosInjective | code/inferAdjProb.c:382 | distinct cells have distinct bit positions |
| AdjacencyIndex.ByteCount | code/inferAdjProb.c:503 | N*N/X + 1 bytes hold all N*N bits |
| AdjacencyIndex.LowInjective | code/inferAdjProb.c:383-384 | the bit offset pos % X identifies the position within its byte |
| AdjacencyIndex.SetBit | code/inferAdjProb.c:386-394 | or-ing 1 << b sets bit b and clearing with HI - (1 << b) clears it, leaving every other bit of the byte |
| AdjacencyIndex.WriteBitEffect | code/inferAdjProb.c:382-394 | writing one bit position changes that position to the value written and no other |
| AdjacencyIndex.WriteCellEffect | code/inferAdjProb.c:382-394 | writing the bit of cell (i, j) changes cell (i, j) and no other cell |
| AdjacencyIndex.BitMatrix.constructor | code/inferAdjProb.c:503-511 | AllocArray gives a zeroed array: the matrix holds no cell |
| AdjacencyIndex.BitMatrix.Val | code/inferAdjProb.c:362-368 | Val is 1 exactly for the cells marked, 0 otherwise |
| AdjacencyIndex.BitMatrix.Set | code/inferAdjProb.c:370-395 | Set marks (value 1) or clears exactly the one cell named by the rewritten indices; every other cell keeps its bit |
| CompatSets.JoinCellsClosed | code/inferAdjProb.c:559-577 | every cell marked for a join comes with its reverse complement (map(j), map(i)) |
| CompatSets.JoinThereIsColumns | code/inferAdjProb.c:479-490 | the flags updatePS raises for a join are exactly the non-Z columns of the cells Set marks for it |
| CompatSets.JoinsCellsMember | code/inferAdjProb.c:523-541 | a cell is marked for a list of joins if and only if it is marked for one of them |
| CompatSets.JoinsCellsClosed | code/inferAdjProb.c:523-577 | the cells marked for a list of joins are closed under reverse complement |
| CompatSets.JoinsThereIsColumns | code/inferAdjProb.c:479-490 | the `there` flags raised for a list of joins are the non-Z columns of its marked cells |
| CompatSets.ChromJoinsAt | code/inferAdjProb.c:530-536 | the inner joins of a chromosome are its consecutive block pairs, in order |
| CompatSets.ChromosomeMarks | code/inferAdjProb.c:524-541 | a chromosome marks (A, first block), every consecutive pair and (last block, Z) |
| CompatSets.ChromJoinsIn | code/inferAdjProb.c:523-541 | a chromosome of block ids only produces joins between block ids and chromosome ends |
| CompatSets.GenomeJoinsIn | code/inferAdjProb.c:523 | the same holds for a whole genome |
| CompatSets.MarkJoin | code/inferAdjProb.c:559-577 | one join: its cell and reverse-complement cell are set in the leaf's P and in DPPI (nothing else changes), and the flags raised are those of updatePS |
| CompatSets.MarkJoins | code/inferAdjProb.c:523-541 | a list of joins marked one by one: both matrices gain exactly its cells and the flags gain exactly its updatePS flags |
| CompatSets.VisitLeaf | code/inferAdjProb.c:517-521 | a loop of initSets visits one leaf: it marks the leaf's joins in its own matrix and in DPPI only when the loop covers it (ingroups, or outgroups with oj in the second loop), and no other leaf's matrix changes |
| CompatSets.MarkPass | code/inferAdjProb.c:517-580 | one loop over all leaves: DPPI gains the union of the covered leaves' cells, each leaf's matrix and flags gain its own |
| CompatSets.PassesSplit | code/inferAdjProb.c:517-581 | between the two loops every leaf is marked exactly once, from its genome or (outgroup with oj) from its join hints |
| CompatSets.PassesUnion | code/inferAdjProb.c:517-581 | what the two loops add to DPPI is the union of every leaf's cells |
| CompatSets.NoSecondPass | code/inferAdjProb.c:545 | without oj the second loop adds nothing |
| CompatSets.LeavesUnionHas | code/inferAdjProb.c:527-540 | every cell of every leaf is set in DPPI |
| CompatSets.LeavesUnionSource | code/inferAdjProb.c:527-540 | every cell set in DPPI comes from some leaf |
| CompatSets.InitSets | code/inferAdjProb.c:492-582 | after initSets each leaf's P holds exactly the cells of its joins (genome, or hints for an outgroup with oj), its `there` flags are their updatePS flags, and DPPI is the union over the leaves |
| SparseTable.FirstAt | code/inferAdjProb.c:400-402 | the walk of PVal/SVal stops at the first node carrying the key |
| SparseTable.LookupFirst | code/inferAdjProb.c:397-407 | PVal/SVal return the value of the first node with the key |
| SparseTable.LookupAbsent | code/inferAdjProb.c:403-406 | a key with no node reads as 0 |
| SparseTable.LookupUpsertSame | code/inferAdjProb.c:409-436 | after PSet/SSet the key written reads back the value written and has a node |
| SparseTable.LookupUpsertOther | code/inferAdjProb.c:409-436 | PSet/SSet leave every other key's value unchanged |
| SparseTable.LookupAt | code/inferAdjProb.c:397-407 | in a list without repeated keys the lookup of a node's key is that node's value |
| SparseTable.LookupSnoc | code/inferAdjProb.c:427-433 | a node appended at the tail is seen only for a key the list did not have |
| SparseTable.UpsertWellKeyed | code/inferAdjProb.c:409-477 | PSet/SSet keep the zeroed head node keyed 0, keys inside the index space and no key twice |
| SparseTable.Table.constructor | code/inferAdjProb.c:512-515 | AllocArray gives N zeroed head nodes: each list is the single entry (0, 0) |
| SparseTable.Table.Put | code/inferAdjProb.c:419-435 | the search-then-overwrite-or-append walk produces exactly the list with the key set |
| SparseTable.Table.PSet | code/inferAdjProb.c:409-436 | PSet rewrites the indices as Set does and sets the row key in the column's list; every other list is unchanged |
| SparseTable.Table.SSet | code/inferAdjProb.c:450-477 | SSet rewrites the indices and sets the column key in the row's list; every other list is unchanged |
| SparseTable.PValAfterPSet | code/inferAdjProb.c:397-436 | PVal after PSet reads back the value at the rewritten cell and the old value everywhere else |
| SparseTable.GetPredecessor | code/inferAdjProb.c:755-768 | PLH(i, j) becomes preLikelihood(i, j) exactly for the rows 0..Z-1 and columns 1..Z-1 whose DPPI bit is set; all other entries keep their value |
| SparseTable.SuccessorRow | code/inferAdjProb.c:781-785 | one column of PLH walked: only row map(i) of SLH changes, each entry to the last positive value written for it |
| SparseTable.GetSuccessor | code/inferAdjProb.c:770-787 | every SLH entry after getSuccessor is the value given by the two loops from PLH and the entry before |
| SparseTable.ColOfMap | code/inferAdjProb.c:783 | after the map rewriting a node's column is c exactly for the node keyed map(c), and Z exactly for keys A and Z |
| SparseTable.LastWriteLookup | code/inferAdjProb.c:781-785 | the last write to a column is the positive value of the one node whose key maps to it (for Z, key Z and then A) |
| SparseTable.SuccessorTransposes | code/inferAdjProb.c:770-787 | getSuccessor transposes PLH through map: SLH(r, c) = PLH(map(c), map(r)) when positive, else the value before |
| Memo.Cache.constructor | code/inferAdjProb.c:77-78 | a cache starts empty |
| Memo.Cache.Get | code/inferAdjProb.c:626-676 | getLP/getLL always return the computed value for the key, add it on a miss and leave an existing entry as it is |
| PhyloTree.Up | code/inferAdjProb.c:248 | following parent links from a node reaches a node or NULL |
| PhyloTree.UpStep | code/inferAdjProb.c:248 | one more step of the walk tt = tt->parent, stopping at NULL |
| PhyloTree.UpEnded | code/inferAdjProb.c:248 | once the walk reaches NULL it stays there |
| PhyloTree.Preorder | code/inferAdjProb.c:116-133 | the `next` list adjustTreeList builds from a node starts with that node and holds only nodes (NULL gives the empty list) |
| PhyloTree.DepthSpan | code/inferAdjProb.c:154-155 | scanning a name (no separator) changes neither the parenthesis depth nor whether the reader is before ';' |
| PhyloTree.NameEnd | code/inferAdjProb.c:196-197 | a name or number ends at the first separator at or after its start, or at the end of the string, with no separator before |
| PhyloTree.ScanName | code/inferAdjProb.c:196-197 | the scanning loop stops exactly where NameEnd says |
| PhyloTree.Stop | code/inferAdjProb.c:151 | the reading stops at the first ';', or at the end of the string |
| PhyloTree.ReadOne | code/inferAdjProb.c:170-191 | reading one separator other than ';' moves the depth by one for '(' and ')', keeps it otherwise, and never lets it go negative |
| PhyloTree.NamingLeaf | code/inferAdjProb.c:152-160 | a leaf is allocated with the name read for it; the open nodes are still exactly the unnamed ones |
| PhyloTree.NamingOpen | code/inferAdjProb.c:170-176 | '(' allocates an unnamed node and pushes it |
| PhyloTree.NamingClose | code/inferAdjProb.c:186-203 | ')' pops the top node and names it, with the text read or the next IN<k>, k one above the last generated |
| PhyloTree.LeafRead | code/inferAdjProb.c:152-160 | the reader after a leaf name keeps the reader invariant, has moved forward and stands on a separator or the end |
| PhyloTree.ReadLeaf | code/inferAdjProb.c:152-160 | the step is LeafRead: a new node named by the text up to the next separator becomes current; the stack, counter, dcap and Ances are unchanged |
| PhyloTree.LengthRead | code/inferAdjProb.c:162-169 | the reader after ':' and a parsed length keeps the invariant and has moved forward to a separator; text that does not parse, or runs to the end with no separator, gives None |
| PhyloTree.ReadLength | code/inferAdjProb.c:162-169 | ':' fails exactly when LengthRead does and otherwise gives its reader |
| PhyloTree.OpenedInv | code/inferAdjProb.c:170-177 | '(' pushes a new unnamed node and keeps the reader invariant |
| PhyloTree.AttachedInv | code/inferAdjProb.c:178-185 | ',' makes the current node the left child of the stack top, with branch length dcap*alpha, and keeps the reader invariant |
| PhyloTree.ClosedNodes | code/inferAdjProb.c:186-203 | after ')' the nodes are still an arena and the naming invariant holds with the popped node named |
| PhyloTree.ClosedText | code/inferAdjProb.c:186-198 | the ')' with its optional '@' and name lowers the depth by one and stays before ';' |
| PhyloTree.MarkedAt | code/inferAdjProb.c:191-195 | a ')' followed by '@' marks an ancestor in the text |
| PhyloTree.CloseRead | code/inferAdjProb.c:186-204 | the reader after ')' keeps the invariant and has moved forward; it stops at the end of the text exactly when the name after ')' runs off it |
| PhyloTree.Close | code/inferAdjProb.c:186-204 | the step fails exactly when the name after ')' runs to the end with no separator; otherwise it is CloseRead: the current node becomes the right child of the popped stack top, which is named and becomes current |
| PhyloTree.SymbolRead | code/inferAdjProb.c:161-209 | one separator: ';' leaves the reader as it is, the others move it forward, and every successful step keeps the reader invariant |
| PhyloTree.ReadSymbol | code/inferAdjProb.c:161-209 | the step fails exactly when SymbolRead does and otherwise gives its reader; '(' fails only on stack overflow; ',' and ')' need an open node |
| PhyloTree.BalancedAtStop | code/inferAdjProb.c:151-214 | reaching ';' or the end with an empty stack means the text read is balanced |
| PhyloTree.NamingDone | code/inferAdjProb.c:157-200 | with no open node every node is named and the generated names are IN1..IN<count>, each once |
| PhyloTree.UnreadInv | code/inferAdjProb.c:141-150 | the empty reader before the first symbol satisfies the reader invariant |
| PhyloTree.ReadFrom | code/inferAdjProb.c:151-214 | the reading from a reader on, when it succeeds, leaves an arena, balanced parentheses up to the stop, every node named, and Ances set only when some ')' is followed by '@' |
| PhyloTree.Parsed | code/inferAdjProb.c:141-214 | the reading of the whole string from the empty reader has the same guarantees |
| PhyloTree.Read | code/inferAdjProb.c:141-214 | the reading loop fails exactly when Parsed does and otherwise gives its reader |
| PhyloTree.UnstoppedFrom | code/inferAdjProb.c:151-212 | from a reader with text left or a node open, a text without ';' is refused: a scan runs off its end or the stack is still open there |
| PhyloTree.NeedsStop | code/inferAdjProb.c:141-212 | every non-empty tree text without the closing ';' is refused |
| PhyloTree.Tree.constructor | code/inferAdjProb.c:68 | the tree starts empty, with Phylo and Ances NULL |
| PhyloTree.Tree.Alloc | code/inferAdjProb.c:98-114 | allocTreeNode appends a node with NULL links, length 0 and the given name, leaving every other node unchanged |
| PhyloTree.Tree.ReadTreeString | code/inferAdjProb.c:141-217 | succeeds exactly when Parsed does; the installed links, lengths and names are those of the parsed reader, Phylo its current node and Ances its marked node or Phylo; the text read is balanced and every node is named |
| PhyloTree.Tree.Install | code/inferAdjProb.c:211-216 | the read tree is installed with no outgroup marks, Ances defaulting to the root, and `next` in preorder from the root |
| PhyloTree.Tree.OffChain | code/inferAdjProb.c:248-256 | the walk up the parent links returns true exactly when Ances is not on the leaf's chain |
| PhyloTree.Tree.IdentifyOutgroup | code/inferAdjProb.c:243-260 | every leaf on the `next` list is marked outgroup exactly when Ances is not on its parent chain; nothing else changes |
| PhyloTree.TurnEdge | code/inferAdjProb.c:809-816 | one step of rerootTree: v is unlinked from p and p is hung on v's free slot (right first); no other node changes |
| PhyloTree.Tree.ModifyBranchLen | code/inferAdjProb.c:826-831 | along the chain from a node up to the root each node takes the branch length its former child had; every other length is unchanged |
| PhyloTree.Tree.ShiftDist | code/inferAdjProb.c:836-840 | the new root gets length 0, Ances gets 0, and the chain's lengths shift up by one node |
| PhyloTree.Tree.RerootTree | code/inferAdjProb.c:804-824 | rerootTree turns every edge of the chain from node to the root: each chain node's slots are rewired as specified, its parent is the previous chain node, node becomes a root, and nodes off the chain keep their links |
| PhyloTree.Tree.Unhook | code/inferAdjProb.c:835-853 | a new root node is allocated holding Ances on the side Ances had under its parent, and Ances is unlinked from that parent |
| PhyloTree.Tree.Rewire | code/inferAdjProb.c:835-858 | the links after modifyTree: the new root has Ances and the rerooted rest of the tree as children, and the chain from Ances to the old root is reversed |
| PhyloTree.Tree.Remodel | code/inferAdjProb.c:833-858 | links and branch lengths after modifyTree are the rerooted ones |
| PhyloTree.Tree.ModifyTree | code/inferAdjProb.c:833-862 | modifyTree: a new root "NEWROOT" is added, becomes both Phylo and Ances, the tree is re-rooted along the chain from Ances, and `next` is the preorder from the new root |
| PhyloTree.Tree.Adopt | code/inferAdjProb.c:859-861 | the rewired tree is installed with the new root as Phylo and Ances and `next` rebuilt in preorder |
| Species.Ort | code/makeBlocks/species.h:18 | flipping an orientation always changes it and maps '+'/'-' into '+'/'-' |
| Species.OrtInvolution | code/makeBlocks/species.h:18 | flipping twice gives back the orientation exactly when it is '+' or '-' |
| Species.SpeIdx | code/makeBlocks/species.c:16-24 | the lookup succeeds exactly when the name is configured, and then returns its first position; an unknown name is fatal |
| Species.FirstTagged | code/makeBlocks/species.c:26-45 | the first species carrying a tag is found exactly when some species carries it |
| Species.RefSpeIdx | code/makeBlocks/species.c:26-34 | the reference species is the first one tagged 0, none tagged 0 is fatal, and the answer is RefOf of the tags |
| Species.RefOf | code/makeBlocks/species.c:26-34 | the answer of ref_spe_idx is found exactly when some species is tagged 0, and is then the first one |
| Species.TagIndex | code/makeBlocks/species.c:28-33 | the index found for a tag that occurs is its first position |
| Species.DesSpeIdx | code/makeBlocks/species.c:37-45 | the descendant species is the first one tagged 1; none tagged 1 is fatal |
| Species.CountZero | code/makeBlocks/species.c:78-82 | no species is counted with a tag exactly when the tag is absent |
| Species.CheckSpecies | code/makeBlocks/species.c:76-84 | the configuration is accepted exactly when it has at most MAXSPE species and exactly one reference |
| Species.SingleReference | code/makeBlocks/species.c:81-84 | with exactly one reference, every species tagged 0 is that one |
| Species.AllocateNewblock | code/makeBlocks/species.c:223-232 | a new block has id 0, is not a duplicate, and holds an empty segment list for each species |
| Species.AssignStatesList | code/makeBlocks/species.c:326-337 | each segment of a list gets FIRST, MIDDLE, LAST or BOTH by its place, and nothing else changes |
| Species.StatesAreWellStated | code/makeBlocks/species.c:326-337 | the assigned states mark the first and last segment of each list (BOTH for a single one) and only the state field differs from the input |
| Species.AssignStates | code/makeBlocks/species.c:321-339 | every block keeps its segments and each species list of it is well stated |
| Species.StatedLists | code/makeBlocks/species.c:327-336 | all species lists of one block get well-stated states, with nothing else changed |
| Species.Stated | code/makeBlocks/species.c:326-337 | a stated list keeps its length and every field but the state, and is well stated |
| Species.States | code/makeBlocks/species.c:321-339 | every block keeps its length and its lists, each list stated |
| Species.AssignOrders | code/makeBlocks/species.c:341-355 | blocks are renumbered 1, 2, ... in list order, and each segment gets its block's id and subids 1, 2, ... along its list |
| Species.NumberedLists | code/makeBlocks/species.c:347-353 | within one block every segment gets the block id and its 1-based place as subid |
| Species.NumberingIsStrict | code/makeBlocks/species.c:341-355 | after numbering, block ids strictly increase along the list, and so do subids within each species list |
| Species.Numbers | code/makeBlocks/species.c:341-355 | block b gets id b + 1, and its segments that id and their 1-based places as subids |
| Species.Dedup | code/makeBlocks/species.c:367-373 | collapsing runs of equal chain ids never lengthens the list and keeps only ids from it |
| Species.DedupSpec | code/makeBlocks/species.c:367-380 | the collapsed list has no two equal neighbours (nor a leading 0), and it equals the input, or has its length, exactly when the input already had none |
| Species.DedupIdempotent | code/makeBlocks/species.c:367-380 | collapsing a second time changes nothing |
| Species.MergeCids | code/makeBlocks/species.c:367-380 | the loop over a segment's chain-id list computes the collapsed list |
| Species.MergeChlist | code/makeBlocks/species.c:357-385 | in every block, chain-id lists of non-reference species are collapsed and reference lists are left alone |
| Species.MergedLists | code/makeBlocks/species.c:363-381 | within one block, each non-reference segment's chain ids are collapsed and every other field is unchanged |
| Species.MergedChains | code/makeBlocks/species.c:357-385 | every block keeps its reference lists, and each other list has its chain ids collapsed |
| Species.SegOf | code/makeBlocks/species.c:259-305 | a parsed segment line gives a segment with its chromosome, span and orientation, and its chain-id list (empty without one) |
| Species.AddLine | code/makeBlocks/species.c:244-313 | one input line is accepted exactly when it is well formed (a segment line needs an open block and a known species); a header adds a block, a segment line appends its segment to its species in the last block, and the result is the one-line step |
| Species.IndexOf | code/makeBlocks/species.c:16-24 | the index of a listed name is its first position |
| Species.BlockLineStep | code/makeBlocks/species.c:244-313 | one line is accepted exactly when it is well formed, and the block list stays well shaped |
| Species.Collected | code/makeBlocks/species.c:242-315 | the line loop keeps the block list well shaped |
| Species.ReadBlocks | code/makeBlocks/species.c:234-319 | a file that reads gives well-shaped blocks |
| Species.CollectBlocks | code/makeBlocks/species.c:242-315 | the reading loop succeeds exactly when every line is accepted, gives one block per header, keeps every segment line, and returns the blocks the line loop specifies |
| Species.GetBlockList | code/makeBlocks/species.c:234-319 | reading a block file succeeds exactly when every line is accepted; the result is the file read with states and numbers assigned: blocks numbered 1, 2, ..., well-stated lists, no segment lost |
| Species.CollectedBody | code/makeBlocks/species.c:259-313 | the lines after a header append, to each species of the last block, the segments of its lines in file order |
| Species.CollectedSection | code/makeBlocks/species.c:247-313 | a header and its lines append the block they describe |
| Species.CollectedSections | code/makeBlocks/species.c:244-315 | a file of sections reads as one block per section, in file order |
| Species.ReadBlockFile | code/makeBlocks/species.c:234-319 | a well-formed file reads as one block per header, each holding per species the segments of its lines in file order, then stated and numbered |
| Species.LinesOkPrefix | code/makeBlocks/species.c:244-314 | a file that reads without error reads without error up to any line |
| Species.SegCountNumbered | code/makeBlocks/species.c:316-317 | assigning states and numbers keeps every segment |
| Species.MinBeg | code/makeBlocks/cleanOutgroupSegs.c:46-49 | the merged begin is at or below every begin of the merged run |
| Species.MaxEnd | code/makeBlocks/cleanOutgroupSegs.c:46-49 | the merged end is at or above every end of the merged run |
| Species.HullAttained | code/makeBlocks/cleanOutgroupSegs.c:46-49 | the merged span is the tightest one: its ends are a begin and an end of pieces of the run |
| Species.HullStep | code/makeBlocks/cleanOutgroupSegs.c:48-49 | absorbing one more piece takes the minimum of begins and the maximum of ends |
| Species.FindBlock | code/makeBlocks/cleanOutgroupSegs.c:20-22 | the search returns the first block with the id, or none |
| Base.GfOf | code/makeBlocks/base.c:50-54 | an alignment line gives a block size with both gaps, or a lone size with zero gaps |
| Base.ChainOfHead | code/makeBlocks/base.c:34-40 | a chain header opens a chain with its ids and coordinates and no aligned blocks yet |
| Base.AddChainLine | code/makeBlocks/base.c:31-64 | blank and comment lines are skipped, a header appends a new chain, a data line extends the last chain's block list, a line that does not parse is fatal, and the result is the one-line step |
| Base.ChainStep | code/makeBlocks/base.c:30-65 | one line is accepted exactly when a header has its ten fields and a data line follows a header and starts with an integer |
| Base.ReadChain | code/makeBlocks/base.c:22-68 | reading a chain file succeeds exactly when every line is accepted, with one chain per header and one block per data line, and returns the chains the line loop specifies |
| Base.ReadBody | code/makeBlocks/base.c:47-62 | the data lines after a header append their entries, in file order, to the last chain |
| Base.ReadSection | code/makeBlocks/base.c:34-62 | a header and its data lines append the chain they describe |
| Base.ReadSections | code/makeBlocks/base.c:30-65 | a file of sections reads as one chain per section, in file order |
| Base.ReadChainFile | code/makeBlocks/base.c:22-68 | a well-formed file reads as one chain per header, with the header's fields and the entries of its data lines in file order |
| Base.PrefixStep | code/makeBlocks/base.c:30-65 | one more line read extends the verdict, the chain count and the block count in step |
| Base.LinesOkPrefix | code/makeBlocks/base.c:30-65 | a file that reads without error reads without error up to any line |
| Base.FindChain | code/makeBlocks/base.c:133-135 | the search returns the first chain with the id, or none exactly when no chain has it |
| Base.WalkFrom | code/makeBlocks/base.c:145-160 | the walk over aligned blocks stops within the list, and stops inside a gap only at a real block |
| Base.WalkBounds | code/makeBlocks/base.c:145-160 | the reference offset reached never passes the target, and when the walk stops in a gap the target lies in that gap |
| Base.Mapbase | code/makeBlocks/base.c:102-179 | mapping succeeds exactly when a chain with the id exists and its first such chain spans the position (otherwise fatal); the result is the lift through that chain, and the adjusted reference position moves right only for side "right" and left otherwise |
| Base.LiftWithin | code/makeBlocks/base.c:142-178 | the lift through one chain moves the reference position right for side "right" and left otherwise |
| Base.LiftBounds | code/makeBlocks/base.c:161-170 | outside a gap the position is kept and both offsets advance equally; inside a gap it snaps to the gap's left or right end |
| Base.LiftStrands | code/makeBlocks/base.c:171-178 | on the reverse strand the position is the reverse-complement coordinate of the forward one, and the reference position is the same |
| Partition.Half | code/makeBlocks/partitionGenomes.c:322 | the halfway point `/ 2` truncates toward zero, as C division does, for either sign |
| Partition.GetMySeglist | code/makeBlocks/partitionGenomes.c:24-54 | reading a segment file succeeds exactly when every row parses with begin <= end on both sides; the segments are exactly the parsed rows, each a proper interval |
| Partition.MyAllocateNewblock | code/makeBlocks/partitionGenomes.c:56-67 | a new block has no chromosome, the interval MAXNUM..0 and no segments |
| Partition.FillBlock | code/makeBlocks/partitionGenomes.c:143-166 | filling aborts exactly when the block already has another chromosome; otherwise the block takes the segment's chromosome, holds the segment alone for that species, and its interval becomes the hull of the old interval and the segment |
| Partition.FillBlockOut | code/makeBlocks/partitionGenomes.c:168-189 | an outgroup segment is appended to that species' list and the block's interval and chromosome are unchanged |
| Partition.BreakSegmentPosition | code/makeBlocks/partitionGenomes.c:191-220 | cutting a segment at a reference position gives two parts sharing chromosome, orientation and chain; the left keeps the start and ends at or before the cut, the right starts at or after it and keeps the end, with the query ends kept on the side the orientation says |
| Partition.FillBlockOk | code/makeBlocks/partitionGenomes.c:143-166 | filling a well-formed block keeps every species list inside the block's interval and the reference list empty |
| Partition.SplitSpecies | code/makeBlocks/partitionGenomes.c:234-255 | for one species, the block cut at pos keeps only what lies left of pos and the new block gets what lies right of it; an empty list stays empty on both sides |
| Partition.BreakBlockPosition | code/makeBlocks/partitionGenomes.c:222-258 | cutting block b at pos inserts a new block right after it, the two covering [refbeg, pos] and [pos, refend] on the same chromosome, with every other block unchanged and the list kept well formed |
| Partition.Visit | code/makeBlocks/partitionGenomes.c:88-140 | one step of the walk either ends with a placement that meets Located (fst the first and lst the last covered block) or keeps the walk's invariant for the next block |
| Partition.VisitSame | code/makeBlocks/partitionGenomes.c:92-139 | the step at a block on the segment's chromosome ends with a valid placement or keeps the walk's invariant with pp unchanged |
| Partition.InGap | code/makeBlocks/partitionGenomes.c:93-110 | when the segment fits in the gap after or before the block the walk stops with a valid placement; otherwise the segment overlaps that gap |
| Partition.CoverStart | code/makeBlocks/partitionGenomes.c:112-124 | the new fst is the current block (sg starts in it, or before it at a run start) or the next block (sg starts in the gap between them), or prv and fst are left as they were |
| Partition.LocateFrom | code/makeBlocks/partitionGenomes.c:87-140 | the walk from any block on ends with a place that meets Located |
| Partition.Locate | code/makeBlocks/partitionGenomes.c:81-141 | the walk from last (or the head) ends with a place that meets Located |
| Partition.FindInsertPosition | code/makeBlocks/partitionGenomes.c:69-141 | the walking loop gives exactly the place Locate defines, which meets Located |
| Partition.Fresh | code/makeBlocks/partitionGenomes.c:279-280 | a new block for one segment has the segment's chromosome, covers it, and holds it alone |
| Partition.PlaceNew | code/makeBlocks/partitionGenomes.c:303-317 | a segment covering no block becomes a block of its own inserted between its neighbours, in a gap that holds it, or is dropped when it has no neighbour at all |
| Partition.FillOne | code/makeBlocks/partitionGenomes.c:318-327 | with species idx absent from block f, sg fills f and nothing else changes (this cannot fail); otherwise f is cut at Midway and sg fills the second half; the list stays well formed |
| Partition.CuttingStep | code/makeBlocks/partitionGenomes.c:337-343 | one more cut across a gap keeps the pieces parts of sg, in order, the first starting where sg starts, and the rest of sg after them |
| Partition.CuttingLast | code/makeBlocks/partitionGenomes.c:345 | the rest of sg going to block l completes the Pieces of sg over the walk |
| Partition.FillSpan | code/makeBlocks/partitionGenomes.c:328-346 | block f is cut at Midway first exactly when species idx already has a segment there; then sg's Pieces fill the blocks from f (or f + 1) to l, one each at most, and nothing else changes |
| Partition.SpanFrom | code/makeBlocks/partitionGenomes.c:336-345 | the walk over the blocks f to l fills them with sg's Pieces and keeps the list well formed; it aborts whenever block l has another chromosome than sg, and on a single block with an agreeing chromosome it is exactly fill_block of sg there |
| Partition.FilledStep | code/makeBlocks/partitionGenomes.c:342 | filling one more block with its piece extends FilledWith by that piece |
| Partition.Refill | code/makeBlocks/partitionGenomes.c:143-166 | filling a block of the list changes only that block, and fails exactly when fill_block aborts |
| Partition.AddDescendentSeg | code/makeBlocks/partitionGenomes.c:292-347 | with the place Locate gives: nothing covered and no neighbour drops sg; nothing covered otherwise inserts a block of its own in the gap; only one end found drops sg; one block covered fills it; several get sg's pieces; the next search starts at prv |
| Partition.FillCovered | code/makeBlocks/partitionGenomes.c:318-346 | the covered cases: only one end found changes nothing; otherwise the outcome is Covered (one block filled, or pieces over several) |
| Partition.AddDescendentSegs | code/makeBlocks/partitionGenomes.c:260-350 | adding a descendant keeps every block well formed and never removes a block; into an empty list each segment becomes a block of its own, in order; otherwise the segments are placed one by one, each step being what AddDescendentSeg promises from the previous step's blocks and search start |
| Partition.GrownTrans | code/makeBlocks/partitionGenomes.c:352-391 | growing the outgroup lists twice is growing them once |
| Partition.FillOut | code/makeBlocks/partitionGenomes.c:168-189 | appending to one block changes only that block's list for the species, by one segment at its end |
| Partition.SpreadOut | code/makeBlocks/partitionGenomes.c:379-387 | sg's Pieces over the blocks f to l are appended to those blocks' lists for species idx, one each at most, and nothing else changes |
| Partition.AddOutgroupSeg | code/makeBlocks/partitionGenomes.c:360-388 | with the place Locate gives: an outgroup segment with an end not found is dropped; one covering a single block is appended to it; otherwise its pieces are appended to the blocks from fst to lst; no block is made, removed or cut |
| Partition.AddOutgroupSegs | code/makeBlocks/partitionGenomes.c:352-391 | adding an outgroup keeps every block's interval, chromosome and other species as they were; the segments are placed one by one, each step being what AddOutgroupSeg promises from the previous step's blocks and search start |
| Partition.SanityCheckAsWritten | code/makeBlocks/partitionGenomes.c:467-479 | the loop as written passes exactly when the list is non-empty and every block but the last is sane |
| Partition.LastBlockUnchecked | code/makeBlocks/partitionGenomes.c:468 | a single empty-interval block passes the loop as written although it is not sane |
| Partition.SanityCheck | code/makeBlocks/partitionGenomes.c:467-479 | the corrected check passes exactly when every block, the last included, is a proper interval ending no later than the next block of its chromosome begins |
| Partition.SaneRunSorted | code/makeBlocks/partitionGenomes.c:467-479 | blocks that pass are sorted along each run of one chromosome: a block ends before any later block of the run begins |
| Partition.PartitionGenomes | code/makeBlocks/partitionGenomes.c:423-504 | the printed blocks all pass the check, have one list per species, and never hold the reference species' segments |
| Orthology.Occurs | code/makeBlocks/makeOrthologyBlocks.c:21 | the substring search `strstr` finds t exactly when t starts at some position of s |
| Orthology.RandomPiece | code/makeBlocks/makeOrthologyBlocks.c:13-25 | a name is unassembled exactly when it does not start with "chr" or contains chrUn, random, chrY or chrM |
| Orthology.AssembledChromosome | code/makeBlocks/makeOrthologyBlocks.c:13-25 | "chr1" is an assembled chromosome |
| Orthology.UnassembledPieces | code/makeBlocks/makeOrthologyBlocks.c:13-25 | a scaffold, a random piece and chrY are not |
| Orthology.OverlapSymmetric | code/makeBlocks/makeOrthologyBlocks.c:88-105 | the overlap test is symmetric and every segment overlaps itself |
| Orthology.ContainAll | code/makeBlocks/makeOrthologyBlocks.c:107-113 | a block contains all descendants exactly when every species tagged 1 has a segment in it |
| Orthology.IllegalBlock | code/makeBlocks/makeOrthologyBlocks.c:27-59 | a block is illegal exactly when its reference segment is shorter than MINLEN or some descendant segment is shorter than MINDESSEG times it |
| Orthology.MessyPiece | code/makeBlocks/makeOrthologyBlocks.c:115-140 | a segment is messy exactly when the first segment of its species in some block, other than itself, contains it or overlaps one of its ends by less than AFEW of its length while being at least as long |
| Orthology.ContainedIsMessy | code/makeBlocks/makeOrthologyBlocks.c:131 | a segment contained in another on the same chromosome is messy against it |
| Orthology.LegalTest | code/makeBlocks/makeOrthologyBlocks.c:65 | the filter trim applies keeps exactly the legal blocks |
| Orthology.Trim | code/makeBlocks/makeOrthologyBlocks.c:61-86 | unlinking illegal blocks leaves exactly the legal blocks, in their order |
| Orthology.TrimSpec | code/makeBlocks/makeOrthologyBlocks.c:61-86 | a block survives trim exactly when it was there and is legal, and trimming twice is trimming once |
| Orthology.SharedOverlap | code/makeBlocks/makeOrthologyBlocks.c:147-157 | the counts agree exactly when every reference or descendant species present in both blocks overlaps |
| Orthology.Marked | code/makeBlocks/makeOrthologyBlocks.c:145-164 | marking duplicates keeps the number of blocks |
| Orthology.MarkRow | code/makeBlocks/makeOrthologyBlocks.c:146-163 | the inner loop for block p marks, for every block, what the pairs up to p mark |
| Orthology.MarkedStep | code/makeBlocks/makeOrthologyBlocks.c:146-163 | one more pair marks a block exactly when it was marked or this pair marks it |
| Orthology.MarkedRowDone | code/makeBlocks/makeOrthologyBlocks.c:145-146 | finishing the inner loop for p is starting it for p + 1 |
| Orthology.MarkDups | code/makeBlocks/makeOrthologyBlocks.c:145-164 | the double loop computes the marks of every pair of blocks |
| Orthology.NotDup | code/makeBlocks/makeOrthologyBlocks.c:168 | the second loop of clean_up keeps exactly the unmarked blocks |
| Orthology.CleanUp | code/makeBlocks/makeOrthologyBlocks.c:142-189 | clean_up leaves exactly the unmarked blocks, in their order |
| Orthology.CleanUpSpec | code/makeBlocks/makeOrthologyBlocks.c:142-164 | of two overlapping blocks (in every shared reference or descendant species), the shorter in the reference (the later one on a tie) is marked, and a marked block stays marked |
| Orthology.WithList | code/makeBlocks/makeOrthologyBlocks.c:199-216 | replacing one species list of one block changes nothing else |
| Orthology.CleanList | code/makeBlocks/makeOrthologyBlocks.c:199-216 | the innermost loop keeps exactly the pieces that are not dropped (random in an assembled species, or messy against the blocks at that moment), in order, and changes nothing else |
| Orthology.ListCleaned | code/makeBlocks/makeOrthologyBlocks.c:199-216 | cleaning one list keeps the number of blocks and of lists |
| Orthology.CleanBlock | code/makeBlocks/makeOrthologyBlocks.c:196-217 | cleaning one block cleans each of its lists in turn, keeps its reference list, keeps the others as sublists, clears unassembled pieces where the species is assembled, and changes no other block |
| Orthology.CleanUpAgain | code/makeBlocks/makeOrthologyBlocks.c:191-219 | every block is cleaned in turn, against the blocks as the earlier ones left them, and the number of blocks is kept |
| Orthology.RelabeledFinal | code/makeBlocks/makeOrthologyBlocks.c:239-240 | assigning states and orders keeps a block legal and free of unassembled pieces |
| Orthology.MakeOrthologyBlocks | code/makeBlocks/makeOrthologyBlocks.c:221-255 | on success the configuration has a reference and the block file reads; the result is the passes of main as functions: at most one block per header, numbered 1, 2, ..., each legal and free of unassembled pieces in assembled species |
| Orthology.CleanAll | code/makeBlocks/makeOrthologyBlocks.c:235-240 | clean_up, clean_up_again, trim and renumbering leave the pruned blocks, numbered 1, 2, ..., each final |
| Orthology.CleanUpKeepsRef | code/makeBlocks/makeOrthologyBlocks.c:142-189 | clean_up keeps a reference segment in every block |
| Orthology.TrimmedFinal | code/makeBlocks/makeOrthologyBlocks.c:236-237 | after clean_up_again and trim every block left is legal and free of unassembled pieces |
| Orthology.CleanedFinal | code/makeBlocks/makeOrthologyBlocks.c:236-237 | a cleaned block that trim keeps is final |
| Orthology.Renumber | code/makeBlocks/makeOrthologyBlocks.c:239-240 | renumbering states and numbers the blocks 1, 2, ... and keeps each final |
| OutgroupClean.RunEnd | code/makeBlocks/cleanOutgroupSegs.c:41-57 | the run merged after a segment is the longest stretch of following segments with sub-id at most terminal |
| OutgroupClean.MergeSegsSpec | code/makeBlocks/cleanOutgroupSegs.c:12-58 | merge_segs aborts when terminal < start, when no block has the id, or when no segment has sub-id start; otherwise it changes only species ss of the first block with the id |
| OutgroupClean.MergedListSpec | code/makeBlocks/cleanOutgroupSegs.c:37-57 | the merged list keeps the segments before and after the run in order, and the merged segment spans every piece of the run and lists the run's chain ids in order |
| OutgroupClean.FindSub | code/makeBlocks/cleanOutgroupSegs.c:24-26 | the search returns the first segment with sub-id start, or none |
| OutgroupClean.RunChids | code/makeBlocks/cleanOutgroupSegs.c:37-44 | the loop collects the chain ids of the run, in order |
| OutgroupClean.RunHull | code/makeBlocks/cleanOutgroupSegs.c:46-57 | the loop widens the first segment to the smallest begin and largest end of the run and unlinks the rest of the run |
| OutgroupClean.MergeRun | code/makeBlocks/cleanOutgroupSegs.c:37-57 | merging a run of several pieces gives the merged list |
| OutgroupClean.MergeSegs | code/makeBlocks/cleanOutgroupSegs.c:12-58 | the procedure does what merge_segs specifies, errors included |
| OutgroupClean.OrderArray | code/makeBlocks/cleanOutgroupSegs.c:122-149 | the stored order starts with an empty (0, 0) entry and ends with the separator written after the last line |
| OutgroupClean.EntryOf | code/makeBlocks/cleanOutgroupSegs.c:158-160 | a found entry has id j or -j and sub-id t |
| OutgroupClean.MaxSid | code/makeBlocks/cleanOutgroupSegs.c:157-173 | no entry's sub-id exceeds the bound that makes the endless loop end |
| OutgroupClean.RunsSpec | code/makeBlocks/cleanOutgroupSegs.c:155-173 | the ranges merged for a block follow each other without gaps from sub-id 1; inside a range every sub-piece continues into the next in reading order; each range ends at a found sub-piece that does not continue |
| OutgroupClean.ApplyRuns | code/makeBlocks/cleanOutgroupSegs.c:169 | merging a series of ranges changes only species ss of the blocks with that id |
| OutgroupClean.FindEntry | code/makeBlocks/cleanOutgroupSegs.c:158-160 | the search returns the first entry for block j and sub-id t |
| OutgroupClean.MergeBlockPieces | code/makeBlocks/cleanOutgroupSegs.c:157-173 | the endless loop for block j merges exactly the ranges found from sub-id 1 |
| OutgroupClean.MergeFrom | code/makeBlocks/cleanOutgroupSegs.c:156-174 | merging blocks j to total changes only species ss |
| OutgroupClean.MergeSpeciesPieces | code/makeBlocks/cleanOutgroupSegs.c:155-174 | the block loop for one outgroup merges every block in turn |
| OutgroupClean.MergeOutgroups | code/makeBlocks/cleanOutgroupSegs.c:152-175 | merging keeps the number of blocks, their ids and every non-outgroup list |
| OutgroupClean.NotTiny | code/makeBlocks/cleanOutgroupSegs.c:71-72 | a piece is kept exactly when it is not shorter than MINOUTSEG times the reference span |
| OutgroupClean.RemoveTiny | code/makeBlocks/cleanOutgroupSegs.c:70-90 | unlinking tiny pieces leaves exactly the pieces that are not tiny, in order |
| OutgroupClean.RemoveTinyBlock | code/makeBlocks/cleanOutgroupSegs.c:66-91 | in one block only outgroup lists lose their tiny pieces |
| OutgroupClean.TrimBlock | code/makeBlocks/cleanOutgroupSegs.c:66-91 | the trimmed block loses exactly the tiny pieces of its outgroup lists |
| OutgroupClean.OrderArrays | code/makeBlocks/cleanOutgroupSegs.c:122-149 | one stored order per species |
| OutgroupClean.RemoveTinyPieces | code/makeBlocks/cleanOutgroupSegs.c:60-93 | every block loses exactly the tiny pieces of its outgroup lists |
| OutgroupClean.TrimmedSpec | code/makeBlocks/cleanOutgroupSegs.c:60-93 | an outgroup piece is left exactly when it was there and is not tiny |
| OutgroupClean.MergeAllOutgroups | code/makeBlocks/cleanOutgroupSegs.c:152-175 | the species loop merges every outgroup in species order |
| OutgroupClean.SamePlacesNoTiny | code/makeBlocks/cleanOutgroupSegs.c:179-180 | assigning states and collapsing chain ids leaves no tiny piece behind |
| OutgroupClean.TrimmedNoTiny | code/makeBlocks/cleanOutgroupSegs.c:177 | after remove_tiny_pieces no outgroup piece is tiny |
| OutgroupClean.CleanOutgroupSegs | code/makeBlocks/cleanOutgroupSegs.c:95-205 | on success the block file reads and has a reference; the result is the passes of main as functions: one block per header, numbered 1, 2, ..., none holding a tiny outgroup piece |
| OutgroupClean.CleanBlocks | code/makeBlocks/cleanOutgroupSegs.c:150-180 | after reading, main succeeds exactly when its passes do, keeps one block per block read, numbered 1, 2, ..., none holding a tiny outgroup piece, and gives the blocks the passes specify |
| Species.RefsPresent | code/makeBlocks/cleanOutgroupSegs.c:66 | the check holds exactly when every block has a reference segment |
| OutgroupClean.Finish | code/makeBlocks/cleanOutgroupSegs.c:177-180 | the last steps give the tidied blocks: every block keeps its number and has no tiny outgroup piece |
| Conserved.BlockRunEnd | code/makeBlocks/makeConservedSegments.c:29-53 | the blocks merged from p are the longest stretch of following blocks with id at most terminal |
| Conserved.Heads | code/makeBlocks/makeConservedSegments.c:45-48 | the first segments of one species over a stretch of blocks, in order |
| Conserved.Absorbed | code/makeBlocks/makeConservedSegments.c:52-77 | absorbing blocks into the first keeps its id and duplicate mark and one list per species |
| Conserved.OwnChains | code/makeBlocks/makeConservedSegments.c:15-26 | a lone block keeps its id, mark and species lists |
| Conserved.MergeBlocksSpec | code/makeBlocks/makeConservedSegments.c:4-78 | merging aborts when terminal < start or a non-outgroup list of the run has more than one segment; otherwise the list stays well shaped and never grows |
| Conserved.JoinedSpec | code/makeBlocks/makeConservedSegments.c:62-72 | the joined outgroup list holds exactly the outgroup segments of the merged blocks |
| Conserved.AbsorbedSpec | code/makeBlocks/makeConservedSegments.c:29-77 | after merging, each reference and descendant species has one segment spanning all the run's segments, each descendant lists the run's chain ids in order, and each outgroup holds exactly the run's outgroup segments |
| Conserved.CheckRun | code/makeBlocks/makeConservedSegments.c:29-36 | the check passes exactly when every non-outgroup list of the run holds a single segment |
| Conserved.RunCids | code/makeBlocks/makeConservedSegments.c:41-48 | the loop collects the run's chain ids of one descendant, in order |
| Conserved.HeadsStep | code/makeBlocks/makeConservedSegments.c:59-60 | absorbing one more block takes the minimum of begins and the maximum of ends |
| Conserved.AbsorbStep | code/makeBlocks/makeConservedSegments.c:53-76 | one pass of the absorbing loop absorbs exactly one more block |
| Conserved.SetRunCids | code/makeBlocks/makeConservedSegments.c:38-50 | the chain-id loop gives the first block its run's chain ids before anything is absorbed |
| Conserved.MergeBlocks | code/makeBlocks/makeConservedSegments.c:4-78 | the procedure does what merge_blocks specifies, errors included |
| Conserved.RunEndLoop | code/makeBlocks/makeConservedSegments.c:53 | the loop stops at the end of the run |
| Conserved.MergeRun | code/makeBlocks/makeConservedSegments.c:52-77 | the absorbing loop absorbs the whole run |
| Conserved.SingleCids | code/makeBlocks/makeConservedSegments.c:15-26 | a lone block's descendants list their own chain id |
| Conserved.PermArray | code/makeBlocks/makeConservedSegments.c:101-132 | the stored order starts with the 0 entry that is never written |
| Conserved.IsBlock | code/makeBlocks/makeConservedSegments.c:143 | an entry names block t exactly when it is t or -t |
| Conserved.JoinsNextAdjacent | code/makeBlocks/makeConservedSegments.c:142-147 | an order holding t then t + 1, or -(t + 1) then -t, continues block t when t first occurs there |
| Conserved.SpeciesStatus | code/makeBlocks/makeConservedSegments.c:142-147 | one species' status is 1 exactly when its order continues block t with t + 1 |
| Conserved.StatusAt | code/makeBlocks/makeConservedSegments.c:137-153 | the reference's status is 1 exactly when every reference and descendant order continues block t |
| Conserved.StatusLoop | code/makeBlocks/makeConservedSegments.c:135-155 | the loop computes, for each block t, whether all orders continue it |
| Conserved.Relabel | code/makeBlocks/makeConservedSegments.c:157-158 | assigning states and numbers keeps every segment, numbers the blocks 1, 2, ... and states every list |
| Conserved.MakeConservedSegments | code/makeBlocks/makeConservedSegments.c:80-187 | on success the configuration has a reference and the file reads; every block and segment is kept (no merge is called), and the blocks are renumbered 1, 2, ... with well-stated lists |
| Chromosomes.InsertPos | code/makeBlocks/createGenomeFile.c:64-70 | the insertion loop stops at the first element where the new begin is below it and (past the head) above the one before, or runs off the end |
| Chromosomes.Inserted | code/makeBlocks/createGenomeFile.c:64-78 | linking in a segment adds exactly that segment, at the place where the loop stopped |
| Chromosomes.InsertSorted | code/makeBlocks/createGenomeFile.c:64-78 | the walk with a trailing pointer links the segment in where the loop stops |
| Chromosomes.BeforeStop | code/makeBlocks/createGenomeFile.c:64-70 | on an ascending list with no equal begin, every element the loop passes begins before the new segment |
| Chromosomes.InsertedAt | code/makeBlocks/createGenomeFile.c:71-78 | the linked list holds the old elements before the stop, the segment at it, and the rest after it |
| Chromosomes.InsertedAscending | code/makeBlocks/createGenomeFile.c:64-78 | on an ascending list with no equal begin the loop stops exactly between smaller and larger begins, and the list stays ascending |
| Chromosomes.EqualBeginAppends | code/makeBlocks/createGenomeFile.c:66-67 | a segment whose begin equals one already in the list is never stopped for and goes to the end, breaking the order unless the equal element was last |
| Chromosomes.Chrs | code/makeBlocks/createGenomeFile.c:45-47 | one chromosome name per list, read off its head |
| Chromosomes.OnChrom | code/makeBlocks/createGenomeFile.c:46 | the search test holds exactly for a list whose head is on the chromosome |
| Chromosomes.AddSeg | code/makeBlocks/createGenomeFile.c:45-79 | one segment goes into the list of its chromosome, or opens a new list after the others |
| Chromosomes.AddSpecChrs | code/makeBlocks/createGenomeFile.c:59-62 | a new chromosome appends its name to the list of chromosomes; a known one changes nothing there |
| Chromosomes.AddSpecGrouped | code/makeBlocks/createGenomeFile.c:45-79 | placing a segment keeps every list non-empty and on one chromosome, with no chromosome twice |
| Chromosomes.AddSpecContents | code/makeBlocks/createGenomeFile.c:45-79 | placing a segment adds it to exactly the list of its chromosome |
| Chromosomes.ChrsAfterSpec | code/makeBlocks/createGenomeFile.c:59-62 | the chromosomes are the known ones followed by new ones, each from some segment |
| Chromosomes.GroupIntoChrs | code/makeBlocks/createGenomeFile.c:42-82 | the lists come in order of their chromosome's first appearance |
| Chromosomes.GroupIntoGrouped | code/makeBlocks/createGenomeFile.c:42-82 | placing many segments keeps the lists grouped by chromosome |
| Chromosomes.GroupIntoContents | code/makeBlocks/createGenomeFile.c:42-82 | every list gets exactly the segments on its chromosome |
| Chromosomes.GroupIntoStep | code/makeBlocks/createGenomeFile.c:44-80 | placing one segment then the rest adds each chromosome's segments once |
| Chromosomes.AddSpecAscending | code/makeBlocks/createGenomeFile.c:64-78 | placing a segment with a fresh begin keeps every list ascending |
| Chromosomes.GroupIntoAscending | code/makeBlocks/createGenomeFile.c:42-82 | with distinct begins every list ends up ascending |
| Chromosomes.Grouping | code/makeBlocks/createGenomeFile.c:42-82 | from no lists, the result groups the segments by chromosome in order of first appearance, each list a permutation of its chromosome's segments, ascending when begins are distinct |
| Chromosomes.Order | code/makeBlocks/createGenomeFile.c:90-95 | a list is printed as its block ids, negated for '-' orientation |
| Chromosomes.Picked | code/makeBlocks/orthoBlocksToOrders.c:28-67 | createGenomeFile and outgroupSegsToOrders place every segment of a species list; orthoBlocksToOrders only the head |
| Chromosomes.GroupIntoAppend | code/makeBlocks/createGenomeFile.c:42-82 | placing a + b is placing a, then b |
| Chromosomes.PlaceList | code/makeBlocks/createGenomeFile.c:44-80 | the segment loop places a list's segments in order |
| Chromosomes.PlaceBlock | code/makeBlocks/createGenomeFile.c:43-81 | the species loop places the chosen species' picked segments of one block |
| Chromosomes.GroupedNonEmpty | code/makeBlocks/createGenomeFile.c:45-47 | every list the search visits is non-empty |
| Chromosomes.GroupedOne | code/makeBlocks/createGenomeFile.c:42-82 | one species' lists move from b blocks to b + 1 |
| Chromosomes.GroupedNext | code/makeBlocks/createGenomeFile.c:42-82 | all species' lists move from b blocks to b + 1 |
| Chromosomes.GroupSpecies | code/makeBlocks/createGenomeFile.c:42-82 | the block loop gives every chosen species its picked segments grouped and linked in, and other species no list |
| GenomeFile.PrintJoin | code/makeBlocks/createGenomeFile.c:9-18 | a join is written exactly when its two ends differ, each end negated for '-' orientation |
| GenomeFile.NeighbourBranches | code/makeBlocks/createGenomeFile.c:116-129 | the four neighbour tests never hold together, so a pair gives at most one join, and one of them holds exactly when the first can be left and the second entered |
| GenomeFile.PairJoin | code/makeBlocks/createGenomeFile.c:117-128 | neighbours give a join exactly when the first can be left, the second entered, and their blocks differ |
| GenomeFile.Pairs | code/makeBlocks/createGenomeFile.c:116-129 | a list of n segments gives at most n - 1 neighbour joins |
| GenomeFile.NeighbourJoin | code/makeBlocks/createGenomeFile.c:117-128 | the four tests together write the pair's join |
| GenomeFile.PairsStep | code/makeBlocks/createGenomeFile.c:116-129 | one more step of the loop adds the join of the next pair |
| GenomeFile.JoinsOfList | code/makeBlocks/createGenomeFile.c:109-133 | a chromosome list gives a join from 0 when its head can be entered (not for an outgroup), the neighbour joins, and a join to 0 when its tail can be left (not for an outgroup) |
| GenomeFile.NeighbourJoins | code/makeBlocks/createGenomeFile.c:116-129 | the loop writes the neighbour joins, left to right |
| GenomeFile.PairsOfSingletons | code/makeBlocks/createGenomeFile.c:116-129 | when every segment is a whole block, every pair of neighbours is joined, with signed ids |
| GenomeFile.SingletonJoins | code/makeBlocks/createGenomeFile.c:109-133 | when every segment is a whole block, the list is joined from 0 through every neighbour to 0 |
| GenomeFile.JoinsOfSpecies | code/makeBlocks/createGenomeFile.c:108-134 | a species' joins are those of its lists, chromosome after chromosome |
| GenomeFile.GenomeSections | code/makeBlocks/createGenomeFile.c:84-99 | the genome file holds a section per non-outgroup species, in species order |
| GenomeFile.JoinsFiles | code/makeBlocks/createGenomeFile.c:101-136 | every species gets a joins file headed by the number of blocks |
| GenomeFile.AllHeads | code/makeBlocks/createGenomeFile.c:42-82 | one set of chromosome lists per species |
| GenomeFile.CreateGenomeFile | code/makeBlocks/createGenomeFile.c:20-146 | the program succeeds exactly when the block file reads; it then writes the genome sections and joins files of the blocks read |
| GenomeFile.SectionsSpec | code/makeBlocks/createGenomeFile.c:84-99 | there is one section per non-outgroup species, each that species' lists |
| GenomeFile.SectionOfSpecies | code/makeBlocks/createGenomeFile.c:84-99 | a species' section lists its chromosomes in order of first appearance, each with the signed ids of exactly its segments, ascending when begins are distinct |
| OrthoOrders.PrintSections | code/makeBlocks/orthoBlocksToOrders.c:71-86 | the output holds a section per non-outgroup species, in species order |
| OrthoOrders.NotOutgroup | code/makeBlocks/orthoBlocksToOrders.c:30-31 | exactly the reference and descendant species are placed |
| OrthoOrders.HeadLists | code/makeBlocks/orthoBlocksToOrders.c:28-69 | one set of chromosome lists per species |
| OrthoOrders.OrthoBlocksToOrders | code/makeBlocks/orthoBlocksToOrders.c:28-86 | the program succeeds exactly when the block file reads; it then prints the head-segment orders of the blocks read |
| OrthoOrders.HeadsPicked | code/makeBlocks/orthoBlocksToOrders.c:32-33 | the placed segments are exactly the heads of the species' non-empty lists, at most one per block |
| OrthoOrders.SectionOfSpecies | code/makeBlocks/orthoBlocksToOrders.c:71-86 | a species' order lists its chromosomes in order of first appearance, each with the signed ids of exactly its head segments, ascending when begins are distinct |
| OutgroupOrders.Pieces | code/makeBlocks/outgroupSegsToOrders.c:77-82 | a list is printed as signed block ids with sub-ids |
| OutgroupOrders.PrintSections | code/makeBlocks/outgroupSegsToOrders.c:71-86 | the output holds a section per outgroup species, in species order |
| OutgroupOrders.Outgroup | code/makeBlocks/outgroupSegsToOrders.c:30-31 | exactly the outgroup species are placed |
| OutgroupOrders.OutgroupLists | code/makeBlocks/outgroupSegsToOrders.c:28-69 | one set of chromosome lists per species |
| OutgroupOrders.OutgroupSegsToOrders | code/makeBlocks/outgroupSegsToOrders.c:28-86 | the program succeeds exactly when the block file reads; it then prints the outgroup orders of the blocks read |
| OutgroupOrders.AllPicked | code/makeBlocks/outgroupSegsToOrders.c:32 | every segment of the outgroup's lists is placed, and nothing else |
| OutgroupOrders.SectionOfOutgroup | code/makeBlocks/outgroupSegsToOrders.c:71-86 | an outgroup's order lists its chromosomes in order of first appearance, each with exactly its segments as signed id.subid, ascending when begins are distinct |
| CarFile.ReverseAt | code/makeBlocks/createCarFile.c:23-33 | the reversed list holds element \|l\| - 1 - k at place k |
| CarFile.ReverseInvolution | code/makeBlocks/createCarFile.c:23-33 | reversing twice gives the list back |
| CarFile.ReverseList | code/makeBlocks/createCarFile.c:24-32 | the in-place pointer reversal computes the reversed list |
| CarFile.HasId | code/makeBlocks/createCarFile.c:12 | the search test holds exactly for the block numbered id |
| CarFile.Pieces | code/makeBlocks/createCarFile.c:34-40 | one line per segment, in list order |
| CarFile.PieceLines | code/makeBlocks/createCarFile.c:34-40 | the printing loop prints each segment with its orientation, flipped for a negative number |
| CarFile.PrintBlockSpec | code/makeBlocks/createCarFile.c:4-45 | printing a block keeps the number of blocks, their shape and ids; without a block numbered \|id\| nothing happens |
| CarFile.NegativeReadsBackwards | code/makeBlocks/createCarFile.c:23-40 | for a negative number a non-reference species prints its list tail to head with every orientation flipped, and the block keeps the list reversed |
| CarFile.ReversalPersists | code/makeBlocks/createCarFile.c:23-33 | printing a block with a negative number twice for one species puts its list back as it was |
| CarFile.PrintRun | code/makeBlocks/createCarFile.c:75-88 | one species' pass over a line keeps the blocks' number and shape |
| CarFile.Prepend | code/makeBlocks/createCarFile.c:80 | printing more lines first does not change whether the rest succeeds or the blocks it leaves |
| CarFile.RunNext | code/makeBlocks/createCarFile.c:75-88 | one more number of the line prints that block or aborts the pass |
| CarFile.SpeciesAt | code/makeBlocks/createCarFile.c:71-91 | the species loop skips outgroups and runs a pass for every other species in order |
| CarFile.SpeciesNext | code/makeBlocks/createCarFile.c:71-91 | one more species' pass extends the output or aborts the line |
| CarFile.PrintingStep | code/makeBlocks/createCarFile.c:72-73 | some species so far prints exactly when some earlier one did or this one is not an outgroup |
| CarFile.RunAt | code/makeBlocks/createCarFile.c:75-88 | a number out of val's range aborts the pass; otherwise the pass prints that block, then the rest |
| CarFile.PrependNothing | code/makeBlocks/createCarFile.c:80 | printing nothing first changes nothing |
| CarFile.PrependPrepend | code/makeBlocks/createCarFile.c:80 | printing a then b first is printing a + b first |
| CarFile.SpeciesRun | code/makeBlocks/createCarFile.c:71-91 | the species passes over a line keep the blocks' number and shape |
| CarFile.Orders | code/makeBlocks/createCarFile.c:67-69 | blank, comment and header lines are skipped; the orders are at most the lines |
| CarFile.LineWarnings | code/makeBlocks/createCarFile.c:75-79 | at most one warning per number of the line |
| CarFile.LineStep | code/makeBlocks/createCarFile.c:75-79 | one more number marks its magnitude and warns when it was seen before |
| CarFile.WarningsRepeated | code/makeBlocks/createCarFile.c:75-79 | every warning names a number of the APCF whose magnitude was seen before it |
| CarFile.RepeatedWarned | code/makeBlocks/createCarFile.c:75-79 | every number whose magnitude was seen before it is warned about |
| CarFile.CarWriter.constructor | code/makeBlocks/createCarFile.c:52-65 | main starts with val[] all 0, count 0, prev -1, and nothing printed |
| CarFile.CarWriter.Check | code/makeBlocks/createCarFile.c:76-79 | a number warns exactly when its magnitude was marked and this is the first pass of the APCF, and its magnitude is marked afterwards |
| CarFile.CarWriter.PrintBlock | code/makeBlocks/createCarFile.c:80 | the call prints what print_block specifies and updates the blocks the same way, or aborts printing nothing |
| CarFile.CarWriter.PrintLine | code/makeBlocks/createCarFile.c:74-90 | one species' pass prints its blocks, marks every magnitude of the line, warns on repeats only in the APCF's first pass, and sets prev to count |
| CarFile.CarWriter.PrintNumbers | code/makeBlocks/createCarFile.c:75-88 | the number loop prints the pass and keeps the duplicate check in step |
| CarFile.CarWriter.CheckStep | code/makeBlocks/createCarFile.c:76-79 | the check for one number keeps the warnings in step with LineWarnings |
| CarFile.CarWriter.PrintStep | code/makeBlocks/createCarFile.c:80 | printing one number keeps the output in step with the pass |
| CarFile.CarWriter.SpeciesPass | code/makeBlocks/createCarFile.c:71-91 | the species loop prints every non-outgroup pass and warns on repeated magnitudes of the line only once |
| CarFile.CarWriter.PassStep | code/makeBlocks/createCarFile.c:74-90 | one species' pass moves the state to the next species |
| CarFile.CarWriter.OrderLinePass | code/makeBlocks/createCarFile.c:70-92 | an order line prints its APCF header with the next count, then every pass |
| CarFile.CarWriter.ReadLine | code/makeBlocks/createCarFile.c:67-93 | reading one more line of the order file keeps the state in step with the lines read |
| CarFile.CreateCarFile | code/makeBlocks/createCarFile.c:47-99 | on success the block file reads, the APCF count is the number of order lines, the warnings are the repeated numbers of each APCF (none when every species is an outgroup), and the output is what printing every APCF in order gives |
| CarFile.CarNext | code/makeBlocks/createCarFile.c:67-93 | a skipped line changes nothing; an order line adds its header and passes |
| CarFile.WarningsStep | code/makeBlocks/createCarFile.c:67-93 | one more APCF adds its warnings against every magnitude seen before |
| CarFile.OrdersStep | code/makeBlocks/createCarFile.c:67-69 | the orders of one more line are the orders so far and that line's |
| CarFile.CarRunStep | code/makeBlocks/createCarFile.c:70-92 | the whole file prints one APCF, then the rest with the blocks it left |
| CarFile.OrdersAppend | code/makeBlocks/createCarFile.c:67-69 | the orders of a + b are those of a, then b |
| CarFile.HeadersAppend | code/makeBlocks/createCarFile.c:70 | the headers of a + b are those of a, then b |
| CarFile.HeaderlessHeaders | code/makeBlocks/createCarFile.c:70 | output with no header lines has no headers |
| CarFile.PrintRunHeaderless | code/makeBlocks/createCarFile.c:75-88 | a pass prints no APCF header |
| CarFile.SpeciesRunHeaderless | code/makeBlocks/createCarFile.c:71-91 | the passes of a line print no APCF header |
| CarFile.HeaderStep | code/makeBlocks/createCarFile.c:70 | one more header c before numbered headers continues the numbering |
| CarFile.CarRunHeaders | code/makeBlocks/createCarFile.c:70 | the APCF headers are numbered consecutively from 1, one per order line |
| MergePieces.Added | code/makeBlocks/mergePieces.c:42-56 | adding a piece fails exactly when the block is not empty and the species or chromosome differ (or Order[] is full); otherwise its number is appended, the block takes its species, chromosome and orientation, and the span becomes the hull of the old span and the piece |
| MergePieces.BreaksListed | code/makeBlocks/mergePieces.c:58-76 | with a well-formed breakpoint file, is_a_bp answers exactly whether some line lists the adjacency on either strand |
| MergePieces.BreaksReversed | code/makeBlocks/mergePieces.c:68 | an adjacency and its reverse complement are breakpoints alike |
| MergePieces.StepUnbroken | code/makeBlocks/mergePieces.c:91-118 | one line of the CAR file keeps the pending block free of listed breakpoints and prints only such blocks |
| MergePieces.MergeUnbroken | code/makeBlocks/mergePieces.c:91-119 | no merged block printed contains two neighbours that form a listed breakpoint |
| MergePieces.FlatAppend | code/makeBlocks/mergePieces.c:15-31 | the numbers printed by a + b are those of a, then b |
| MergePieces.StepFlat | code/makeBlocks/mergePieces.c:91-118 | one line moves its number into the pending block and prints only numbers that were pending, keeping their order |
| MergePieces.MergeUnfold | code/makeBlocks/mergePieces.c:91-119 | a successful run is its first line's step followed by the rest |
| MergePieces.NumsUnfold | code/makeBlocks/mergePieces.c:100-104 | the numbers of the lines are the first line's, then the rest's |
| MergePieces.FlatStep | code/makeBlocks/mergePieces.c:91-119 | the printed numbers of a step and the rest join up |
| MergePieces.FlushingTail | code/makeBlocks/mergePieces.c:92-95 | after the first line every header still has k > 1 |
| MergePieces.MergeFlat | code/makeBlocks/mergePieces.c:91-119 | when every header past the first prints the block, merging loses and reorders no number: the printed numbers are the pending ones, then those of the lines, in order |
| MergePieces.MergeFromFirst | code/makeBlocks/mergePieces.c:78-123 | a file starting with APCF 1 prints every signed number of its lines exactly once, in order |
| MergePieces.PieceBlock.constructor | code/makeBlocks/mergePieces.c:12-13 | the block starts empty |
| MergePieces.PieceBlock.InitBlock | code/makeBlocks/mergePieces.c:33-40 | init_block empties the block: no species or chromosome, span BIGNUM..0, no numbers |
| MergePieces.PieceBlock.AddToBlock | code/makeBlocks/mergePieces.c:42-56 | the procedure does what adding specifies, errors included |
| MergePieces.PieceBlock.PrintBlock | code/makeBlocks/mergePieces.c:15-31 | the block is printed with its span and its numbers in order |
| MergePieces.PieceBlock.IsBp | code/makeBlocks/mergePieces.c:58-76 | the file scan answers whether the adjacency from the last number to curr is a breakpoint, or aborts at a malformed line |
| MergePieces.MergeNext | code/makeBlocks/mergePieces.c:91-118 | one more line extends the state of the loop or aborts the run |
| MergePieces.Feed | code/makeBlocks/mergePieces.c:92-117 | one pass of the loop body does what the step specifies to the block and the output |
| MergePieces.MergePieces | code/makeBlocks/mergePieces.c:78-123 | the program prints exactly what the run specifies, or aborts exactly when it does |
| BpPosition.Map | code/makeBlocks/bpPosition.c:12-18 | map keeps 0..Z in range and swaps the forward ids 1..T with their reversals T+1..2T |
| BpPosition.MapInvolution | code/makeBlocks/bpPosition.c:12-18 | map undoes itself on 0..Z |
| BpPosition.Cell | code/makeBlocks/bpPosition.c:20-26 | Val reads a byte exactly when the resolved cell lies inside the matrix, and aborts otherwise |
| BpPosition.Val | code/makeBlocks/bpPosition.c:20-26 | reading the array is reading its contents at the cell |
| BpPosition.Set | code/makeBlocks/bpPosition.c:28-36 | Set writes exactly the one byte of the resolved cell, which then reads the value written; outside the buffer it aborts and writes nothing |
| BpPosition.CellAfterSet | code/makeBlocks/bpPosition.c:20-36 | after Set the cell reads the value written and every cell at another byte reads as before |
| BpPosition.Mark | code/makeBlocks/bpPosition.c:61-72 | marking the predicted joins keeps the matrix's size |
| BpPosition.CellOffset | code/makeBlocks/bpPosition.c:20-34 | for element ids and the end marker Z, two cells share a byte exactly when their resolved rows and columns agree, and every byte is inside the N x N buffer |
| BpPosition.ProbeHits | code/makeBlocks/bpPosition.c:64-82 | one of a real join's two probes hits one of a predicted join's two marks exactly when the two are the same adjacency on either strand |
| BpPosition.MarkSets | code/makeBlocks/bpPosition.c:61-72 | on a well-formed predicted file marking succeeds, sets exactly the cells its joins name to YES and leaves the rest unchanged |
| BpPosition.MarkedCells | code/makeBlocks/bpPosition.c:64-71 | a byte is marked exactly when some predicted join names it through one of its two cells |
| BpPosition.RightJoinPredicted | code/makeBlocks/bpPosition.c:82-85 | rightjoin is set exactly when some predicted join is the real join on either strand |
| BpPosition.ReportMissing | code/makeBlocks/bpPosition.c:76-90 | the real-join loop prints, in file order, exactly the real joins that no predicted join matches |
| BpPosition.RunMissing | code/makeBlocks/bpPosition.c:38-94 | with well-formed files the program prints exactly the real adjacencies the prediction lacks on either strand, in file order |
| BpPosition.NewMatrix | code/makeBlocks/bpPosition.c:56-60 | the allocation and the initialising loop give a fresh N x N matrix of NO |
| BpPosition.MarkJoins | code/makeBlocks/bpPosition.c:61-72 | the loop over the predicted file leaves the matrix that marking specifies, or aborts exactly when marking does |
| BpPosition.Probe | code/makeBlocks/bpPosition.c:81-85 | the two Val probes compute rightjoin |
| BpPosition.ReportJoins | code/makeBlocks/bpPosition.c:76-90 | the loop over the real file prints exactly what the report specifies, or aborts exactly when it does |
| BpPosition.BpPosition | code/makeBlocks/bpPosition.c:38-94 | the program prints exactly what the run specifies, or aborts exactly when it does |

## Left out

- Input and output. File opening, `fgets`/`sscanf` parsing, the exact `printf` layouts and the stderr progress output are not modelled. Each reader takes its file as a sequence of parsed lines: a datatype with one case per line form the source accepts, plus a case for a malformed line, which aborts where the source aborts. Each writer returns the values it prints.
- Command-line handling (the `argc` checks, file names, `atof` of the minimum weight). The arguments are parameters.
- Memory management. Allocation failure, the `free_*` functions, `freeTreeSpace` and the double free at the end of code/makeBlocks/orthoBlocksToOrders.c:95-100 are not modelled.
- Floating point. Scores, weights and branch lengths are `real`, so rounding is not modelled. The likelihood arithmetic of code/inferAdjProb.c is not part of this model because it is built from `exp`/`log` on doubles: `prob`, `preLikelihood`, `normalize` and the values of `calculatePostProb`. `SparseTable.GetPredecessor` and `SparseTable.GetSuccessor` model which cells are written; the values written are parameters. The memo caches are given the function they memoise.
- `sortWeightedEdges`, `modifyAuxGraph` and `removeCycles` of code/inferAdjProb.c are not part of this model: `main` never calls them. The same holds for the file readers `readTreeFile`, `readLeafGenomes` and `readGenomes`, for `printTree`, and for the rest of `main`.
- `printLists` and `computeAvg` of code/deschrambler.cpp are not part of this model: they only write the chains out and average scores for printing. `Deschrambler.Deschramble` ends with the class map they would print.
- The species and configuration readers (`get_*` in code/makeBlocks/species.c) are not modelled: the species table is a parameter. The model keeps their checks of the tags.
- The chain-file cache of `mapbase` (code/makeBlocks/base.c:115-131) is not modelled. The chains of the current species and chromosome are a parameter of `Base.Mapbase`.
- PhyloTree.Preorder: `adjustNextInTree` follows child links without a bound; the model's preorder takes a fuel argument (the number of nodes is always enough). On a cyclic link structure, which the reader never builds, it stops where the source would not terminate.
- PhyloTree.Tree.ReadTreeString: `eraseWhiteSpace` is not modelled; the text is taken without blanks. A branch length is the value of a parameter function on the text up to the next separator, standing for `sscanf("%lf")`. The allocation that the source makes before its stack-overflow check is not counted.
- PhyloTree.Read: some reads in the source are undefined behaviour. These are `,` or `)` with no open node or no current node, which dereference an empty stack or NULL. They also include every scan that reaches the end of the text with no separator: a leaf name, the name after `)` (code/inferAdjProb.c:196-197) and the number after `:` (code/inferAdjProb.c:167-168). Such a scan runs past the terminator, as in `(a,b)`, `(a,b)x` or `(a,b):0.5`. Each of them is a `Fatal` result here, so a non-empty text without `;` is always refused (`PhyloTree.NeedsStop`).
- MergePieces.MergePieces: the block `B` before the first `#` header is the `init_block` value. In the source it is an uninitialised local of `main` (code/makeBlocks/mergePieces.c:83). When a `#` line's number does not parse, the model does not keep the previous `k`: a header always carries its `k`. The breakpoint file, which `is_a_bp` re-reads on every call, is one list of lines.
- MergePieces.Added: writing past `Order[Z]` is undefined behaviour in the source; here a full `Order[]` aborts.
- BpPosition.BpPosition: a negative total T in the header aborts. In the source, N = 2T + 3 is then at most 1 while `N*N` stays positive (T = -2 allocates one byte). The initialising loop is skipped when N < 1, and later reads and writes can fall outside `R`. The overflow of `N*N` for a large T is not modelled.
- CarFile.CarWriter.PrintBlock: an index `val[abs(num)]` beyond `MAXORDER` aborts, as does the reference species without a segment, which dereferences NULL in the source.
- OutgroupClean.MergeSegs and Conserved.MergeBlocks: a missing block or segment, which dereferences NULL in the source, aborts.
- Conserved.MergeBlocks is modelled even though `main` in code/makeBlocks/makeConservedSegments.c never calls it. `main`'s status computation is modelled as computed and unused.
- CompatSets.ChromJoins: a chromosome with no blocks, where the source reads past the end of its order, contributes no joins.
- Deschrambler.Assembler.InsertEdge: the placement is the checked one (`PlaceChecked`). It refuses a join through the sentinel 0 in the first case (at the front, with the edge reversed) and in the fourth case (at the back, with the edge reversed). The as-written cases are in `Place`, and the Findings table shows the difference.
- Deschrambler.Assembler.MergeLists: the merge is the checked one (`MergeChecked`). It refuses a splice through the sentinel 0 in the first case (front to front) and in the fourth case (back to back). The as-written one is `Merge`, shown in Findings.
- Deschrambler.Assembler.Process: the greedy step runs the checked placement and merge, not the as-written ones (see Findings).
- Deschrambler.Assemble: the greedy loop runs the checked placement and merge, not the as-written ones (see Findings).
- Deschrambler.Deschramble: the whole run uses the checked placement and merge, not the as-written ones (see Findings).
- Partition.PartitionGenomes: the block sanity check is the corrected one (`SanityCheck`), which also checks the last block and accepts an empty list where the source dereferences NULL. The as-written loop is `SanityCheckAsWritten`, shown in Findings.
- OutgroupClean.MergeSegs: the source sets `chnum` to terminal − start + 1 but stores only the chain ids of the pieces it walks. A run whose sub-ids skip a value leaves uninitialised entries at the end of `cidlist`. The model's `cidlist` holds exactly the ids stored; the uninitialised tail is not modelled.
- Conserved.MergeBlocks: as in `merge_segs`, `chnum` is terminal − start + 1 while only the blocks of the run present in the list give ids. The uninitialised tail is not modelled.
- Conserved.MakeConservedSegments: the order file has one section per species. A species listed twice is not modelled: the source writes its second section over the first from entry 1 and keeps the first section's later entries.
- Chromosomes.AddSeg: the source's per-species array of chromosome lists has `MAXCHR` (50000) slots, and a species with more chromosomes writes past it. The model's list of lists has no bound.
- Partition.FillSpan: for a segment spanning several blocks, the contract states the pieces' order, their chromosome, orientation and chain, which blocks get them, and the segment's outer ends. The inner cut positions are not stated: the source cuts half way between a block's end and the next block's start (code/makeBlocks/partitionGenomes.c, lines 337 and 375).
- Partition.SpreadOut: the inner cut positions of a segment spanning several blocks are not stated, as for `FillSpan`.
- Partition.AddDescendentSeg: the inner cut positions of a segment spanning several blocks are not stated, as for `FillSpan`.
- Partition.AddOutgroupSeg: the inner cut positions of a segment spanning several blocks are not stated, as for `FillSpan`.
- Partition.SpanFrom: the inner cut positions of a segment spanning several blocks are not stated, as for `FillSpan`.
- Partition.FillCovered: the inner cut positions of a segment spanning several blocks are not stated, as for `FillSpan`.
- Partition.AddDescendentSegs: the inner cut positions of a segment spanning several blocks are not stated, as for `FillSpan`.
- Partition.AddOutgroupSegs: the inner cut positions of a segment spanning several blocks are not stated, as for `FillSpan`.
- Partition.PartitionGenomes: the contract states the sanity of the result, the block shape and the empty reference lists. Each species' placement is stated step by step on `AddDescendentSegs` and `AddOutgroupSegs`, and is not composed over the species loop.
- The integer types are unbounded: no `int` overflow of the source is modelled.

## Findings

| source | as written | input that shows it | evidently intended | confidence | as-written member | corrected member |
|---|---|---|---|---|---|---|
| code/deschrambler.cpp:98-111 | The first case of `insertEdge` joins a reversed edge at a chain's front end, and its fourth case (lines 142-154) joins a reversed edge at the back end. The first and fourth cases of `mergeLists` (lines 228-237 and 257-265) splice front to front and back to back. None of these four cases checks the chromosome-end sentinel 0, although the second and third cases of both functions check it. | Front: the chain `[(0,+1,5,+1)]` with the edge `(0,-1,7,-1)`. The join succeeds and yields `(7,+1,0,+1),(0,+1,5,+1)`. Back: the chain `[(5,+1,0,+1)]` with the edge `(7,-1,0,-1)`. The join succeeds and yields `(5,+1,0,+1),(0,+1,7,+1)`. Both chains pass through the sentinel, and so do the merges of `[(0,+1,5,+1)]` with `[(0,-1,7,-1)]` and of `[(5,+1,0,+1)]` with `[(7,+1,0,-1)]`. | A join through fragment 0 is refused in every case, as the second and third cases do. | medium, not executed | Deschrambler.SentinelJoinAsWritten, Deschrambler.SentinelBackJoinAsWritten, Deschrambler.SentinelMergeAsWritten, Deschrambler.SentinelBackMergeAsWritten | Deschrambler.PlaceCheckedKeepsChain, Deschrambler.MergeCheckedKeepsChain |
| code/makeBlocks/partitionGenomes.c:467-479 | The sanity loop stops at the last block without checking it, and an empty block list dereferences NULL. | A single block on chr1 with refbeg == refend == 7 passes the check. | Every block has refbeg < refend, and same-chromosome neighbours do not overlap. | high, not executed | Partition.SanityCheckAsWritten, Partition.LastBlockUnchecked | Partition.SanityCheck, Partition.SaneRunSorted |
