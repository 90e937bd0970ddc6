# Verified model of the fuzznet core

This project models, in Dafny, the parts of the library that carry an argument rather than a case split, and proves what they
are for. It covers five cores of the repository:

- **Erasure coding** (`chunk/erasure.c`): any k of the k+m pieces of a buffer rebuild it. The table arithmetic is shown to be
  the field GF(2^8) modulo 0x11d, any k rows of the generator are shown independent by an elimination argument on Cauchy
  matrices, and the Gauss-Jordan loop is shown to find a pivot in every column exactly when the rows are independent.
- **Merkle trees** (`blob/blob.c`, `blob/levels.c`): the streaming builder, the array proof builder, the level store and the
  verifiers all compute the tree of section 2.1 of RFC 6962; proofs are complete, and sound up to an explicit hash collision.
- **k-of-n revocation** (`chain/revocation.c`): epochs, the latch, the root's override, the least set of confirmed admins, the
  two strata of standing admins, and admission as a replicated-state machine that tolerates arrival order.
- **Root set, chains and the verdict memo** (`chain/root_log.c`, `chain/chain.c`, `chain/memo.c`): settling in bounded rounds,
  delegation that preserves validity, and the agreement of the cache with the verification it skips over whole runs.
- **Completeness and planning** (`chain/manifest.c`, `catalog/sweep.c`, `catalog/catalog.c`, `catalog/shard.c`,
  `catalog/index.c`): canonical manifests, the overflow marker over whole runs, the last-copy guard, and routing by binary
  search over encoded bytes.

`dafny verify dfyconfig.toml` checks everything.

## Reading the model

Code that updates fields or buffers in place is a class or a method over an array, proved against a function of its input;
the properties are lemmas about that function. Where such a function is built of smaller ones, a lemma says over the fields
of its arguments what it comes to (`Chain.AcceptedIff`, `Ballots.JudgeMeans`, `Confirming.ConfirmedIff`, `Admission.AnswerMeans`,
`ManifestIssue.RowsAreEntries` and their like). Hashes, signatures, the act log and the retention table are function-valued
parameters: nothing is assumed about them except where a lemma says so, and a soundness result that rests on a hash
produces the colliding inputs. Keys and record ids in the revocation, root-set and chain modules are naturals, id 0 standing for the all-zero id;
the manifest, shard, index and sweep modules work on bytes. In the erasure modules a byte is its eight bits, so that the
field laws are proved by calculation on bits.

| files | what they hold |
|---|---|
| `Gf256`, `GfTables`, `Linear`, `Cauchy`, `Generator`, `GaussJordan`, `Erasure`, `Rebuild` | the erasure code |
| `Hashing`, `MerkleTree`, `TreeBuilder`, `Spans`, `BlobProofs`, `Levels`, `BlobAgreement` | the Merkle trees |
| `Votes`, `Verdicts`, `Ballots`, `Admins`, `Confirming`, `Acts`, `Admission`, `Convergence` | revocation |
| `RootSet`, `Settling`, `QuorumSetting`, `Chain`, `Memo` | root set, chains, memo |
| `ByteOrder`, `ManifestForm`, `ManifestIssue`, `Deficit`, `Marker`, `Delivery`, `Reception`, `Rotation` | manifests |
| `Holders`, `Sweep`, `Arrival`, `Shard`, `Index` | catalogue planning and routing |
| `Collections` | what several of them share |

## What the proofs turned up

Where the code and its documentation differ, the model follows the code.

- The streaming builder's stack has 40 slots and a tree of n leaves keeps one entry per set bit of n, so it answers FULL at
  the leaf that would make 2^40 of them: it accepts exactly while fewer than 2^40 - 1 leaves are in. `blob/blob.h:113` says
  FULL needs the maximum of 2^40. The level store takes that leaf and answers SHAPE (`TreeBuilder.Tree.Push`,
  `Levels.Builder.Push`).
- A revocation and its withdrawal, delivered in either order, agree on id, epoch, state and the record held, but not on
  the cut: a tombstone keeps none. The pair converges for every order exactly when the revocation drew no line
  (`Convergence.PairConvergesIff`), and the difference shows in whether an act stands (`Acts.LostLineShows`).
- `chain/revocation.h:1092` promises that the generation changes whenever an answer might. A chained reissue over a live vote
  with the same cut can move the vote's epoch, and with it verdicts, while the generation stays: for any two epochs, earlier
  or later, there is such a store (`Convergence.EpochMoveUnseen`), and a run after which the memo allows a chain the store revokes
  (`Memo.StaleHit`). Without such a reissue the promise holds under one pinned root (`Convergence.GenerationCovers`).
- With several roots, `root_pass` depends on the order of the entries. The exact condition under which a verdict does not is
  `RootsAgree` (`Verdicts.OrderIndependentIff`); one pinned root always meets it.
- Settling the root set need not end in members and removals that follow from each other. It does exactly when some round
  repeats the one before it, and the code's bound of one round more than the records is then always enough; otherwise what is
  kept is exactly the removals whose signers are members when nothing is removed (`Settling.SettlesIff`). A root that removes,
  without a cut, the root that added it is one such set (`RootSet.NeverSettles`). `chain/root_log.h:91-93` blames only roots
  that remove the roots that added them: only a cycle through the removal of an adder can fail to settle
  (`Settling.ShelteredSettles`), but it may run through two lines of adds, no root removing one on its own line
  (`Settling.CrossedLines`).
- The overflow marker of a followed issuer is honest about the manifest that last reached the high-water mark, and about another
  manifest's row exactly when the mark covers it (`Marker.CoversIff`). An older manifest of the same size that says something
  else about a pair, replayed, clears it while the newer row is neither matched nor listed (`Marker.SameSizeReplay`).
- Admission takes a pair off the deficit also where it leaves the store as it was (`chain/revocation.c:1690`, `:1755`, `:1823`).
  Three kinds of record drain a row the store then does not match, with the marker clear: one that does not chain to the record
  held, the held one delivered again (`Delivery.RedeliveryLies`), and the very record a row names as withdrawn
  (`Delivery.WithdrawnRowLies`). `Delivery.DrainKeepsIff` is the exact condition for every row, and `Reception.ReceivedHonest` the
  promise over runs under it.
- `catalog/sweep.c:64-71` sorts rows so that a cursor means the same everywhere. It does exactly when the removable entities fit
  the job and no entity wavers: with more than 16 holders, this host among them and enough others, an entity is planned or
  left undecided by whether this host's name is met among the first 16 (`Arrival.SamePlanIff`).
- The shape check of the erasure code adds two 32-bit counts and lets a wrapped sum through, against `chunk/erasure.h:31-32`: with
  k = 2^32 - 1 and m = 1 encoding answers OK and decoding TOO_FEW (`Erasure.ShapeIff`, `Erasure.WrappedShape`).
- Convergence ends at one withdrawal: the withdrawal of a reissue that arrives between the revocation and the reissue is dropped,
  and the reissue ends live (`Convergence.WithdrawnIff`, `Convergence.LostWithdrawal`).
- The layout comment at `chain/manifest.h:82-96` gives 64-byte pairs; the code writes 97-byte entries, a pair followed by the
  32-byte id and a state byte (`chain/manifest.c:155-165`), and the model has those (`ManifestForm.Layout`).
- A register that repeats a key across a cut is planned, and encoded when the starts still ascend, but a lookup finds only the
  later shard: `Shard.RoutesHomeIff` gives the exact condition.

## Model

| member | source | states |
|---|---|---|
| `Gf256.FieldLaws` | chunk/erasure.c:18-54 | the arithmetic behind the tables is a field for all bytes: addition is xor, multiplication is commutative, associative and distributive with unit 1, and every nonzero byte has an inverse |
| `Gf256.DoublingMeans` | chunk/erasure.c:33-35 | the polynomial is 0x11d: doubling doubles the value, less 0x100 and with 0x1d added bit by bit on overflow |
| `Gf256.ExpInjective` | chunk/erasure.c:30-36 | the first 255 powers of 2 modulo 0x11d are pairwise different, so no log entry is written twice |
| `Gf256.IsPower` | chunk/erasure.c:30-36 | every nonzero byte is one of those powers, so every log entry a product reads has been written |
| `Gf256.MulInv` | chunk/erasure.c:50-54 | a nonzero byte times its inverse is one |
| `GfTables.Tables.Init` | chunk/erasure.c:24-41 | filling, once: exp holds the powers of 2 over all 512 entries and log their exponents |
| `GfTables.Tables.FillPowers` | chunk/erasure.c:30-36 | the shift-and-reduce loop writes the 255 powers and the log of every nonzero byte |
| `GfTables.Tables.Extend` | chunk/erasure.c:37-39 | the doubled half repeats the first, so exponents need no reduction |
| `GfTables.Tables.Mul` | chunk/erasure.c:43-48 | the table product is the field product for every pair of bytes |
| `GfTables.Tables.Inverse` | chunk/erasure.c:50-54 | the table inverse is the field inverse of every nonzero byte, and one for zero, whose log is never written |
| `Cauchy.NoKernel` | chunk/erasure.c:56-63 | a vector with at most t nonzero entries that t distinct Cauchy rows annihilate is zero |
| `Generator.Independent` | chunk/erasure.c:56-63 | any k ascending rows of the generator, data and parity mixed, annihilate only the zero vector |
| `GaussJordan.FindPivot` | chunk/erasure.c:132-135 | the pivot found is nonzero, and none is found exactly when the column is zero from the diagonal down |
| `GaussJordan.SwapRows` | chunk/erasure.c:136-145 | the two rows are exchanged and every other row is as it was |
| `GaussJordan.ScaleRow` | chunk/erasure.c:146-150 | one row is scaled and every other row is as it was |
| `GaussJordan.AddRow` | chunk/erasure.c:156-159 | a multiple of one row is added to another and every other row is as it was |
| `GaussJordan.NoPivot` | chunk/erasure.c:132-135 | a column without a pivot yields a nonzero vector that the matrix annihilates |
| `GaussJordan.ClearColumn` | chunk/erasure.c:136-160 | one column's step keeps the inverse in step with the matrix, keeps its kernel, and leaves one more unit column |
| `GaussJordan.Invert` | chunk/erasure.c:122-161 | a pivot is found in every column exactly when the given matrix is nonsingular, and then the second matrix is its left inverse |
| `Erasure.PieceLen` | chunk/erasure.c:67-72 | k pieces of that length hold the buffer |
| `Erasure.PieceLenLeast` | chunk/erasure.c:67-72 | and no shorter piece would do |
| `Erasure.GeneratorEntry` | chunk/erasure.c:56-63 | the entry is the identity's for a data row and the Cauchy entry for a parity row |
| `Generator.RowMeans` | chunk/erasure.c:56-63 | a data row is the identity; a parity entry times the sum of its two indices is one |
| `Erasure.Systematic` | chunk/erasure.c:88-90 | the code of a data row is the data, padded with zeros |
| `Erasure.EncodeParity` | chunk/erasure.c:91-102 | a piece above the data holds the generator row's combination of the data pieces byte by byte, a wrapped index below k wipes its data piece, and nothing else is written |
| `Erasure.Encode` | chunk/erasure.c:79-104 | refuses exactly what the 32-bit check refuses and then writes nothing; a documented shape leaves every one of the k+m pieces its row's code of the data; a shape let through because its sum wraps leaves the data pieces the wrapped indices name wiped; nothing past the k+m pieces is written |
| `Erasure.ShapeIff` | chunk/erasure.c:74-77 | for nonzero counts and length the 32-bit check is the documented one exactly when the sum does not wrap, or wraps past the limit too |
| `Erasure.WrappedShape` | chunk/erasure.c:74-77 | an input whose sum wraps to 0 and passes |
| `Rebuild.ChooseRows` | chunk/erasure.c:117-121 | the first k pieces held among those looked at, in order, or all of them when there are fewer |
| `Rebuild.RowsNonsingular` | chunk/erasure.c:122-135 | the matrix of any k rows held is nonsingular, so the missing-pivot refusal is never taken |
| `Rebuild.RebuildByte` | chunk/erasure.c:167-173 | an output byte is the inverse row applied to the bytes held |
| `Rebuild.RowRebuilds` | chunk/erasure.c:162-175 | an inverse row applied to codes of the data gives back the data byte |
| `Rebuild.Decode` | chunk/erasure.c:106-177 | answers MALFORMED exactly where the 32-bit check does, TOO_FEW for every shape whose sum wrapped and otherwise exactly when fewer than k pieces are held, and never refuses else; pieces of any buffer give back that buffer, and nothing past it is written |
| `Rebuild.RoundTrip` | chunk/erasure.c:79-177 | for every documented k and m, every buffer and every choice of surviving pieces: encode, lose the others, decode: at least k pieces left give the buffer back exactly, fewer give TOO_FEW |
| `Hashing.NodeBinds` | blob/blob.c:326-343 | equal node hashes have equal children, or the two inputs collide |
| `Hashing.RootBinds` | blob/blob.c:452-465 | equal roots have equal apexes and leaf counts, or the two inputs collide |
| `Hashing.NodeLayout` | blob/blob.c:326-343 | a node's input is 0x01, the left child and the right child |
| `Hashing.RootLayout` | blob/blob.c:452-465 | the root's input is the label, the count in eight big-endian bytes and the apex |
| `MerkleTree.SplitLoop` | blob/blob.c:496-503 | the loop computes the split of section 2.1 of RFC 6962 |
| `MerkleTree.SplitUnique` | blob/blob.c:496-503 | the split is the only power of two k with k < n <= 2k |
| `MerkleTree.ApexJoin` | blob/blob.c:352-389 | a power-of-two run followed by no more leaves hashes to the node over the two apexes |
| `MerkleTree.ApexMeans` | blob/blob.c:487-503 | the tree hash spelled out: a leaf is itself, more leaves hash the prefix, the left part's and the right part's |
| `TreeBuilder.Tree.Push` | blob/blob.c:352-389 | a push appends the leaf and keeps the stack a forest of complete trees of strictly falling level over the leaves; it is refused exactly when the leaves would reach 2^40, and then nothing changes |
| `TreeBuilder.Tree.Fold` | blob/blob.c:352-389 | merging the two top trees of one level keeps the forest |
| `TreeBuilder.OnePerSetBit` | blob/blob.c:352-389 | a stack of strictly falling levels has one entry per set bit of the number of leaves |
| `TreeBuilder.SizeBound` | blob/blob.c:352-389 | levels below a bound hold fewer than 2^bound leaves in at most that many entries, and all of them exactly at 2^bound - 1 |
| `TreeBuilder.FoldIsApex` | blob/blob.c:401-425 | folding the stack from the top gives the recursive tree hash |
| `TreeBuilder.Tree.ApexOf` | blob/blob.c:401-425 | the apex of the pushed leaves is their recursive tree hash; no leaves, no apex |
| `TreeBuilder.Tree.Root` | blob/blob.c:467-485 | the root is the finalised recursive tree hash of exactly the leaves pushed |
| `TreeBuilder.SubtreeRoot` | blob/blob.c:520-538 | the streaming builder over a range of an array gives that range's recursive tree hash |
| `Spans.CanonicalIsNode` | blob/blob.c:771-834 | the walk reaches a span exactly when the span is a node of the tree of RFC 6962 |
| `Spans.WalkDepth` | blob/blob.c:771-834 | no path in a tree of at most 2^d leaves is longer than d, so the depth guard is never reached |
| `Spans.LeafIsCanonical` | blob/blob.c:540-586 | every leaf of the tree is a canonical span |
| `Spans.Complete` | blob/blob.c:883-940 | the siblings of a canonical span are accepted against the root of its leaves |
| `Spans.ClimbBinds` | blob/blob.c:883-940 | a path that climbs to the apex of some leaves starts at those leaves' span, or two node inputs collide |
| `Spans.Sound` | blob/blob.c:883-940 | a proof accepted against the root of some leaf sequence has that sequence's count and the apex of that very span, or two hash inputs are given that collide |
| `BlobProofs.SpanWalk` | blob/blob.c:771-834 | the descent returns the span's path and, from an honest source, its siblings, the root's children first; it refuses exactly the spans that are no node and the buffers too short |
| `BlobProofs.IsCanonical` | blob/blob.c:836-846 | answers yes exactly for the nodes of the tree |
| `BlobProofs.SpanProofFrom` | blob/blob.c:868-881 | over any honest source of subtrees, the proof is the span's siblings, exactly when it is canonical and fits |
| `BlobProofs.SpanProofBuild` | blob/blob.c:848-866 | the same from an array of leaf hashes, each sibling computed by pushing its leaves through the streaming builder |
| `BlobProofs.SpanProofVerify` | blob/blob.c:883-940 | accepts exactly what climbing the claimed span's path from the claim to the root accepts |
| `BlobProofs.ProofBuild` | blob/blob.c:540-586 | a leaf's proof is its siblings, the root's children first, and is refused exactly for a bad index or a short buffer |
| `BlobProofs.ProofVerify` | blob/blob.c:588-705 | accepts a leaf proof exactly when the one-leaf span proof is accepted |
| `BlobProofs.LargestAt` | blob/blob.c:942-978 | the largest canonical span that starts at the leaf within the limit; never zero for a leaf of the tree and a positive limit |
| `BlobProofs.Cover` | blob/blob.c:942-978 | taking the largest span each time tiles any run of leaves exactly with canonical spans and ends |
| `Levels.OffsetsApart` | blob/levels.c:8-16 | the 32-byte slots of two different nodes never overlap |
| `Levels.OffsetsPacked` | blob/levels.c:8-16 | nodes are packed 32 bytes each, level after level, lowest first |
| `Levels.Builder.Push` | blob/levels.c:45-78 | each push writes every node it completes at its own offset; refused exactly past the announced count; the leaf that makes 2^40 of them answers SHAPE |
| `Levels.SubtreeIsApex` | blob/levels.c:89-123 | once all leaves are pushed, reading any range back gives its recursive tree hash |
| `Levels.LevelsHonest` | blob/levels.c:89-123 | the level store is an honest source of subtrees |
| `Levels.SpanProof` | blob/levels.c:133-141 | the stored proof is the span's siblings, exactly when it is canonical and fits |
| `BlobAgreement.Agree` | blob/levels.c:133-141 | for every tree of fewer than 2^40 leaves and every node of it: the streamed root, the stored proof, the built proof and the verifier agree |
| `Votes.EpochClosed` | chain/revocation.c:722-735 | counts exactly the counted issuers that have left the epoch |
| `Votes.LeastIsCandidate` | chain/revocation.c:741-777 | if any epoch past the floor is not closed, one no later is the first or next to some entry's |
| `Votes.OpenEpoch` | chain/revocation.c:741-777 | the answer is the least epoch past the floor that is not closed over all 64-bit epochs, or the last when all are |
| `Votes.RootPass` | chain/revocation.c:784-805 | the pass with its moving floor computes the root's word |
| `Votes.JudgeHop` | chain/revocation.c:824-863 | the verdict with its early exits is the one judged over the least open epoch: the root's word, q live votes, the latch, or free |
| `Ballots.JudgeIgnores` | chain/revocation.c:679-717 | dropping every entry of anyone but a grantor above the hop or an admin who stands leaves the verdict as it was; with a root set a member is heard exactly when its act counts; where every issuer is heard, all but an admin who does not stand |
| `Ballots.JudgeMeans` | chain/revocation.c:807-863 | the verdict in sets of entries: a root's live vote; else q live votes past the root's undo; else the latch, at the first epoch fewer than q have left by withdrawing in it or voting later, with q votes and fewer than q withdrawals |
| `Ballots.OneVoteRevokes` | chain/revocation.c:824-863 | at quorum one, with no root's entry, a hop is revoked exactly by a live entry of somebody with a say |
| `Ballots.LinkRevokedIff` | chain/revocation.c:865-886 | hop i of a chain under one pinned root at quorum one is revoked exactly by the root's live vote, or by a live vote past its undo of a grantor at or above the hop or of an admin who stands |
| `Votes.CountPermuted` | chain/revocation.c:679-717 | what is counted does not depend on the order of the entries |
| `Verdicts.RootScanPermuted` | chain/revocation.c:784-805 | roots that agree have one word in every order |
| `Verdicts.OrderDecides` | chain/revocation.c:784-805 | roots that do not agree have two orders of the same entries, one revoked outright and one not |
| `Verdicts.OrderIndependentIff` | chain/revocation.c:784-863 | a hop's verdict is the same for every order exactly when its roots agree |
| `Verdicts.PinnedJudgePermuted` | chain/revocation.c:807-863 | one pinned root and one entry per triple: every order of the entries gives the same verdict |
| `Verdicts.QuorumOne` | chain/revocation.c:824-863 | at quorum one a hop is revoked exactly when the root's word settles it or some live vote counts above the undo |
| `Verdicts.QuorumOnePinned` | chain/revocation.c:824-863 | the same under one pinned root without the pass: a live vote of the root's, or a live counted vote above the root's undo |
| `Verdicts.LatchHolds` | chain/revocation.c:824-863 | q votes in the open epoch keep the hop revoked through anything said about other hops and withdrawals in the epoch, of votes held or not, until q counted issuers have left |
| `Verdicts.WithdrawalRun` | chain/revocation.c:824-863 | any run of such steps is one |
| `Admins.LeastIsClosed` | chain/revocation.c:950-1020 | the least confirmed set is closed under the confirmation rule |
| `Admins.ConfirmedMonotone` | chain/revocation.c:950-1020 | more eligible confirmers never confirm fewer admins |
| `Admins.HopOk` | chain/revocation.c:950-1020 | a hop stands exactly when a root confirms it or k - 1 distinct confirmed eligible confirmers do |
| `Admins.Round` | chain/revocation.c:950-1020 | a round stays within the least set and either raises a flag or shows the set closed |
| `Admins.ConfirmAdmins` | chain/revocation.c:950-1020 | the rounds end, at the least fixed point of the confirmation rule |
| `Confirming.ConfirmedIff` | chain/revocation.c:950-1020 | an admin is confirmed exactly when its chain starts at a root that counts and each later hop was granted by a root, or has a root's stored confirmation, or those of k - 1 different confirmed eligible keys, none by the hop's grantor |
| `Confirming.UnconfirmedIff` | chain/revocation.c:963-969 | with no confirmations kept, or k = 1, the chain need only start at a root that counts |
| `Confirming.OwnConfirmationsIgnored` | chain/revocation.c:987-994 | a grantor's confirmations of its own grants change neither who is confirmed nor who stands |
| `Admins.StandingAdmins` | chain/revocation.c:1033-1067 | the flags are the two strata: confirmed and unrevoked, then still confirmed by those |
| `Confirming.StandingIff` | chain/revocation.c:1033-1067 | an admin stands exactly when it is confirmed, no hop of its chain is revoked by the confirmed admins' votes, and those of whom that is true still confirm it |
| `Admins.StandingOnlyShrinks` | chain/revocation.c:1033-1067 | the second pass only removes |
| `Admins.CoversLinks` | chain/revocation.c:1142-1179 | every hop of a chain is judged against the admins who stand; a list too long to be a chain is not judged |
| `Admins.ConfirmedReordered` | chain/revocation.c:950-1020 | who is confirmed does not depend on the order of admins and confirmations |
| `Admins.VerdictsReordered` | chain/revocation.c:865-886 | under one pinned root, who stands and every hop's verdict are the same for every order of entries, admins and confirmations |
| `Acts.ActStands` | chain/revocation.c:1196-1257 | out of range is refused; otherwise an act stands exactly when the hop is free, or some vote binds and the act is behind the line of every vote that does |
| `Acts.FullUndoIsTop` | chain/revocation.c:1229-1241 | the second pass finds the highest undo of the roots |
| `Acts.StandsIff` | chain/revocation.c:1196-1257 | when the roots agree some vote always binds a revoked hop, so the last guard is never what refuses |
| `Acts.VoteStopsAct` | chain/revocation.c:1242-1256 | a live or latched vote in play that drew no line, or one the log does not put the act behind, stops the act |
| `Acts.ActStandsWhen` | chain/revocation.c:1242-1256 | when the log puts the act behind the line of every such vote, it stands |
| `Acts.StandsPermuted` | chain/revocation.c:1196-1257 | whether an act stands does not depend on the order of the entries |
| `Acts.LostLineShows` | chain/revocation.c:1242-1256 | the cut a tombstone loses is seen: the two orders of a revocation and its withdrawal answer alike about an act exactly when the revocation drew no line |
| `Admission.RevocationStore.FindEntry` | chain/revocation.c:459-469 | the first entry of the triple, or the end |
| `Admission.RevocationStore.AdmitRecord` | chain/revocation.c:1560-1885 | the store, its generation, the answer and whether the manifest is drained, for every case of a revocation, a reissue and a withdrawal; a refused record changes nothing |
| `Admission.AnswerMeans` | chain/revocation.c:1560-1893 | STORE_FULL exactly when nothing is held and there is no room; UNKNOWN_TARGET exactly for a withdrawal of another id or epoch, or a fresh revocation over a withdrawn entry; any answer but Ok changes nothing; only revocations drain |
| `Admission.OkMeans` | chain/revocation.c:1560-1893 | after Ok the triple is held: for a withdrawal the vote of the id and epoch it names, withdrawn; for a revocation the record itself, field by field, where it takes the place, and else the entry untouched |
| `Admission.BumpedIff` | chain/revocation.c:1560-1893 | the generation moves exactly when an entry is added or changes whether it is withdrawn or where its line is |
| `Admission.AdmitKeepsTriples` | chain/revocation.c:1560-1885 | admission keeps one entry per triple and never drops or moves a triple |
| `Admission.AdmitIsNext` | chain/revocation.c:1560-1885 | a record changes what is held for its own triple and for no other |
| `Convergence.DeliverKeepsTriples` | chain/revocation.c:1560-1885 | every run keeps one entry per triple and never drops one |
| `Convergence.Converges` | chain/revocation.c:1660-1827 | a revocation, its withdrawal and a reissue, in any order, with any repetition and among any records about other triples, end in the reissue's live entry |
| `Convergence.WithdrawnIff` | chain/revocation.c:1560-1827 | with a withdrawal of the reissue too, a run ends with the reissue withdrawn exactly when that withdrawal comes before everything else about the triple or at some time after the reissue; otherwise it ends live |
| `Convergence.LostWithdrawal` | chain/revocation.c:1608-1657 | so of two orders of the same three records one ends live and one withdrawn |
| `Convergence.EndsWithdrawn` | chain/revocation.c:1560-1657 | the revocation and its withdrawal alone end withdrawn at the revocation's id and epoch in every order, the cut kept only when the revocation came first |
| `Convergence.PairConvergesIff` | chain/revocation.c:1560-1657 | those two end in one and the same entry for every order exactly when the revocation drew no line |
| `Convergence.LatchOverRun` | chain/revocation.c:1560-1657 | the latch holds over every run of admitted records about other hops and of withdrawals in the open epoch, tombstones among them, until q counted issuers have left it |
| `Convergence.QuietAdmission` | chain/revocation.c:1797-1812 | an admission that leaves the generation alone changes nothing a verdict reads, unless it moves a live vote's epoch |
| `Convergence.GenerationCovers` | chain/revocation.c:1560-1885 | under one pinned root such an admission leaves who stands and every hop's verdict as they were |
| `Convergence.EpochMoveUnseen` | chain/revocation.c:1797-1812 | for any two different epochs, earlier or later, and either way round: two records delivered and a quorum where the reissue between them revokes a free hop, and where it frees a revoked one, and the generation stays |
| `RootSet.LeastIsFixed` | chain/root_log.c:197-218 | membership with the removals fixed is a fixed point: an add counts exactly when its signer's act does |
| `RootSet.IsMember` | chain/root_log.c:150-161 | genesis, or the subject of an add that counts |
| `RootSet.ActCounts` | chain/root_log.c:174-195 | a member's act, standing under the cut of every counting removal of its root |
| `RootSet.ActRule` | chain/root_log.c:174-195 | an act counts exactly when its root is genesis or an added subject and every counting removal of it has a cut the log puts the act behind |
| `RootSet.RemovalRule` | chain/root_log.c:254-259 | a removal counts by its signer's membership alone |
| `RootSet.GrowMembers` | chain/root_log.c:197-218 | the passes end, at the least set of adds closed under the act rule |
| `RootSet.Settle` | chain/root_log.c:245-268 | the rounds end within their bound in the view the round rule defines |
| `RootSet.SettledReordered` | chain/root_log.c:245-268 | every order of the records settles to the same view |
| `RootSet.NeverSettles` | chain/root_log.c:245-268 | a concrete set of two records that never settles, and what is kept of it |
| `Settling.RoundsPinch` | chain/root_log.c:245-268 | the removals of even rounds ascend and of odd rounds descend, each inside the ones before |
| `Settling.SeenIsFirst` | chain/root_log.c:258-266 | what all rounds saw is exactly what the first one did: the removals whose signers are members when nothing is removed |
| `Settling.SettlesInTime` | chain/root_log.c:245-268 | a set that settles in any number of rounds has settled within as many as the first round has removals |
| `Settling.BoundSuffices` | chain/root_log.c:220-222 | the bound the code uses is at least that |
| `Settling.SettlesIff` | chain/root_log.c:245-268 | the view is mutually consistent exactly when some round repeats the one before; otherwise it keeps exactly the first round's removals, with the members they leave |
| `Settling.OneView` | chain/root_log.c:245-268 | a set that settles has no other consistent view |
| `Settling.ShelteredSettles` | chain/root_log.h:88-93 | when no cycle of adds and removals runs through the removal of an adder -- a rank does not fall along adds, and grows from whoever removes an adder, unless the cut spares the add, to whom the add adds -- the set settles |
| `Settling.NoAdderRemoved` | chain/root_log.h:88-93 | so a set in which no adder is removed, or only at cuts that spare what it added, settles, however its roots add each other |
| `Settling.RankedSettles` | chain/root_log.h:88-93 | in particular when no cycle of adds and removals has an add in it |
| `Settling.CrossedLines` | chain/root_log.h:91-93 | two removals, neither of a root on its own signer's line of adds, that together never settle and are both kept |
| `QuorumSetting.Winner` | chain/root_log.c:413-469 | the answer is a counting setting that no other counting one replaces and that no such one beats; none exactly when there is no such setting |
| `QuorumSetting.WinnerMeans` | chain/root_log.c:436-464 | no current setting has a higher quorum than the answer, nor the same and an earlier id |
| `QuorumSetting.CurrentMeans` | chain/root_log.c:440-449 | current: the setter's act counts and no other setting that counts names its hash |
| `QuorumSetting.WinnerUnique` | chain/root_log.c:436-464 | there is one answer at most |
| `QuorumSetting.WinnerSame` | chain/root_log.c:436-464 | the answer is the same for every order and any repetition of the settings |
| `QuorumSetting.SomethingInForce` | chain/root_log.c:436-469 | when settings can only name earlier ones, something is in force as soon as something counts |
| `Chain.VerifyChain` | chain/chain.c:143-357 | the two passes and the gate report the first fault in the documented order, and on success the weakest link's expiry |
| `Chain.VerifiesIff` | chain/chain.c:143-357 | a chain verifies exactly when it is short enough, rooted, faultless hop by hop, caught up and signed |
| `Chain.AcceptedIff` | chain/chain.c:143-357 | acceptance both ways over the hops' fields: at most 8, the first granted by the root, one capability, each granted by the last grantee under a hop that may be passed on, none ending before it begins or expired or revoked, no grantor with a deficit, all signed; and the fields reported |
| `Chain.AcceptedMeans` | chain/chain.c:231-357 | the same for any one hop of an accepted chain, spelled out |
| `Chain.FirstRefusal` | chain/chain.c:231-322 | a rooted chain is refused for its first hop at fault: CHAIN_INVALID for the grant, then EXPIRED, then REVOKED |
| `Chain.OtherRefusals` | chain/chain.c:143-345 | MALFORMED for the length, WRONG_ROOT before any hop, and with no hop at fault INCOMPLETE before a bad signature |
| `Chain.PrefixVerifies` | chain/chain.c:231-357 | every nonempty prefix of a chain that verifies, verifies |
| `Chain.SoonestIs` | chain/chain.c:255-273 | the reported expiry is some hop's and none is sooner; an unlimited hop does not win |
| `Chain.VerifiesUntilExpiry` | chain/chain.c:231-357 | a chain that verified once verifies against the same store at any time before its expiry, with the same verdict |
| `Chain.Delegate` | chain/chain.c:458-505 | refuses in the documented order; otherwise the hop is granted by the last grantee from now, for the sooner of what was asked and what the chain has left, and signed |
| `Chain.DelegationVerifies` | chain/chain.c:458-505 | the chain with the new hop verifies at the same time, root and capability unless the store revokes that hop, and expires no later than its parent |
| `Memo.Table.Allows` | chain/memo.c:35-69 | a hit exactly when some slot has this generation and triple and has not expired; the counters move by one |
| `Memo.Table.Record` | chain/memo.c:71-109 | a verdict goes over its own triple, else into the first empty or stale slot, else where the cursor stands; generation 0 is refused and changes nothing |
| `Memo.RememberKeepsOne` | chain/memo.c:71-109 | no triple is ever in two written slots |
| `Memo.RememberAnswers` | chain/memo.c:71-109 | after recording, the triple answers with what was recorded last; others answer as before unless evicted |
| `Memo.EvictsInTurn` | chain/memo.c:94-99 | a full memo overwrites round and round: n new triples take the n slots from the cursor on |
| `Memo.QuietVerify` | chain/revocation.c:1560-1885 | an admission that leaves the generation alone and moves no live vote's epoch leaves every verification as it was |
| `Memo.SoundStep` | chain/memo.c:71-109 | every admission, other write and recorded verification keeps each slot of the current generation honest |
| `Memo.HitsAgree` | chain/memo.c:35-69 | in every run a hit at a time means that the chain last recorded for the triple verifies then against the store as it stands |
| `Memo.StaleHit` | chain/memo.c:35-69 | with a reissue that moves a live vote to any other epoch, a run of admissions from an empty store after which a hit is allowed for a chain the store revokes |
| `ManifestForm.KeyDecides` | chain/manifest.c:40-62 | comparing capability and then grantee is comparing the 64 bytes of the key |
| `ManifestForm.Open` | chain/manifest.c:174-244 | accepts exactly the bytes of the right header, count and length whose keys strictly ascend and whose states are known |
| `ManifestForm.OpensIffCanonical` | chain/manifest.c:174-297 | the encoding of rows opens exactly when the rows are canonical |
| `ManifestForm.CanonicalMeans` | chain/manifest.c:216-239 | canonical over the fields: each pair after the last by capability and then grantee, each state 0 or 1 |
| `ManifestForm.Layout` | chain/manifest.c:155-165 | every field at its offset in the bytes |
| `ManifestForm.Reencodes` | chain/manifest.c:174-297 | bytes that open re-encode to the same bytes |
| `ManifestForm.UnpackedPacked` | chain/manifest.c:246-297 | rows read back from the bytes are the rows written |
| `ManifestIssue.Encode` | chain/manifest.c:246-297 | refuses exactly what a receiver would, writing nothing; otherwise the bytes are the canonical encoding, unsigned, and open |
| `ManifestIssue.FindPlace` | chain/manifest.c:375-386 | the position of the first key not before the candidate's, and whether it is that key, found in the buffer |
| `ManifestIssue.InsertPair` | chain/manifest.c:388-392 | the tail moves up one pair and the candidate takes its place |
| `ManifestIssue.Issue` | chain/manifest.c:299-419 | what is left in the buffer is the whole signed manifest of the sorted rows; a refused signing leaves zeros |
| `ManifestIssue.IssuedCanonical` | chain/manifest.c:335-393 | whatever the store, what is issued is canonical and says only what the issuer's entries say, so opening it back never fails |
| `ManifestIssue.IssuedExactly` | chain/manifest.c:335-393 | with one entry per triple it holds exactly the issuer's entries with their ids and states, and is issued exactly when that many rows are allowed and fit |
| `ManifestIssue.RowsAreEntries` | chain/manifest.c:335-393 | every row issued is an entry of the issuer with that capability, grantee and id, withdrawn exactly when the entry is |
| `ManifestIssue.EntriesAreRows` | chain/manifest.c:335-393 | with one entry per triple each of the issuer's entries has its row |
| `Deficit.IssuedIsMatched` | chain/manifest.c:538-576 | each row issued from a store is matched by that store |
| `ManifestIssue.SameManifest` | chain/manifest.c:299-419 | two stores with the same entries in any order issue the same rows, or neither issues |
| `Deficit.Tables.Follow` | chain/manifest.c:448-485 | following twice changes nothing; a new issuer starts clear; a full table refuses |
| `Deficit.Tables.Admit` | chain/manifest.c:487-639 | the deficit, the marker and the high-water mark after a manifest, and nothing changes for a stranger's or a badly signed one; the deficit never lists a pair twice |
| `Deficit.Tables.Satisfy` | chain/manifest.c:641-672 | the pair is gone from the deficit and the rest is in its order |
| `Deficit.WithoutKeepsOrder` | chain/manifest.c:641-672 | what came before the pair and what came after stay, in order |
| `Deficit.MatchedIs` | chain/manifest.c:538-576 | a row is matched exactly when the store's entry has the same record and has cleared it if the issuer has |
| `Deficit.OtherIsUnmatched` | chain/manifest.c:538-576 | an entry with another id matches no row of the pair, and a live one no row that withdraws it |
| `Marker.LostIff` | chain/manifest.c:533-595 | no row is lost exactly when every row is matched or listed in what results |
| `Marker.ListedOwed` | chain/manifest.c:538-595 | a pair new to the table is of a row the store does not match |
| `Marker.MarkerExact` | chain/manifest.c:580-609 | the marker is up exactly when a row of the manifest is unaccounted for, or it was up and the manifest falls short of the largest seen |
| `Marker.RollbackClearsNothing` | chain/manifest.c:597-621 | a manifest smaller than one seen leaves the issuer's mark and marker as they were |
| `Marker.MarkerHonest` | chain/manifest.c:487-672 | over every run of follows, manifests and admissions, other issuers sharing the table and the store changing: a clear marker accounts for every row of the manifest that last reached the high-water mark, so long as each admission kept its pair's row accounted for |
| `Marker.SeenIsMark` | chain/manifest.c:597-609 | in every run the high-water mark is the size of the manifest that last reached it |
| `Marker.DeliveryExact` | chain/manifest.c:641-672 | an admission keeps a clear marker honest exactly when the mark has no row for its pair, or the store after it matches the row, or it drained nothing and the pair is listed |
| `Marker.ClearMeansAccounted` | chain/manifest.c:487-672 | in the same runs a clear marker accounts for every row of every manifest taken up that the mark covers |
| `Marker.CoversIff` | chain/manifest.c:538-576 | a manifest accounted for accounts for a row of another, for every store and deficit, exactly when it names the row's pair with the same record and withdraws it if the row does |
| `Marker.MarkCovers` | chain/manifest.c:597-609 | when each manifest covers the ones before it, unless it is shorter and covered by them, the mark covers every manifest taken up -- rows withdrawn in place included |
| `Marker.NestedGrows` | chain/manifest.c:597-609 | manifests nested by inclusion are such |
| `Marker.NestedAccounted` | chain/manifest.c:487-672 | so over a run of manifests nested by inclusion a clear marker accounts for every row of every one taken up |
| `Marker.SameSizeReplay` | chain/manifest.c:597-609 | a manifest of the same size that does not cover the newer one's row, replayed, clears the marker while that row is owed and not listed |
| `Marker.DrainLeaves` | chain/manifest.c:641-672 | a run of one manifest and one drain: the marker is clear, and the row is accounted for exactly when the store after the drain matches it |
| `Delivery.StoredOnlyAbout` | chain/revocation.c:1560-1885 | an admission changes nothing the store says to a manifest about other pairs |
| `Delivery.WithdrawalKeeps` | chain/revocation.c:1560-1657 | an admitted withdrawal always keeps the marker honest |
| `Delivery.DrainKeepsIff` | chain/revocation.c:1660-1885 | after an admission that drains, any row about its pair is matched exactly when the record took its place and is the one the row names, unwithdrawn -- or was left, and the row was matched before |
| `Delivery.QuietDrain` | chain/revocation.c:1676-1827 | the pairs an admission can drain while leaving the store as it was are exactly those the store holds |
| `Delivery.RedeliveryLies` | chain/revocation.c:1814-1827 | the held record delivered again drains a row that names another, and a clear marker lies |
| `Delivery.WithdrawnRowLies` | chain/revocation.c:1867-1893 | the very record a row names as withdrawn, delivered first, drains the row and revokes, and a clear marker lies |
| `Delivery.DrainLiesUnless` | chain/revocation.c:1660-1893 | for every store, record and unmatched row: after the drain the marker is clear and the row accounted for exactly when the record takes its place and is the one the row names, unwithdrawn |
| `Reception.ReceiptKeeps` | chain/revocation.c:1560-1893 | a record received keeps a clear marker honest exactly when it drains nothing or the held entry, the record and each row about the pair satisfy that condition |
| `Reception.ReceivedHonest` | chain/manifest.c:487-672 | over every run of follows, manifests and records admitted by the store's own rule, a clear marker accounts for the manifest that last reached the high-water mark, so long as each draining record satisfied the condition |
| `Rotation.DeficitFrom` | chain/manifest.c:773-828 | the window holds the issuer's pairs from the cursor in order, going round; what did not fit and where to resume |
| `Rotation.OwedIs` | chain/manifest.c:773-828 | the run reported is the issuer's entries and no others' |
| `Rotation.EveryPairReported` | chain/manifest.h:792-797 | resuming where each call said reports every pair within one lap of windows |
| `Holders.ListHolders` | catalog/catalog.c:427-490 | the first distinct holders that fit, in order, each with its count; written plus dropped is the exact number of holders |
| `Holders.DistinctCount` | catalog/catalog.c:427-490 | the listing names each holder once and no one else |
| `Holders.HolderMeans` | catalog/catalog.c:442-449 | a holder is the issuer of a live holder-capability assertion about the entity |
| `Sweep.HolderFacts` | catalog/sweep.c:89-118 | the facts as far as the bounded list shows them |
| `Sweep.FactsHonest` | catalog/sweep.c:89-118 | what is answered is so: whether this host holds the entity and exactly how many others do; it is unanswered only when more than 16 hold it |
| `Sweep.FateMeans` | catalog/sweep.c:155-205 | retained, too many holders, not held here, too few others, removable: each over who holds the entity live, and exact with no more than 16 holders |
| `Sweep.Job.InsertSorted` | catalog/sweep.c:72-84 | the row is put in before the run of later rows, in place |
| `Sweep.Job.Capture` | catalog/sweep.c:120-211 | a call without a self or room is refused and changes nothing; otherwise the job starts afresh and its rows and counters are those of deciding each distinct 32-byte entity once, in order |
| `Sweep.Partition` | catalog/sweep.c:144-211 | the six counters partition the distinct entities, each counting exactly its fate; rows are cut off only when full |
| `Sweep.RowsAre` | catalog/sweep.c:144-211 | the rows strictly ascend, are removable entities, and are all of them when none was cut off |
| `Sweep.LastCopySafe` | catalog/sweep.c:155-209 | every planned removal is held by this host, not kept by it, and held live by at least min_others other hosts |
| `Sweep.PlanLeavesCopies` | catalog/sweep.c:120-211 | carrying out the whole plan leaves every planned entity its min_others holders and every other entity as it was |
| `Arrival.SamePlan` | catalog/sweep.c:64-84 | the same assertions in any order and number give the same rows in the same order, when no entity wavers and there is room for what may be removed |
| `Arrival.SamePlanIff` | catalog/sweep.c:64-118 | every arrival order gives the same rows exactly when no entity wavers -- one with more than 16 holders that this host holds, does not keep, and enough others hold -- and what may be removed is no more than the room |
| `Arrival.WaveringShows` | catalog/sweep.c:89-118 | a wavering entity is planned when this host's own assertion comes first and undecided when they come last, whatever the room |
| `Arrival.CrowdShows` | catalog/sweep.c:89-118 | seventeen holders or more, each with one assertion, are such an input |
| `ByteOrder.AscendingUnique` | catalog/sweep.c:64-84 | a set of keys has one ascending listing |
| `ByteOrder.BeforeMeans` | catalog/index.c:188-192 | the first byte that differs decides the order |
| `Shard.MakePlan` | catalog/shard.c:7-58 | refuses exactly a zero floor, a falling key and a plan that does not fit, writing nothing; otherwise the plan, the remainder in the last shard |
| `Shard.PlanConserves` | catalog/shard.c:35-55 | the counts sum to the register; at or above the floor every shard holds from the floor to twice the floor less one; below it there is one shard |
| `Shard.ShardOf` | catalog/shard.c:60-84 | the last shard that starts at or before the key, or the first |
| `Shard.RoutesHomeIff` | catalog/shard.c:60-84 | for any sorted register, a key is routed to the shard that holds it exactly when the next shard does not begin with that key |
| `Shard.RoutesHome` | catalog/shard.c:60-84 | distinct keys are all routed to the shard whose slice holds them |
| `Index.BodyEncode` | catalog/index.c:194-227 | refuses exactly an empty plan, one too long and starts that do not ascend, writing nothing; otherwise the body of starts and roots |
| `Index.BodyRoundTrip` | catalog/index.c:218-227 | the starts and roots read back are those written |
| `Index.Layout` | catalog/index.c:218-227 | each entry's start and then its root, 64 bytes apart |
| `Index.BytesRoundTrip` | catalog/index.c:218-227 | any bytes of whole entries are the body of what is read from them |
| `Index.BodyOk` | catalog/index.c:229-246 | accepts exactly whole, nonempty bodies of the expected count with ascending starts |
| `Index.AcceptsWhatEncodes` | catalog/index.c:194-246 | what is accepted is exactly what some encoding can produce |
| `Index.EntryAt` | catalog/index.c:248-269 | the start and root of an entry, or RANGE |
| `Index.Lookup` | catalog/index.c:271-300 | binary search over the bytes routes every key as the linear rule does, whenever the starts ascend |
| `Index.RoutesAgree` | catalog/index.c:271-300 | a body that encodes a plan is accepted, and routed for every key as the plan is |
| `Index.FindBlob` | catalog/index.c:248-300 | plan, encode and look up: for distinct keys the root found is that of the shard holding the key |

## Left out

- Hash, AEAD, signature and entropy primitives, constant-time comparison and wiping: parameters or plain equality, with a hash that never fails.
- Null-argument guards, corrupt-store branches, error strings, logging and static layout assertions.
- Leaf sealing, opening, derivation and byte geometry in `blob/blob.c`: a wrapper over the AEAD seam and short arithmetic.
- `admit/admit.c`, `chain/authz.c`, `chain/service.c`, `chain/chain_store.c`, `chain/succession.c`, `catalog/retention.c`, `catalog/filing.c`, `catalog/source.c`, `catalog/copy.c`, `catalog/purge.c`, `catalog/materialise.c`: short case splits or bounded tables that would add easy members.
- The byte forms of hops, chains and revocation records (`chain/chain.c:15-141`, `chain/revocation.c:140-223`): one more fixed-width round trip of the kind shown for manifests and the index.
- The head of the catalogue index (`catalog/index.c:1-171`), and running a captured sweep job (`catalog/sweep.c:256-288`).
- The checks that decide whether a record may be admitted at all (signature and standing, `chain/revocation.c:1442-1555`), admin and confirmation admission, and merge: their outcome is a parameter of `Admission.RevocationStore.AdmitRecord`, and in the memo's runs any other write to the store is an arbitrary change that moves the generation.
- Static 32-by-32 matrices: the model uses k-by-k ones; the library's single set of tables is an object passed in.
- Storage behind the level store: a map from byte offsets to digests on which reads and writes do not fail.
- The width of the generation counter and of pushed, hit and miss counts: unbounded.
- Admission.RevocationStore.AdmitRecord: does not carry the manifest itself; it says when the manifest's entry is to be drained.
- Rebuild.Decode: takes the pieces as values rather than views of memory, so overlap between a piece and the output buffer is not modelled.
- Refusing to set a table up with no capacity (`chain/manifest.c:430-446`): the model allows it, and such a table lists nothing.
- Deficit.Tables.Admit: takes an opened manifest and the outcome of its signature check.
- Chain.VerifyChain: takes hops as values rather than views over signed bytes.
