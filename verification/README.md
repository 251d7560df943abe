# Verified models of PostgreSQL contrib modules

This project models, in Dafny, the parts of five PostgreSQL `contrib` modules that are hard to get
right, and proves what they are relied on for. `dafny verify dfyconfig.toml` checks all of it.

- **bloom.** The index access method is a transition system whose atomic steps are "lock a page,
  change it, unlock it" (`BloomProtocol`). Any number of insertions, bulk deletions and scans
  interleave in any order. Over every run, the tuples on pages in use are exactly those inserted
  and not vacuumed, and a scan reports every row that stays in the index and satisfies its keys
  exactly once (`BloomRuns`). `BloomLocks` takes the steps apart into obtaining a lock, working on
  a copy and storing it, and shows that the steps are atomic and that no processes wait for each
  other in a circle; `BloomProgress` bounds the steps of every process. `BloomIndex` is the same
  code as one backend executes it, method by method, and `BloomSequential` shows that what it does
  is a run of the protocol; `BloomPage`, `BloomSignature` and `BloomRandom` hold the in-place
  compaction, the signatures and the random generator in 32-bit arithmetic.
- **btree_gist.** Variable-length keys in the `bytea` case (`VarKey`, `VarKeyTree`): truncated
  bounds, the prefix test that makes up for truncation, and trees of any height.
- **cube.** Boxes of mixed dimensions (`CubeBox`), consistency tests and pruning (`CubeGist`,
  `CubeConsistent`), distances as lower bounds for nearest-neighbour search (`CubeDistance`), the
  comparison (`CubeCompare`) and the quadratic split (`CubeSplit`), over real coordinates.
- **hstore.** The packed format (`HstoreFormat`, `HstoreImage`), subscripted assignment as a
  refinement of map update (`HstoreMap`, `HstoreAssign`), lookup (`HstoreSearch`), the in-place
  conversion of old values (`HstoreCompat`, `HstoreUpgrade`) and the signature index
  (`HstoreSignature`, `HstoreSplit`, `HstoreGist`).
- **amcheck.** The half-dead chain walk (`HalfDeadChain`), the postponed uniqueness check
  (`UniqueCheck`), transaction id widening (`TransactionIds`) and the TOAST chunk check
  (`ToastCheck`).

Code that works in place is modelled in place: pages, bit vectors, entry words and the memory of
an hstore under construction are arrays or fields that methods overwrite, and each such method is
proved against a function of the old state. What these functions and the tests mean is stated apart
from their definitions: in bytes, bits, points, sums, orders and paths.

## Where the code does not do what one would expect

Each of these is stated exactly: with the condition under which the code does meet the property,
and with a concrete input for which it does not.

- A split of an internal page in btree_gist truncates both halves by the longer of two common
  prefixes, which can be longer than what a child key was truncated to. A stored value can then be
  out of reach of an equality search (`VarKeyTree.InternalSplitLosesValue`). A split is safe for
  a child exactly under the condition of `VarKeyTree.PruningIff`; unions and leaf page splits
  always meet it.
- A contained-by search over cubes can miss a cube with fewer dimensions than the query, because
  containment ignores the container's excess dimensions while overlap compares them to zero
  (`CubeGist.ContainedByLosesPoint`, `CubeGist.ContainedByIff`).
- The comparison of cubes has cycles as soon as two different positive dimensions occur
  (`CubeCompare.CompareCycle`, `CubeCompare.TransitiveIff`).
- Two of the 2^32 seeds leave the bloom generator in the zero state, from which every bit number
  drawn is -1 (`BloomRandom.SeededZeroIff`, `BloomSignature.DrawableIff`). In every column there is a
  hash that leads to one of them, such as 4294950489 in the first (`BloomSignature.UndrawableExample`).
- The fast path of the hstore upgrade takes an old value under 32768 bytes for a new one if its
  first pair has a null value with a length field of 32768 or more, and misreads it
  (`HstoreUpgrade.MisreadExample`, `HstoreUpgrade.UpgradeKeepsMeaningIff`).
- A new hstore value without the version flag that also passes the test for old values, and takes up
  32768 bytes or more, is rewritten as an old one and loses its pairs
  (`HstoreUpgrade.AmbiguousExample`, `HstoreUpgrade.NewKeepsMeaningIff`). The code resolves this
  ambiguity for old values on purpose.
- The TOAST check computes the last chunk of a value of size zero by unsigned wrap-around
  (`ToastCheck.ZeroSizeWraps`).

## Model

| member | source | states |
|---|---|---|
| `BloomRandom.Generator.Rand` | example/contrib/bloom/blutils.c:226-251 | From every 32-bit state, `myRand` overflows nowhere and leaves exactly 16807*next mod (2^31-1); it returns that less one. |
| `BloomRandom.Generator.Srand` | example/contrib/bloom/blutils.c:253-259 | Because `mySrand` stores the seed in a signed variable, the state is within 2^31-2 of zero and is zero for exactly two seeds; from any other state every later one is in [1, 2^31-2], and from zero all are zero. |
| `BloomRandom.SeededIs` | example/contrib/bloom/blutils.c:253-259 | Seeding stores one more than the remainder of the seed, read as a signed number, by 2^31-2, with the sign of that number. |
| `BloomRandom.SchrageResidue` | example/contrib/bloom/blutils.c:227-251 | The expression 16807*(n % 127773) - 2836*(n / 127773), with C division, is congruent to 16807*n and lies strictly within one modulus of zero. |
| `BloomRandom.StepInvertible` | example/contrib/bloom/blutils.c:227-251 | One generator step has an inverse (multiplication by 1407677000), so no two residues share a successor. |
| `BloomRandom.StepsInRange` | example/contrib/bloom/blutils.c:226-251 | From every state that is not a multiple of 2^31-1, every later state is in [1, 2^31-2]. |
| `BloomRandom.StepsFromZero` | example/contrib/bloom/blutils.c:226-251 | The zero state is never left. |
| `BloomRandom.SeededZeroIff` | example/contrib/bloom/blutils.c:253-259 | Among all 2^32 seeds, exactly 0xFFFFFFFF and 0x80000001 leave the generator in the zero state. |
| `BloomSignature.DrawInRange` | example/contrib/bloom/blutils.c:286-291 | A drawn bit number is inside the signature exactly when the generator state is not zero; from zero it is -1. |
| `BloomSignature.DrawableIff` | example/contrib/bloom/blutils.c:264-292 | A value can be signed exactly when its hash combined with the column's first draw is neither of the two bad seeds (or the column sets no bits). |
| `BloomSignature.UndrawableHash` | example/contrib/bloom/blutils.c:271-291 | In every column that sets bits there is a hash that cannot be signed, the complement of the column's first draw. |
| `BloomSignature.UndrawableExample` | example/contrib/bloom/blutils.c:271-291 | In column 0 that hash is 4294950489. |
| `BloomSignature.SeedFor` | example/contrib/bloom/blutils.c:271-284 | Reseeding by the column and then by the hash combined with the first draw leaves a state that depends on column and hash alone. |
| `BloomSignature.BitNumberNext` | example/contrib/bloom/blutils.c:286-291 | The bit numbers of a value come from successive calls of the generator, the first one after seeding included. |
| `CIntegers.XorBit` | example/contrib/bloom/blutils.c:284-284 | Each bit of an exclusive or is set if the two bits differ. |
| `BloomSignature.SignValue` | example/contrib/bloom/blutils.c:264-292 | `signValue` adds exactly the bits that column number and hash determine, whatever the shared generator was used for before, and says when the shift would be undefined. |
| `BloomSignature.FormSignature` | example/contrib/bloom/blutils.c:297-316 | `BloomFormTuple` gives the union of the bits of all columns that are not null. |
| `BloomSignature.FormScanSignature` | example/contrib/bloom/blscan.c:84-110 | The first key that is null ends the scan with no result, the first one that cannot be signed makes the shift undefined, and otherwise the search signature is the union of the bits of all keys. |
| `BloomSignature.TestSignature` | example/contrib/bloom/blscan.c:138-152 | The word loop that stops at the first differing word accepts a tuple exactly when all query bits are set in it. |
| `BloomSignature.MatchesIffSubset` | example/contrib/bloom/blscan.c:138-152 | The word-by-word test holds if and only if the bit set of the query is a subset of the bit set of the tuple. |
| `BloomSignature.NoFalseNegative` | example/contrib/bloom/blscan.c:138-152 | A row whose columns equal the scan keys always passes the signature test. |
| `BloomSignature.TupleBitsIff` | example/contrib/bloom/blutils.c:297-316 | A bit is in a row's signature if and only if some column that is not null sets it. |
| `BloomSignature.KeyBitsIff` | example/contrib/bloom/blscan.c:91-110 | A bit is in the search signature if and only if some scan key sets it. |
| `BloomPage.UnusedPageHasRoom` | example/contrib/bloom/blinsert.c:316-325 | Adding to a page that is new or deleted always succeeds for every signature length, so "could not add" is unreachable. |
| `BloomPage.AddItemIff` | example/contrib/bloom/blutils.c:322-350 | A page takes another tuple if and only if the bytes of all of them fit between header and trailer. |
| `BloomPage.InsertOnPageAdds` | example/contrib/bloom/blutils.c:322-350 | A successful insertion keeps the space accounting and appends exactly its tuple to what scans see. |
| `BloomPage.SpaceMonotone` | example/contrib/bloom/bloom.h:149-152 | Free space only falls as tuples are added, and a page that is not overfull holds fewer than 1024 of them. |
| `BloomPage.KeptAndRemoved` | example/contrib/bloom/blvacuum.c:84-103 | Compaction conserves tuples: old contents = kept + removed, as multisets and in number. |
| `BloomPage.KeptMember` | example/contrib/bloom/blvacuum.c:84-103 | A tuple survives compaction if and only if it was there and its heap pointer is not dead. |
| `BloomPage.KeptConcat` | example/contrib/bloom/blvacuum.c:84-103 | Compaction keeps the order: what is kept of two pieces is what is kept of the one and then of the other. |
| `BloomPage.GivenUpIff` | example/contrib/bloom/blvacuum.c:117-127 | A page in use is marked deleted if and only if it had tuples and all of them are dead. |
| `BloomPage.LeftAlone` | example/contrib/bloom/blvacuum.c:68-79 | A page that is not in use, and one without dead tuples, is left alone. |
| `BloomPage.HasRoomIff` | example/contrib/bloom/blvacuum.c:109-116 | The test for the list of pages with room holds if and only if scans see tuples on the page and an insertion of any tuple succeeds. |
| `BloomPage.VacuumedPageOk` | example/contrib/bloom/blvacuum.c:117-133 | Bulk deletion keeps the page invariant; in particular a page gets the deleted flag only with no tuples on it. |
| `BloomPage.VacuumedPageLive` | example/contrib/bloom/blvacuum.c:81-135 | What scans see after bulk deletion is the order-preserving filter of what they saw before. |
| `BloomPage.PageBuffer.Add` | example/contrib/bloom/blutils.c:322-350 | In place: a tuple is appended and `maxoff` raised if there is room; otherwise nothing changes. |
| `BloomPage.PageBuffer.Compact` | example/contrib/bloom/blvacuum.c:81-135 | In place: the page becomes its filtered form, with the deleted flag when it ran empty, and the number removed is right. |
| `BloomPage.CompactTuples` | example/contrib/bloom/blvacuum.c:81-103 | The two-pointer `memmove` loop leaves exactly the kept tuples, in order, at the front, and `maxoff` dropped by the number removed. |
| `BloomProtocol.TryFirstKeeps` | example/contrib/bloom/blinsert.c:211-246 | Trying the first listed page, holding no other lock, keeps the invariant even if the list was stale. |
| `BloomProtocol.TryNextKeeps` | example/contrib/bloom/blinsert.c:272-310 | Trying a further listed page under the metapage lock, and storing nStart on success, keeps the invariant. |
| `BloomProtocol.AllocateKeeps` | example/contrib/bloom/blinsert.c:312-333 | Recycling an unused page or extending the file loses no tuple, always acknowledges the insertion, and resets the list to one existing page. |
| `BloomProtocol.VacuumPageKeeps` | example/contrib/bloom/blvacuum.c:54-135 | One page step of bulk deletion moves exactly the removed tuples from the index to the vacuumed ones. |
| `BloomProtocol.StepKeeps` | example/contrib/bloom/blinsert.c:205-333 | Every step of every process (insertion, bulk deletion, scan, file extension) keeps the whole invariant: pages not overfull, deleted pages empty, 0 <= nStart <= nEnd <= BloomMetaBlockN, listed blocks exist, tuples conserved. |
| `BloomProtocol.RunInvariant` | example/contrib/bloom/blinsert.c:205-333 | The invariant holds after every finite interleaving. |
| `BloomProtocol.NoTupleLost` | example/contrib/bloom/blvacuum.c:54-154 | From an empty index and over every interleaving, the tuples on pages in use are exactly those inserted less those vacuumed; the bytes of no page exceed its size, and a deleted page has no tuples. |
| `BloomLocks.LockStepKeeps` | example/contrib/bloom/blinsert.c:205-333 | With locks, copies and stores as separate steps: every step keeps the invariant (what was read under a lock is still so, locks are compatible) and amounts to one atomic protocol step or none. |
| `BloomLocks.LocksMakeAtomic` | example/contrib/bloom/blinsert.c:205-333 | Whatever other processes do between the time a process obtains a lock and the time it releases it, the outcome of every run is that of a run of atomic protocol steps. |
| `BloomLocks.NoTupleLostWithLocks` | example/contrib/bloom/blvacuum.c:54-154 | No tuple is lost in any run with locks: no process overwrites what another has stored. |
| `BloomLocks.NoConflict` | example/contrib/bloom/blscan.c:127-132 | Readers do not keep each other out, and different pages are locked independently. |
| `BloomLocks.NoWaitCycle` | example/contrib/bloom/blinsert.c:257-290 | Whoever blocks a process waits for less than it does (nothing before a data page before the metapage), so there is no circle of waiting processes of any length, although an insertion waits for data pages while it holds the metapage. |
| `BloomLocks.NoDeadlock` | example/contrib/bloom/blinsert.c:205-333 | A process that has not finished can step, or the one that blocks it can, or the one that blocks that one. |
| `BloomProgress.NoPagePassedOver` | example/contrib/bloom/blinsert.c:257-265 | An insertion that takes the metapage starts at the first listed page, except that it does not try again the page it has just tried. |
| `BloomProgress.PassedOnlyIfFull` | example/contrib/bloom/blinsert.c:272-310 | A listed page is left behind if and only if the tuple does not fit; otherwise the tuple is stored, acknowledged and nStart set to that page. |
| `BloomProgress.StepsBounded` | example/contrib/bloom/blinsert.c:205-333 | In no run does a process take more steps than a bound computed from its state, whatever the others do. |
| `BloomProgress.InsertionEnds` | example/contrib/bloom/blinsert.c:205-333 | Every insertion takes at most BloomMetaBlockN + 4 steps. |
| `BloomRuns.StepPages` | example/contrib/bloom/blvacuum.c:84-103 | Each step changes what scans see on one page at most, by appending one pending tuple or by filtering. |
| `BloomRuns.TuplesNeverMove` | example/contrib/bloom/blvacuum.c:84-103 | A tuple in the index before and after a step is on the same page both times. |
| `BloomRuns.StaysPresent` | example/contrib/bloom/blvacuum.c:84-103 | A tuple that is in the index alone with its heap pointer stays where it is in every state of a run in which no bulk deletion and no insertion of that heap pointer is under way or begun. |
| `BloomRuns.ScanOfPresent` | example/contrib/bloom/blscan.c:122-164 | A scan reports a tuple that is in every state the only one with its heap pointer once if its signature covers the query and not at all otherwise. |
| `BloomRuns.ScanExactlyOnce` | example/contrib/bloom/blscan.c:122-164 | A page-at-a-time scan, interleaved in any way with insertions and bulk deletions, reports a tuple that is there at its start, alone with its heap pointer, once if its signature covers the query and not at all otherwise, provided no bulk deletion or insertion of that heap pointer is under way or begun. |
| `BloomRuns.MatchingRowReportedOnce` | example/contrib/bloom/blscan.c:84-164 | The same for rows: a row that satisfies the scan keys, under the same conditions at the start and on what is begun meanwhile, is reported exactly once. |
| `BloomRuns.BulkDeleteComplete` | example/contrib/bloom/blvacuum.c:52-135 | A bulk deletion that runs to its end leaves no tuple it was told to delete on any page, including pages added meanwhile, provided no insertion of such a heap pointer is under way or begun. |
| `BloomSequential.InsertRun` | example/contrib/bloom/blinsert.c:205-333 | What an undisturbed insertion does to pages and metapage (the first listed page with room gets the tuple, or else a recycled or new page listed alone) is the outcome of a run of the protocol. |
| `BloomSequential.FirstWithRoomIs` | example/contrib/bloom/blinsert.c:272-310 | The listed page that gets the tuple is the first one from nStart on that it fits on. |
| `BloomSequential.BulkDeleteRun` | example/contrib/bloom/blvacuum.c:52-154 | What an undisturbed bulk deletion does to all pages and to the list is the outcome of a run of the protocol. |
| `BloomSequential.RoomListLists` | example/contrib/bloom/blvacuum.c:109-116 | The list of bulk deletion is strictly increasing, holds only pages on which scans see tuples and an insertion succeeds, and holds all of them as long as it is not full, or else all up to its last entry. |
| `BloomSequential.MatchingRowFound` | example/contrib/bloom/blscan.c:122-164 | An undisturbed scan reports every row in the index that satisfies its keys. |
| `BloomSequential.ReportedMatches` | example/contrib/bloom/blscan.c:122-164 | An undisturbed scan reports only tuples on pages in use whose signature passes the test. |
| `BloomSequential.GetBitmapRun` | example/contrib/bloom/blscan.c:116-167 | What an undisturbed scan reports is the outcome of a run of the protocol. |
| `BloomIndex.TryPage` | example/contrib/bloom/blinsert.c:222-245 | On a private page copy: reinitialise an unused page, add, and either apply or abort. |
| `BloomIndex.VacuumOnePage` | example/contrib/bloom/blvacuum.c:68-134 | On a private page copy: skip an unused page, compact any other, and count what was removed. |
| `BloomIndex.BuildCallback` | example/contrib/bloom/blinsert.c:74-116 | A full cached page is flushed to the file and the tuple starts the next one; otherwise the tuple is appended. The retry after a flush cannot fail. |
| `BloomIndex.BuildPages` | example/contrib/bloom/blinsert.c:121-159 | A built index holds exactly the tuples of the heap scan, in order, and no page but the last has room. |
| `BloomIndex.ScanItems` | example/contrib/bloom/blscan.c:133-160 | The tuple loop reports the heap pointers of exactly the tuples that pass the test, in page order. |
| `BloomIndex.ScanPages` | example/contrib/bloom/blscan.c:122-167 | The page loop skips new and deleted pages and reports and counts the matches of all others. |
| `BloomIndex.VacuumPages` | example/contrib/bloom/blvacuum.c:52-135 | The page loop compacts every page, counts what it removed, and lists the first BloomMetaBlockN pages that hold tuples and take one more, in order. |
| `BloomIndex.BloomIndex.Insert` | example/contrib/bloom/blinsert.c:174-342 | `blinsert` never fails, is a run of protocol steps that keeps the invariant, and acknowledges exactly its tuple. |
| `BloomIndex.BloomIndex.InsertPages` | example/contrib/bloom/blinsert.c:205-333 | The two phases together: exactly one page changes, the first listed one with room, which nStart then points to; only if there is none is a recycled or new page used and listed alone. |
| `BloomIndex.BloomIndex.InsertListed` | example/contrib/bloom/blinsert.c:272-310 | The loop over the list finds the first page with room, stores nStart on success, and changes nothing on failure. |
| `BloomIndex.BloomIndex.InsertNew` | example/contrib/bloom/blinsert.c:312-333 | The fallback puts the tuple alone on a recycled or new page and makes it the only listed one. |
| `BloomIndex.BloomIndex.NewBlock` | example/contrib/bloom/blutils.c:357-398 | `BloomNewBuffer` returns an offered block that exists and is new or deleted, and extends the file only if none of those offered is. |
| `BloomIndex.BloomIndex.BulkDelete` | example/contrib/bloom/blvacuum.c:29-157 | `blbulkdelete` is a run of protocol steps that keeps the invariant; exactly the removed tuples become vacuumed, their number is right, and the list holds the pages that take another tuple. |
| `BloomIndex.BloomIndex.SweepPages` | example/contrib/bloom/blvacuum.c:52-154 | Every page becomes its compacted form, and the list in the metapage holds the first BloomMetaBlockN pages on which scans see tuples and an insertion of any tuple succeeds, in order. |
| `BloomIndex.BloomIndex.GetBitmap` | example/contrib/bloom/blscan.c:74-168 | A new scan gives nothing for a null key; otherwise it reports the matches of every page in use, every row that satisfies the keys among them, and is a run of protocol steps. |
| `VarKey.NodeCommonPrefix` | example/contrib/btree_gist/btree_utils_var.c:119-161 | The loop computes the length of the common prefix of the two bounds. |
| `ByteStrings.CommonPrefixIs` | example/contrib/btree_gist/btree_utils_var.c:119-161 | The bounds agree up to the common prefix length and differ behind it if neither ends there. |
| `ByteStrings.LeqMeaning` | example/contrib/btree_gist/btree_bytea.c:63-69 | The order decides by the first byte that differs, the smaller byte first, and otherwise puts a prefix first. |
| `VarKey.Union` | example/contrib/btree_gist/btree_utils_var.c:320-356 | The fold over the entries, then truncation two bytes past the common prefix. |
| `VarKey.BoundsAttained` | example/contrib/btree_gist/btree_utils_var.c:231-276 | The bounds before truncation are each a bound of some entry, so the union is no wider than needed. |
| `VarKey.PickSplit` | example/contrib/btree_gist/btree_utils_var.c:456-546 | The sorted entries are cut in half, neither half is empty, and both keys are truncated by the longer of the two common prefixes. |
| `VarKey.OperatorsMean` | example/contrib/btree_gist/btree_utils_var.c:552-611 | What the six operators answer on a leaf, from the order alone: less and greater are strict, and the others are made of these and equality. |
| `VarKey.NodeConsistentIff` | example/contrib/btree_gist/btree_utils_var.c:552-611 | An internal key is consistent with a search if and only if some value it leaves room for (between the bounds, or continuing one) satisfies the operator, with strict comparisons weakened; not-equal looks at the bounds alone. |
| `VarKey.AdmitsIff` | example/contrib/btree_gist/btree_utils_var.c:552-611 | An exact description, without quantifying over searches, of the values for which no search of the six strategies is turned away at a key. |
| `VarKey.CoveredIsAdmitted` | example/contrib/btree_gist/btree_utils_var.c:552-611 | A key admits, for all six strategies, every value it covers (lower <= x, and x <= upper or x extends an upper bound that has two bytes past the common prefix). |
| `VarKeyTree.CoverageIff` | example/contrib/btree_gist/btree_utils_var.c:202-227 | A truncated key covers everything a child key covers if and only if the child does not escape: its cut upper bound is continued in the key by something other than 0xFF bytes. |
| `VarKeyTree.PruningIff` | example/contrib/btree_gist/btree_utils_var.c:530-546 | No search for a value a child covers is turned away at the key if and only if the child does not escape or the key's lower bound is a prefix of the child's upper bound. |
| `VarKeyTree.UnionNeverEscapes` | example/contrib/btree_gist/btree_utils_var.c:320-356 | In a union no child escapes, so unions are always safe. |
| `VarKeyTree.LeafNeverEscapes` | example/contrib/btree_gist/btree_utils_var.c:456-546 | A leaf entry never escapes, so splits of leaf pages are always safe. |
| `VarKeyTree.AncestorCovers` | example/contrib/btree_gist/btree_utils_var.c:320-356 | In a tree of any height built by unions, leaf page splits and splits without escaping children, every stored value is covered by every key above it. |
| `VarKeyTree.NoMatchPruned` | example/contrib/btree_gist/btree_utils_var.c:552-611 | In such a tree, for all six strategies, no key above a matching value is inconsistent with the search. |
| `VarKeyTree.InternalSplitLosesValue` | example/contrib/btree_gist/btree_utils_var.c:512-546 | An internal page whose four child keys are in sorted order, split in half as the code splits it, after which an equality search for a stored value is turned away. |
| `CubeBox.ComputeUnion` | example/contrib/cube/cube.c:750-809 | The union is the bounding box with missing dimensions counted as zero, stored as a point exactly when its corners coincide. |
| `CubeBox.UnionEncloses` | example/contrib/cube/cube.c:750-809 | The union encloses both cubes, whatever their dimensions. |
| `CubeBox.UnionIsLeast` | example/contrib/cube/cube.c:750-809 | Every cube that encloses both encloses the union. |
| `CubeBox.LeastBoxAdd` | example/contrib/cube/cube.c:428-453 | Adding a cube to a bounding box by union gives the bounding box of one cube more. |
| `CubeGist.CubeOverlap` | example/contrib/cube/cube.c:1196-1233 | The loops decide exactly whether the boxes share a point in every dimension, missing ones being zero. |
| `CubeGist.CubeContains` | example/contrib/cube/cube.c:1126-1163 | The loops decide containment, in which the container's excess dimensions are ignored and the other's must be zero. |
| `CubeGist.OverlapIff` | example/contrib/cube/cube.c:1196-1233 | Cubes overlap if and only if they have a point in common, missing coordinates being zero. |
| `CubeGist.ContainsIff` | example/contrib/cube/cube.c:1126-1163 | A cube contains another if and only if it has all its points as far as the other's dimensions go. |
| `CubeGist.InternalIff` | example/contrib/cube/cube.c:711-736 | An internal key is consistent if and only if some cube it encloses overlaps the query (overlap, contained-by) or contains it (contains, same). |
| `CubeConsistent.TestLeaf` | example/contrib/cube/cube.c:682-709 | On a leaf the four operators themselves; same is a comparison that gives zero. |
| `CubeConsistent.TestInternal` | example/contrib/cube/cube.c:711-736 | On an internal key, same is searched like contains and contained-by like overlap. |
| `CubeConsistent.SameIff` | example/contrib/cube/cube.c:682-709 | Same holds if and only if each cube contains the other and their dimensions agree. |
| `CubeGist.NoMatchPruned` | example/contrib/cube/cube.c:682-736 | Leaf-consistent implies internal-consistent for overlap, same and contains, and for contained-by when the query straddles zero in its excess dimensions. |
| `CubeGist.ContainedByIff` | example/contrib/cube/cube.c:682-736 | The contained-by search reaches a contained cube under every key above it if and only if the query straddles zero in all dimensions the cube lacks. |
| `CubeGist.ContainedByLosesPoint` | example/contrib/cube/cube.c:682-736 | A concrete point and query for which the contained-by search prunes a match. |
| `CubeGist.AncestorEncloses` | example/contrib/cube/cube.c:738-747 | In an index of any height, every key encloses every cube below it. |
| `CubeGist.SearchIsComplete` | example/contrib/cube/cube.c:394-421 | In an index of any height, no key above a matching cube is inconsistent with the query. |
| `CubeGist.GistUnion` | example/contrib/cube/cube.c:428-453 | The fold gives the least bounding box of all entries; a single entry gives no result. |
| `CubeCompare.CubeCmp` | example/contrib/cube/cube.c:940-1018 | The blockwise scans amount to one lexicographic comparison: common lower bounds, common upper bounds, excess lower, excess upper, dimension. |
| `CubeCompare.LowerDecides` | example/contrib/cube/cube.c:940-1018 | The first lower bound to differ in the common dimensions decides. |
| `CubeCompare.UpperDecides` | example/contrib/cube/cube.c:940-1018 | With the common lower bounds equal, the first common upper bound to differ decides. |
| `CubeCompare.ExcessLowerDecides` | example/contrib/cube/cube.c:940-1018 | With the common dimensions equal, the first lower bound of the others decides, against zero. |
| `CubeCompare.ExcessUpperDecides` | example/contrib/cube/cube.c:940-1018 | With these equal too, the first upper bound of the others decides, against zero. |
| `CubeCompare.DimensionDecides` | example/contrib/cube/cube.c:940-1018 | With all bounds equal, the cube with more dimensions is greater. |
| `CubeCompare.CompareAntisymmetric` | example/contrib/cube/cube.c:940-1018 | Swapping the arguments negates the result, for all cubes. |
| `CubeCompare.CompareZeroIff` | example/contrib/cube/cube.c:940-1018 | Zero if and only if dimensions and normalised corners coincide. |
| `CubeCompare.CompareCycle` | example/contrib/cube/cube.c:940-1018 | For any two different positive dimensions there are three cubes that form a cycle. |
| `CubeCompare.TransitiveIff` | example/contrib/cube/cube.c:940-1018 | The comparison is transitive on the cubes of two dimensions if and only if these are equal or one of them is zero. |
| `CubeDistance.ComputeDistance` | example/contrib/cube/cube.c:1256-1399 | The loops of all three distances combine the gap between the boxes in each dimension, missing ones being zero. |
| `CubeDistance.GapIsLeast` | example/contrib/cube/cube.c:1506-1520 | The gap in a dimension is the least distance of two coordinates of the cubes. |
| `CubeDistance.TaxicabIsSum` | example/contrib/cube/cube.c:1305-1347 | The taxicab distance is the sum of the gaps. |
| `CubeDistance.EuclidIsSumOfSquares` | example/contrib/cube/cube.c:1256-1303 | The square of the Euclidean distance is the sum of the squares of the gaps. |
| `CubeDistance.ChebyshevIsMaximum` | example/contrib/cube/cube.c:1349-1399 | The Chebyshev distance is the greatest of the gaps. |
| `CubeDistance.DistanceLowerBound` | example/contrib/cube/cube.c:1401-1504 | For all three distances, the value for a key is a lower bound on the value for every cube it encloses, also one with fewer dimensions. |
| `CubeDistance.ZeroIffOverlap` | example/contrib/cube/cube.c:1256-1399 | All three distances are zero if and only if the cubes overlap. |
| `CubeDistance.CoordLlurMeaning` | example/contrib/cube/cube.c:1647-1703 | Coordinate 2N-1 is the lower bound of dimension N and 2N the upper one, negated for negative numbers, zero where the cube has no such dimension. |
| `CubeDistance.LeafCoordExact` | example/contrib/cube/cube.c:1409-1474 | At a leaf the coordinate case of the distance function equals the operator. |
| `CubeDistance.CoordLowerBound` | example/contrib/cube/cube.c:1409-1474 | On a key the coordinate case is a lower bound for every cube below, for either sign. |
| `CubeDistance.CoordAttained` | example/contrib/cube/cube.c:1409-1474 | The coordinate value of a key is that of a cube it encloses, so no better bound is possible. |
| `CubeDistance.SearchOrderSound` | example/contrib/cube/cube.c:1401-1504 | In an index of any height, distance and coordinate values of keys never exceed those of the cubes below them. |
| `CubeSplit.Size` | example/contrib/cube/cube.c:913-936 | The product of the side lengths; zero for points and for cubes without dimensions. |
| `CubeSplit.ProductConcat` | example/contrib/cube/cube.c:913-936 | Volumes multiply: the product over two groups of sides is that over the one times that over the other. |
| `CubeSplit.VolumeZeroIff` | example/contrib/cube/cube.c:913-936 | Exactly the boxes without dimensions and those flat in some dimension have no volume. |
| `CubeSplit.SidesAre` | example/contrib/cube/cube.c:913-936 | The side lengths are the distances of the normalised bounds. |
| `CubeSplit.Intersect` | example/contrib/cube/cube.c:826-899 | The corner-wise intersection, crossed where the cubes do not meet. |
| `CubeSplit.Waste` | example/contrib/cube/cube.c:558-568 | The waste of a pair is the size of the union less the size of the intersection. |
| `CubeSplit.WasteEnclosed` | example/contrib/cube/cube.c:558-568 | A cube stored with one that it encloses wastes the space around that one. |
| `CubeSplit.PickSeeds` | example/contrib/cube/cube.c:550-582 | The seeds are the most wasteful pair among all entries but the last. |
| `CubeSplit.PlaceEntry` | example/contrib/cube/cube.c:629-652 | An entry goes to exactly one side, whose datum stays the bounding box of its side. |
| `CubeSplit.PickSplit` | example/contrib/cube/cube.c:514-659 | Every offset from 1 on is on exactly one side, both sides are in increasing order and not empty, and each datum is the least bounding box of its side. |
| `HalfDeadChain.NeverRepeats` | example/contrib/amcheck/verify_nbtree.c:1021-1073 | A page that passes the test was not accepted before: a repeat would unwind through equal right links back to the start. |
| `HalfDeadChain.PathFits` | example/contrib/amcheck/verify_nbtree.c:1021-1073 | The pages accepted are pairwise different, so there are at most as many as pages in the file. |
| `HalfDeadChain.ReachesEndIff` | example/contrib/amcheck/verify_nbtree.c:1021-1073 | Links that pass the loop's test reach the left end if and only if a path of different half-dead pages does, each the left neighbour of the one before and linked back to it. |
| `HalfDeadChain.LeftmostIgnoringHalfDead` | example/contrib/amcheck/verify_nbtree.c:1021-1073 | On every finite page graph, corrupt or not, the walk ends, accepts no block twice, and answers true if and only if a path of readable half-dead pages, each the left link of the one before and linked back to it, leads from the start to P_NONE; on false the next page is there but cannot be accepted, and on an error it is not there. |
| `UniqueCheck.EntryUniqueCheck` | example/contrib/amcheck/verify_nbtree.c:922-992 | Reports a duplicate if and only if the heap pointers of the item together with the one remembered make two visible ones, posting lists included. |
| `UniqueCheck.CheckPage` | example/contrib/amcheck/verify_nbtree.c:1656-1706 | On a leaf page, an error is raised if and only if some run of equal non-null keys has two visible heap pointers, and no item is checked twice. |
| `UniqueCheck.DuplicateIff` | example/contrib/amcheck/verify_nbtree.c:922-992 | What is reported is a pair of different visible heap pointers in a run of equal keys without nulls, the entries of a posting list counting one by one. |
| `ToastCheck.CheckToastTuple` | example/contrib/amcheck/verify_heapam.c:1553-1637 | Nothing is reported for a chunk if and only if it has the expected number, readable data and the expected size. |
| `ToastCheck.CheckToasted` | example/contrib/amcheck/verify_heapam.c:1859-1908 | Nothing is reported for a value if and only if its chunks are exactly 0 to last, in order, with the expected sizes. |
| `ToastCheck.SizesAddUp` | example/contrib/amcheck/verify_heapam.c:1859-1908 | The chunk sizes of a value that passes sum to its external size, for every size from 1 up. |
| `ToastCheck.PassingIff` | example/contrib/amcheck/verify_heapam.c:1859-1908 | For every external size there is exactly one list of chunk numbers and sizes that passes. |
| `ToastCheck.ZeroSizeWraps` | example/contrib/amcheck/verify_heapam.c:1859-1908 | For an external size of zero the unsigned arithmetic wraps: exactly one list of chunks passes, and it has 2151788 chunks of 2^32 bytes in all. |
| `TransactionIds.WidenInvertsTruncate` | example/contrib/amcheck/verify_heapam.c:1976-2013 | Every normal 64-bit id within [-2^31, 2^31-1] of the next one is recovered from its low 32 bits. |
| `TransactionIds.WidenMeaning` | example/contrib/amcheck/verify_heapam.c:1976-2013 | Any normal 32-bit id widens to the one id in the window with these low bits, or to the first normal id if that one would lie before epoch 0. |
| `TransactionIds.WidenedUnique` | example/contrib/amcheck/verify_heapam.c:1976-2013 | That description leaves one id only. |
| `TransactionIds.HeapCheckContext.UpdateCachedRange` | example/contrib/amcheck/verify_heapam.c:2018-2030 | The server's oldest id is recovered from its low 32 bits if it is in the window around the next id; otherwise the result is the id in the window with the same low bits, or the first normal id if that one would lie before epoch 0. |
| `TransactionIds.HeapCheckContext.GetXidBounds` | example/contrib/amcheck/verify_heapam.c:2110-2145 | Each verdict is given in exactly one case of plain comparison (future, before the cluster's oldest, before relfrozenxid, fine), also for the 64-bit id behind the stored one when it is in the window; it says future if and only if the server does, a stale cache loses no valid id, and the cache is refreshed exactly when the id falls outside it. |
| `TransactionIds.VerdictIsPlain` | example/contrib/amcheck/verify_heapam.c:2110-2145 | For ids in the window, truncation and a stale cache change nothing: the verdict is that of the four comparisons on the 64-bit id. |
| `HstoreFormat.WordRoundTrip` | example/contrib/hstore/hstore.h:18-34 | Flags and a 30-bit position survive being packed into a 32-bit word. |
| `HstoreFormat.WordFlags` | example/contrib/hstore/hstore.h:23-30 | The two flags are the two highest bits of an entry word and the position is the rest. |
| `HstoreFormat.PairContiguous` | example/contrib/hstore/hstore.h:28-34 | Key and value of a pair lie next to each other, so that the one copy of `HS_COPYITEM` moves both. |
| `HstoreFormat.PackWellFormed` | example/contrib/hstore/hstore.h:99-140 | Packed end positions ascend and stay within the string area, and only the first entry has the first flag. |
| `HstoreFormat.PackRoundTrip` | example/contrib/hstore/hstore.h:75-140 | Reading back what was packed gives the same pairs and null flags. |
| `HstoreImage.ReadsOnce` | example/contrib/hstore/hstore.h:74-83 | Memory can be read as entries and strings in one way only. |
| `HstoreImage.ImageReads` | example/contrib/hstore/hstore.h:74-83 | The access macros read a finished value as the packed form of its pairs. |
| `HstoreImage.ImageLength` | example/contrib/hstore/hstore.h:66-72 | The length word of a finished value tells its size in memory. |
| `HstoreMap.InsertSorted` | example/contrib/hstore/hstore_subs.c:214-251 | Merging a pair keeps the keys strictly sorted by length and bytes. |
| `HstoreMap.InsertIsUpdate` | example/contrib/hstore/hstore_subs.c:214-251 | Merging a pair is updating the mapping at one key, whether the key is new or replaced. |
| `HstoreMap.KeyBeforeMeans` | example/contrib/hstore/hstore_subs.c:218-234 | Shorter keys come first, and keys of one length are ordered by the first byte that differs, the smaller first. |
| `HstoreAssign.EntriesFor` | example/contrib/hstore/hstore.h:99-126 | The entry words computed from the write position are those of the pair; the mask takes nothing. |
| `HstoreAssign.PutPair` | example/contrib/hstore/hstore.h:99-126 | One write extends the string area and the entry area and touches nothing else. |
| `HstoreAssign.MoveStrings` | example/contrib/hstore/hstore.h:129-140 | When fewer pairs came out than were allocated for, the count is set and the strings move down behind the last entry, with entries and strings unchanged. |
| `HstoreAssign.Finish` | example/contrib/hstore/hstore.h:129-140 | Finalising gives exactly the memory image of the pairs written. |
| `HstoreAssign.MergeStep` | example/contrib/hstore/hstore_subs.c:214-251 | One round of the merge takes the new pair or copies an old one, and makes progress. |
| `HstoreAssign.CopyOld` | example/contrib/hstore/hstore_subs.c:238-248 | An old pair is copied in one piece out of the old string area, and its entry words are those of the pair at its new place. |
| `HstoreAssign.MergeLoop` | example/contrib/hstore/hstore_subs.c:203-251 | The loop writes the old pairs with the new one in its place, within the allocated memory. |
| `HstoreAssign.AllocSizeIs` | example/contrib/hstore/hstore_subs.c:203-204 | The allocation has room for all pairs, and for the old header and entries once more. |
| `HstoreAssign.SubscriptAssign` | example/contrib/hstore/hstore_subs.c:142-258 | For every well-formed input the result is the memory image of the merged pairs, within the memory allocated, or the error the code raises: null subscript, key too long, value too long and allocation too large, each under exactly its condition. |
| `HstoreAssign.AssignRefinesUpdate` | example/contrib/hstore/hstore_subs.c:191-254 | Assignment refines map update: its result reads back as well-formed, strictly sorted entries for old map[key := value], a null value being a null. |
| `HstoreSearch.FindKey` | example/contrib/hstore/hstore_op.c:35-70 | The binary search finds a key if and only if it is there, and the lower bound it leaves skips nothing for any later key. |
| `HstoreSearch.Contains` | example/contrib/hstore/hstore_op.c:960-1005 | The operator holds if and only if every pair of the template is in the value, null values equal only to null. |
| `HstoreSearch.Unique` | example/contrib/hstore/hstore_io.c:358-404 | In place: repeats in a sorted array are overwritten, and what is left in front is strictly sorted with the same keys. |
| `HstoreSearch.ArrayToKeys` | example/contrib/hstore/hstore_op.c:72-123 | Whatever permutation in order the sort gives, the keys are strictly sorted and are exactly the elements of the array that are not null. |
| `HstoreSearch.ExistsAny` | example/contrib/hstore/hstore_op.c:160-191 | True if and only if some element of the array that is not null is a key. |
| `HstoreSearch.ExistsAll` | example/contrib/hstore/hstore_op.c:194-225 | True if and only if all elements of the array that are not null are keys. |
| `HstoreSearch.IncludesIffExtends` | example/contrib/hstore/hstore_op.c:960-1005 | Inclusion of pairs is inclusion of the mappings they stand for. |
| `HstoreCompat.RewriteEntries` | example/contrib/hstore/hstore_compat.c:319-344 | In place, every old entry is overwritten by its two new words, read before they are written, and the first is flagged. |
| `HstoreCompat.PositionsFit` | example/contrib/hstore/hstore_compat.c:332-338 | No position of a valid old value is lost to the 30-bit mask. |
| `HstoreCompat.RewritePreservesMeaning` | example/contrib/hstore/hstore_compat.c:319-344 | After the rewrite the value is exactly the packed form of the pairs and null flags it stood for. |
| `HstoreCompat.NewValidWellFormed` | example/contrib/hstore/hstore_compat.c:118-162 | What the new-format test accepts is well formed. |
| `HstoreCompat.NewValidIff` | example/contrib/hstore/hstore_compat.c:118-162 | The test for new values accepts exactly the well-formed ones that fit, whose keys do not get shorter and, after the first, carry no null flag. |
| `HstoreCompat.AscendingIff` | example/contrib/hstore/hstore_compat.c:196-202 | The key length test for old values says that the keys of the pairs do not get shorter. |
| `HstoreCompat.OldValidIff` | example/contrib/hstore/hstore_compat.c:170-229 | The test for old values accepts exactly those whose pairs lie one behind the other in the string area, fit in it, and have keys that do not get shorter. |
| `HstoreUpgrade.HStoreValue.ValidNewFormat` | example/contrib/hstore/hstore_compat.c:118-162 | 0, 1 or 2 exactly as the value is invalid, valid with slop, or exactly valid. |
| `HstoreUpgrade.HStoreValue.ValidOldFormat` | example/contrib/hstore/hstore_compat.c:170-229 | 0, 1 or 2 exactly as the value is no old value, one with slop, or an exact one. |
| `HstoreUpgrade.HStoreValue.Upgrade` | example/contrib/hstore/hstore_compat.c:235-347 | Which way each value goes and what becomes of it: an error exactly for a value without the version flag that is neither fast nor valid in either format, a rewrite exactly for one that is not fast and valid as an old one, also if it is valid as a new one. |
| `HstoreUpgrade.RewroteKeepsMeaning` | example/contrib/hstore/hstore_compat.c:319-344 | A rewritten value reads as the pairs it had, and its length shrinks to fit. |
| `HstoreUpgrade.FastMisreads` | example/contrib/hstore/hstore_compat.c:250-256 | Every old value with at least one pair that the fast path takes starts with a null value whose length field is 32768 or more, and is misread. |
| `HstoreUpgrade.MisreadExample` | example/contrib/hstore/hstore_compat.c:250-256 | A concrete old value of 17 bytes that the fast path misreads. |
| `HstoreUpgrade.UpgradeKeepsMeaningIff` | example/contrib/hstore/hstore_compat.c:235-347 | Upgrading an old value keeps its meaning if and only if it is not under 32768 bytes with a first pair whose value is null and has a length field of 32768 or more. |
| `HstoreUpgrade.NewKeepsMeaningIff` | example/contrib/hstore/hstore_compat.c:235-347 | A valid new value without the version flag keeps its pairs, losing only slop, if and only if the fast path takes it or it is not also valid as an old value; one that passes both tests is rewritten as an old one and never keeps its pairs. |
| `HstoreUpgrade.UpgradedOnce` | example/contrib/hstore/hstore_compat.c:235-247 | Whatever is not an error comes out with the version flag and the same number of pairs, and is left alone from then on. |
| `HstoreUpgrade.AmbiguousExample` | example/contrib/hstore/hstore_compat.c:275-344 | A concrete new value of 32784 bytes, one pair of empty strings and the rest slop, that also passes the old-format test and comes out with a value of 32768 bytes. |
| `HstoreSignature.SizeBitVec` | example/contrib/hstore/hstore_gist.c:252-264 | The byte sums add up to the number of bits set. |
| `HstoreSignature.HemDistSign` | example/contrib/hstore/hstore_gist.c:266-278 | The bit loop counts the bits in which the signatures differ. |
| `HstoreSignature.HemDist` | example/contrib/hstore/hstore_gist.c:280-294 | The distance is the Hamming distance of the expanded signatures, the all-true shortcut included. |
| `HstoreSignature.CompressLeaf` | example/contrib/hstore/hstore_gist.c:154-182 | The signature of a value has exactly the bits of its keys and of its values that are not null. |
| `HstoreSignature.ValueBitsIff` | example/contrib/hstore/hstore_gist.c:160-176 | A bit is in the signature of a value if and only if it is the bit of a key or of a value that is not null. |
| `HstoreSignature.CompressInner` | example/contrib/hstore/hstore_gist.c:183-204 | A key becomes all-true if and only if all its bits are set; what it stands for does not change. |
| `HstoreSignature.OrInto` | example/contrib/hstore/hstore_gist.c:304-305 | Bytewise OR in place is union of the bit sets. |
| `HstoreSignature.UnionKey` | example/contrib/hstore/hstore_gist.c:296-307 | An all-true key is signalled, any other is added. |
| `HstoreSignature.Union` | example/contrib/hstore/hstore_gist.c:309-334 | The union stands for exactly the bits of all keys. |
| `HstoreSignature.UnionBitsIff` | example/contrib/hstore/hstore_gist.c:296-334 | A bit is in a union if and only if some key has it. |
| `HstoreSplit.PickSeeds` | example/contrib/hstore/hstore_gist.c:398-422 | The seeds are two keys furthest apart among all but the last, or the only two. |
| `HstoreSplit.Costs` | example/contrib/hstore/hstore_gist.c:430-440 | The cost of each entry is the difference of its distances from the two seeds. |
| `HstoreSplit.WishFavours` | example/contrib/hstore/hstore_gist.c:77-77 | The bonus works against the side that has more keys already, by the same amount either way. |
| `HstoreSplit.AddKey` | example/contrib/hstore/hstore_gist.c:465-496 | A key is added to a side in place, with an all-true key filling the bit vector. |
| `HstoreSplit.PickSplit` | example/contrib/hstore/hstore_gist.c:365-505 | Whatever order the costs are sorted into, every offset from 1 on is on exactly one side, neither side is empty, and each datum stands for exactly the bits of its side. |
| `HstoreGist.Consistent` | example/contrib/hstore/hstore_gist.c:508-611 | True if and only if the key is all-true or has the bits the query needs; null array elements are skipped. |
| `HstoreGist.MatchAdmitted` | example/contrib/hstore/hstore_gist.c:508-611 | Any key that has the bits of a value satisfying a query is consistent with the query. |
| `HstoreGist.AdmitsIff` | example/contrib/hstore/hstore_gist.c:508-611 | A signature is consistent with a query if and only if some value with no other bits satisfies the query, so that nothing is let through without need. |
| `HstoreGist.AncestorHasBits` | example/contrib/hstore/hstore_gist.c:296-334 | Through any sequence of compress, union and split, the bits of a value are in every key above it. |
| `HstoreGist.NoFalseNegatives` | example/contrib/hstore/hstore_gist.c:508-611 | For contains, exists, exists-all and exists-any, no key above a matching value is inconsistent. |

## Left out

Whole subjects:

- The buffer manager, WAL, memory contexts and the free space map: an aborted WAL record is no
  change, and what the free space map offers is an arbitrary list of blocks. A page change under a
  lock is one atomic step, which `BloomLocks` justifies for locks, copies and stores as separate
  steps; the relation extension lock is not modelled.
- `blvacuumcleanup` and all statistics: counting of pages and tuples only.
- Option parsing, cost estimates, operator class validation and the catalog set-up of all modules.
- The cross-page step of the uniqueness check, the rest of verify_nbtree.c, and verify_gin.c.
- Commit status lookups and tuple visibility in verify_heapam.c: a heap pointer is visible or not,
  as an arbitrary set, and `get_xid_status` is modelled up to its bounds verdict.
- Text and `bit` keys of btree_gist, and the fixed-size types: text is not truncated, `bit` mixes
  two comparators, and fixed-size types are plain intervals.
- Penalty functions, and other modules of `contrib`: they would add only easy members.

Simplifications:

- Hash functions, CRC-32 and opclass comparisons are arbitrary functions or an arbitrary equality;
  the result of `qsort` is an arbitrary permutation, in order where that matters (the split of
  btree_gist takes its entries in sorted order with their offsets).
- The page constants are those of the default build: 8 kB pages, 2004 entries in the metapage's
  list, TOAST chunks of 1996 bytes.
- Cube coordinates are real numbers: NaN, infinities and rounding are not modelled, the Euclidean
  distance is modelled by its square, and the union of a cube with itself by pointer identity,
  which the code answers with that cube, is not modelled separately.
- The coordinate number of the cube ordering is unbounded; the code negates a 32-bit number, which
  has no result for the least one.
- Signature words and bytes are sets of bit numbers, so `|` and `&` are union and intersection.
- The packing of two bounds into one btree_gist key and its varlena length words are not part of
  the model; a key is a pair of byte strings.
- The order of the bytes within a word of an hstore is left open, and the length word is its plain
  value. Old hstore words have the little-endian layout; the other three layouts named in
  hstore_compat.c are not modelled.
- Sizes and positions in the hstore modules are unbounded integers. Where the code's 32-bit sums
  could wrap, the wrapped value fails the next comparison just as the exact one does, or makes the
  allocation fail.
- A null hstore is assigned to by the merge with no old pairs, where the code calls the
  constructor for a list of one pair; both write the same value.
- The bonus of the hstore split for the smaller side is a real number, without the 32-bit overflow
  of its cube for more than 1290 entries of difference; the choice of a side does not matter for
  what is proved.

Members that state less than the code does:

- CubeGist.SearchIsComplete: for contained-by it needs the condition of `CubeGist.ContainedByIff`.
- VarKeyTree.AncestorCovers: splits of internal pages are admitted only when no child key escapes,
  which `VarKeyTree.CoverageIff` shows to be needed.
- BloomSignature.SignValue: for the two bad seeds it only says that the code's shift is undefined.
