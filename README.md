# Coalescing Block Structure and instance/class protocol, in Dafny

This project models two pieces of the Memory Pool System.

**The Coalescing Block Structure (CBS)** is declared in `code/cbs.h`. It records which
address ranges are free and merges adjacent free ranges as soon as they appear. It answers
first-fit, last-fit and largest-fit queries, and each query can delete part or all of the
range it finds.
- The splay tree is modelled by its contents: a sequence of `(base, limit)` ranges in
  ascending base order.
- The coalescing invariant (`Ranges.Maximal`) says every range is non-empty and each one ends
  strictly before the next begins. So the ranges are sorted, disjoint and never adjacent.
- `Ranges.Canonical` proves that such a sequence is fixed by its set of free addresses. This
  is what makes "the free set becomes the old set plus / minus `[base, limit)`" a complete
  description of an insert or a delete.
- Class `Cbs.CBS` has the fields of `CBSStruct`: the tree contents, `splayTreeSize`,
  `alignment`, `fastFind`, `inCBS` and `sig`. Its methods are the operations of the header.
  Each one keeps `CBS.Invariant`, the structure's invariant: the signature is set, the ranges
  are coalesced and aligned, and their count matches `splayTreeSize`.
- Each public method sets `inCBS` on entry and clears it on exit. A public operation requires that
  `inCBS` be clear.

**The instance/class protocol** is `code/protocol.c`.
- A class (`Protocol.InstClass`) has a signature, a name, a superclass, a level and a display
  of `ClassDEPTH` class ids. An instance (`Protocol.Inst`) points at its class.
- `InstClassCheck` is a method with the two display scans of the source, proved equal to the
  predicate `ClassValid`.
- The root class initialiser, `InstInit`, `InstFinish`, `InstCheck`, `ClassOf` and
  `SetClassOf` are modelled as the source writes them.

Files:
- `mpmtypes.dfy`: result codes, `Option`, `SigInvalid`.
- `ranges.dfy`: the range sequence, its invariant, the tree searches and the two updates, with
  their lemmas.
- `cbs.dfy`: the `CBS` class and some worked client scenarios.
- `protocol.dfy`: the protocol.

## Model

| member | source | states |
|---|---|---|
| Ranges.MaximalIffCoalesced | code/cbs.h:1 | the pairwise invariant equals the neighbour-only form `limit_k < base_(k+1)` |
| Ranges.Canonical | code/cbs.h:1 | two coalesced sequences with the same free addresses are equal, so the structure's contents are fixed by its free set |
| Ranges.ContainedIffFree | code/cbs.h:43-44 | an interval lies inside one tracked range exactly when all its addresses are free, because coalescing never leaves a free interval split across two ranges |
| Ranges.AlignedAdd | code/cbs.h:27 | helper: a sum of multiples of the alignment is a multiple of it, which keeps a LOW deletion aligned |
| Ranges.AlignedSub | code/cbs.h:27 | helper: a difference of multiples of the alignment is a multiple of it, which keeps a HIGH deletion aligned |
| Ranges.Neighbour | code/cbs.h:24 | the tree's search keyed by an address: the first range whose limit lies above it; every earlier range ends at or below it |
| Ranges.FirstFit | code/cbs.h:57-59 | no answer exactly when every range is smaller than size; otherwise the lowest index of a range of at least size |
| Ranges.LastFit | code/cbs.h:60-62 | no answer exactly when every range is smaller than size; otherwise the highest index of a range of at least size |
| Ranges.MaxSize | code/cbs.h:28 | the root's largest-size annotation: no range is larger and some range has that size |
| Ranges.LargestIndex | code/cbs.h:63-65 | reference largest fit: a range no other range exceeds, with every earlier range strictly smaller |
| Ranges.BaseOrder | code/cbs.h:23-24 | in a coalesced sequence index order is base order |
| Ranges.LargestUnique | code/cbs.h:63-65 | any search that returns a greatest range with no earlier range as large returns the LargestIndex answer |
| Ranges.FirstFitLowest | code/cbs.h:57-59 | first fit finds a range exactly when some tracked range is big enough, and every range with a lower base is too small |
| Ranges.LastFitHighest | code/cbs.h:60-62 | last fit finds a range exactly when some tracked range is big enough, and every range with a higher base is too small |
| Ranges.LargestLowest | code/cbs.h:63-65 | no tracked range is larger than the largest-fit answer, and every range with a lower base is strictly smaller |
| Ranges.NeighbourInsert | code/cbs.h:41-42 | the neighbour found for base overlaps [base, limit) exactly when some address of it is already free; otherwise [base, limit) fits the gap before it |
| Ranges.JoinsIff | code/cbs.h:41-42 | some tracked range abuts [base, limit) exactly when the gap's left neighbour ends at base or its right neighbour begins at limit |
| Ranges.InsertAtMaximal | code/cbs.h:41-42 | inserting into a gap, with merging, keeps the coalescing invariant |
| Ranges.InsertAtFree | code/cbs.h:41-42 | the free set after an insert is the old free set plus [base, limit) |
| Ranges.InsertAtMembers | code/cbs.h:41-42 | the merged range contains [base, limit) and is tracked; every other new range was already tracked; every range not abutting [base, limit) stays; the count drops by one per merge and rises by one for an isolated range |
| Ranges.InsertAtAligned | code/cbs.h:27 | inserting an aligned range keeps every bound aligned |
| Ranges.InsertAtCorrect | code/cbs.h:41-42 | all of the above for one insert |
| Ranges.NeighbourDelete | code/cbs.h:43-44 | the neighbour found for base contains [base, limit) exactly when some tracked range does, and the cut is interior exactly when it touches neither end of it |
| Ranges.NeighbourContaining | code/cbs.h:43-44 | the range containing an address is the one the neighbour search finds |
| Ranges.DeleteAtMaximal | code/cbs.h:43-44 | deleting from a containing range keeps the coalescing invariant |
| Ranges.DeleteAtFree | code/cbs.h:43-44 | the free set after a delete is the old free set minus [base, limit) |
| Ranges.DeleteAtMembers | code/cbs.h:43-44 | every other range stays; the only new ranges are the low and high remainders; the count changes by the number of remainders minus one |
| Ranges.DeleteAtAligned | code/cbs.h:27 | deleting an aligned range keeps every bound aligned |
| Ranges.DeleteAtCorrect | code/cbs.h:43-44 | all of the above for one delete |
| Ranges.InsertDeleteRoundTrip | code/cbs.h:41-44 | inserting a range that overlaps nothing and then deleting it restores the tracked ranges exactly, whatever merging the insert did |
| Ranges.DeleteInsertRoundTrip | code/cbs.h:41-44 | deleting a wholly free range and inserting it again restores the tracked ranges exactly, whatever splitting the delete did |
| Cbs.FoundRange | code/cbs.h:49-55 | the reported part lies in the found range and shares an end with it; LOW is size bytes at the low end, HIGH is size bytes at the high end, NONE and ENTIRE are the whole range |
| Cbs.Walk | code/cbs.h:18 | an iteration makes at most one callback per range, at least one on a non-empty structure, and one per range when the callback always answers true |
| Cbs.CBS.Init | code/cbs.h:37-38 | ResMEMORY exactly when the pool cannot be created; on success the structure is valid, empty and holds the given alignment and fastFind |
| Cbs.CBS.Finish | code/cbs.h:39 | the ranges are released and the signature becomes SigInvalid, so the structure is no longer valid |
| Cbs.CBS.InsertInGap | code/cbs.h:41-42 | the update step of an insert keeps the invariant, adds [base, limit) to the free set and returns the merged range |
| Cbs.CBS.DeleteInRange | code/cbs.h:43-44 | the update step of a delete keeps the invariant and removes [base, limit) from the free set, adding only its remainders |
| Cbs.CBS.Insert | code/cbs.h:41-42 | ResFAIL exactly when some address is already free; ResMEMORY exactly when no range abuts and the pool has no descriptor; nothing changes on failure; on success the free set gains [base, limit), the returned range is tracked and contains it, ranges not abutting it stay, and the invariant holds |
| Cbs.CBS.Delete | code/cbs.h:43-44 | ResFAIL exactly when no tracked range contains [base, limit); ResMEMORY exactly when the cut is interior and the pool has no descriptor; nothing changes on failure; on success the free set loses [base, limit), the returned range is the old containing one, and only remainders are new |
| Cbs.CBS.Iterate | code/cbs.h:45 | the closure returned is the one Walk gives over the ranges in base order; the ranges do not change |
| Cbs.CBS.FindDeleteRange | code/cbs.h:49-55 | reports the found range and the part the policy selects, and deletes that part unless the policy is NONE |
| Cbs.CBS.FindFirst | code/cbs.h:57-59 | true exactly when some range has at least size bytes; the reported old range is tracked, big enough and has no big-enough range below it; the policy is applied to it |
| Cbs.CBS.FindLast | code/cbs.h:60-62 | true exactly when some range has at least size bytes; the reported old range is tracked, big enough and has no big-enough range above it; the policy is applied to it |
| Cbs.CBS.LargestBlock | code/cbs.h:28 | both the fastFind search and the plain scan return the LargestIndex answer, so fastFind does not change results |
| Cbs.CBS.FindLargest | code/cbs.h:63-65 | false exactly when the structure is empty; otherwise the reported range is the largest, the lowest-based among equals, and every deleting policy removes all of it |
| Cbs.CoalescedPair | code/cbs.h:41-42 | inserting [0, 10) then [10, 20) leaves exactly [0, 20), and the second insert needs no descriptor |
| Cbs.SplitPair | code/cbs.h:43-44 | in [0, 20) an overlapping insert gives ResFAIL, and deleting [5, 15) reports [0, 20) and leaves exactly [0, 5), [15, 20) |
| Cbs.InteriorCutNeedsNode | code/cbs.h:43-44 | an interior cut with no descriptor available gives ResMEMORY and changes nothing |
| Cbs.LargestTie | code/cbs.h:63-65 | between two ranges of equal size the largest fit is the lower one |
| Cbs.LastFitLow | code/cbs.h:60-62 | in [0, 5), [15, 20) the last fit for 2 bytes is [15, 20), and LOW removes [15, 17) |
| Cbs.FirstFitHigh | code/cbs.h:57-59 | in [0, 5), [17, 20) the first fit for 4 bytes is [0, 5), and HIGH removes [1, 5) |
| Cbs.InsertThenDelete | code/cbs.h:41-44 | on any valid structure, inserting a range that overlaps nothing and deleting it again both succeed and restore the ranges exactly |
| Cbs.DeleteThenInsert | code/cbs.h:41-44 | on any valid structure, deleting a range inside one tracked range and inserting it again both succeed and restore the ranges exactly |
| Cbs.RoundTrips | code/cbs.h:41-44 | in [0, 5), [15, 20), inserting and deleting [30, 40), and deleting and inserting [16, 18), each give back [0, 5), [15, 20) |
| Cbs.IterateCounts | code/cbs.h:45 | an iteration sees the ranges in base order, and a callback that answers false stops it after one range |
| Protocol.InstClass.Invalid | code/protocol.c:59-65 | builds invalidClassStruct: SigInvalid, name "Invalid", its own superclass, level ClassIdInvalid, display of ClassIdInvalid |
| Protocol.InstClassCheck | code/protocol.c:18-32 | true exactly when the class is non-null, has the class signature and a name, a level below ClassDEPTH, non-zero ids below ClassIdLIMIT up to the level, and zeros after it |
| Protocol.RootClassValid | code/protocol.c:85-96 | the root class's field values pass the class check |
| Protocol.InvalidClassFails | code/protocol.c:59-65 | invalidClassStruct fails the class check |
| Protocol.InitInstClass | code/protocol.c:85-96 | the root class gets signature InstClassSig, name "Inst", itself as superclass, level 0, display [ClassIdInst, 0, ...], and passes the class check |
| Protocol.InstCheck | code/protocol.c:76-80 | an instance passes exactly when its class passes the class check |
| Protocol.InstInit | code/protocol.c:42-47 | the instance's class becomes the root class and the instance passes InstCheck |
| Protocol.InstFinish | code/protocol.c:67-71 | a valid instance is pointed at invalidClassStruct and then fails InstCheck |
| Protocol.ClassOf | code/protocol.c:101-107 | returns the class pointer, with no check of the instance |
| Protocol.SetClassOf | code/protocol.c:114-119 | requires a class that passes the check; afterwards ClassOf returns exactly it and the instance is valid; nothing else changes |
| Protocol.InstanceLifecycle | code/protocol.c:42-71 | after InstInit an instance passes InstCheck, and after InstFinish it fails |

## Left out

- The splay tree and the block pool as data structures are not modelled. The tree is its
  contents in base order, and its searches are pure functions over them. The pool is a
  boolean at each call that may need a descriptor (`poolHasNode`, `poolCreated`).
- Cbs.CBS.Init: the arena and the owner are not parameters. Whether the pool can be created
  is the boolean `poolCreated`. After a failure the model says nothing about the fields.
- `CBSDescribe` writes to a library stream. It and the `splaySearch` meter are left out.
- The body of `CBSCheck` (code/cbs.h:35) is not part of this model. `CBS.Invariant` states the
  invariant the operations keep; it is not a model of what `CBSCheck` checks.
- Addresses and sizes are unbounded naturals. Wrap-around of `Addr` arithmetic is not
  modelled.
- `cbs.c` is not part of this model. The failure results follow the usual MPS behaviour:
  ResFAIL for an overlapping insert or a delete outside every tracked range, and ResMEMORY
  when a descriptor is needed and the pool has none.
  - A caller-contract reading would treat those misuse cases as assertion failures. Under
    that reading the model's requires follow from the ensures: without an overlap Insert
    never gives ResFAIL, and a contained Delete never gives ResFAIL.
- The iteration callback is a pure function of (base, limit, closure). So it cannot call
  back into the structure, and it does not receive the CBS handle the C signature passes.
  Re-entrance is therefore excluded by construction. The `inCBS` flag is still set and
  cleared around every operation.
- Cbs.CBS.FindFirst and Cbs.CBS.FindLast require a positive size that is a multiple of the
  alignment. This keeps the deleted part aligned.
- `protocol.h`, `mpm.h` and `classdef.h` are not part of this model, so some constants are
  stand-ins: `ClassDEPTH` 8, `ClassIdInvalid` 0, `ClassIdInst` 1, `ClassIdLIMIT` 64,
  `InstClassSig` 0x519B1452 and `SigInvalid` 0x51915BAD.
- `CLASS(Inst)`, which creates the root class once on first use, is not modelled. InstInit
  takes the root class object as a parameter.
- The `CLASSES` macro expansions of `ClassOf`/`SetClassOf` are modelled once, for `Inst`.
  The pointer casts between class types are left out.
- `CHECKD` is modelled as the full class check, not the signature-only variant.
- `AVER`/`AVERT` failures become requires clauses.
- `code/prmci3xc.c` (mutator fault context on one platform) and `code/prot.h` (prototypes
  only) are platform code. `src/mpsiw3.c` is a Windows exception filter.
- `src/action.c` compares floating-point benefits and depends on ring and trace code outside
  this model.
- `test/argerr/89.c` needs a live arena.
