/** The Coalescing Block Structure (CBS) of cbs.h: a record of free address ranges in which
    adjacent ranges are merged, answering first-fit, last-fit and largest-fit queries.

    The splay tree is represented by its contents, the sequence `tree` of ranges in base
    order; its searches are the functions of module Ranges. The block pool that supplies
    range descriptors is represented, at each call that may need a new descriptor, by a
    boolean saying whether the pool can supply one. */
module Cbs {
  import opened MpmTypes
  import opened Ranges

  /** SIGnature CBS. */
  const CBSSig: nat := 0x519CB599

  /** What a find operation does with the range it found. */
  datatype FindDelete =
    | FindDeleteNONE    // leave the found range tracked
    | FindDeleteLOW     // delete exactly size bytes from its low end
    | FindDeleteHIGH    // delete exactly size bytes from its high end
    | FindDeleteENTIRE  // delete the whole range

  /** The part of a found range r that a find reports, and deletes unless the policy is NONE.
      It always shares an end with r, so deleting it never needs a new descriptor. */
  function FoundRange(r: Range, size: nat, findDelete: FindDelete): (d: Range)
    requires size <= Size(r)
    ensures r.base <= d.base && d.limit <= r.limit
    ensures d.base == r.base || d.limit == r.limit
    ensures findDelete == FindDeleteLOW ==> d.base == r.base && Size(d) == size
    ensures findDelete == FindDeleteHIGH ==> d.limit == r.limit && Size(d) == size
    ensures findDelete == FindDeleteNONE || findDelete == FindDeleteENTIRE ==> d == r
  {
    match findDelete
    case FindDeleteNONE => r
    case FindDeleteLOW => Range(r.base, r.base + size)
    case FindDeleteHIGH => Range(r.limit - size, r.limit)
    case FindDeleteENTIRE => r
  }

  /** The callbacks an iteration makes over rs, in order, each seeing the closure the previous
      one left; the walk stops after the first callback that answers false. The result is the
      number of callbacks made and the final closure. */
  function Walk<C(!new)>(rs: seq<Range>, visit: (nat, nat, C) -> (bool, C), closure: C): (w: (nat, C))
    ensures w.0 <= |rs|
    ensures rs != [] ==> 1 <= w.0
    ensures (forall b, l, c :: visit(b, l, c).0) ==> w.0 == |rs|
  {
    if rs == [] then (0, closure)
    else
      var step := visit(rs[0].base, rs[0].limit, closure);
      if !step.0 then (1, step.1)
      else
        var rest := Walk(rs[1..], visit, step.1);
        (rest.0 + 1, rest.1)
  }

  class CBS {
    /** The contents of the splay tree: the tracked free ranges in ascending base order. */
    var tree: seq<Range>
    /** The number of descriptors in the splay tree. */
    var splayTreeSize: nat
    var alignment: nat
    /** Whether the tree keeps the per-subtree largest-size annotation. */
    var fastFind: bool
    /** Set while an operation is in progress, to detect re-entrance. */
    var inCBS: bool
    var sig: nat

    /** The structure's invariant: the signature is right, the alignment is a power of two,
        the ranges are coalesced and aligned, and the descriptor count matches the tree. */
    ghost predicate Invariant()
      reads this
    {
      && sig == CBSSig
      && IsPowerOfTwo(alignment)
      && Maximal(tree)
      && AllAligned(tree, alignment)
      && splayTreeSize == |tree|
    }

    /** The state between operations. */
    ghost predicate Valid()
      reads this
    {
      Invariant() && !inCBS
    }

    /** CBSInit: an empty structure with the given alignment and fastFind flag. It fails with
        ResMEMORY when the block pool cannot be created. */
    method Init(alignment: nat, fastFind: bool, poolCreated: bool) returns (res: Res)
      requires IsPowerOfTwo(alignment)
      modifies this
      ensures res == (if poolCreated then ResOK else ResMEMORY)
      ensures res == ResOK ==> Valid() && tree == []
      ensures res == ResOK ==> this.alignment == alignment && this.fastFind == fastFind
    {
      if !poolCreated {
        return ResMEMORY;
      }
      tree := [];
      splayTreeSize := 0;
      this.fastFind := fastFind;
      this.alignment := alignment;
      inCBS := true;
      sig := CBSSig;
      inCBS := false;
      res := ResOK;
    }

    /** CBSFinish: all descriptors are released and the structure is invalidated. */
    method Finish()
      requires Valid()
      modifies this`tree, this`sig, this`inCBS
      ensures tree == [] && sig == SigInvalid && !inCBS
      ensures !Valid()
    {
      inCBS := true;
      sig := SigInvalid;
      tree := [];
      inCBS := false;
    }

    /** The update CBSInsert makes once [base, limit) is known to fit the gap before index i:
        the merged range replaces the neighbours it absorbs, and the descriptor count follows
        (one fewer after a triple merge, one more for an isolated range). */
    method InsertInGap(i: nat, base: nat, limit: nat) returns (block: Range)
      requires Invariant() && base < limit && Fits(tree, i, base, limit)
      requires IsAligned(base, alignment) && IsAligned(limit, alignment)
      modifies this`tree, this`splayTreeSize
      ensures Invariant()
      ensures forall a :: Free(tree, a) <==> Free(old(tree), a) || base <= a < limit
      ensures block in tree && block.base <= base && limit <= block.limit
      ensures forall r :: r in old(tree) && r.limit != base && r.base != limit ==> r in tree
      ensures forall r :: r in tree && r != block ==> r in old(tree)
    {
      var leftMerge := JoinsLeft(tree, i, base);
      var rightMerge := JoinsRight(tree, i, limit);
      block := Coalesce(tree, i, base, limit);
      InsertAtCorrect(tree, i, base, limit, alignment);
      tree := InsertAt(tree, i, base, limit);
      splayTreeSize := if leftMerge && rightMerge then splayTreeSize - 1
                       else if leftMerge || rightMerge then splayTreeSize
                       else splayTreeSize + 1;
    }

    /** The update CBSDelete makes once the range at index i is known to contain [base, limit):
        its remainders replace it, and the descriptor count follows (one fewer for an exact
        delete, one more for an interior cut). */
    method DeleteInRange(i: nat, base: nat, limit: nat)
      requires Invariant() && base < limit && i < |tree|
      requires tree[i].base <= base && limit <= tree[i].limit
      requires IsAligned(base, alignment) && IsAligned(limit, alignment)
      modifies this`tree, this`splayTreeSize
      ensures Invariant()
      ensures forall a :: Free(tree, a) <==> Free(old(tree), a) && !(base <= a < limit)
      ensures forall r :: r in old(tree) && r != old(tree[i]) ==> r in tree
      ensures forall r :: r in tree && r !in old(tree) ==>
        r == Range(old(tree[i]).base, base) || r == Range(limit, old(tree[i]).limit)
    {
      var found := tree[i];
      DeleteAtCorrect(tree, i, base, limit, alignment);
      tree := DeleteAt(tree, i, base, limit);
      splayTreeSize := splayTreeSize - 1 + (if found.base < base then 1 else 0)
                                         + (if limit < found.limit then 1 else 0);
    }

    /** CBSInsert: add [base, limit) to the free set, coalescing with the ranges that abut it.
        It fails with ResFAIL if any address of the range is already free, and with ResMEMORY
        if no range abuts it (so a new descriptor is needed) and the pool has none. On success
        it returns the maximal range that now contains [base, limit). */
    method Insert(base: nat, limit: nat, poolHasNode: bool)
      returns (res: Res, baseReturn: nat, limitReturn: nat)
      requires Valid()
      requires base < limit && IsAligned(base, alignment) && IsAligned(limit, alignment)
      modifies this`tree, this`splayTreeSize, this`inCBS
      ensures Valid()
      ensures res == (if Overlaps(old(tree), base, limit) then ResFAIL
                      else if !Abuts(old(tree), base, limit) && !poolHasNode then ResMEMORY
                      else ResOK)
      ensures res != ResOK ==> tree == old(tree)
      ensures res == ResOK ==> forall a :: Free(tree, a) <==> Free(old(tree), a) || base <= a < limit
      ensures res == ResOK ==>
        Range(baseReturn, limitReturn) in tree && baseReturn <= base && limit <= limitReturn
      ensures res == ResOK ==>
        forall r :: r in old(tree) && r.limit != base && r.base != limit ==> r in tree
      ensures res == ResOK ==>
        forall r :: r in tree && r != Range(baseReturn, limitReturn) ==> r in old(tree)
    {
      inCBS := true;
      var i := Neighbour(tree, base);
      NeighbourInsert(tree, base, limit);
      if i < |tree| && tree[i].base < limit {
        res, baseReturn, limitReturn := ResFAIL, 0, 0;
      } else {
        var leftMerge := JoinsLeft(tree, i, base);
        var rightMerge := JoinsRight(tree, i, limit);
        JoinsIff(tree, i, base, limit);
        if !leftMerge && !rightMerge && !poolHasNode {
          res, baseReturn, limitReturn := ResMEMORY, 0, 0;
        } else {
          var block := InsertInGap(i, base, limit);
          res, baseReturn, limitReturn := ResOK, block.base, block.limit;
        }
      }
      inCBS := false;
    }

    /** CBSDelete: remove [base, limit) from the free set. It fails with ResFAIL unless one
        tracked range contains [base, limit), and with ResMEMORY if the cut is strictly inside
        that range (leaving two remainders, so a new descriptor is needed) and the pool has
        none. On success it returns the range that contained [base, limit). */
    method Delete(base: nat, limit: nat, poolHasNode: bool)
      returns (res: Res, baseReturn: nat, limitReturn: nat)
      requires Valid()
      requires base < limit && IsAligned(base, alignment) && IsAligned(limit, alignment)
      modifies this`tree, this`splayTreeSize, this`inCBS
      ensures Valid()
      ensures res == (if !Within(old(tree), base, limit) then ResFAIL
                      else if Interior(old(tree), base, limit) && !poolHasNode then ResMEMORY
                      else ResOK)
      ensures res != ResOK ==> tree == old(tree)
      ensures res == ResOK ==> forall a :: Free(tree, a) <==> Free(old(tree), a) && !(base <= a < limit)
      ensures res == ResOK ==>
        Range(baseReturn, limitReturn) in old(tree) && baseReturn <= base && limit <= limitReturn
      ensures res == ResOK ==>
        forall r :: r in old(tree) && r != Range(baseReturn, limitReturn) ==> r in tree
      ensures res == ResOK ==>
        forall r :: r in tree && r !in old(tree) ==> r == Range(baseReturn, base) || r == Range(limit, limitReturn)
    {
      inCBS := true;
      var i := Neighbour(tree, base);
      NeighbourDelete(tree, base, limit);
      if !(i < |tree| && tree[i].base <= base && limit <= tree[i].limit) {
        res, baseReturn, limitReturn := ResFAIL, 0, 0;
      } else {
        var containing := tree[i];
        if containing.base < base && limit < containing.limit && !poolHasNode {
          res, baseReturn, limitReturn := ResMEMORY, 0, 0;
        } else {
          DeleteInRange(i, base, limit);
          res, baseReturn, limitReturn := ResOK, containing.base, containing.limit;
        }
      }
      inCBS := false;
    }

    /** CBSIterate: call visit on every tracked range in ascending base order, threading the
        closure through the calls, until a call answers false. The ranges do not change. */
    method Iterate<C(!new)>(visit: (nat, nat, C) -> (bool, C), closure: C) returns (result: C)
      requires Valid()
      modifies this`inCBS
      ensures Valid()
      ensures result == Walk(tree, visit, closure).1
    {
      inCBS := true;
      var i := 0;
      var c := closure;
      var more := true;
      while more && i < |tree|
        invariant 0 <= i <= |tree|
        invariant more ==> Walk(tree, visit, closure) == (i + Walk(tree[i..], visit, c).0, Walk(tree[i..], visit, c).1)
        invariant !more ==> Walk(tree, visit, closure) == (i, c)
        decreases |tree| - i
      {
        assert tree[i..][0] == tree[i] && tree[i..][1..] == tree[i + 1..];
        var step := visit(tree[i].base, tree[i].limit, c);
        more, c := step.0, step.1;
        i := i + 1;
      }
      result := c;
      inCBS := false;
    }

    /** cbsFindDeleteRange: report the part of the found range tree[k] that the policy selects
        and delete it unless the policy is NONE. Deleting from one end never needs a new
        descriptor, so this cannot fail. */
    method FindDeleteRange(k: nat, size: nat, findDelete: FindDelete)
      returns (baseReturn: nat, limitReturn: nat, oldBaseReturn: nat, oldLimitReturn: nat)
      requires Invariant() && k < |tree|
      requires 0 < size <= Size(tree[k]) && IsAligned(size, alignment)
      modifies this`tree, this`splayTreeSize
      ensures Invariant()
      ensures Range(oldBaseReturn, oldLimitReturn) == old(tree[k])
      ensures Range(baseReturn, limitReturn) == FoundRange(old(tree[k]), size, findDelete)
      ensures findDelete == FindDeleteNONE ==> tree == old(tree)
      ensures findDelete != FindDeleteNONE ==>
        forall a :: Free(tree, a) <==> Free(old(tree), a) && !(baseReturn <= a < limitReturn)
    {
      var found := tree[k];
      var d := FoundRange(found, size, findDelete);
      if findDelete != FindDeleteNONE {
        AlignedAdd(found.base, size, alignment);
        AlignedSub(found.limit, size, alignment);
        DeleteInRange(k, d.base, d.limit);
      }
      baseReturn, limitReturn := d.base, d.limit;
      oldBaseReturn, oldLimitReturn := found.base, found.limit;
    }

    /** CBSFindFirst: find the lowest-base range of at least size bytes, then apply the policy. */
    method FindFirst(size: nat, findDelete: FindDelete)
      returns (found: bool, baseReturn: nat, limitReturn: nat, oldBaseReturn: nat, oldLimitReturn: nat)
      requires Valid() && 0 < size && IsAligned(size, alignment)
      modifies this`tree, this`splayTreeSize, this`inCBS
      ensures Valid()
      ensures found <==> exists r :: r in old(tree) && Size(r) >= size
      ensures found ==> Range(oldBaseReturn, oldLimitReturn) in old(tree)
      ensures found ==> oldLimitReturn - oldBaseReturn >= size
      ensures found ==> forall r :: r in old(tree) && r.base < oldBaseReturn ==> Size(r) < size
      ensures found ==>
        Range(baseReturn, limitReturn) == FoundRange(Range(oldBaseReturn, oldLimitReturn), size, findDelete)
      ensures !found || findDelete == FindDeleteNONE ==> tree == old(tree)
      ensures found && findDelete != FindDeleteNONE ==>
        forall a :: Free(tree, a) <==> Free(old(tree), a) && !(baseReturn <= a < limitReturn)
    {
      inCBS := true;
      var o := FirstFit(tree, size);
      FirstFitLowest(tree, size);
      if o.None? {
        found, baseReturn, limitReturn, oldBaseReturn, oldLimitReturn := false, 0, 0, 0, 0;
      } else {
        var k := o.value;
        found := true;
        baseReturn, limitReturn, oldBaseReturn, oldLimitReturn := FindDeleteRange(k, size, findDelete);
      }
      inCBS := false;
    }

    /** CBSFindLast: find the highest-base range of at least size bytes, then apply the policy. */
    method FindLast(size: nat, findDelete: FindDelete)
      returns (found: bool, baseReturn: nat, limitReturn: nat, oldBaseReturn: nat, oldLimitReturn: nat)
      requires Valid() && 0 < size && IsAligned(size, alignment)
      modifies this`tree, this`splayTreeSize, this`inCBS
      ensures Valid()
      ensures found <==> exists r :: r in old(tree) && Size(r) >= size
      ensures found ==> Range(oldBaseReturn, oldLimitReturn) in old(tree)
      ensures found ==> oldLimitReturn - oldBaseReturn >= size
      ensures found ==> forall r :: r in old(tree) && r.base > oldBaseReturn ==> Size(r) < size
      ensures found ==>
        Range(baseReturn, limitReturn) == FoundRange(Range(oldBaseReturn, oldLimitReturn), size, findDelete)
      ensures !found || findDelete == FindDeleteNONE ==> tree == old(tree)
      ensures found && findDelete != FindDeleteNONE ==>
        forall a :: Free(tree, a) <==> Free(old(tree), a) && !(baseReturn <= a < limitReturn)
    {
      inCBS := true;
      var o := LastFit(tree, size);
      LastFitHighest(tree, size);
      if o.None? {
        found, baseReturn, limitReturn, oldBaseReturn, oldLimitReturn := false, 0, 0, 0, 0;
      } else {
        var k := o.value;
        found := true;
        baseReturn, limitReturn, oldBaseReturn, oldLimitReturn := FindDeleteRange(k, size, findDelete);
      }
      inCBS := false;
    }

    /** The search of CBSFindLargest: with fastFind, the root's largest-size annotation and a
        first-fit search for that size; without it, a scan keeping the first strictly larger
        range. Both find the lowest-base range of greatest size. */
    method LargestBlock() returns (k: nat)
      requires Invariant() && tree != []
      ensures k == LargestIndex(tree)
    {
      if fastFind {
        var maxSize := MaxSize(tree);
        var o := FirstFit(tree, maxSize);
        k := o.value;
      } else {
        k := 0;
        var i := 1;
        while i < |tree|
          invariant 1 <= i <= |tree| && k < i
          invariant forall j :: 0 <= j < i ==> Size(tree[j]) <= Size(tree[k])
          invariant forall j :: 0 <= j < k ==> Size(tree[j]) < Size(tree[k])
        {
          if Size(tree[i]) > Size(tree[k]) {
            k := i;
          }
          i := i + 1;
        }
      }
      LargestUnique(tree, k);
    }

    /** CBSFindLargest: find the largest range (the lowest-base one among equals), then apply
        the policy with the size of that range, so that every deleting policy removes it whole.
        With fastFind the root's largest-size annotation guides a first-fit search; without it
        every range is scanned. Both give the same answer. */
    method FindLargest(findDelete: FindDelete)
      returns (found: bool, baseReturn: nat, limitReturn: nat, oldBaseReturn: nat, oldLimitReturn: nat)
      requires Valid()
      modifies this`tree, this`splayTreeSize, this`inCBS
      ensures Valid()
      ensures found <==> old(tree) != []
      ensures found ==> Range(oldBaseReturn, oldLimitReturn) == old(tree)[LargestIndex(old(tree))]
      ensures found ==> forall r :: r in old(tree) ==> Size(r) <= oldLimitReturn - oldBaseReturn
      ensures found ==>
        forall r :: r in old(tree) && r.base < oldBaseReturn ==> Size(r) < oldLimitReturn - oldBaseReturn
      ensures found ==> baseReturn == oldBaseReturn && limitReturn == oldLimitReturn
      ensures !found || findDelete == FindDeleteNONE ==> tree == old(tree)
      ensures found && findDelete != FindDeleteNONE ==>
        forall a :: Free(tree, a) <==> Free(old(tree), a) && !(oldBaseReturn <= a < oldLimitReturn)
    {
      inCBS := true;
      found := tree != [];
      if !found {
        baseReturn, limitReturn, oldBaseReturn, oldLimitReturn := 0, 0, 0, 0;
      } else {
        var k := LargestBlock();
        LargestLowest(tree);
        AlignedSub(tree[k].limit, tree[k].base, alignment);
        baseReturn, limitReturn, oldBaseReturn, oldLimitReturn := FindDeleteRange(k, Size(tree[k]), findDelete);
      }
      inCBS := false;
    }
  }

  // ---------------------------------------------------------------------------------------
  // Client scenarios

  lemma FreePair(r: Range, q: Range, a: int)
    ensures Free([r, q], a) <==> Contains(r, a) || Contains(q, a)
  {
    assert [r, q] == [r] + [q];
    FreeAppend([r], [q], a);
    FreeSingleton(r, a);
    FreeSingleton(q, a);
  }

  /** Inserting [0, 10) and then [10, 20) into an empty structure leaves the single range
      [0, 20); the second insert coalesces, so it succeeds even when the pool has no
      descriptor to give. */
  method CoalescedPair() returns (cbs: CBS, secondInsert: Res)
    ensures fresh(cbs) && cbs.Valid() && cbs.alignment == 1
    ensures cbs.tree == [Range(0, 20)]
    ensures secondInsert == ResOK
  {
    cbs := new CBS;
    var res := cbs.Init(1, false, true);
    var b, l;
    res, b, l := cbs.Insert(0, 10, true);
    forall a ensures Free(cbs.tree, a) <==> Free([Range(0, 10)], a) {
      FreeSingleton(Range(0, 10), a);
    }
    Canonical(cbs.tree, [Range(0, 10)]);
    assert !Overlaps(cbs.tree, 10, 20) by {
      forall a | 10 <= a < 20 ensures !Free(cbs.tree, a) {
        FreeSingleton(Range(0, 10), a);
      }
    }
    assert cbs.tree[0].limit == 10;
    secondInsert, b, l := cbs.Insert(10, 20, false);
    forall a ensures Free(cbs.tree, a) <==> Free([Range(0, 20)], a) {
      FreeSingleton(Range(0, 10), a);
      FreeSingleton(Range(0, 20), a);
    }
    Canonical(cbs.tree, [Range(0, 20)]);
  }

  /** In [0, 20): inserting [4, 8) fails with ResFAIL because it is already free; deleting
      [5, 15) reports [0, 20) as the containing range and leaves [0, 5) and [15, 20). */
  method SplitPair() returns (cbs: CBS, overlapRes: Res, containing: Range)
    ensures fresh(cbs) && cbs.Valid() && cbs.alignment == 1
    ensures cbs.tree == [Range(0, 5), Range(15, 20)]
    ensures overlapRes == ResFAIL
    ensures containing == Range(0, 20)
  {
    var res;
    cbs, res := CoalescedPair();
    var b, l;
    assert Free(cbs.tree, 4) by {
      FreeSingleton(Range(0, 20), 4);
    }
    overlapRes, b, l := cbs.Insert(4, 8, true);
    assert cbs.tree[0] == Range(0, 20);
    res, b, l := cbs.Delete(5, 15, true);
    containing := Range(b, l);
    forall a ensures Free(cbs.tree, a) <==> Free([Range(0, 5), Range(15, 20)], a) {
      FreeSingleton(Range(0, 20), a);
      FreePair(Range(0, 5), Range(15, 20), a);
    }
    Canonical(cbs.tree, [Range(0, 5), Range(15, 20)]);
  }

  /** In [0, 5), [15, 20): a cut strictly inside [0, 5) fails with ResMEMORY when the pool
      has no descriptor, and changes nothing. */
  method InteriorCutNeedsNode() returns (res: Res, after: seq<Range>)
    ensures res == ResMEMORY
    ensures after == [Range(0, 5), Range(15, 20)]
  {
    var cbs, overlapRes, containing := SplitPair();
    assert cbs.tree[0] == Range(0, 5);
    var b, l;
    res, b, l := cbs.Delete(2, 3, false);
    after := cbs.tree;
  }

  /** In [0, 5), [15, 20), whose two ranges have the same size, the largest fit is the lower
      one, and with NONE nothing changes. */
  method LargestTie() returns (largest: Range, after: seq<Range>)
    ensures largest == Range(0, 5)
    ensures after == [Range(0, 5), Range(15, 20)]
  {
    var cbs, overlapRes, containing := SplitPair();
    var found, b, l, ob, ol := cbs.FindLargest(FindDeleteNONE);
    largest := Range(ob, ol);
    after := cbs.tree;
  }

  /** In [0, 5), [15, 20): the last fit for 2 bytes is [15, 20) and LOW deletes [15, 17). */
  method LastFitLow() returns (cbs: CBS, lastOld: Range, lastTaken: Range)
    ensures fresh(cbs) && cbs.Valid() && cbs.alignment == 1
    ensures lastOld == Range(15, 20) && lastTaken == Range(15, 17)
    ensures cbs.tree == [Range(0, 5), Range(17, 20)]
  {
    var overlapRes, containing;
    cbs, overlapRes, containing := SplitPair();
    assert Size(cbs.tree[1]) >= 2;
    var found, b, l, ob, ol := cbs.FindLast(2, FindDeleteLOW);
    lastOld, lastTaken := Range(ob, ol), Range(b, l);
    forall a ensures Free(cbs.tree, a) <==> Free([Range(0, 5), Range(17, 20)], a) {
      FreePair(Range(0, 5), Range(15, 20), a);
      FreePair(Range(0, 5), Range(17, 20), a);
    }
    Canonical(cbs.tree, [Range(0, 5), Range(17, 20)]);
  }

  /** Then in [0, 5), [17, 20): the first fit for 4 bytes is [0, 5) and HIGH deletes [1, 5). */
  method FirstFitHigh() returns (firstOld: Range, firstTaken: Range, after: seq<Range>)
    ensures firstOld == Range(0, 5) && firstTaken == Range(1, 5)
    ensures after == [Range(0, 1), Range(17, 20)]
  {
    var cbs, lastOld, lastTaken := LastFitLow();
    assert Size(cbs.tree[0]) >= 4;
    var found, b, l, ob, ol := cbs.FindFirst(4, FindDeleteHIGH);
    firstOld, firstTaken := Range(ob, ol), Range(b, l);
    forall a ensures Free(cbs.tree, a) <==> Free([Range(0, 1), Range(17, 20)], a) {
      FreePair(Range(0, 5), Range(17, 20), a);
      FreePair(Range(0, 1), Range(17, 20), a);
    }
    Canonical(cbs.tree, [Range(0, 1), Range(17, 20)]);
    after := cbs.tree;
  }

  /** In [0, 5), [15, 20): an iteration that always continues sees both ranges, in base order,
      and one that answers false at once sees only the first. */
  method IterateCounts() returns (bytes: int, lowestBase: int, visited: int)
    ensures bytes == 10
    ensures lowestBase == 0
    ensures visited == 1
  {
    var cbs, overlapRes, containing := SplitPair();
    var total := (b: nat, l: nat, c: int) => (true, c + (l - b));
    bytes := cbs.Iterate(total, 0);
    assert Walk(cbs.tree[1..], total, 5) == (1, 10);
    var first := (b: nat, l: nat, c: int) => (false, b);
    lowestBase := cbs.Iterate(first, 100);
    var count := (b: nat, l: nat, c: int) => (false, c + 1);
    visited := cbs.Iterate(count, 0);
  }

  /** Inserting a range that overlaps nothing and deleting it again leaves the structure
      exactly as it was, whatever merging the insert did. */
  method InsertThenDelete(cbs: CBS, base: nat, limit: nat) returns (insertRes: Res, deleteRes: Res)
    requires cbs.Valid() && base < limit
    requires IsAligned(base, cbs.alignment) && IsAligned(limit, cbs.alignment)
    requires !Overlaps(cbs.tree, base, limit)
    modifies cbs`tree, cbs`splayTreeSize, cbs`inCBS
    ensures insertRes == ResOK && deleteRes == ResOK
    ensures cbs.Valid() && cbs.tree == old(cbs.tree)
  {
    ghost var before := cbs.tree;
    var b, l;
    insertRes, b, l := cbs.Insert(base, limit, true);
    ghost var mid := cbs.tree;
    ghost var k :| 0 <= k < |mid| && mid[k] == Range(b, l);
    assert Within(mid, base, limit);
    deleteRes, b, l := cbs.Delete(base, limit, true);
    InsertDeleteRoundTrip(before, mid, cbs.tree, base, limit);
  }

  /** Deleting a range that lies inside one tracked range and inserting it again leaves the
      structure exactly as it was, whatever splitting the delete did. */
  method DeleteThenInsert(cbs: CBS, base: nat, limit: nat) returns (deleteRes: Res, insertRes: Res)
    requires cbs.Valid() && base < limit
    requires IsAligned(base, cbs.alignment) && IsAligned(limit, cbs.alignment)
    requires Within(cbs.tree, base, limit)
    modifies cbs`tree, cbs`splayTreeSize, cbs`inCBS
    ensures deleteRes == ResOK && insertRes == ResOK
    ensures cbs.Valid() && cbs.tree == old(cbs.tree)
  {
    ghost var before := cbs.tree;
    ContainedIffFree(before, base, limit);
    var b, l;
    deleteRes, b, l := cbs.Delete(base, limit, true);
    ghost var mid := cbs.tree;
    insertRes, b, l := cbs.Insert(base, limit, true);
    DeleteInsertRoundTrip(before, mid, cbs.tree, base, limit);
  }

  /** In [0, 5), [15, 20): inserting [30, 40) and deleting it again, and deleting [16, 18) and
      inserting it again, both give back [0, 5), [15, 20). */
  method RoundTrips() returns (afterInsertDelete: seq<Range>, afterDeleteInsert: seq<Range>)
    ensures afterInsertDelete == [Range(0, 5), Range(15, 20)]
    ensures afterDeleteInsert == [Range(0, 5), Range(15, 20)]
  {
    var cbs, overlapRes, containing := SplitPair();
    assert !Overlaps(cbs.tree, 30, 40) by {
      forall a | 30 <= a < 40 ensures !Free(cbs.tree, a) {
        FreePair(Range(0, 5), Range(15, 20), a);
      }
    }
    assert IsAligned(30, 1) && IsAligned(40, 1);
    var r1, r2 := InsertThenDelete(cbs, 30, 40);
    afterInsertDelete := cbs.tree;
    assert cbs.tree[1] == Range(15, 20);
    assert IsAligned(16, 1) && IsAligned(18, 1);
    r1, r2 := DeleteThenInsert(cbs, 16, 18);
    afterDeleteInsert := cbs.tree;
  }
}
