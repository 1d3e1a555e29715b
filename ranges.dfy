/** The abstract contents of a Coalescing Block Structure: a sequence of free address
    ranges in ascending base order, the queries the splay tree answers over it, and the
    two updates (insert with coalescing, delete with splitting) together with the
    lemmas that they keep the coalescing invariant and change the free set exactly. */
module Ranges {
  import opened MpmTypes

  /** The half-open address range [base, limit). */
  datatype Range = Range(base: nat, limit: nat)

  function Size(r: Range): int { r.limit - r.base }

  predicate Contains(r: Range, a: int) { r.base <= a < r.limit }

  /** x is a multiple of alignment (alignment > 0), checked by repeated subtraction so that
      sums and differences of aligned addresses stay within linear arithmetic. */
  predicate IsAligned(x: nat, alignment: nat)
    decreases x
  {
    alignment > 0 && (x == 0 || (x >= alignment && IsAligned(x - alignment, alignment)))
  }

  predicate IsPowerOfTwo(n: nat) { n == 1 || (n > 1 && n % 2 == 0 && IsPowerOfTwo(n / 2)) }

  /** The coalescing invariant: every range is non-empty and each one ends strictly before the
      next one begins, so the ranges are sorted, pairwise disjoint and never adjacent. */
  predicate Maximal(rs: seq<Range>) {
    && (forall k :: 0 <= k < |rs| ==> rs[k].base < rs[k].limit)
    && (forall j, k :: 0 <= j < k < |rs| ==> rs[j].limit < rs[k].base)
  }

  /** The same invariant stated on neighbours only: limit_k < base_(k+1). */
  predicate Coalesced(rs: seq<Range>) {
    && (forall k :: 0 <= k < |rs| ==> rs[k].base < rs[k].limit)
    && (forall k :: 0 <= k < |rs| - 1 ==> rs[k].limit < rs[k + 1].base)
  }

  /** Every tracked base and limit is a multiple of the alignment. */
  predicate AllAligned(rs: seq<Range>, alignment: nat) {
    forall k :: 0 <= k < |rs| ==> IsAligned(rs[k].base, alignment) && IsAligned(rs[k].limit, alignment)
  }

  /** Address a is free: some tracked range contains it. */
  ghost predicate Free(rs: seq<Range>, a: int) {
    exists k :: 0 <= k < |rs| && Contains(rs[k], a)
  }

  /** Some address of [base, limit) is already free. */
  ghost predicate Overlaps(rs: seq<Range>, base: int, limit: int) {
    exists a :: base <= a < limit && Free(rs, a)
  }

  /** [base, limit) lies inside a single tracked range. */
  predicate Within(rs: seq<Range>, base: int, limit: int) {
    exists k :: 0 <= k < |rs| && rs[k].base <= base && limit <= rs[k].limit
  }

  /** [base, limit) lies strictly inside a single tracked range, touching neither end. */
  predicate Interior(rs: seq<Range>, base: int, limit: int) {
    exists k :: 0 <= k < |rs| && rs[k].base < base && limit < rs[k].limit
  }

  /** Some tracked range ends at base or begins at limit. */
  predicate Abuts(rs: seq<Range>, base: int, limit: int) {
    exists k :: 0 <= k < |rs| && (rs[k].limit == base || rs[k].base == limit)
  }

  // ---------------------------------------------------------------------------------------
  // The invariant

  lemma {:induction false} MaximalIffCoalesced(rs: seq<Range>)
    ensures Maximal(rs) <==> Coalesced(rs)
  {
    if |rs| > 1 && Coalesced(rs) {
      var t := rs[1..];
      assert Coalesced(t) by {
        forall k | 0 <= k < |t| - 1 ensures t[k].limit < t[k + 1].base {
          assert t[k] == rs[k + 1] && t[k + 1] == rs[k + 2];
        }
      }
      MaximalIffCoalesced(t);
      forall j, k | 0 <= j < k < |rs| ensures rs[j].limit < rs[k].base {
        if j == 0 {
          if k > 1 { assert t[0] == rs[1] && t[k - 1] == rs[k]; }
        } else {
          assert t[j - 1] == rs[j] && t[k - 1] == rs[k];
        }
      }
    }
  }

  lemma {:induction false} AlignedAdd(x: nat, y: nat, alignment: nat)
    requires IsAligned(x, alignment) && IsAligned(y, alignment)
    ensures IsAligned(x + y, alignment)
    decreases x
  {
    if x > 0 { AlignedAdd(x - alignment, y, alignment); }
  }

  lemma {:induction false} AlignedSub(x: nat, y: nat, alignment: nat)
    requires IsAligned(x, alignment) && IsAligned(y, alignment) && y <= x
    ensures IsAligned(x - y, alignment)
    decreases y
  {
    if y > 0 { AlignedSub(x - alignment, y - alignment, alignment); }
  }

  // ---------------------------------------------------------------------------------------
  // The free set

  lemma FreeAppend(s: seq<Range>, t: seq<Range>, a: int)
    ensures Free(s + t, a) <==> Free(s, a) || Free(t, a)
  {
    var c := s + t;
    if Free(c, a) {
      var k :| 0 <= k < |c| && Contains(c[k], a);
      if k < |s| { assert c[k] == s[k]; } else { assert c[k] == t[k - |s|]; }
    }
    if Free(s, a) {
      var k :| 0 <= k < |s| && Contains(s[k], a);
      assert c[k] == s[k];
    }
    if Free(t, a) {
      var k :| 0 <= k < |t| && Contains(t[k], a);
      assert c[|s| + k] == t[k];
    }
  }

  lemma FreeSingleton(r: Range, a: int)
    ensures Free([r], a) <==> Contains(r, a)
  {
    assert [r][0] == r;
  }

  /** The first range of a maximal sequence holds its lowest free address, and everything
      free after it lies above its limit. */
  lemma FreeHead(rs: seq<Range>, z: int)
    requires Maximal(rs) && rs != []
    ensures Free(rs, rs[0].base)
    ensures Free(rs, z) <==> Contains(rs[0], z) || Free(rs[1..], z)
    ensures Free(rs, z) ==> rs[0].base <= z
    ensures Free(rs[1..], z) ==> rs[0].limit < z
  {
    assert Contains(rs[0], rs[0].base);
    assert rs == [rs[0]] + rs[1..];
    FreeAppend([rs[0]], rs[1..], z);
    assert Free([rs[0]], z) <==> Contains(rs[0], z);
    if Free(rs[1..], z) {
      var k :| 0 <= k < |rs[1..]| && Contains(rs[1..][k], z);
      assert rs[1..][k] == rs[k + 1];
    }
  }

  /** The coalescing invariant makes the representation canonical: two maximal sequences with
      the same free addresses are the same sequence. */
  lemma {:induction false} Canonical(s: seq<Range>, t: seq<Range>)
    requires Maximal(s) && Maximal(t)
    requires forall a :: Free(s, a) <==> Free(t, a)
    ensures s == t
    decreases |s|
  {
    if s != [] { FreeHead(s, s[0].base); }
    if t != [] { FreeHead(t, t[0].base); }
    if s != [] && t != [] {
      FreeHead(s, t[0].base);
      FreeHead(t, s[0].base);
      assert s[0].base == t[0].base;
      FreeHead(s, t[0].limit);
      FreeHead(t, s[0].limit);
      assert s[0] == t[0];
      forall a ensures Free(s[1..], a) <==> Free(t[1..], a) {
        FreeHead(s, a);
        FreeHead(t, a);
      }
      Canonical(s[1..], t[1..]);
      assert s == [s[0]] + s[1..];
      assert t == [t[0]] + t[1..];
    }
  }

  /** Because of coalescing, an interval of free addresses never straddles two ranges: it is
      wholly free exactly when one tracked range contains it. */
  lemma ContainedIffFree(rs: seq<Range>, base: int, limit: int)
    requires Maximal(rs) && base < limit
    ensures Within(rs, base, limit) <==> forall a :: base <= a < limit ==> Free(rs, a)
  {
    if forall a :: base <= a < limit ==> Free(rs, a) {
      assert Free(rs, base);
      var k :| 0 <= k < |rs| && Contains(rs[k], base);
      if rs[k].limit < limit && Free(rs, rs[k].limit) {
        assert false;
      }
    }
    if Within(rs, base, limit) {
      var k :| 0 <= k < |rs| && rs[k].base <= base && limit <= rs[k].limit;
      forall a | base <= a < limit ensures Free(rs, a) {
        assert Contains(rs[k], a);
      }
    }
  }

  // ---------------------------------------------------------------------------------------
  // Queries answered by the splay tree

  /** The splay tree's neighbour search keyed by x: the index of the first range whose limit
      lies above x. Every range before it ends at or below x. */
  function Neighbour(rs: seq<Range>, x: int): (i: nat)
    ensures i <= |rs|
    ensures forall j :: 0 <= j < i ==> rs[j].limit <= x
    ensures i < |rs| ==> x < rs[i].limit
  {
    if rs == [] then 0
    else if x < rs[0].limit then 0
    else 1 + Neighbour(rs[1..], x)
  }

  /** The first-fit search: the lowest index of a range of at least the given size. */
  function FirstFit(rs: seq<Range>, size: int): (o: Option<nat>)
    ensures o.None? <==> forall j :: 0 <= j < |rs| ==> Size(rs[j]) < size
    ensures o.Some? ==> o.value < |rs| && Size(rs[o.value]) >= size
    ensures o.Some? ==> forall j :: 0 <= j < o.value ==> Size(rs[j]) < size
  {
    if rs == [] then None
    else if Size(rs[0]) >= size then Some(0)
    else match FirstFit(rs[1..], size)
      case None => None
      case Some(k) => Some(k + 1)
  }

  /** The last-fit search: the highest index of a range of at least the given size. */
  function LastFit(rs: seq<Range>, size: int): (o: Option<nat>)
    ensures o.None? <==> forall j :: 0 <= j < |rs| ==> Size(rs[j]) < size
    ensures o.Some? ==> o.value < |rs| && Size(rs[o.value]) >= size
    ensures o.Some? ==> forall j :: o.value < j < |rs| ==> Size(rs[j]) < size
  {
    if rs == [] then None
    else if Size(rs[|rs| - 1]) >= size then Some(|rs| - 1)
    else LastFit(rs[..|rs| - 1], size)
  }

  /** The size of the largest range: the annotation the fastFind splay tree keeps at its root. */
  function MaxSize(rs: seq<Range>): (m: int)
    requires rs != []
    ensures forall j :: 0 <= j < |rs| ==> Size(rs[j]) <= m
    ensures exists j :: 0 <= j < |rs| && Size(rs[j]) == m
  {
    if |rs| == 1 then Size(rs[0])
    else
      var m := MaxSize(rs[1..]);
      if Size(rs[0]) >= m then Size(rs[0]) else m
  }

  /** Reference definition of the largest-fit answer: the lowest index among the ranges of
      greatest size. */
  function LargestIndex(rs: seq<Range>): (i: nat)
    requires rs != []
    ensures i < |rs|
    ensures forall j :: 0 <= j < |rs| ==> Size(rs[j]) <= Size(rs[i])
    ensures forall j :: 0 <= j < i ==> Size(rs[j]) < Size(rs[i])
  {
    if |rs| == 1 then 0
    else
      var k := LargestIndex(rs[..|rs| - 1]);
      if Size(rs[|rs| - 1]) > Size(rs[k]) then |rs| - 1 else k
  }

  /** Any index of a greatest size that no earlier range reaches is the largest-fit answer, so
      every search with those two properties agrees with LargestIndex. */
  lemma LargestUnique(rs: seq<Range>, k: nat)
    requires k < |rs|
    requires forall j :: 0 <= j < |rs| ==> Size(rs[j]) <= Size(rs[k])
    requires forall j :: 0 <= j < k ==> Size(rs[j]) < Size(rs[k])
    ensures k == LargestIndex(rs)
  {
  }

  /** In a maximal sequence, index order is base order. */
  lemma BaseOrder(rs: seq<Range>, j: nat, k: nat)
    requires Maximal(rs) && j < |rs| && k < |rs|
    ensures rs[j].base < rs[k].base <==> j < k
  {
  }

  /** First fit in terms of the tracked ranges: there is an answer exactly when some range is
      big enough, and no range below the answer is. */
  lemma FirstFitLowest(rs: seq<Range>, size: int)
    requires Maximal(rs)
    ensures FirstFit(rs, size).Some? <==> exists r :: r in rs && Size(r) >= size
    ensures FirstFit(rs, size).Some? ==> forall r :: r in rs && r.base < rs[FirstFit(rs, size).value].base ==> Size(r) < size
  {
    var o := FirstFit(rs, size);
    if o.Some? {
      assert rs[o.value] in rs;
      forall r | r in rs && r.base < rs[o.value].base ensures Size(r) < size {
        var j :| 0 <= j < |rs| && rs[j] == r;
        BaseOrder(rs, j, o.value);
      }
    }
  }

  /** Last fit in terms of the tracked ranges: there is an answer exactly when some range is
      big enough, and no range above the answer is. */
  lemma LastFitHighest(rs: seq<Range>, size: int)
    requires Maximal(rs)
    ensures LastFit(rs, size).Some? <==> exists r :: r in rs && Size(r) >= size
    ensures LastFit(rs, size).Some? ==> forall r :: r in rs && r.base > rs[LastFit(rs, size).value].base ==> Size(r) < size
  {
    var o := LastFit(rs, size);
    if o.Some? {
      assert rs[o.value] in rs;
      forall r | r in rs && r.base > rs[o.value].base ensures Size(r) < size {
        var j :| 0 <= j < |rs| && rs[j] == r;
        BaseOrder(rs, o.value, j);
      }
    }
  }

  /** Largest fit in terms of the tracked ranges: no range is bigger than the answer, and every
      range below it is smaller. */
  lemma LargestLowest(rs: seq<Range>)
    requires Maximal(rs) && rs != []
    ensures forall r :: r in rs ==> Size(r) <= Size(rs[LargestIndex(rs)])
    ensures forall r :: r in rs && r.base < rs[LargestIndex(rs)].base ==> Size(r) < Size(rs[LargestIndex(rs)])
  {
    var k := LargestIndex(rs);
    forall r | r in rs && r.base < rs[k].base ensures Size(r) < Size(rs[k]) {
      var j :| 0 <= j < |rs| && rs[j] == r;
      BaseOrder(rs, j, k);
    }
  }

  // ---------------------------------------------------------------------------------------
  // Replacing a stretch of ranges

  /** rs with the stretch rs[lo..hi] replaced by m: both updates of the tree have this shape. */
  function Splice(rs: seq<Range>, lo: nat, hi: nat, m: seq<Range>): (r: seq<Range>)
    requires lo <= hi <= |rs|
    ensures |r| == |rs| - (hi - lo) + |m|
  {
    rs[..lo] + m + rs[hi..]
  }

  /** Where each element of a splice comes from. */
  lemma SpliceIndex(rs: seq<Range>, lo: nat, hi: nat, m: seq<Range>, k: nat)
    requires lo <= hi <= |rs| && k < |Splice(rs, lo, hi, m)|
    ensures k < lo ==> Splice(rs, lo, hi, m)[k] == rs[k]
    ensures lo <= k < lo + |m| ==> Splice(rs, lo, hi, m)[k] == m[k - lo]
    ensures lo + |m| <= k ==> Splice(rs, lo, hi, m)[k] == rs[k - lo - |m| + hi]
  {
  }

  /** In a maximal sequence the first range begins lowest and the last one ends highest. */
  lemma MaximalEnds(m: seq<Range>, k: nat)
    requires Maximal(m) && k < |m|
    ensures m[0].base <= m[k].base && m[k].limit <= m[|m| - 1].limit
  {
  }

  /** A splice stays maximal when the new stretch is maximal and fits strictly between the
      ranges on either side of it. */
  lemma SpliceMaximal(rs: seq<Range>, lo: nat, hi: nat, m: seq<Range>)
    requires Maximal(rs) && Maximal(m) && lo <= hi <= |rs|
    requires 0 < lo && m != [] ==> rs[lo - 1].limit < m[0].base
    requires hi < |rs| && m != [] ==> m[|m| - 1].limit < rs[hi].base
    ensures Maximal(Splice(rs, lo, hi, m))
  {
    var r := Splice(rs, lo, hi, m);
    forall k | 0 <= k < |r| ensures r[k].base < r[k].limit {
      SpliceIndex(rs, lo, hi, m, k);
    }
    forall j, k | 0 <= j < k < |r| ensures r[j].limit < r[k].base {
      SpliceIndex(rs, lo, hi, m, j);
      SpliceIndex(rs, lo, hi, m, k);
      if j < lo && lo <= k < lo + |m| {
        MaximalEnds(m, k - lo);
        assert rs[j].limit <= rs[lo - 1].limit;
      } else if lo <= j < lo + |m| && lo + |m| <= k {
        MaximalEnds(m, j - lo);
        assert rs[hi].base <= rs[k - lo - |m| + hi].base;
      }
    }
  }

  /** The free addresses of a splice and of the original, piece by piece. */
  lemma SpliceFree(rs: seq<Range>, lo: nat, hi: nat, m: seq<Range>, a: int)
    requires lo <= hi <= |rs|
    ensures Free(Splice(rs, lo, hi, m), a) <==> Free(rs[..lo], a) || Free(m, a) || Free(rs[hi..], a)
    ensures Free(rs, a) <==> Free(rs[..lo], a) || Free(rs[lo..hi], a) || Free(rs[hi..], a)
  {
    FreeAppend(rs[..lo] + m, rs[hi..], a);
    FreeAppend(rs[..lo], m, a);
    assert rs == rs[..lo] + rs[lo..hi] + rs[hi..];
    FreeAppend(rs[..lo] + rs[lo..hi], rs[hi..], a);
    FreeAppend(rs[..lo], rs[lo..hi], a);
  }

  /** The members of a splice and of the original, piece by piece. */
  lemma SpliceMembers(rs: seq<Range>, lo: nat, hi: nat, m: seq<Range>)
    requires lo <= hi <= |rs|
    ensures forall x :: x in Splice(rs, lo, hi, m) <==> x in rs[..lo] || x in m || x in rs[hi..]
    ensures forall x :: x in rs <==> x in rs[..lo] || x in rs[lo..hi] || x in rs[hi..]
  {
    assert rs == rs[..lo] + rs[lo..hi] + rs[hi..];
  }

  /** A splice of aligned ranges is aligned. */
  lemma SpliceAligned(rs: seq<Range>, lo: nat, hi: nat, m: seq<Range>, alignment: nat)
    requires lo <= hi <= |rs| && AllAligned(rs, alignment) && AllAligned(m, alignment)
    ensures AllAligned(Splice(rs, lo, hi, m), alignment)
  {
    var r := Splice(rs, lo, hi, m);
    forall k | 0 <= k < |r|
      ensures IsAligned(r[k].base, alignment) && IsAligned(r[k].limit, alignment)
    {
      SpliceIndex(rs, lo, hi, m, k);
    }
  }

  // ---------------------------------------------------------------------------------------
  // Insert with coalescing

  /** [base, limit) fits in the gap before index i: everything before i ends at or below base
      and everything from i on begins at or above limit. */
  predicate Fits(rs: seq<Range>, i: nat, base: int, limit: int) {
    && i <= |rs|
    && (forall j :: 0 <= j < i ==> rs[j].limit <= base)
    && (forall j :: i <= j < |rs| ==> limit <= rs[j].base)
  }

  /** The left neighbour ends exactly at base. */
  predicate JoinsLeft(rs: seq<Range>, i: nat, base: int)
    requires i <= |rs|
  {
    0 < i && rs[i - 1].limit == base
  }

  /** The right neighbour begins exactly at limit. */
  predicate JoinsRight(rs: seq<Range>, i: nat, limit: int)
    requires i <= |rs|
  {
    i < |rs| && rs[i].base == limit
  }

  /** The range that [base, limit) becomes after merging with whichever neighbours abut it. */
  function Coalesce(rs: seq<Range>, i: nat, base: nat, limit: nat): Range
    requires i <= |rs|
  {
    Range(if JoinsLeft(rs, i, base) then rs[i - 1].base else base,
          if JoinsRight(rs, i, limit) then rs[i].limit else limit)
  }

  /** The stretch an insert replaces: the gap at i, widened by each neighbour that abuts. */
  function MergeLow(rs: seq<Range>, i: nat, base: nat): nat
    requires i <= |rs|
  {
    if JoinsLeft(rs, i, base) then i - 1 else i
  }

  function MergeHigh(rs: seq<Range>, i: nat, limit: nat): nat
    requires i <= |rs|
  {
    if JoinsRight(rs, i, limit) then i + 1 else i
  }

  /** Insert [base, limit) into the gap before index i, merging with abutting neighbours:
      a left merge extends the left range, a right merge extends the right range, a triple
      merge replaces both neighbours by one range, and otherwise a new range is added. */
  function InsertAt(rs: seq<Range>, i: nat, base: nat, limit: nat): seq<Range>
    requires i <= |rs|
  {
    Splice(rs, MergeLow(rs, i, base), MergeHigh(rs, i, limit), [Coalesce(rs, i, base, limit)])
  }

  /** The neighbour search at base either exposes an overlap with a tracked range or finds the
      gap that [base, limit) fits into. */
  lemma NeighbourInsert(rs: seq<Range>, base: nat, limit: nat)
    requires Maximal(rs) && base < limit
    ensures var i := Neighbour(rs, base);
      (i < |rs| && rs[i].base < limit) <==> Overlaps(rs, base, limit)
    ensures var i := Neighbour(rs, base);
      !(i < |rs| && rs[i].base < limit) ==> Fits(rs, i, base, limit)
  {
    var i := Neighbour(rs, base);
    if i < |rs| && rs[i].base < limit {
      var a := if base < rs[i].base then rs[i].base else base;
      assert Contains(rs[i], a);
      assert Free(rs, a);
    }
    if Overlaps(rs, base, limit) {
      var a :| base <= a < limit && Free(rs, a);
      var k :| 0 <= k < |rs| && Contains(rs[k], a);
      assert i <= k;
      assert rs[i].base <= rs[k].base;
    }
  }

  /** In a gap, the only range that can end at base is the left neighbour and the only one that
      can begin at limit is the right neighbour. */
  lemma JoinsIff(rs: seq<Range>, i: nat, base: nat, limit: nat)
    requires Maximal(rs) && base < limit && Fits(rs, i, base, limit)
    ensures Abuts(rs, base, limit) <==> JoinsLeft(rs, i, base) || JoinsRight(rs, i, limit)
  {
    if Abuts(rs, base, limit) {
      var k :| 0 <= k < |rs| && (rs[k].limit == base || rs[k].base == limit);
      if rs[k].limit == base {
        assert k < i;
      } else {
        assert i <= k;
      }
    }
  }

  /** Insert keeps the coalescing invariant. */
  lemma InsertAtMaximal(rs: seq<Range>, i: nat, base: nat, limit: nat)
    requires Maximal(rs) && base < limit && Fits(rs, i, base, limit)
    ensures Maximal(InsertAt(rs, i, base, limit))
  {
    var lo, hi := MergeLow(rs, i, base), MergeHigh(rs, i, limit);
    var c := Coalesce(rs, i, base, limit);
    assert 0 < lo ==> rs[lo - 1].limit < c.base by {
      if 0 < lo && !JoinsLeft(rs, i, base) { assert rs[i - 1].limit <= base; }
    }
    assert hi < |rs| ==> c.limit < rs[hi].base by {
      if hi < |rs| && !JoinsRight(rs, i, limit) { assert limit <= rs[i].base; }
    }
    SpliceMaximal(rs, lo, hi, [c]);
  }

  /** Insert adds exactly the addresses of [base, limit) to the free set. */
  lemma InsertAtFree(rs: seq<Range>, i: nat, base: nat, limit: nat, a: int)
    requires Maximal(rs) && base < limit && Fits(rs, i, base, limit)
    ensures Free(InsertAt(rs, i, base, limit), a) <==> Free(rs, a) || base <= a < limit
  {
    var lm, rm := JoinsLeft(rs, i, base), JoinsRight(rs, i, limit);
    var lo, hi := MergeLow(rs, i, base), MergeHigh(rs, i, limit);
    var c := Coalesce(rs, i, base, limit);
    var mid := rs[lo..hi];
    SpliceFree(rs, lo, hi, [c], a);
    FreeSingleton(c, a);
    assert Contains(c, a) <==> Free(mid, a) || base <= a < limit by {
      if lm && rm {
        assert mid == [rs[i - 1]] + [rs[i]];
        FreeAppend([rs[i - 1]], [rs[i]], a);
        FreeSingleton(rs[i - 1], a);
        FreeSingleton(rs[i], a);
      } else if lm {
        assert lo == i - 1 && hi == i;
        assert mid == [rs[i - 1]];
        FreeSingleton(rs[i - 1], a);
      } else if rm {
        assert lo == i && hi == i + 1;
        assert mid == [rs[i]];
        FreeSingleton(rs[i], a);
      } else {
        assert mid == [];
      }
    }
  }

  /** Insert changes no range except the ones it merges, and adds only the merged range. */
  lemma InsertAtMembers(rs: seq<Range>, i: nat, base: nat, limit: nat)
    requires Maximal(rs) && base < limit && Fits(rs, i, base, limit)
    ensures var r, c := InsertAt(rs, i, base, limit), Coalesce(rs, i, base, limit);
      && c in r && c.base <= base && limit <= c.limit
      && (forall x :: x in r && x != c ==> x in rs)
      && (forall x :: x in rs && x.limit != base && x.base != limit ==> x in r)
      && |r| == |rs| + 1 - (if JoinsLeft(rs, i, base) then 1 else 0)
                        - (if JoinsRight(rs, i, limit) then 1 else 0)
  {
    var lm, rm := JoinsLeft(rs, i, base), JoinsRight(rs, i, limit);
    var lo, hi := MergeLow(rs, i, base), MergeHigh(rs, i, limit);
    var c := Coalesce(rs, i, base, limit);
    SpliceMembers(rs, lo, hi, [c]);
    assert rs[lo..hi] == (if lm then [rs[i - 1]] else []) + (if rm then [rs[i]] else []);
  }

  /** Insert of an aligned range keeps every bound aligned. */
  lemma InsertAtAligned(rs: seq<Range>, i: nat, base: nat, limit: nat, alignment: nat)
    requires i <= |rs| && AllAligned(rs, alignment)
    requires IsAligned(base, alignment) && IsAligned(limit, alignment)
    ensures AllAligned(InsertAt(rs, i, base, limit), alignment)
  {
    var c := Coalesce(rs, i, base, limit);
    assert AllAligned([c], alignment);
    SpliceAligned(rs, MergeLow(rs, i, base), MergeHigh(rs, i, limit), [c], alignment);
  }

  /** Everything an insert into the gap at i does, in one statement. */
  lemma InsertAtCorrect(rs: seq<Range>, i: nat, base: nat, limit: nat, alignment: nat)
    requires Maximal(rs) && base < limit && Fits(rs, i, base, limit) && AllAligned(rs, alignment)
    requires IsAligned(base, alignment) && IsAligned(limit, alignment)
    ensures var r, c := InsertAt(rs, i, base, limit), Coalesce(rs, i, base, limit);
      && Maximal(r) && AllAligned(r, alignment)
      && (forall a :: Free(r, a) <==> Free(rs, a) || base <= a < limit)
      && c in r && c.base <= base && limit <= c.limit
      && (forall x :: x in r && x != c ==> x in rs)
      && (forall x :: x in rs && x.limit != base && x.base != limit ==> x in r)
      && |r| == |rs| + 1 - (if JoinsLeft(rs, i, base) then 1 else 0)
                        - (if JoinsRight(rs, i, limit) then 1 else 0)
  {
    InsertAtMaximal(rs, i, base, limit);
    InsertAtAligned(rs, i, base, limit, alignment);
    InsertAtMembers(rs, i, base, limit);
    forall a ensures Free(InsertAt(rs, i, base, limit), a) <==> Free(rs, a) || base <= a < limit {
      InsertAtFree(rs, i, base, limit, a);
    }
  }

  // ---------------------------------------------------------------------------------------
  // Delete with splitting

  /** What is left of o once [base, limit) is deleted from it: the low remainder
      [o.base, base) and the high remainder [limit, o.limit), each when non-empty. */
  function Remainders(o: Range, base: nat, limit: nat): seq<Range> {
    (if o.base < base then [Range(o.base, base)] else [])
    + (if limit < o.limit then [Range(limit, o.limit)] else [])
  }

  /** Delete [base, limit) from the range at index i, which contains it, leaving its
      remainders in its place. */
  function DeleteAt(rs: seq<Range>, i: nat, base: nat, limit: nat): seq<Range>
    requires i < |rs|
  {
    Splice(rs, i, i + 1, Remainders(rs[i], base, limit))
  }

  /** The search keyed by base finds the one range that can contain [base, limit). */
  lemma NeighbourDelete(rs: seq<Range>, base: nat, limit: nat)
    requires Maximal(rs) && base < limit
    ensures var i := Neighbour(rs, base);
      (i < |rs| && rs[i].base <= base && limit <= rs[i].limit) <==> Within(rs, base, limit)
    ensures var i := Neighbour(rs, base);
      i < |rs| && rs[i].base <= base && limit <= rs[i].limit ==>
        (Interior(rs, base, limit) <==> rs[i].base < base && limit < rs[i].limit)
  {
    if Within(rs, base, limit) {
      var k :| 0 <= k < |rs| && rs[k].base <= base && limit <= rs[k].limit;
      NeighbourContaining(rs, base, k);
    }
    if Interior(rs, base, limit) {
      var k :| 0 <= k < |rs| && rs[k].base < base && limit < rs[k].limit;
      NeighbourContaining(rs, base, k);
    }
  }

  /** The range containing x is the one the neighbour search keyed by x finds. */
  lemma NeighbourContaining(rs: seq<Range>, x: int, k: nat)
    requires Maximal(rs) && k < |rs| && Contains(rs[k], x)
    ensures Neighbour(rs, x) == k
  {
  }

  /** Delete keeps the coalescing invariant. */
  lemma DeleteAtMaximal(rs: seq<Range>, i: nat, base: nat, limit: nat)
    requires Maximal(rs) && base < limit && i < |rs|
    requires rs[i].base <= base && limit <= rs[i].limit
    ensures Maximal(DeleteAt(rs, i, base, limit))
  {
    var m := Remainders(rs[i], base, limit);
    assert Maximal(m);
    assert m != [] ==> rs[i].base <= m[0].base && m[|m| - 1].limit <= rs[i].limit;
    SpliceMaximal(rs, i, i + 1, m);
  }

  /** Delete removes exactly the addresses of [base, limit) from the free set. */
  lemma DeleteAtFree(rs: seq<Range>, i: nat, base: nat, limit: nat, a: int)
    requires Maximal(rs) && base < limit && i < |rs|
    requires rs[i].base <= base && limit <= rs[i].limit
    ensures Free(DeleteAt(rs, i, base, limit), a) <==> Free(rs, a) && !(base <= a < limit)
  {
    var o := rs[i];
    var m := Remainders(o, base, limit);
    SpliceFree(rs, i, i + 1, m, a);
    assert rs[i..i + 1] == [o];
    FreeSingleton(o, a);
    assert Free(m, a) <==> Contains(o, a) && !(base <= a < limit) by {
      var left := if o.base < base then [Range(o.base, base)] else [];
      var right := if limit < o.limit then [Range(limit, o.limit)] else [];
      FreeAppend(left, right, a);
      if left != [] { FreeSingleton(left[0], a); }
      if right != [] { FreeSingleton(right[0], a); }
    }
    if Free(rs[..i], a) {
      var k :| 0 <= k < |rs[..i]| && Contains(rs[..i][k], a);
      assert rs[..i][k] == rs[k];
    }
    if Free(rs[i + 1..], a) {
      var k :| 0 <= k < |rs[i + 1..]| && Contains(rs[i + 1..][k], a);
      assert rs[i + 1..][k] == rs[i + 1 + k];
    }
  }

  /** Delete keeps every other range, and adds only the low and high remainders. */
  lemma DeleteAtMembers(rs: seq<Range>, i: nat, base: nat, limit: nat)
    requires i < |rs|
    ensures var r := DeleteAt(rs, i, base, limit);
      && (forall x :: x in rs && x != rs[i] ==> x in r)
      && (forall x :: x in r && x !in rs ==> x == Range(rs[i].base, base) || x == Range(limit, rs[i].limit))
      && |r| == |rs| - 1 + (if rs[i].base < base then 1 else 0) + (if limit < rs[i].limit then 1 else 0)
  {
    SpliceMembers(rs, i, i + 1, Remainders(rs[i], base, limit));
    assert rs[i..i + 1] == [rs[i]];
  }

  /** Delete of an aligned range keeps every bound aligned. */
  lemma DeleteAtAligned(rs: seq<Range>, i: nat, base: nat, limit: nat, alignment: nat)
    requires i < |rs| && AllAligned(rs, alignment)
    requires IsAligned(base, alignment) && IsAligned(limit, alignment)
    ensures AllAligned(DeleteAt(rs, i, base, limit), alignment)
  {
    var m := Remainders(rs[i], base, limit);
    assert AllAligned(m, alignment);
    SpliceAligned(rs, i, i + 1, m, alignment);
  }

  /** Everything a delete from the range at i does, in one statement. */
  lemma DeleteAtCorrect(rs: seq<Range>, i: nat, base: nat, limit: nat, alignment: nat)
    requires Maximal(rs) && base < limit && i < |rs| && AllAligned(rs, alignment)
    requires rs[i].base <= base && limit <= rs[i].limit
    requires IsAligned(base, alignment) && IsAligned(limit, alignment)
    ensures var r := DeleteAt(rs, i, base, limit);
      && Maximal(r) && AllAligned(r, alignment)
      && (forall a :: Free(r, a) <==> Free(rs, a) && !(base <= a < limit))
      && (forall x :: x in rs && x != rs[i] ==> x in r)
      && (forall x :: x in r && x !in rs ==> x == Range(rs[i].base, base) || x == Range(limit, rs[i].limit))
      && |r| == |rs| - 1 + (if rs[i].base < base then 1 else 0) + (if limit < rs[i].limit then 1 else 0)
  {
    DeleteAtMaximal(rs, i, base, limit);
    DeleteAtAligned(rs, i, base, limit, alignment);
    DeleteAtMembers(rs, i, base, limit);
    forall a ensures Free(DeleteAt(rs, i, base, limit), a) <==> Free(rs, a) && !(base <= a < limit) {
      DeleteAtFree(rs, i, base, limit, a);
    }
  }

  // ---------------------------------------------------------------------------------------
  // Insert and delete undo each other

  /** Inserting a range that overlaps nothing and then deleting it restores the tracked ranges,
      whatever coalescing the insert did. */
  lemma InsertDeleteRoundTrip(rs: seq<Range>, mid: seq<Range>, out: seq<Range>, base: int, limit: int)
    requires Maximal(rs) && Maximal(mid) && Maximal(out)
    requires !Overlaps(rs, base, limit)
    requires forall a :: Free(mid, a) <==> Free(rs, a) || base <= a < limit
    requires forall a :: Free(out, a) <==> Free(mid, a) && !(base <= a < limit)
    ensures out == rs
  {
    Canonical(out, rs);
  }

  /** Deleting a wholly free range and inserting it again restores the tracked ranges. */
  lemma DeleteInsertRoundTrip(rs: seq<Range>, mid: seq<Range>, out: seq<Range>, base: int, limit: int)
    requires Maximal(rs) && Maximal(mid) && Maximal(out)
    requires forall a :: base <= a < limit ==> Free(rs, a)
    requires forall a :: Free(mid, a) <==> Free(rs, a) && !(base <= a < limit)
    requires forall a :: Free(out, a) <==> Free(mid, a) || base <= a < limit
    ensures out == rs
  {
    Canonical(out, rs);
  }
}
