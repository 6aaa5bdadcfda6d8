/**
 The address allocator: a left fold over the objects' virtual sizes that gives
 each object a base address in one of two regions of the emulated address
 space. Low memory runs from where the DOS extender loads programs up to the
 start of video memory; high memory starts after the high memory area and is
 unbounded. Placement is greedy and in input order: an object goes low when
 its unrounded size still fits below video memory, otherwise high, and only
 the chosen cursor advances, by the size rounded up to a whole page.

 Addresses are unbounded integers here. `NoU32Overflow` names the inputs on
 which the 32-bit arithmetic of the converter never overflows;
 `AllocationFitsU32` bounds every intermediate value there, and
 `Allocate32Agrees` shows the fold with 32-bit wrap-around, `Allocate32`,
 computes exactly what the unbounded fold computes.
 */
module Allocator {
  import opened Bytes

  const PageSize: nat := 0x1000
  const PageMask: nat := PageSize - 1
  const FirstLowAddress: nat := 0xE000
  const LastLowAddress: nat := 0xA0000
  const FirstHighAddress: nat := 0x11_0000

  /** The largest size whose `size + PageMask` still fits in 32 bits. */
  const MaxRoundableSize: nat := 0xFFFF_F000

  predicate PageAligned(a: int) {
    a % PageSize == 0
  }

  /**
   Rounding up to a page boundary. Clearing the low twelve bits of
   `v + PageMask`, as the converter does with `& !PageMask`, subtracts its
   remainder modulo the page size.
   */
  function PageRoundUp(v: nat): (r: nat)
    ensures PageAligned(r)
    ensures v <= r < v + PageSize
  {
    (v + PageMask) - (v + PageMask) % PageSize
  }

  /** `PageRoundUp(v)` is the least page-aligned value that is at least `v`. */
  lemma PageRoundUpIsLeast(v: nat, m: int)
    requires PageAligned(m) && v <= m
    ensures PageRoundUp(v) <= m
  {
  }

  /** Rounding an aligned address plus a size is the same as adding the rounded size. */
  lemma PageRoundUpShift(a: nat, v: nat)
    requires PageAligned(a)
    ensures PageRoundUp(a + v) == a + PageRoundUp(v)
  {
    var k := a / PageSize;
    assert a == k * PageSize;
    assert (a + v + PageMask) % PageSize == (v + PageMask) % PageSize;
  }

  /** The fold's accumulator: both cursors and the highest address used so far. */
  datatype AllocState = AllocState(nextLow: nat, nextHigh: nat, endAddress: nat)

  const Initial: AllocState := AllocState(FirstLowAddress, FirstHighAddress, FirstLowAddress)

  /** The invariant every state reached from `Initial` keeps. */
  predicate Valid(s: AllocState) {
    && PageAligned(s.nextLow) && FirstLowAddress <= s.nextLow <= LastLowAddress
    && PageAligned(s.nextHigh) && FirstHighAddress <= s.nextHigh
    && FirstLowAddress <= s.endAddress
  }

  /** The placement rule: the unrounded size fits in what remains of low memory. */
  predicate FitsLow(s: AllocState, v: nat) {
    v <= LastLowAddress - s.nextLow
  }

  /** A base address lies in the low region exactly when it is below high memory. */
  predicate IsLowBase(b: int) {
    b < FirstHighAddress
  }

  /** The result of placing one object: the new state and the object's base. */
  datatype Placement = Placement(state: AllocState, base: nat)

  /** Places one object of virtual size `v`. */
  function Step(s: AllocState, v: nat): (p: Placement)
    ensures p.state.endAddress >= s.endAddress && p.state.endAddress >= p.base + v
    ensures p.state.endAddress == s.endAddress || p.state.endAddress == p.base + v
  {
    if FitsLow(s, v) then
      Placement(AllocState(s.nextLow + PageRoundUp(v), s.nextHigh, Max(s.endAddress, s.nextLow + v)), s.nextLow)
    else
      Placement(AllocState(s.nextLow, s.nextHigh + PageRoundUp(v), Max(s.endAddress, s.nextHigh + v)), s.nextHigh)
  }

  /**
   One step from a valid state: the state stays valid, the base is aligned and
   in the region the placement rule picks, the chosen cursor moves by exactly
   the rounded size, and the other cursor does not move.
   */
  lemma StepFacts(s: AllocState, v: nat)
    requires Valid(s)
    ensures var p := Step(s, v);
      && Valid(p.state)
      && PageAligned(p.base)
      && (IsLowBase(p.base) <==> FitsLow(s, v))
      && (IsLowBase(p.base) ==> && p.base == s.nextLow
                                && FirstLowAddress <= p.base && p.base + v <= LastLowAddress
                                && p.state.nextLow == s.nextLow + PageRoundUp(v)
                                && p.state.nextHigh == s.nextHigh)
      && (!IsLowBase(p.base) ==> && p.base == s.nextHigh
                                 && FirstHighAddress <= p.base
                                 && p.state.nextHigh == s.nextHigh + PageRoundUp(v)
                                 && p.state.nextLow == s.nextLow)
  {
    if FitsLow(s, v) {
      PageRoundUpShift(s.nextLow, v);
      PageRoundUpIsLeast(s.nextLow + v, LastLowAddress);
    }
  }

  /** The outcome of the whole fold: the final state and one base per object, in order. */
  datatype Allocation = Allocation(state: AllocState, bases: seq<nat>)

  /** Folds `Step` over `sizes`, left to right, starting from `s`. */
  function AllocateFrom(s: AllocState, sizes: seq<nat>): (a: Allocation)
    ensures |a.bases| == |sizes|
    decreases |sizes|
  {
    if |sizes| == 0 then Allocation(s, [])
    else
      var prev := AllocateFrom(s, sizes[..|sizes| - 1]);
      var p := Step(prev.state, sizes[|sizes| - 1]);
      Allocation(p.state, prev.bases + [p.base])
  }

  /** The converter's allocation of a list of virtual sizes. */
  function Allocate(sizes: seq<nat>): Allocation {
    AllocateFrom(Initial, sizes)
  }

  /** The state the fold is in just before placing object `i`. */
  function StateBefore(sizes: seq<nat>, i: nat): AllocState
    requires i <= |sizes|
  {
    Allocate(sizes[..i]).state
  }

  /** Allocating a prefix gives a prefix of the bases: earlier bases never depend on later sizes. */
  lemma {:induction false} AllocatePrefix(sizes: seq<nat>, i: nat)
    requires i <= |sizes|
    ensures Allocate(sizes).bases[..i] == Allocate(sizes[..i]).bases
    decreases |sizes|
  {
    if i < |sizes| {
      var n := |sizes| - 1;
      assert sizes[..n][..i] == sizes[..i];
      AllocatePrefix(sizes[..n], i);
      assert Allocate(sizes).bases[..i] == Allocate(sizes[..n]).bases[..i];
    } else {
      assert sizes[..i] == sizes;
    }
  }

  /** Object `i`'s base is what `Step` gives it from the state its predecessors left. */
  lemma BaseIsStep(sizes: seq<nat>, i: nat)
    requires i < |sizes|
    ensures Allocate(sizes).bases[i] == Step(StateBefore(sizes, i), sizes[i]).base
    ensures StateBefore(sizes, i + 1) == Step(StateBefore(sizes, i), sizes[i]).state
  {
    assert sizes[..i + 1][..i] == sizes[..i];
    AllocatePrefix(sizes, i + 1);
    assert Allocate(sizes).bases[i] == Allocate(sizes[..i + 1]).bases[i];
  }

  /** Every state the fold reaches is valid. */
  lemma {:induction false} AllocateValid(sizes: seq<nat>)
    ensures Valid(Allocate(sizes).state)
    decreases |sizes|
  {
    if |sizes| > 0 {
      AllocateValid(sizes[..|sizes| - 1]);
      StepFacts(Allocate(sizes[..|sizes| - 1]).state, sizes[|sizes| - 1]);
    }
  }

  /**
   The per-object placement rule. Object `i` goes low exactly when its
   unrounded size fits below video memory at its turn; it then sits at the low
   cursor and ends at or below video memory, otherwise it sits at the high
   cursor, at or above the start of high memory. Every base is page aligned;
   only the chosen cursor advances, by exactly the rounded size.
   */
  lemma PlacementRule(sizes: seq<nat>, i: nat)
    requires i < |sizes|
    ensures var s, b, v, t := StateBefore(sizes, i), Allocate(sizes).bases[i], sizes[i], StateBefore(sizes, i + 1);
      && PageAligned(b)
      && (IsLowBase(b) <==> v <= LastLowAddress - s.nextLow)
      && (IsLowBase(b) ==> && b == s.nextLow && FirstLowAddress <= b && b + v <= LastLowAddress
                           && t.nextLow == s.nextLow + PageRoundUp(v) && t.nextHigh == s.nextHigh)
      && (!IsLowBase(b) ==> && b == s.nextHigh && FirstHighAddress <= b
                            && t.nextHigh == s.nextHigh + PageRoundUp(v) && t.nextLow == s.nextLow)
  {
    BaseIsStep(sizes, i);
    AllocateValid(sizes[..i]);
    StepFacts(StateBefore(sizes, i), sizes[i]);
  }

  /** Every base is page aligned and lies in the region it was placed in. */
  lemma BasesInRegions(sizes: seq<nat>)
    ensures forall i :: 0 <= i < |sizes| ==>
      var b := Allocate(sizes).bases[i];
      && PageAligned(b)
      && (IsLowBase(b) ==> FirstLowAddress <= b && b + sizes[i] <= LastLowAddress)
      && (!IsLowBase(b) ==> FirstHighAddress <= b)
  {
    forall i | 0 <= i < |sizes|
      ensures var b := Allocate(sizes).bases[i];
        && PageAligned(b)
        && (IsLowBase(b) ==> FirstLowAddress <= b && b + sizes[i] <= LastLowAddress)
        && (!IsLowBase(b) ==> FirstHighAddress <= b)
    {
      PlacementRule(sizes, i);
    }
  }

  /** Each placed object's rounded range ends at or before the cursor of its region. */
  lemma {:induction false} RangesBelowCursors(sizes: seq<nat>)
    ensures var a := Allocate(sizes);
      forall i :: 0 <= i < |sizes| ==>
        (IsLowBase(a.bases[i]) ==> a.bases[i] + PageRoundUp(sizes[i]) <= a.state.nextLow)
        && (!IsLowBase(a.bases[i]) ==> a.bases[i] + PageRoundUp(sizes[i]) <= a.state.nextHigh)
    decreases |sizes|
  {
    if |sizes| > 0 {
      var n := |sizes| - 1;
      var prev := Allocate(sizes[..n]);
      RangesBelowCursors(sizes[..n]);
      AllocateValid(sizes[..n]);
      StepFacts(prev.state, sizes[n]);
      var a := Allocate(sizes);
      assert a.bases == prev.bases + [Step(prev.state, sizes[n]).base];
      forall i | 0 <= i < n
        ensures (IsLowBase(a.bases[i]) ==> a.bases[i] + PageRoundUp(sizes[i]) <= a.state.nextLow)
          && (!IsLowBase(a.bases[i]) ==> a.bases[i] + PageRoundUp(sizes[i]) <= a.state.nextHigh)
      {
        assert a.bases[i] == prev.bases[i];
        assert sizes[..n][i] == sizes[i];
      }
    }
  }

  /**
   Objects in the same region do not overlap: the rounded range of an earlier
   object ends at or before the base of a later one, so bases within a region
   never decrease and strictly increase past every object of non-zero size.
   */
  lemma SameRegionDisjoint(sizes: seq<nat>, i: nat, j: nat)
    requires i < j < |sizes|
    requires IsLowBase(Allocate(sizes).bases[i]) == IsLowBase(Allocate(sizes).bases[j])
    ensures Allocate(sizes).bases[i] + PageRoundUp(sizes[i]) <= Allocate(sizes).bases[j]
    ensures sizes[i] > 0 ==> Allocate(sizes).bases[i] < Allocate(sizes).bases[j]
  {
    var pre := sizes[..j];
    RangesBelowCursors(pre);
    AllocatePrefix(sizes, j);
    assert Allocate(sizes).bases[i] == Allocate(pre).bases[i];
    assert pre[i] == sizes[i];
    PlacementRule(sizes, j);
  }

  /** Low and high objects never overlap either: low memory ends below high memory. */
  lemma RegionsDisjoint(sizes: seq<nat>, i: nat, j: nat)
    requires i < |sizes| && j < |sizes|
    requires IsLowBase(Allocate(sizes).bases[i]) && !IsLowBase(Allocate(sizes).bases[j])
    ensures Allocate(sizes).bases[i] + PageRoundUp(sizes[i]) <= Allocate(sizes).bases[j]
  {
    PlacementRule(sizes, i);
    PlacementRule(sizes, j);
    var b := Allocate(sizes).bases[i];
    PageRoundUpShift(b, sizes[i]);
    PageRoundUpIsLeast(b + sizes[i], LastLowAddress);
  }

  /**
   The end address is the maximum of the first low address and every object's
   unrounded end `base + size`.
   */
  lemma {:induction false} EndAddressIsMax(sizes: seq<nat>)
    ensures var a := Allocate(sizes);
      && FirstLowAddress <= a.state.endAddress
      && (forall i :: 0 <= i < |sizes| ==> a.bases[i] + sizes[i] <= a.state.endAddress)
      && (a.state.endAddress == FirstLowAddress
          || exists i :: 0 <= i < |sizes| && a.state.endAddress == a.bases[i] + sizes[i])
    decreases |sizes|
  {
    var a := Allocate(sizes);
    if |sizes| > 0 {
      var n := |sizes| - 1;
      var prev := Allocate(sizes[..n]);
      EndAddressIsMax(sizes[..n]);
      var p := Step(prev.state, sizes[n]);
      assert a.bases == prev.bases + [p.base];
      forall i | 0 <= i < |sizes|
        ensures a.bases[i] + sizes[i] <= a.state.endAddress
      {
        if i < n {
          assert a.bases[i] == prev.bases[i] && sizes[..n][i] == sizes[i];
        }
      }
      if a.state.endAddress != FirstLowAddress {
        if a.state.endAddress == p.base + sizes[n] {
          assert a.bases[n] + sizes[n] == a.state.endAddress;
        } else {
          var i :| 0 <= i < n && prev.state.endAddress == prev.bases[i] + sizes[..n][i];
          assert a.bases[i] + sizes[i] == a.state.endAddress;
        }
      }
    }
  }

  /** The cursors never move backwards. */
  lemma {:induction false} CursorsMonotone(sizes: seq<nat>, i: nat)
    requires i <= |sizes|
    ensures StateBefore(sizes, i).nextLow <= Allocate(sizes).state.nextLow
    ensures StateBefore(sizes, i).nextHigh <= Allocate(sizes).state.nextHigh
    decreases |sizes|
  {
    if i < |sizes| {
      var n := |sizes| - 1;
      assert sizes[..n][..i] == sizes[..i];
      CursorsMonotone(sizes[..n], i);
    } else {
      assert sizes[..i] == sizes;
    }
  }

  /**
   The inputs on which the converter's 32-bit arithmetic does not overflow:
   every `size + PageMask` fits, and so does the final high cursor (all other
   intermediate values are bounded by it or by the end of low memory).
   */
  predicate NoU32Overflow(sizes: seq<nat>) {
    && (forall i :: 0 <= i < |sizes| ==> sizes[i] <= MaxRoundableSize)
    && Allocate(sizes).state.nextHigh < 0x1_0000_0000
  }

  /**
   Without overflow every intermediate value of the fold stays below 2^32;
   `Allocate32Agrees` turns this into equality with the 32-bit fold.
   */
  lemma AllocationFitsU32(sizes: seq<nat>, i: nat)
    requires NoU32Overflow(sizes)
    requires i < |sizes|
    ensures var s, t := StateBefore(sizes, i), StateBefore(sizes, i + 1);
      && sizes[i] + PageMask < 0x1_0000_0000
      && s.nextLow < 0x1_0000_0000 && s.nextHigh < 0x1_0000_0000
      && t.nextLow < 0x1_0000_0000 && t.nextHigh < 0x1_0000_0000
      && Allocate(sizes).bases[i] + sizes[i] < 0x1_0000_0000
      && t.endAddress < 0x1_0000_0000
  {
    CursorsMonotone(sizes, i);
    CursorsMonotone(sizes, i + 1);
    PlacementRule(sizes, i);
    AllocateValid(sizes[..i + 1]);
    EndBelowCursors(sizes[..i + 1]);
  }

  /**
   One step with the converter's 32-bit arithmetic: the room left in low
   memory, the rounding sum, both cursor advances and the object's end are all
   taken modulo 2^32, and the rounding clears the low twelve bits of the
   wrapped sum.
   */
  function Step32(s: AllocState, v: u32): Placement {
    var sum := WrapU32(v + PageMask);
    var rounded := sum - sum % PageSize;
    if v <= WrapU32(LastLowAddress - s.nextLow) then
      Placement(AllocState(WrapU32(s.nextLow + rounded), s.nextHigh, Max(s.endAddress, WrapU32(s.nextLow + v))), s.nextLow)
    else
      Placement(AllocState(s.nextLow, WrapU32(s.nextHigh + rounded), Max(s.endAddress, WrapU32(s.nextHigh + v))), s.nextHigh)
  }

  /** The fold of `Step32`, as the converter computes it on 32-bit sizes. */
  function Allocate32From(s: AllocState, sizes: seq<u32>): (a: Allocation)
    ensures |a.bases| == |sizes|
    decreases |sizes|
  {
    if |sizes| == 0 then Allocation(s, [])
    else
      var prev := Allocate32From(s, sizes[..|sizes| - 1]);
      var p := Step32(prev.state, sizes[|sizes| - 1]);
      Allocation(p.state, prev.bases + [p.base])
  }

  function Allocate32(sizes: seq<u32>): Allocation {
    Allocate32From(Initial, sizes)
  }

  /** A step whose values all stay below 2^32 computes the same in both arithmetics. */
  lemma Step32Agrees(s: AllocState, v: u32)
    requires s.nextLow <= LastLowAddress
    requires v + PageMask < TwoTo32
    requires Step(s, v).state.nextLow < TwoTo32 && Step(s, v).state.nextHigh < TwoTo32
    requires Step(s, v).base + v < TwoTo32
    ensures Step32(s, v) == Step(s, v)
  {
    WrapU32Exact(v + PageMask);
    WrapU32Exact(LastLowAddress - s.nextLow);
    if FitsLow(s, v) {
      WrapU32Exact(s.nextLow + v);
      WrapU32Exact(s.nextLow + PageRoundUp(v));
      LowStep32(s, v);
    } else {
      WrapU32Exact(s.nextHigh + v);
      WrapU32Exact(s.nextHigh + PageRoundUp(v));
      HighStep32(s, v);
    }
  }

  /** The low-memory branch of `Step32Agrees`. */
  lemma LowStep32(s: AllocState, v: u32)
    requires WrapU32(v + PageMask) == v + PageMask
    requires v <= WrapU32(LastLowAddress - s.nextLow) && FitsLow(s, v)
    requires WrapU32(s.nextLow + v) == s.nextLow + v
    requires WrapU32(s.nextLow + PageRoundUp(v)) == s.nextLow + PageRoundUp(v)
    ensures Step32(s, v) == Step(s, v)
  {
  }

  /** The high-memory branch of `Step32Agrees`. */
  lemma HighStep32(s: AllocState, v: u32)
    requires WrapU32(v + PageMask) == v + PageMask
    requires !(v <= WrapU32(LastLowAddress - s.nextLow)) && !FitsLow(s, v)
    requires WrapU32(s.nextHigh + v) == s.nextHigh + v
    requires WrapU32(s.nextHigh + PageRoundUp(v)) == s.nextHigh + PageRoundUp(v)
    ensures Step32(s, v) == Step(s, v)
  {
  }

  lemma WrapU32Exact(x: int)
    requires 0 <= x < TwoTo32
    ensures WrapU32(x) == x
  {
  }

  /** On every prefix of an input without overflow, the two folds agree. */
  lemma {:induction false} Allocate32PrefixAgrees(sizes: seq<u32>, i: nat)
    requires NoU32Overflow(sizes) && i <= |sizes|
    ensures Allocate32(sizes[..i]) == Allocate(sizes[..i])
    decreases i
  {
    if i > 0 {
      Allocate32PrefixAgrees(sizes, i - 1);
      assert sizes[..i][..i - 1] == sizes[..i - 1];
      AllocationFitsU32(sizes, i - 1);
      BaseIsStep(sizes, i - 1);
      AllocateValid(sizes[..i - 1]);
      Step32Agrees(StateBefore(sizes, i - 1), sizes[i - 1]);
    }
  }

  /**
   Where the converter's 32-bit arithmetic does not overflow, its fold and
   the unbounded fold give the same bases and the same final state.
   */
  lemma Allocate32Agrees(sizes: seq<u32>)
    requires NoU32Overflow(sizes)
    ensures Allocate32(sizes) == Allocate(sizes)
  {
    Allocate32PrefixAgrees(sizes, |sizes|);
    assert sizes[..|sizes|] == sizes;
  }

  /** The end address never exceeds the larger of the two cursors. */
  lemma {:induction false} EndBelowCursors(sizes: seq<nat>)
    ensures Allocate(sizes).state.endAddress <= Max(Allocate(sizes).state.nextLow, Allocate(sizes).state.nextHigh)
    decreases |sizes|
  {
    if |sizes| > 0 {
      var n := |sizes| - 1;
      EndBelowCursors(sizes[..n]);
      AllocateValid(sizes[..n]);
      StepFacts(Allocate(sizes[..n]).state, sizes[n]);
    }
  }

  /**
   The allocation loop as the converter runs it, one object at a time,
   shown to agree with the fold.
   */
  method AllocateBases(sizes: seq<nat>) returns (bases: seq<nat>, endAddress: nat)
    ensures bases == Allocate(sizes).bases
    ensures endAddress == Allocate(sizes).state.endAddress
  {
    var nextLow, nextHigh := FirstLowAddress, FirstHighAddress;
    endAddress := FirstLowAddress;
    bases := [];
    var i := 0;
    while i < |sizes|
      invariant 0 <= i <= |sizes|
      invariant Allocate(sizes[..i]) == Allocation(AllocState(nextLow, nextHigh, endAddress), bases)
    {
      assert sizes[..i + 1][..i] == sizes[..i];
      var v := sizes[i];
      var rounded := PageRoundUp(v);
      var base;
      if v <= LastLowAddress - nextLow {
        base := nextLow;
        nextLow := nextLow + rounded;
      } else {
        base := nextHigh;
        nextHigh := nextHigh + rounded;
      }
      if base + v > endAddress {
        endAddress := base + v;
      }
      bases := bases + [base];
      i := i + 1;
    }
    assert sizes[..i] == sizes;
  }
}
