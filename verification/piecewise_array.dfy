/**
 The fixed-capacity piecewise function of the header variant
 (ucs_piecewise_func_t of piecewise_func.h): 128 slots, each holding a linear
 function, an inclusive end and the index of the next slot. The function's
 segments are the chain that starts at slot 0 and follows next indices until
 one is 0; the unused slots form a free list that starts at freeIdx (0 when
 the list is empty). Segs reads the chain as a segment list of module
 PiecewiseFunc, and every operation is stated through it.
 */
module PiecewiseArray {
  import opened Basics
  import opened Linear
  import PF = PiecewiseFunc

  /** UCX_PIECEWISE_FUNC_MAX_SEGMENTS */
  const MaxSegments: nat := 128

  datatype Slot = Slot(func: LinearFunc, end: nat, next: nat)

  datatype ArrayFunc = ArrayFunc(slots: seq<Slot>, freeIdx: nat)

  predicate Distinct(L: seq<nat>)
  {
    forall x, y :: 0 <= x < y < |L| ==> L[x] != L[y]
  }

  /** L is a chain of slot indices: each slot links to the next one, the last links to 0. */
  ghost predicate Linked(a: ArrayFunc, L: seq<nat>)
  {
    && |L| > 0
    && (forall k :: 0 <= k < |L| ==> L[k] < |a.slots|)
    && (forall j :: 0 < j < |L| ==> L[j] != 0)
    && (forall k, j :: 0 <= k && j == k + 1 && j < |L| ==> a.slots[L[k]].next == L[j])
    && a.slots[L[|L| - 1]].next == 0
  }

  lemma LinkedCons(a: ArrayFunc, i: nat, t: seq<nat>)
    requires i < |a.slots| && Linked(a, t) && a.slots[i].next == t[0] != 0
    ensures Linked(a, [i] + t)
  {
    var L := [i] + t;
    forall k, j | 0 <= k && j == k + 1 && j < |L| ensures a.slots[L[k]].next == L[j] {
      if k > 0 {
        assert L[k] == t[k - 1] && L[j] == t[k];
      }
    }
  }

  /** The slots met by following next indices from slot i, at most `fuel` of them. */
  function Walk(a: ArrayFunc, i: nat, fuel: nat): (r: Option<seq<nat>>)
    ensures r.Some? ==> Linked(a, r.value) && r.value[0] == i && |r.value| <= fuel
    decreases fuel
  {
    if fuel == 0 || i >= |a.slots| then None
    else if a.slots[i].next == 0 then Some([i])
    else
      match Walk(a, a.slots[i].next, fuel - 1)
      case None => None
      case Some(t) => LinkedCons(a, i, t); Some([i] + t)
  }

  /** A linked chain is exactly what the walk from its head finds. */
  lemma {:induction false} WalkLinked(a: ArrayFunc, L: seq<nat>, fuel: nat)
    requires Linked(a, L) && |L| <= fuel
    ensures Walk(a, L[0], fuel) == Some(L)
    decreases |L|
  {
    if |L| > 1 {
      var t := L[1..];
      assert a.slots[L[0]].next == L[1] && L[1] != 0;
      LinkedTail(a, L);
      WalkLinked(a, t, fuel - 1);
      assert L == [L[0]] + t;
    } else {
      assert L == [L[0]];
    }
  }

  /** The segment chain, read from slot 0; a walk visits each slot at most once. */
  function Chain(a: ArrayFunc): Option<seq<nat>>
  {
    Walk(a, 0, |a.slots|)
  }

  /** The free list, read from freeIdx; an index of 0 means it is empty. */
  function FreeList(a: ArrayFunc): Option<seq<nat>>
  {
    if a.freeIdx == 0 then Some([]) else Walk(a, a.freeIdx, |a.slots|)
  }

  ghost predicate FreeLinked(a: ArrayFunc, F: seq<nat>)
  {
    if |F| == 0 then a.freeIdx == 0 else a.freeIdx == F[0] && Linked(a, F)
  }

  /** The slots of L read as a segment list. */
  function Abs(a: ArrayFunc, L: seq<nat>): (r: seq<PF.Segment>)
    requires forall k :: 0 <= k < |L| ==> L[k] < |a.slots|
    ensures |r| == |L|
    ensures forall k :: 0 <= k < |L| ==> r[k] == PF.Segment(a.slots[L[k]].end, a.slots[L[k]].func)
  {
    if |L| == 0 then [] else [PF.Segment(a.slots[L[0]].end, a.slots[L[0]].func)] + Abs(a, L[1..])
  }

  /**
   Well-formedness of the array: the chain and the free list are finite,
   together use each slot at most once, and the chain is a valid piecewise
   function (the range _ucs_piecewise_func_assert_range checks). The slot
   count is left open: make builds 128 slots and no operation changes it.
   */
  ghost predicate Rep(a: ArrayFunc)
  {
    && Chain(a).Some? && FreeList(a).Some?
    && |Chain(a).value| + |FreeList(a).value| <= |a.slots|
    && Distinct(Chain(a).value + FreeList(a).value)
    && PF.Valid(Abs(a, Chain(a).value))
  }

  /** The function the array represents. */
  function Segs(a: ArrayFunc): seq<PF.Segment>
    requires Chain(a).Some?
  {
    Abs(a, Chain(a).value)
  }

  function FreeCount(a: ArrayFunc): nat
    requires FreeList(a).Some?
  {
    |FreeList(a).value|
  }

  /** Rep from explicit chain and free list. */
  lemma RepIntro(a: ArrayFunc, L: seq<nat>, F: seq<nat>)
    requires Linked(a, L) && L[0] == 0 && FreeLinked(a, F)
    requires |L| + |F| <= |a.slots| && Distinct(L + F)
    requires PF.Valid(Abs(a, L))
    ensures Rep(a) && Chain(a) == Some(L) && FreeList(a) == Some(F)
  {
    WalkLinked(a, L, |a.slots|);
    if |F| > 0 {
      assert (L + F)[0] == 0 && (L + F)[|L|] == F[0];
      WalkLinked(a, F, |a.slots|);
    }
  }

  /** The explicit chain and free list of a well-formed array. */
  lemma RepElim(a: ArrayFunc)
    requires Rep(a)
    ensures Linked(a, Chain(a).value) && Chain(a).value[0] == 0
    ensures FreeLinked(a, FreeList(a).value)
  {
  }

  function Upto(lo: nat, hi: nat): (r: seq<nat>)
    requires lo <= hi
    ensures |r| == hi - lo
    ensures forall k :: 0 <= k < |r| ==> r[k] == lo + k
  {
    seq(hi - lo, k => lo + k)
  }

  /** Slots i .. 127 as make leaves them: zeroed, each linked to the next, the last to 0. */
  function FreeSlots(i: nat): (r: seq<Slot>)
    requires 1 <= i < MaxSegments
    ensures |r| == MaxSegments - i
    ensures forall k :: 0 <= k < |r| ==>
              r[k] == Slot(Zero, 0, if i + k == MaxSegments - 1 then 0 else i + k + 1)
  {
    seq(MaxSegments - i, k requires 0 <= k => Slot(Zero, 0, if i + k == MaxSegments - 1 then 0 else i + k + 1))
  }

  function MakeSlots(c: real, m: real): seq<Slot>
  {
    [Slot(LinearFunc(c, m), SizeMax, 0)] + FreeSlots(1)
  }

  /** Slots lo .. hi - 1 linked in index order, the last to 0, form the chain Upto(lo, hi). */
  lemma UptoLinked(a: ArrayFunc, lo: nat, hi: nat)
    requires 0 < lo < hi == |a.slots|
    requires forall k :: lo <= k < hi ==> a.slots[k].next == if k == hi - 1 then 0 else k + 1
    ensures Linked(a, Upto(lo, hi))
  {
    var F := Upto(lo, hi);
    forall k, j | 0 <= k && j == k + 1 && j < |F| ensures a.slots[F[k]].next == F[j] {
      assert F[k] == lo + k && F[j] == lo + k + 1;
    }
    assert F[|F| - 1] == hi - 1;
  }

  /** Slot 0 followed by the slots 1 .. n - 1 uses each index once. */
  lemma UptoDistinct(n: nat)
    requires 1 <= n
    ensures Distinct([0] + Upto(1, n))
  {
    var L := [0] + Upto(1, n);
    forall x | 0 <= x < |L| ensures L[x] == x { }
  }

  lemma MakeRep(c: real, m: real)
    ensures Rep(ArrayFunc(MakeSlots(c, m), 1))
    ensures Chain(ArrayFunc(MakeSlots(c, m), 1)) == Some([0])
    ensures FreeList(ArrayFunc(MakeSlots(c, m), 1)) == Some(Upto(1, MaxSegments))
  {
    var n := MaxSegments;
    var a := ArrayFunc(MakeSlots(c, m), 1);
    forall k | 1 <= k < n ensures a.slots[k].next == if k == n - 1 then 0 else k + 1 {
      assert a.slots[k] == FreeSlots(1)[k - 1];
    }
    UptoLinked(a, 1, n);
    UptoDistinct(n);
    assert PF.Valid(Abs(a, [0])) by {
      assert Abs(a, [0]) == [PF.Segment(SizeMax, LinearFunc(c, m))];
    }
    RepIntro(a, [0], Upto(1, n));
  }

  /**
   ucs_piecewise_func_make: c + m*x over the whole domain [0, SizeMax] in
   slot 0, and every other slot on the free list in index order.
   */
  function Make(c: real, m: real): (r: ArrayFunc)
    ensures Rep(r) && |r.slots| == MaxSegments
    ensures Segs(r) == [PF.Segment(SizeMax, LinearFunc(c, m))]
    ensures FreeList(r) == Some(Upto(1, MaxSegments))
  {
    MakeRep(c, m);
    ArrayFunc(MakeSlots(c, m), 1)
  }

  /** The part of Linked that survives dropping the head. */
  lemma LinkedTail(a: ArrayFunc, L: seq<nat>)
    requires Linked(a, L) && |L| > 1
    ensures Linked(a, L[1..])
  {
    var t := L[1..];
    forall k, j | 0 <= k && j == k + 1 && j < |t| ensures a.slots[t[k]].next == t[j] {
      assert t[k] == L[k + 1] && t[j] == L[j + 1];
    }
  }

  /** Links only depend on the next fields of the chain's own slots. */
  lemma LinkedFrame(a: ArrayFunc, b: ArrayFunc, L: seq<nat>)
    requires Linked(a, L) && |b.slots| == |a.slots|
    requires forall x :: 0 <= x < |L| ==> b.slots[L[x]].next == a.slots[L[x]].next
    ensures Linked(b, L)
  {
  }

  lemma DistinctParts(L: seq<nat>, F: seq<nat>)
    requires Distinct(L + F)
    ensures Distinct(L) && Distinct(F)
    ensures forall x, y :: 0 <= x < |L| && 0 <= y < |F| ==> L[x] != F[y]
  {
    forall x, y | 0 <= x < |L| && 0 <= y < |F| ensures L[x] != F[y] {
      assert (L + F)[x] == L[x] && (L + F)[|L| + y] == F[y];
    }
    forall x, y | 0 <= x < y < |F| ensures F[x] != F[y] {
      assert (L + F)[|L| + x] == F[x] && (L + F)[|L| + y] == F[y];
    }
    forall x, y | 0 <= x < y < |L| ensures L[x] != L[y] {
      assert (L + F)[x] == L[x] && (L + F)[y] == L[y];
    }
  }

  /** Taking the head off the free list keeps all slots distinct. */
  lemma DistinctPop(L: seq<nat>, F: seq<nat>)
    requires |F| > 0 && Distinct(L + F)
    ensures Distinct(L + F[1..])
  {
    var N, O := L + F[1..], L + F;
    forall x, y | 0 <= x < y < |N| ensures N[x] != N[y] {
      var x', y' := if x < |L| then x else x + 1, if y < |L| then y else y + 1;
      assert N[x] == O[x'] && N[y] == O[y'];
    }
  }

  /** Moving the head of the free list into the chain after position k keeps all slots distinct. */
  lemma DistinctMove(L: seq<nat>, F: seq<nat>, k: nat)
    requires |F| > 0 && k < |L| && Distinct(L + F)
    ensures Distinct(L[..k + 1] + [F[0]] + L[k + 1..] + F[1..])
  {
    var N, O := L[..k + 1] + [F[0]] + L[k + 1..] + F[1..], L + F;
    forall x, y | 0 <= x < y < |N| ensures N[x] != N[y] {
      var x' := if x <= k then x else if x == k + 1 then |L| else if x <= |L| then x - 1 else x;
      var y' := if y <= k then y else if y == k + 1 then |L| else if y <= |L| then y - 1 else y;
      assert N[x] == O[x'] && N[y] == O[y'];
    }
  }

  /**
   ucs_piecewise_func_apply: walk the chain while the segment ends below x
   and evaluate the segment reached. This is the value of the represented
   segment list at x.
   */
  method Evaluate(a: ArrayFunc, x: nat) returns (v: real)
    requires Rep(a) && x <= SizeMax
    ensures v == PF.Apply(Segs(a), x)
  {
    ghost var L := Chain(a).value;
    ghost var S := Segs(a);
    RepElim(a);
    var seg := 0;
    ghost var k := 0;
    while a.slots[seg].end < x
      invariant k < |L| && seg == L[k]
      invariant forall j :: 0 <= j < k ==> S[j].end < x
      decreases |L| - k
    {
      assert S[k].end == a.slots[seg].end;
      assert a.slots[L[k]].next == L[k + 1];
      seg := a.slots[seg].next;
      k := k + 1;
    }
    v := a.slots[seg].func.Apply(x as real);
    assert k > 0 ==> S[k - 1].end < x;
    PF.ApplyInSegment(S, k, x);
  }

  /**
   _ucs_piecewise_func_acquire_free_segment: hand out the slot at the head
   of the free list and detach it. Nothing checks that the list is non-empty.
   */
  function Acquire(a: ArrayFunc): (ArrayFunc, nat)
    requires a.freeIdx < |a.slots|
  {
    var j := a.freeIdx;
    (ArrayFunc(a.slots[j := a.slots[j].(next := 0)], a.slots[j].next), j)
  }

  /**
   With a free slot available, acquire pops the free list: it hands out its
   head, detached, and leaves the function and its chain untouched.
   */
  lemma AcquirePops(a: ArrayFunc)
    requires Rep(a) && FreeCount(a) > 0
    ensures a.freeIdx < |a.slots|
    ensures Acquire(a).1 == FreeList(a).value[0] && Acquire(a).1 != 0
    ensures Acquire(a).0.slots[Acquire(a).1].next == 0
    ensures Rep(Acquire(a).0)
    ensures Chain(Acquire(a).0) == Chain(a) && Segs(Acquire(a).0) == Segs(a)
    ensures FreeList(Acquire(a).0) == Some(FreeList(a).value[1..])
  {
    RepElim(a);
    AcquireLists(a, Chain(a).value, FreeList(a).value);
  }

  /** AcquirePops on an explicit chain L and free list F. */
  lemma AcquireLists(a: ArrayFunc, L: seq<nat>, F: seq<nat>)
    requires Linked(a, L) && L[0] == 0 && FreeLinked(a, F) && |F| > 0
    requires |L| + |F| <= |a.slots| && Distinct(L + F) && PF.Valid(Abs(a, L))
    ensures a.freeIdx == F[0] && F[0] < |a.slots| && F[0] != 0
    ensures Acquire(a).0.slots[F[0]].next == 0
    ensures Rep(Acquire(a).0) && Chain(Acquire(a).0) == Some(L) && FreeList(Acquire(a).0) == Some(F[1..])
    ensures Abs(Acquire(a).0, L) == Abs(a, L)
  {
    DistinctParts(L, F);
    assert (L + F)[0] == 0 && (L + F)[|L|] == F[0];
    var b := Acquire(a).0;
    LinkedFrame(a, b, L);
    var F2 := F[1..];
    if |F2| > 0 {
      LinkedTail(a, F);
      LinkedFrame(a, b, F2);
    }
    DistinctPop(L, F);
    AbsIgnoresNext(a, b, L);
    RepIntro(b, L, F2);
  }

  /** Abs reads only the ends and functions of the slots, never their links. */
  lemma AbsIgnoresNext(a: ArrayFunc, b: ArrayFunc, L: seq<nat>)
    requires |b.slots| == |a.slots| && forall k :: 0 <= k < |L| ==> L[k] < |a.slots|
    requires forall i :: 0 <= i < |a.slots| ==> b.slots[i].end == a.slots[i].end && b.slots[i].func == a.slots[i].func
    ensures Abs(b, L) == Abs(a, L)
  {
    var A, B := Abs(a, L), Abs(b, L);
    forall k | 0 <= k < |L| ensures B[k] == A[k] {
      assert b.slots[L[k]].end == a.slots[L[k]].end;
    }
  }

  /**
   With the free list empty, acquire hands out slot 0, the head of the
   chain: it cuts the chain after its first segment, so the array no longer
   covers the domain, and the rest of the chain becomes the free list.
   */
  lemma AcquireExhausted(a: ArrayFunc)
    requires Rep(a) && FreeCount(a) == 0 && |Segs(a)| > 1
    ensures a.freeIdx < |a.slots|
    ensures Acquire(a).1 == 0
    ensures Chain(Acquire(a).0) == Some([0])
    ensures Segs(Acquire(a).0)[0].end < SizeMax
    ensures !Rep(Acquire(a).0)
    ensures FreeList(Acquire(a).0) == Some(Chain(a).value[1..])
  {
    RepElim(a);
    var L, S := Chain(a).value, Segs(a);
    var b := Acquire(a).0;
    assert Linked(b, [0]);
    WalkLinked(b, [0], |b.slots|);
    PF.AscendingIff(S, 0);
    assert S[0].end < S[|S| - 1].end;
    assert Segs(b) == [PF.Segment(a.slots[0].end, a.slots[0].func)];
    assert b.freeIdx == L[1];
    LinkedTail(a, L);
    DistinctParts(L, []);
    LinkedFrame(a, b, L[1..]);
    WalkLinked(b, L[1..], |b.slots|);
  }

  /**
   The split step of add_segment: take a free slot, copy segment i into it,
   end segment i at p and link it to the copy. Returns the copy's index.
   */
  function SplitAt(a: ArrayFunc, i: nat, p: nat): (ArrayFunc, nat)
    requires i < |a.slots| && a.freeIdx < |a.slots|
  {
    var acq := Acquire(a);
    var b, j := acq.0, acq.1;
    var s := b.slots[i];
    var c := b.(slots := b.slots[j := Slot(s.func, s.end, s.next)]);
    (c.(slots := c.slots[i := c.slots[i].(end := p, next := j)]), j)
  }

  /** The free list after a split: its head is gone, every other link kept. */
  lemma SplitFreeLinked(a: ArrayFunc, b: ArrayFunc, F: seq<nat>, i: nat)
    requires FreeLinked(a, F) && |F| > 0 && Distinct(F) && i < |a.slots| && i != F[0]
    requires forall y :: 0 <= y < |F| ==> F[y] != i
    requires |b.slots| == |a.slots| && b.freeIdx == a.slots[F[0]].next
    requires forall x :: 0 <= x < |a.slots| && x != i && x != F[0] ==> b.slots[x] == a.slots[x]
    ensures FreeLinked(b, F[1..])
  {
    if |F| > 1 {
      LinkedTail(a, F);
      LinkedFrame(a, b, F[1..]);
    }
  }

  /** The segments after a split: position k ends at p, its copy follows. */
  lemma SplitAbs(a: ArrayFunc, b: ArrayFunc, L: seq<nat>, k: nat, j: nat, p: nat)
    requires (forall x :: 0 <= x < |L| ==> L[x] < |a.slots|) && Distinct(L) && k < |L|
    requires j < |a.slots| && forall x :: 0 <= x < |L| ==> L[x] != j
    requires |b.slots| == |a.slots|
    requires b.slots[j].end == a.slots[L[k]].end && b.slots[j].func == a.slots[L[k]].func
    requires b.slots[L[k]].end == p && b.slots[L[k]].func == a.slots[L[k]].func
    requires forall x :: 0 <= x < |a.slots| && x != L[k] && x != j ==> b.slots[x] == a.slots[x]
    ensures var S := Abs(a, L);
            Abs(b, L[..k + 1] + [j] + L[k + 1..]) == S[..k] + [PF.Segment(p, S[k].func)] + S[k..]
  {
    var S := Abs(a, L);
    var L2 := L[..k + 1] + [j] + L[k + 1..];
    var T := S[..k] + [PF.Segment(p, S[k].func)] + S[k..];
    var R := Abs(b, L2);
    forall x | 0 <= x < |T| ensures R[x] == T[x] {
      if x < k {
        assert L2[x] == L[x] && T[x] == S[x];
        assert L[x] != L[k];
        assert b.slots[L[x]] == a.slots[L[x]];
      } else if x == k {
        assert L2[x] == L[k] && T[x] == PF.Segment(p, S[k].func);
      } else if x == k + 1 {
        assert L2[x] == j && T[x] == S[k];
      } else {
        assert L2[x] == L[x - 1] && T[x] == S[x - 1];
        assert L[x - 1] != L[k];
        assert b.slots[L[x - 1]] == a.slots[L[x - 1]];
      }
    }
    assert R == T;
  }

  /** The slots SplitAt writes when the free head is not the split slot. */
  lemma SplitAtSlots(a: ArrayFunc, i: nat, p: nat)
    requires i < |a.slots| && a.freeIdx < |a.slots| && i != a.freeIdx
    ensures var b, j := SplitAt(a, i, p).0, SplitAt(a, i, p).1;
              && j == a.freeIdx && |b.slots| == |a.slots| && b.freeIdx == a.slots[j].next
              && b.slots[j] == Slot(a.slots[i].func, a.slots[i].end, a.slots[i].next)
              && b.slots[i] == Slot(a.slots[i].func, p, j)
              && forall x :: 0 <= x < |a.slots| && x != i && x != j ==> b.slots[x] == a.slots[x]
  {
  }

  /** SplitAt on explicit chain and free list. */
  lemma SplitAtLists(a: ArrayFunc, L: seq<nat>, F: seq<nat>, k: nat, p: nat)
    requires Linked(a, L) && L[0] == 0 && FreeLinked(a, F)
    requires |L| + |F| <= |a.slots| && Distinct(L + F)
    requires PF.Valid(Abs(a, L)) && |F| > 0 && k < |L|
    requires PF.SegStart(Abs(a, L), k) <= p < Abs(a, L)[k].end
    ensures var r, S := SplitAt(a, L[k], p), Abs(a, L);
              && Rep(r.0) && r.1 == F[0] && r.0.slots[L[k]].next == r.1
              && Chain(r.0) == Some(L[..k + 1] + [r.1] + L[k + 1..])
              && FreeList(r.0) == Some(F[1..])
              && Segs(r.0) == PF.Split(S, k, p, 1).segs
  {
    var S := Abs(a, L);
    DistinctParts(L, F);
    assert (L + F)[0] == 0 && (L + F)[|L|] == F[0];
    var i, j := L[k], F[0];
    SplitAtSlots(a, i, p);
    var b := SplitAt(a, i, p).0;
    var L2 := L[..k + 1] + [j] + L[k + 1..];
    SplitLinked(a, b, L, k, j);
    SplitFreeLinked(a, b, F, i);
    DistinctMove(L, F, k);
    SplitAbs(a, b, L, k, j, p);
    var sp := PF.Split(S, k, p, 1);
    assert sp.segs == S[..k] + [PF.Segment(p, S[k].func)] + S[k..];
    RepIntro(b, L2, F[1..]);
  }

  /**
   Splitting the k-th segment of a well-formed array with a free slot is the
   list model's split: the copy takes the free list's head and joins the
   chain right after segment k.
   */
  lemma SplitAtSound(a: ArrayFunc, k: nat, p: nat)
    requires Rep(a) && FreeCount(a) > 0
    requires k < |Segs(a)| && PF.SegStart(Segs(a), k) <= p < Segs(a)[k].end
    ensures Chain(a).value[k] < |a.slots| && a.freeIdx < |a.slots|
    ensures var r := SplitAt(a, Chain(a).value[k], p);
              && Rep(r.0)
              && r.1 == FreeList(a).value[0]
              && r.0.slots[Chain(a).value[k]].next == r.1
              && Chain(r.0) == Some(Chain(a).value[..k + 1] + [r.1] + Chain(a).value[k + 1..])
              && FreeList(r.0) == Some(FreeList(a).value[1..])
              && Segs(r.0) == PF.Split(Segs(a), k, p, 1).segs
              && FreeCount(r.0) + 1 == FreeCount(a) && |Segs(r.0)| == |Segs(a)| + 1
  {
    RepElim(a);
    SplitAtLists(a, Chain(a).value, FreeList(a).value, k, p);
  }

  /** What a caller of SplitAt needs: the facts at positions k and k + 1. */
  lemma SplitAtLocal(a: ArrayFunc, k: nat, p: nat)
    requires Rep(a) && FreeCount(a) > 0
    requires k < |Segs(a)| && PF.SegStart(Segs(a), k) <= p < Segs(a)[k].end
    ensures Chain(a).value[k] < |a.slots| && a.freeIdx < |a.slots|
    ensures var b, S := SplitAt(a, Chain(a).value[k], p).0, Segs(a);
              && Rep(b) && FreeCount(b) + 1 == FreeCount(a) && |Segs(b)| == |S| + 1
              && Chain(b).value[k] == Chain(a).value[k]
              && Chain(b).value[k + 1] == b.slots[Chain(a).value[k]].next
              && Segs(b) == S[..k] + [PF.Segment(p, S[k].func)] + S[k..]
              && Segs(b)[k] == PF.Segment(p, S[k].func) && Segs(b)[k + 1] == S[k]
              && PF.SegStart(Segs(b), k) == PF.SegStart(S, k)
  {
    SplitAtSound(a, k, p);
    var L, S := Chain(a).value, Segs(a);
    var r := SplitAt(a, L[k], p);
    var L2 := L[..k + 1] + [r.1] + L[k + 1..];
    assert L2[k] == L[k] && L2[k + 1] == r.1;
    var T := S[..k] + [PF.Segment(p, S[k].func)] + S[k..];
    assert T[k] == PF.Segment(p, S[k].func) && T[k + 1] == S[k];
    assert k > 0 ==> T[k - 1] == S[k - 1];
  }

  /** The chain after a split: slot j inserted after position k, every other link kept. */
  lemma SplitLinked(a: ArrayFunc, b: ArrayFunc, L: seq<nat>, k: nat, j: nat)
    requires Linked(a, L) && L[0] == 0 && Distinct(L) && k < |L|
    requires j < |a.slots| && j != 0 && forall x :: 0 <= x < |L| ==> L[x] != j
    requires |b.slots| == |a.slots|
    requires b.slots[L[k]].next == j && b.slots[j].next == a.slots[L[k]].next
    requires forall x :: 0 <= x < |a.slots| && x != L[k] && x != j ==> b.slots[x] == a.slots[x]
    ensures Linked(b, L[..k + 1] + [j] + L[k + 1..])
  {
    var L2 := L[..k + 1] + [j] + L[k + 1..];
    forall x | 0 <= x < |L2| ensures L2[x] < |b.slots| && (x > 0 ==> L2[x] != 0) {
      if x <= k {
        assert L2[x] == L[x];
      } else if x == k + 1 {
        assert L2[x] == j;
      } else {
        assert L2[x] == L[x - 1];
      }
    }
    forall x, y | 0 <= x && y == x + 1 && y < |L2| ensures b.slots[L2[x]].next == L2[y] {
      if x < k {
        assert L2[x] == L[x] && L2[y] == L[x + 1] && L[x] != L[k];
        assert a.slots[L[x]].next == L[x + 1];
      } else if x == k {
        assert L2[x] == L[k] && L2[y] == j;
      } else if x == k + 1 {
        assert L2[x] == j && L2[y] == L[k + 1];
        assert a.slots[L[k]].next == L[k + 1];
      } else {
        assert L2[x] == L[x - 1] && L2[y] == L[x] && L[x - 1] != L[k];
        assert a.slots[L[x - 1]].next == L[x];
      }
    }
    if k == |L| - 1 {
      assert L2[|L2| - 1] == j;
    } else {
      assert L2[|L2| - 1] == L[|L| - 1] && L[|L| - 1] != L[k];
    }
  }

  /** ucs_linear_func_add_inplace on the function of slot i. */
  function AddAt(a: ArrayFunc, i: nat, t: LinearFunc): ArrayFunc
    requires i < |a.slots|
  {
    a.(slots := a.slots[i := a.slots[i].(func := a.slots[i].func.Add(t))])
  }

  /** Validity only depends on the segment ends. */
  lemma ValidSameEnds(S: seq<PF.Segment>, T: seq<PF.Segment>)
    requires PF.Valid(S) && |T| == |S|
    requires forall x :: 0 <= x < |S| ==> T[x].end == S[x].end
    ensures PF.Valid(T)
  {
    PF.AscendingIff(S, 0);
    PF.AscendingIff(T, 0);
  }

  lemma AbsAddAt(a: ArrayFunc, L: seq<nat>, k: nat, t: LinearFunc)
    requires (forall x :: 0 <= x < |L| ==> L[x] < |a.slots|) && Distinct(L) && k < |L|
    ensures var S := Abs(a, L);
            Abs(AddAt(a, L[k], t), L) == S[k := PF.Segment(S[k].end, S[k].func.Add(t))]
  {
    var S, T := Abs(a, L), Abs(AddAt(a, L[k], t), L);
    forall x | 0 <= x < |L| && x != k ensures T[x] == S[x] {
      assert L[x] != L[k];
    }
  }

  /** AddAt keeps every link. */
  lemma AddAtLinked(a: ArrayFunc, L: seq<nat>, F: seq<nat>, i: nat, t: LinearFunc)
    requires Linked(a, L) && FreeLinked(a, F) && i < |a.slots|
    ensures Linked(AddAt(a, i, t), L) && FreeLinked(AddAt(a, i, t), F)
  {
    var b := AddAt(a, i, t);
    LinkedFrame(a, b, L);
    if |F| > 0 {
      LinkedFrame(a, b, F);
    }
  }

  /** AddAt on explicit chain and free list. */
  lemma AddAtLists(a: ArrayFunc, L: seq<nat>, F: seq<nat>, k: nat, t: LinearFunc)
    requires Linked(a, L) && L[0] == 0 && FreeLinked(a, F)
    requires |L| + |F| <= |a.slots| && Distinct(L + F)
    requires PF.Valid(Abs(a, L)) && k < |L|
    ensures var b, S := AddAt(a, L[k], t), Abs(a, L);
              && Rep(b) && Chain(b) == Some(L) && FreeList(b) == Some(F)
              && Abs(b, L) == S[k := PF.Segment(S[k].end, S[k].func.Add(t))]
  {
    var S := Abs(a, L);
    DistinctParts(L, F);
    var b := AddAt(a, L[k], t);
    AddAtLinked(a, L, F, L[k], t);
    AbsAddAt(a, L, k, t);
    ValidSameEnds(S, S[k := PF.Segment(S[k].end, S[k].func.Add(t))]);
    RepIntro(b, L, F);
  }

  /** Adding to the k-th segment changes that segment's function only. */
  lemma AddAtSound(a: ArrayFunc, k: nat, t: LinearFunc)
    requires Rep(a) && k < |Segs(a)|
    ensures Chain(a).value[k] < |a.slots|
    ensures var b := AddAt(a, Chain(a).value[k], t);
              && Rep(b) && Chain(b) == Chain(a) && FreeList(b) == FreeList(a)
              && Segs(b) == Segs(a)[k := PF.Segment(Segs(a)[k].end, Segs(a)[k].func.Add(t))]
              && FreeCount(b) == FreeCount(a) && |Segs(b)| == |Segs(a)|
  {
    RepElim(a);
    AddAtLists(a, Chain(a).value, FreeList(a).value, k, t);
  }

  /** Skipping the segments that end before `start` leaves them unchanged. */
  lemma {:induction false} AddRangeSkipTo(S: seq<PF.Segment>, lo: nat, k: nat, start: nat, end: nat, t: LinearFunc, mem: nat)
    requires k < |S| && forall j :: 0 <= j < k ==> S[j].end < start
    ensures PF.AddRangeFrom(S, lo, start, end, t, mem).segs ==
              S[..k] + PF.AddRangeFrom(S[k..], if k == 0 then lo else S[k - 1].end + 1, start, end, t, mem).segs
    decreases k
  {
    if k > 0 {
      var T := S[1..];
      AddRangeSkipTo(T, S[0].end + 1, k - 1, start, end, t, mem);
      SkipOne(S, lo, start, end, t, mem);
      assert T[k - 1..] == S[k..];
      assert k - 1 > 0 ==> T[k - 2] == S[k - 1];
      var X := PF.AddRangeFrom(S[k..], S[k - 1].end + 1, start, end, t, mem).segs;
      assert [S[0]] + (T[..k - 1] + X) == S[..k] + X;
    }
  }

  /** Skipping the segments that end before `start` allocates nothing. */
  lemma {:induction false} AddRangeSkipMem(S: seq<PF.Segment>, lo: nat, k: nat, start: nat, end: nat, t: LinearFunc, mem: nat)
    requires k < |S| && forall j :: 0 <= j < k ==> S[j].end < start
    ensures PF.AddRangeFrom(S, lo, start, end, t, mem).mem ==
              PF.AddRangeFrom(S[k..], if k == 0 then lo else S[k - 1].end + 1, start, end, t, mem).mem
    decreases k
  {
    if k > 0 {
      AddRangeSkipMem(S, lo, k - 1, start, end, t, mem);
      var from := if k - 1 == 0 then lo else S[k - 2].end + 1;
      SkipOne(S[k - 1..], from, start, end, t, mem);
      assert S[k - 1..][0] == S[k - 1] && S[k - 1..][1..] == S[k..];
    }
  }

  /** A segment ending before `start` is kept as it is. */
  lemma SkipOne(U: seq<PF.Segment>, lo: nat, start: nat, end: nat, t: LinearFunc, mem: nat)
    requires |U| > 0 && U[0].end < start
    ensures PF.AddRangeFrom(U, lo, start, end, t, mem).segs ==
              [U[0]] + PF.AddRangeFrom(U[1..], U[0].end + 1, start, end, t, mem).segs
    ensures PF.AddRangeFrom(U, lo, start, end, t, mem).mem == PF.AddRangeFrom(U[1..], U[0].end + 1, start, end, t, mem).mem
  {
  }

  /**
   The first loop of ucs_piecewise_func_add_segment: walk to the first
   segment ending at or after `start`, tracking where that segment starts.
   */
  method FindStart(a: ArrayFunc, start: nat) returns (seg: nat, segStart: nat, ghost k: nat)
    requires Rep(a) && start <= SizeMax
    ensures k < |Segs(a)| && seg == Chain(a).value[k]
    ensures segStart == PF.SegStart(Segs(a), k) && segStart <= start <= Segs(a)[k].end
    ensures forall j :: 0 <= j < k ==> Segs(a)[j].end < start
    ensures seg < |a.slots| && segStart <= start <= a.slots[seg].end
  {
    ghost var L := Chain(a).value;
    ghost var S := Segs(a);
    RepElim(a);
    seg, segStart, k := 0, 0, 0;
    while start > a.slots[seg].end
      invariant k < |L| && seg == L[k] && segStart == PF.SegStart(S, k) && segStart <= start
      invariant forall j :: 0 <= j < k ==> S[j].end < start
      decreases |L| - k
    {
      assert S[k].end == a.slots[seg].end;
      assert a.slots[L[k]].next == L[k + 1];
      segStart := a.slots[seg].end + 1;
      seg := a.slots[seg].next;
      k := k + 1;
    }
    assert S[k].end == a.slots[seg].end;
  }

  /** One covered segment: CoverFrom adds t to it and continues after it. */
  lemma CoverStep(C: seq<PF.Segment>, i: nat, end: nat, t: LinearFunc, m: nat)
    requires i < |C| && C[i].end < end
    ensures var C' := C[i := PF.Segment(C[i].end, C[i].func.Add(t))];
            && C[..i] + PF.CoverFrom(C[i..], end, t, m).segs ==
               C'[..i + 1] + PF.CoverFrom(C'[i + 1..], end, t, m).segs
            && PF.CoverFrom(C[i..], end, t, m).mem == PF.CoverFrom(C'[i + 1..], end, t, m).mem
  {
    var C' := C[i := PF.Segment(C[i].end, C[i].func.Add(t))];
    assert C'[..i + 1] == C[..i] + [PF.Segment(C[i].end, C[i].func.Add(t))];
    assert C'[i + 1..] == C[i + 1..];
    assert C[i..][1..] == C[i + 1..];
  }

  /** The segment holding `end`, split there first when it ends later. */
  lemma CoverLast(C: seq<PF.Segment>, i: nat, end: nat, t: LinearFunc, m: nat)
    requires i < |C| && end <= C[i].end && 1 <= m
    ensures end < C[i].end ==>
              C[..i] + PF.CoverFrom(C[i..], end, t, m).segs ==
              (C[..i] + [PF.Segment(end, C[i].func)] + C[i..])[i := PF.Segment(end, C[i].func.Add(t))]
    ensures end == C[i].end ==>
              C[..i] + PF.CoverFrom(C[i..], end, t, m).segs == C[i := PF.Segment(end, C[i].func.Add(t))]
    ensures PF.CoverFrom(C[i..], end, t, m).mem == if end < C[i].end then m - 1 else m
  {
    if end == C[i].end {
      assert C[i..][1..] == C[i + 1..];
      assert C[i := PF.Segment(end, C[i].func.Add(t))] == C[..i] + [PF.Segment(end, C[i].func.Add(t))] + C[i + 1..];
    } else {
      assert (C[..i] + [PF.Segment(end, C[i].func)] + C[i..])[i := PF.Segment(end, C[i].func.Add(t))]
          == C[..i] + [PF.Segment(end, C[i].func.Add(t))] + C[i..];
    }
  }

  /** The slot at chain position k holds segment k and links to position k + 1. */
  lemma SlotAt(a: ArrayFunc, k: nat)
    requires Rep(a) && k < |Segs(a)|
    ensures Chain(a).value[k] < |a.slots|
    ensures a.slots[Chain(a).value[k]].end == Segs(a)[k].end
    ensures k + 1 < |Segs(a)| ==> a.slots[Chain(a).value[k]].next == Chain(a).value[k + 1]
  {
    RepElim(a);
  }

  /** Only the last slot of the chain links back to slot 0. */
  lemma ChainEnds(a: ArrayFunc, k: nat)
    requires Rep(a) && k < |Segs(a)|
    ensures Chain(a).value[k] < |a.slots|
    ensures a.slots[Chain(a).value[k]].next == 0 <==> k + 1 == |Segs(a)|
  {
    RepElim(a);
    if k + 1 < |Segs(a)| {
      assert a.slots[Chain(a).value[k]].next == Chain(a).value[k + 1];
    }
  }

  /**
   The end of ucs_piecewise_func_add_segment at the segment holding `end`
   (chain position i): split it at `end` if it ends later, then add t to it.
   */
  method FinishSegment(a: ArrayFunc, seg: nat, ghost i: nat, end: nat, t: LinearFunc, ghost m: nat)
    returns (r: ArrayFunc)
    requires Rep(a) && i < |Segs(a)| && seg == Chain(a).value[i] && 1 <= m
    requires PF.SegStart(Segs(a), i) <= end <= Segs(a)[i].end
    requires FreeCount(a) + PF.CoverFrom(Segs(a)[i..], end, t, m).mem >= m
    ensures Rep(r)
    ensures Segs(r) == Segs(a)[..i] + PF.CoverFrom(Segs(a)[i..], end, t, m).segs
    ensures FreeCount(r) + |Segs(r)| == FreeCount(a) + |Segs(a)|
    ensures FreeCount(r) + m == FreeCount(a) + PF.CoverFrom(Segs(a)[i..], end, t, m).mem
  {
    ghost var C := Segs(a);
    SlotAt(a, i);
    CoverLast(C, i, end, t, m);
    if a.slots[seg].end != end {
      SplitAtLocal(a, i, end);
      var cur := SplitAt(a, seg, end).0;
      AddAtSound(cur, i, t);
      r := AddAt(cur, seg, t);
    } else {
      AddAtSound(a, i, t);
      r := AddAt(a, seg, t);
    }
  }

  /** One pass of the covering loop: add t to segment i, which ends before `end`, and step to the next slot. */
  method CoverOne(a: ArrayFunc, seg: nat, ghost i: nat, end: nat, t: LinearFunc, ghost m: nat)
    returns (r: ArrayFunc, next: nat)
    requires Rep(a) && i < |Segs(a)| && seg == Chain(a).value[i] && Segs(a)[i].end < end <= SizeMax
    ensures Rep(r) && i + 1 < |Segs(r)| && next == Chain(r).value[i + 1]
    ensures FreeCount(r) == FreeCount(a) && |Segs(r)| == |Segs(a)|
    ensures PF.SegStart(Segs(r), i + 1) == Segs(a)[i].end + 1 && Segs(r)[i + 1] == Segs(a)[i + 1]
    ensures Segs(a)[..i] + PF.CoverFrom(Segs(a)[i..], end, t, m).segs ==
              Segs(r)[..i + 1] + PF.CoverFrom(Segs(r)[i + 1..], end, t, m).segs
    ensures PF.CoverFrom(Segs(a)[i..], end, t, m).mem == PF.CoverFrom(Segs(r)[i + 1..], end, t, m).mem
  {
    CoverStep(Segs(a), i, end, t, m);
    AddAtSound(a, i, t);
    r := AddAt(a, seg, t);
    SlotAt(r, i);
    next := r.slots[seg].next;
  }

  /**
   The covering loop of ucs_piecewise_func_add_segment from the segment at
   chain position q: add t to every segment ending before `end`, then finish
   at the segment holding `end`. This is the list model's CoverFrom.
   */
  method CoverSegments(a: ArrayFunc, first: nat, ghost q: nat, end: nat, t: LinearFunc, ghost m: nat)
    returns (r: ArrayFunc)
    requires Rep(a) && q < |Segs(a)| && first == Chain(a).value[q] && 1 <= m
    requires PF.SegStart(Segs(a), q) <= end <= SizeMax
    requires FreeCount(a) + PF.CoverFrom(Segs(a)[q..], end, t, m).mem >= m
    ensures Rep(r)
    ensures Segs(r) == Segs(a)[..q] + PF.CoverFrom(Segs(a)[q..], end, t, m).segs
    ensures FreeCount(r) + |Segs(r)| == FreeCount(a) + |Segs(a)|
    ensures FreeCount(r) + m == FreeCount(a) + PF.CoverFrom(Segs(a)[q..], end, t, m).mem
  {
    var cur, seg, i := CoverBelow(a, first, q, end, t, m);
    r := FinishSegment(cur, seg, i, end, t, m);
  }

  /** The loop part of the covering: every segment ending before `end` gains t. */
  method CoverBelow(a: ArrayFunc, first: nat, ghost q: nat, end: nat, t: LinearFunc, ghost m: nat)
    returns (cur: ArrayFunc, seg: nat, ghost i: nat)
    requires Rep(a) && q < |Segs(a)| && first == Chain(a).value[q]
    requires PF.SegStart(Segs(a), q) <= end <= SizeMax
    ensures Rep(cur) && i < |Segs(cur)| && seg == Chain(cur).value[i]
    ensures PF.SegStart(Segs(cur), i) <= end <= Segs(cur)[i].end
    ensures Segs(cur)[..i] + PF.CoverFrom(Segs(cur)[i..], end, t, m).segs ==
              Segs(a)[..q] + PF.CoverFrom(Segs(a)[q..], end, t, m).segs
    ensures FreeCount(cur) == FreeCount(a) && |Segs(cur)| == |Segs(a)|
    ensures PF.CoverFrom(Segs(cur)[i..], end, t, m).mem == PF.CoverFrom(Segs(a)[q..], end, t, m).mem
    decreases |Segs(a)| - q
  {
    SlotAt(a, q);
    if end > a.slots[first].end {
      var b, next := CoverOne(a, first, q, end, t, m);
      cur, seg, i := CoverBelow(b, next, q + 1, end, t, m);
    } else {
      cur, seg, i := a, first, q;
    }
  }

  /**
   When `start` falls strictly inside segment k, the list model first cuts
   the segment at start - 1; the array code does the same, after cutting it
   at `end` too when the range lies inside the segment. Either way the
   covering continues right after the cut.
   */
  lemma FirstSplitCases(S: seq<PF.Segment>, k: nat, segStart: nat, start: nat, end: nat, t: LinearFunc)
    requires k < |S| && segStart < start <= S[k].end && start <= end
    ensures var f := S[k].func;
            var C := S[..k] + [PF.Segment(start - 1, f), PF.Segment(end, f)] + S[k..];
            end < S[k].end ==>
              S[..k] + PF.AddRangeFrom(S[k..], segStart, start, end, t, 2).segs ==
              C[..k + 1] + PF.CoverFrom(C[k + 1..], end, t, 1).segs
    ensures var f := S[k].func;
            var C := S[..k] + [PF.Segment(start - 1, f)] + S[k..];
            end >= S[k].end ==>
              S[..k] + PF.AddRangeFrom(S[k..], segStart, start, end, t, 2).segs ==
              C[..k + 1] + PF.CoverFrom(C[k + 1..], end, t, 1).segs
    ensures end < S[k].end ==>
              PF.AddRangeFrom(S[k..], segStart, start, end, t, 2).mem == 0 &&
              PF.CoverFrom([PF.Segment(end, S[k].func)] + S[k..], end, t, 1).mem == 1
    ensures end >= S[k].end ==>
              PF.AddRangeFrom(S[k..], segStart, start, end, t, 2).mem == PF.CoverFrom(S[k..], end, t, 1).mem
  {
    var f := S[k].func;
    var rest := PF.CoverFrom(S[k..], end, t, 1);
    assert PF.AddRangeFrom(S[k..], segStart, start, end, t, 2).segs == [PF.Segment(start - 1, f)] + rest.segs;
    if end < S[k].end {
      var C := S[..k] + [PF.Segment(start - 1, f), PF.Segment(end, f)] + S[k..];
      assert C[..k + 1] == S[..k] + [PF.Segment(start - 1, f)];
      assert C[k + 1..] == [PF.Segment(end, f)] + S[k..];
      assert ([PF.Segment(end, f)] + S[k..])[1..] == S[k..];
    } else {
      var C := S[..k] + [PF.Segment(start - 1, f)] + S[k..];
      assert C[..k + 1] == S[..k] + [PF.Segment(start - 1, f)];
      assert C[k + 1..] == S[k..];
    }
  }

  /** Inserting x at position k and then y at position k gives y, x in that order. */
  lemma InsertTwice<T>(S: seq<T>, k: nat, x: T, y: T, U: seq<T>, V: seq<T>)
    requires k <= |S| && U == S[..k] + [x] + S[k..] && V == U[..k] + [y] + U[k..]
    ensures V == S[..k] + [y, x] + S[k..]
  {
    assert U[..k] == S[..k] && U[k..] == [x] + S[k..];
  }

  /** Cut segment k at `end`, leaving slot seg as position k and its upper part right after it. */
  method SplitEnd(a: ArrayFunc, seg: nat, ghost k: nat, end: nat) returns (r: ArrayFunc)
    requires Rep(a) && FreeCount(a) >= 1 && k < |Segs(a)| && seg == Chain(a).value[k]
    requires PF.SegStart(Segs(a), k) <= end < Segs(a)[k].end
    ensures Rep(r) && k < |Segs(r)| && seg == Chain(r).value[k]
    ensures Segs(r) == Segs(a)[..k] + [PF.Segment(end, Segs(a)[k].func)] + Segs(a)[k..]
    ensures FreeCount(r) + 1 == FreeCount(a) && |Segs(r)| == |Segs(a)| + 1
    ensures PF.SegStart(Segs(r), k) == PF.SegStart(Segs(a), k) && Segs(r)[k].end == end
  {
    SplitAtLocal(a, k, end);
    r := SplitAt(a, seg, end).0;
  }

  /**
   The first split of ucs_piecewise_func_add_segment when the added range
   lies strictly inside segment k: cut it at `end`, then at start - 1, and
   move to the middle piece, which already ends at `end`.
   */
  method SplitMiddle(a: ArrayFunc, seg: nat, ghost k: nat, start: nat, end: nat)
    returns (r: ArrayFunc, next: nat)
    requires Rep(a) && FreeCount(a) >= 2 && k < |Segs(a)| && seg == Chain(a).value[k]
    requires PF.SegStart(Segs(a), k) < start <= end < Segs(a)[k].end
    ensures Rep(r) && k + 1 < |Segs(r)| && next == Chain(r).value[k + 1]
    ensures Segs(r) == Segs(a)[..k] + [PF.Segment(start - 1, Segs(a)[k].func), PF.Segment(end, Segs(a)[k].func)] + Segs(a)[k..]
    ensures FreeCount(r) + 2 == FreeCount(a) && |Segs(r)| == |Segs(a)| + 2
    ensures PF.SegStart(Segs(r), k + 1) == start && Segs(r)[k + 1].end == end
  {
    ghost var S := Segs(a);
    var cur := SplitEnd(a, seg, k, end);
    ghost var U := Segs(cur);
    r, next := SplitStart(cur, seg, k, start);
    InsertTwice(S, k, PF.Segment(end, S[k].func), PF.Segment(start - 1, S[k].func), U, Segs(r));
  }

  /**
   The first split of ucs_piecewise_func_add_segment when the range starts
   strictly inside segment k and reaches its end or beyond: cut it at
   start - 1 and move to the piece starting at `start`.
   */
  method SplitStart(a: ArrayFunc, seg: nat, ghost k: nat, start: nat)
    returns (r: ArrayFunc, next: nat)
    requires Rep(a) && FreeCount(a) >= 1 && k < |Segs(a)| && seg == Chain(a).value[k]
    requires PF.SegStart(Segs(a), k) < start <= Segs(a)[k].end
    ensures Rep(r) && k + 1 < |Segs(r)| && next == Chain(r).value[k + 1]
    ensures Segs(r) == Segs(a)[..k] + [PF.Segment(start - 1, Segs(a)[k].func)] + Segs(a)[k..]
    ensures FreeCount(r) + 1 == FreeCount(a) && |Segs(r)| == |Segs(a)| + 1
    ensures PF.SegStart(Segs(r), k + 1) == start
  {
    var cut := start - 1;
    r := SplitEnd(a, seg, k, cut);
    SlotAt(r, k);
    next := r.slots[seg].next;
  }

  /** add_segment from segment k when the range starts strictly inside it and ends inside it too. */
  method AddFromMiddle(a: ArrayFunc, seg: nat, ghost k: nat, segStart: nat, start: nat, end: nat, t: LinearFunc)
    returns (r: ArrayFunc)
    requires Rep(a) && k < |Segs(a)| && seg == Chain(a).value[k]
    requires segStart == PF.SegStart(Segs(a), k) && segStart < start <= end < Segs(a)[k].end && end <= SizeMax
    requires FreeCount(a) + PF.AddRangeFrom(Segs(a)[k..], segStart, start, end, t, 2).mem >= 2
    ensures Rep(r)
    ensures Segs(r) == Segs(a)[..k] + PF.AddRangeFrom(Segs(a)[k..], segStart, start, end, t, 2).segs
    ensures FreeCount(r) + |Segs(r)| == FreeCount(a) + |Segs(a)|
    ensures FreeCount(r) + 2 == FreeCount(a) + PF.AddRangeFrom(Segs(a)[k..], segStart, start, end, t, 2).mem
  {
    ghost var S := Segs(a);
    FirstSplitCases(S, k, segStart, start, end, t);
    var cur, next := SplitMiddle(a, seg, k, start, end);
    r := CoverSegments(cur, next, k + 1, end, t, 1);
  }

  /** add_segment from segment k when the range starts strictly inside it and reaches its end. */
  method AddFromStart(a: ArrayFunc, seg: nat, ghost k: nat, segStart: nat, start: nat, end: nat, t: LinearFunc)
    returns (r: ArrayFunc)
    requires Rep(a) && k < |Segs(a)| && seg == Chain(a).value[k]
    requires segStart == PF.SegStart(Segs(a), k) && segStart < start <= Segs(a)[k].end <= end <= SizeMax
    requires FreeCount(a) + PF.AddRangeFrom(Segs(a)[k..], segStart, start, end, t, 2).mem >= 2
    ensures Rep(r)
    ensures Segs(r) == Segs(a)[..k] + PF.AddRangeFrom(Segs(a)[k..], segStart, start, end, t, 2).segs
    ensures FreeCount(r) + |Segs(r)| == FreeCount(a) + |Segs(a)|
    ensures FreeCount(r) + 2 == FreeCount(a) + PF.AddRangeFrom(Segs(a)[k..], segStart, start, end, t, 2).mem
  {
    ghost var S := Segs(a);
    FirstSplitCases(S, k, segStart, start, end, t);
    PF.CoverFromMem(S[k..], end, t, 1);
    assert FreeCount(a) >= 1;
    var cur, next := SplitStart(a, seg, k, start);
    assert Segs(cur)[k + 1..] == S[k..];
    r := CoverSegments(cur, next, k + 1, end, t, 1);
  }

  /** add_segment from segment k when the range starts where segment k starts. */
  method AddFromAligned(a: ArrayFunc, seg: nat, ghost k: nat, start: nat, end: nat, t: LinearFunc)
    returns (r: ArrayFunc)
    requires Rep(a) && k < |Segs(a)| && seg == Chain(a).value[k]
    requires start == PF.SegStart(Segs(a), k) && start <= Segs(a)[k].end && start <= end <= SizeMax
    requires FreeCount(a) + PF.AddRangeFrom(Segs(a)[k..], start, start, end, t, 2).mem >= 2
    ensures Rep(r)
    ensures Segs(r) == Segs(a)[..k] + PF.AddRangeFrom(Segs(a)[k..], start, start, end, t, 2).segs
    ensures FreeCount(r) + |Segs(r)| == FreeCount(a) + |Segs(a)|
    ensures FreeCount(r) + 2 == FreeCount(a) + PF.AddRangeFrom(Segs(a)[k..], start, start, end, t, 2).mem
  {
    r := CoverSegments(a, seg, k, end, t, 2);
  }

  /**
   ucs_piecewise_func_add_segment: add t on the inclusive range [start, end].
   Given a free slot for every segment the range starts or ends strictly
   inside, the result is the list model's add_range, so the function gains t
   exactly on the range; each of those splits moves one slot from the free
   list into the chain, and afterwards `end` is a segment end.
   */
  method AddSegment(a: ArrayFunc, start: nat, end: nat, t: LinearFunc) returns (r: ArrayFunc)
    requires Rep(a) && start <= end <= SizeMax && FreeCount(a) >= PF.Splits(Segs(a), 0, start, end)
    ensures Rep(r)
    ensures Segs(r) == PF.AddRange(Segs(a), start, end, t, 2).segs
    ensures FreeCount(r) + PF.Splits(Segs(a), 0, start, end) == FreeCount(a)
    ensures FreeCount(r) + |Segs(r)| == FreeCount(a) + |Segs(a)|
    ensures PF.IsEnd(Segs(r), end)
    ensures forall x: nat {:trigger PF.Apply(Segs(r), x)} ::
              PF.Apply(Segs(r), x) == PF.Apply(Segs(a), x) + (if start <= x <= end then t.Apply(x as real) else 0.0)
  {
    ghost var S := Segs(a);
    PF.AddRangeSplits(S, start, end, t, 2);
    var seg, segStart, k := FindStart(a, start);
    AddRangeSkipTo(S, 0, k, start, end, t, 2);
    AddRangeSkipMem(S, 0, k, start, end, t, 2);
    r := AddFrom(a, seg, k, segStart, start, end, t);
    ghost var added := PF.AddRange(S, start, end, t, 2);
  }

  /** The three ways add_segment handles the segment holding `start`. */
  method AddFrom(a: ArrayFunc, seg: nat, ghost k: nat, segStart: nat, start: nat, end: nat, t: LinearFunc)
    returns (r: ArrayFunc)
    requires Rep(a) && k < |Segs(a)| && seg == Chain(a).value[k]
    requires segStart == PF.SegStart(Segs(a), k) && segStart <= start <= Segs(a)[k].end && start <= end <= SizeMax
    requires FreeCount(a) + PF.AddRangeFrom(Segs(a)[k..], segStart, start, end, t, 2).mem >= 2
    ensures Rep(r)
    ensures Segs(r) == Segs(a)[..k] + PF.AddRangeFrom(Segs(a)[k..], segStart, start, end, t, 2).segs
    ensures FreeCount(r) + |Segs(r)| == FreeCount(a) + |Segs(a)|
    ensures FreeCount(r) + 2 == FreeCount(a) + PF.AddRangeFrom(Segs(a)[k..], segStart, start, end, t, 2).mem
  {
    SlotAt(a, k);
    if segStart == start {
      r := AddFromAligned(a, seg, k, start, end, t);
    } else if a.slots[seg].end > end {
      r := AddFromMiddle(a, seg, k, segStart, start, end, t);
    } else {
      r := AddFromStart(a, seg, k, segStart, start, end, t);
    }
  }

  /** Where the first k segments of src end: every point below it is covered by them. */
  function Covered(src: seq<PF.Segment>, k: nat): nat
    requires k <= |src|
  {
    if k == 0 then 0 else src[k - 1].end + 1
  }

  /** Segment k of a valid function starts no later than it ends, and only the last ends at SIZE_MAX. */
  lemma SegBounds(S: seq<PF.Segment>, k: nat)
    requires PF.Valid(S) && k < |S|
    ensures PF.SegStart(S, k) <= S[k].end <= SizeMax
    ensures k + 1 < |S| ==> S[k].end < SizeMax
  {
    PF.AscendingIff(S, 0);
    if k > 0 {
      assert S[k - 1].end < S[k].end;
    }
    if k + 1 < |S| {
      assert S[k].end < S[|S| - 1].end;
    }
  }

  /** `after` is `before` plus src on every point below `bound`. */
  ghost predicate SumBelow(before: seq<PF.Segment>, after: seq<PF.Segment>, src: seq<PF.Segment>, bound: nat)
  {
    forall x: nat {:trigger PF.Apply(after, x)} :: x <= SizeMax ==>
      PF.Apply(after, x) == PF.Apply(before, x) + (if x < bound then PF.Apply(src, x) else 0.0)
  }

  /** Adding src's segment k on its own range extends the covered prefix by that segment. */
  lemma SumBelowStep(before: seq<PF.Segment>, mid: seq<PF.Segment>, after: seq<PF.Segment>, src: seq<PF.Segment>, k: nat)
    requires PF.Valid(src) && k < |src|
    requires SumBelow(before, mid, src, Covered(src, k))
    requires forall x: nat {:trigger PF.Apply(after, x)} ::
               PF.Apply(after, x) == PF.Apply(mid, x) +
                 (if PF.SegStart(src, k) <= x <= src[k].end then src[k].func.Apply(x as real) else 0.0)
    ensures SumBelow(before, after, src, Covered(src, k + 1))
  {
    SegBounds(src, k);
    forall x: nat | x <= SizeMax
      ensures PF.Apply(after, x) == PF.Apply(before, x) + (if x < Covered(src, k + 1) then PF.Apply(src, x) else 0.0)
    {
      assert PF.Apply(mid, x) == PF.Apply(before, x) + (if x < Covered(src, k) then PF.Apply(src, x) else 0.0);
      assert Covered(src, k) == PF.SegStart(src, k) && Covered(src, k + 1) == src[k].end + 1;
      var added := if PF.SegStart(src, k) <= x <= src[k].end then src[k].func.Apply(x as real) else 0.0;
      assert PF.Apply(after, x) == PF.Apply(mid, x) + added;
      if PF.SegStart(src, k) <= x <= src[k].end {
        PF.ApplyInSegment(src, k, x);
        assert added == PF.Apply(src, x);
      }
    }
  }

  /**
   The splits of pass k of add_inplace: none where the range starts, since
   that is 0 or a segment end the previous pass left, and none at the end of
   the last range, SIZE_MAX.
   */
  lemma PassSplits(D: seq<PF.Segment>, B: seq<PF.Segment>, k: nat, prevEnd: nat)
    requires PF.Valid(D) && PF.Valid(B) && k < |B|
    requires k > 0 ==> PF.SegStart(B, k) == prevEnd + 1 && PF.IsEnd(D, prevEnd)
    ensures PF.Splits(D, 0, PF.SegStart(B, k), B[k].end) <= if k + 1 == |B| then 0 else 1
  {
    assert PF.IsStart(D, 0, PF.SegStart(B, k));
    PF.LastIsEnd(D);
  }

  /**
   One pass of the add_inplace loop: add src's segment k to dst on that
   segment's range. The range starts where the previous pass left a segment
   end (or at 0), so no segment is cut there; the last range ends at
   SIZE_MAX, where dst always has a segment end. So every pass but the last
   takes at most one free slot and the last takes none.
   */
  method AddSourceSegment(ghost before: seq<PF.Segment>, dst: ArrayFunc, ghost B: seq<PF.Segment>, ghost k: nat,
                          start: nat, end: nat, f: LinearFunc, ghost prevEnd: nat)
    returns (r: ArrayFunc)
    requires Rep(dst) && PF.Valid(B) && k < |B| && start == PF.SegStart(B, k) && B[k] == PF.Segment(end, f)
    requires k > 0 ==> start == prevEnd + 1 && PF.IsEnd(Segs(dst), prevEnd)
    requires FreeCount(dst) + k + 1 >= |B|
    requires SumBelow(before, Segs(dst), B, Covered(B, k))
    ensures Rep(r) && FreeCount(r) + k + 2 >= |B|
    ensures k + 1 == |B| ==> FreeCount(r) == FreeCount(dst)
    ensures FreeCount(r) + |Segs(r)| == FreeCount(dst) + |Segs(dst)|
    ensures PF.IsEnd(Segs(r), end)
    ensures SumBelow(before, Segs(r), B, Covered(B, k + 1))
  {
    SegBounds(B, k);
    PassSplits(Segs(dst), B, k, prevEnd);
    r := AddSegment(dst, start, end, f);
    SumBelowStep(before, Segs(dst), Segs(r), B, k);
  }

  /**
   The step of the add_inplace loop: the start of the next source segment is
   one past this one's end (wrapping to 0 after SIZE_MAX), and the walk stops
   when the next index is 0.
   */
  method NextSource(src: ArrayFunc, seg: nat, ghost k: nat) returns (next: nat, nextStart: nat, done: bool)
    requires Rep(src) && k < |Segs(src)| && seg == Chain(src).value[k]
    ensures done <==> k + 1 == |Segs(src)|
    ensures !done ==> next == Chain(src).value[k + 1] && nextStart == PF.SegStart(Segs(src), k + 1)
  {
    ChainEnds(src, k);
    SlotAt(src, k);
    SegBounds(Segs(src), k);
    nextStart := WrapAdd(src.slots[seg].end, 1);
    next := src.slots[seg].next;
    done := next == 0;
  }

  /**
   ucs_piecewise_func_add_inplace: add every segment of src to dst with
   add_segment, following src's chain until it links back to slot 0. With
   one free slot in dst per segment of src but the last, dst gains src at
   every point.
   */
  method AddInplace(dst: ArrayFunc, src: ArrayFunc) returns (r: ArrayFunc)
    requires Rep(dst) && Rep(src) && FreeCount(dst) + 1 >= |Segs(src)|
    ensures Rep(r)
    ensures FreeCount(r) + |Segs(r)| == FreeCount(dst) + |Segs(dst)|
    ensures forall x: nat {:trigger PF.Apply(Segs(r), x)} :: x <= SizeMax ==>
              PF.Apply(Segs(r), x) == PF.Apply(Segs(dst), x) + PF.Apply(Segs(src), x)
  {
    RepElim(src);
    r := AddSourceFrom(Segs(dst), dst, src, 0, 0, 0, 0);
  }

  /**
   The do-while loop of add_inplace from source segment k on: `dst` already
   holds `before` plus src below that segment's start.
   */
  method AddSourceFrom(ghost before: seq<PF.Segment>, dst: ArrayFunc, src: ArrayFunc, seg: nat, ghost k: nat, segStart: nat,
                       ghost prevEnd: nat)
    returns (r: ArrayFunc)
    requires Rep(dst) && Rep(src)
    requires k < |Segs(src)| && seg == Chain(src).value[k] && segStart == PF.SegStart(Segs(src), k)
    requires k > 0 ==> segStart == prevEnd + 1 && PF.IsEnd(Segs(dst), prevEnd)
    requires FreeCount(dst) + k + 1 >= |Segs(src)|
    requires SumBelow(before, Segs(dst), Segs(src), Covered(Segs(src), k))
    ensures Rep(r)
    ensures FreeCount(r) + |Segs(r)| == FreeCount(dst) + |Segs(dst)|
    ensures SumBelow(before, Segs(r), Segs(src), SizeMax + 1)
    decreases |Segs(src)| - k
  {
    SlotAt(src, k);
    var end := src.slots[seg].end;
    var cur := AddSourceSegment(before, dst, Segs(src), k, segStart, end, src.slots[seg].func, prevEnd);
    var next, nextStart, done := NextSource(src, seg, k);
    if done {
      r := cur;
      SegBounds(Segs(src), k);
    } else {
      r := AddSourceFrom(before, cur, src, next, k + 1, nextStart, end);
    }
  }
}
