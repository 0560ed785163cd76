/**
 The multi-factor protocol performance container of
 src/ucp/proto/proto_perf.c: an ordered list of inclusive segments
 [start, end], possibly with gaps between them, each holding one linear
 function per performance factor. Perf nodes, names and the text dump are
 not part of this model.
 */
module ProtoPerf {
  import opened Basics
  import opened Linear

  /**
   Factor ids. LOCAL_CPU .. LATENCY follow the enumeration of proto_perf.h;
   SINGLE and MULTI are the two extra factors proto_perf.c names, which that
   enumeration lacks. Nothing below depends on the order beyond the four
   local/remote slots.
   */
  const LocalCpu: nat := 0
  const RemoteCpu: nat := 1
  const LocalTl: nat := 2
  const RemoteTl: nat := 3
  const Latency: nat := 4
  const Single: nat := 5
  const Multi: nat := 6
  const FactorCount: nat := 7

  /** One linear function per factor (ucp_proto_perf_factors_t). */
  type Factors = fs: seq<LinearFunc> | |fs| == FactorCount witness [Zero, Zero, Zero, Zero, Zero, Zero, Zero]

  const ZeroFactors: Factors := [Zero, Zero, Zero, Zero, Zero, Zero, Zero]

  datatype PerfSegment = PerfSegment(start: nat, end: nat, factors: Factors)

  type Perf = seq<PerfSegment>

  /** Status of a mutating call, the resulting segment list and the allocation budget left. */
  datatype Outcome = Outcome(status: Status, perf: Perf, mem: nat)

  function Cons(s: PerfSegment, o: Outcome): Outcome
  {
    o.(perf := [s] + o.perf)
  }

  /** factors[id] += f, as ucs_linear_func_add_inplace on one factor. */
  function AddFactor(fs: Factors, id: nat, f: LinearFunc): (r: Factors)
    requires id < FactorCount
    ensures r[id] == fs[id].Add(f)
    ensures forall j :: 0 <= j < FactorCount && j != id ==> r[j] == fs[j]
  {
    fs[id := fs[id].Add(f)]
  }

  /**
   ucp_proto_perf_check from minimum start `minStart`: every segment has
   minStart <= start <= end, the next segment starts after this one ends,
   and a segment ending at SizeMax is the last.
   */
  predicate CheckFrom(segs: Perf, minStart: nat)
    decreases |segs|
  {
    |segs| == 0 ||
    (minStart <= segs[0].start <= segs[0].end <= SizeMax &&
     (if segs[0].end == SizeMax then |segs| == 1 else CheckFrom(segs[1..], segs[0].end + 1)))
  }

  predicate Check(perf: Perf)
  {
    CheckFrom(perf, 0)
  }

  lemma CheckCons(s: PerfSegment, rest: Perf, lo: nat)
    ensures CheckFrom([s] + rest, lo) <==>
              (lo <= s.start <= s.end <= SizeMax &&
               (s.end == SizeMax ==> |rest| == 0) &&
               (s.end != SizeMax ==> CheckFrom(rest, s.end + 1)))
  {
    assert ([s] + rest)[1..] == rest;
  }

  lemma {:induction false} CheckWeaken(segs: Perf, lo: nat, hi: nat)
    requires CheckFrom(segs, hi) && lo <= hi
    ensures CheckFrom(segs, lo)
  {
  }

  /** The checked order, stated pairwise: segments are disjoint and sorted by position. */
  lemma {:induction false} CheckSorted(segs: Perf, lo: nat)
    requires CheckFrom(segs, lo)
    ensures forall j :: 0 <= j < |segs| ==> lo <= segs[j].start <= segs[j].end <= SizeMax
    ensures forall j, k :: 0 <= j < k < |segs| ==> segs[j].end < segs[k].start
    decreases |segs|
  {
    if |segs| > 1 {
      var t := segs[1..];
      CheckSorted(t, segs[0].end + 1);
      forall j, k | 0 <= j < k < |segs| ensures segs[j].end < segs[k].start {
        assert segs[k] == t[k - 1];
        if j > 0 { assert segs[j] == t[j - 1]; }
      }
      forall j | 0 <= j < |segs| ensures lo <= segs[j].start <= segs[j].end <= SizeMax {
        if j > 0 { assert segs[j] == t[j - 1]; }
      }
    }
  }

  /** ucp_proto_perf_create: a new structure has no segments. */
  function Create(mem: nat): (r: Outcome)
    ensures r.status == Ok <==> mem > 0
    ensures r.status == Ok ==> r.perf == [] && Check(r.perf)
  {
    if mem == 0 then Outcome(NoMemory, [], mem) else Outcome(Ok, [], mem - 1)
  }

  /** ucp_proto_perf_is_empty, declared in proto_perf.h; its body is not part of this model, so empty is read as holding no segment. */
  predicate IsEmpty(perf: Perf)
  {
    |perf| == 0
  }

  /**
   ucp_proto_perf_segment_new, after its allocation succeeded: the segment
   [start, end] with every factor zero.
   */
  function SegmentNew(start: nat, end: nat): (s: PerfSegment)
    requires start <= end
    ensures s.start == start && s.end == end
    ensures forall j :: 0 <= j < FactorCount ==> s.factors[j] == Zero
  {
    PerfSegment(start, end, ZeroFactors)
  }

  /**
   ucp_proto_perf_segment_split, after its allocation succeeded: seg becomes
   [seg.start, e] and a copy [e + 1, seg.end] with the same factors follows.
   */
  function SegmentSplit(seg: PerfSegment, e: nat): (r: (PerfSegment, PerfSegment))
    requires e < seg.end
    ensures r.0.start == seg.start && r.0.end == e && r.1.start == e + 1 && r.1.end == seg.end
    ensures r.0.factors == seg.factors && r.1.factors == seg.factors
  {
    (seg.(end := e), seg.(start := e + 1))
  }

  /** ucp_proto_perf_find_segment_lb: the first segment ending at or after lb. */
  function FindSegmentLb(perf: Perf, lb: nat): (r: Option<nat>)
    ensures r.Some? ==> r.value < |perf| && lb <= perf[r.value].end
    ensures r.Some? ==> forall j :: 0 <= j < r.value ==> perf[j].end < lb
    ensures r.None? ==> forall j :: 0 <= j < |perf| ==> perf[j].end < lb
    decreases |perf|
  {
    if |perf| == 0 then None
    else if lb <= perf[0].end then Some(0)
    else match FindSegmentLb(perf[1..], lb)
      case None => None
      case Some(i) => Some(i + 1)
  }

  /** ucp_proto_perf_segment_last: the last segment, if any. */
  function SegmentLast(perf: Perf): (r: Option<nat>)
    ensures r.None? <==> IsEmpty(perf)
    ensures r.Some? ==> r.value == |perf| - 1
  {
    if |perf| == 0 then None else Some(|perf| - 1)
  }

  /**
   The factors that hold at point x: those of the segment FindSegmentLb
   returns when it really contains x, none when x falls in a gap or past the end.
   */
  function FactorsAt(perf: Perf, x: nat): Option<Factors>
  {
    match FindSegmentLb(perf, x)
    case None => None
    case Some(i) => if perf[i].start <= x then Some(perf[i].factors) else None
  }

  lemma FactorsAtCons(s: PerfSegment, rest: Perf, x: nat)
    ensures FactorsAt([s] + rest, x) ==
              if x <= s.end then (if s.start <= x then Some(s.factors) else None)
              else FactorsAt(rest, x)
  {
    assert ([s] + rest)[1..] == rest;
    if x > s.end {
      match FindSegmentLb(rest, x)
      case None =>
      case Some(i) => assert ([s] + rest)[i + 1] == rest[i];
    }
  }

  /**
   The header's contract of find_segment_lb on a checked structure: when a
   segment contains lb it is the one returned; when none contains it, the
   returned segment lies wholly above lb.
   */
  lemma FindSegmentLbContains(perf: Perf, lb: nat)
    requires Check(perf)
    ensures forall i :: 0 <= i < |perf| && perf[i].start <= lb <= perf[i].end ==> FindSegmentLb(perf, lb) == Some(i)
    ensures FactorsAt(perf, lb).None? && FindSegmentLb(perf, lb).Some? ==> lb < perf[FindSegmentLb(perf, lb).value].start
  {
    CheckSorted(perf, 0);
  }

  /** A checked structure is empty exactly when no size has factors. */
  lemma EmptyIffUncovered(perf: Perf)
    requires Check(perf)
    ensures IsEmpty(perf) <==> forall x :: FactorsAt(perf, x).None?
  {
    if !IsEmpty(perf) {
      FindSegmentLbContains(perf, perf[0].start);
      assert FactorsAt(perf, perf[0].start).Some?;
    }
  }

  /** The factors of a point, zero where nothing is defined yet. */
  function OrZero(o: Option<Factors>): Factors
  {
    if o.Some? then o.value else ZeroFactors
  }

  /** The factors after adding f to factor id at x, when x lies in [start, end]. */
  function Updated(o: Option<Factors>, x: nat, start: nat, end: nat, id: nat, f: LinearFunc): Option<Factors>
    requires id < FactorCount
  {
    if start <= x <= end then
      Some(AddFactor(OrZero(o), id, f))
    else o
  }

  /** Every point from lo on has the factors Updated promises. */
  ghost predicate AddsFunc(before: Perf, after: Perf, lo: nat, start: nat, end: nat, id: nat, f: LinearFunc)
    requires id < FactorCount
  {
    forall x: nat {:trigger FactorsAt(after, x)} :: lo <= x ==>
      FactorsAt(after, x) == Updated(FactorsAt(before, x), x, start, end, id, f)
  }

  /**
   The next `start` after a segment ending at e: seg->end + 1. With `wrap`
   it is the size_t sum, which is 0 after SizeMax; without, the unbounded one.
   */
  function NextStart(e: nat, wrap: bool): nat
  {
    if wrap then (e + 1) % (SizeMax + 1) else e + 1
  }

  /**
   The loop of ucp_proto_perf_add_func at the current segment segs[0], and
   the "remainder" append once the list is exhausted.
   */
  function AddFuncLoop(segs: Perf, start: nat, end: nat, id: nat, f: LinearFunc, mem: nat, wrap: bool): Outcome
    requires id < FactorCount
    decreases |segs|, 2
  {
    if |segs| == 0 then
      if start > end then Outcome(Ok, [], mem)
      else if mem == 0 then Outcome(NoMemory, [], mem)
      else
        var n := SegmentNew(start, end);
        Outcome(Ok, [n.(factors := AddFactor(n.factors, id, f))], mem - 1)
    else if start > end then Outcome(Ok, segs, mem)
    else if start > segs[0].end then Cons(segs[0], AddFuncLoop(segs[1..], start, end, id, f, mem, wrap))
    else if start < segs[0].start then
      // fill the gap before the current segment
      if mem == 0 then Outcome(NoMemory, segs, mem)
      else
        var n := SegmentNew(start, Min(end, segs[0].start - 1));
        var gap := n.(factors := AddFactor(n.factors, id, f));
        if end < segs[0].start then Outcome(Ok, [gap] + segs, mem - 1)
        else Cons(gap, AddFuncAligned(segs, end, id, f, mem - 1, wrap))
    else AddFuncInside(segs, start, end, id, f, mem, wrap)
  }

  /** The current segment contains start: split off the part before it. */
  function AddFuncInside(segs: Perf, start: nat, end: nat, id: nat, f: LinearFunc, mem: nat, wrap: bool): Outcome
    requires id < FactorCount
    requires |segs| > 0 && segs[0].start <= start <= segs[0].end && start <= end
    decreases |segs|, 1
  {
    if start > segs[0].start then
      if mem == 0 then Outcome(NoMemory, segs, mem)
      else
        var parts := SegmentSplit(segs[0], start - 1);
        Cons(parts.0, AddFuncAligned([parts.1] + segs[1..], end, id, f, mem - 1, wrap))
    else AddFuncAligned(segs, end, id, f, mem, wrap)
  }

  /** The current segment starts at `start`: split it at end, add f, move on. */
  function AddFuncAligned(segs: Perf, end: nat, id: nat, f: LinearFunc, mem: nat, wrap: bool): Outcome
    requires id < FactorCount
    requires |segs| > 0 && segs[0].start <= end
    decreases |segs|, 0
  {
    var s := segs[0];
    if end < s.end then
      if mem == 0 then Outcome(NoMemory, segs, mem)
      else
        var parts := SegmentSplit(s, end);
        Outcome(Ok, [parts.0.(factors := AddFactor(parts.0.factors, id, f)), parts.1] + segs[1..], mem - 1)
    else
      Cons(s.(factors := AddFactor(s.factors, id, f)),
           AddFuncLoop(segs[1..], NextStart(s.end, wrap), end, id, f, mem, wrap))
  }

  /** What the loop keeps: a checked list and one of the two statuses the C code returns. */
  ghost predicate LoopShape(r: Outcome, lo: nat, mem: nat)
  {
    r.status in {Ok, NoMemory} && CheckFrom(r.perf, lo) && r.mem <= mem
  }

  lemma AddFuncExhausted(start: nat, end: nat, id: nat, f: LinearFunc, mem: nat, lo: nat)
    requires id < FactorCount && lo <= start && end <= SizeMax
    ensures LoopShape(AddFuncLoop([], start, end, id, f, mem, false), lo, mem)
    ensures AddFuncLoop([], start, end, id, f, mem, false).status == Ok ==>
              AddsFunc([], AddFuncLoop([], start, end, id, f, mem, false).perf, lo, start, end, id, f)
  {
    var r := AddFuncLoop([], start, end, id, f, mem, false);
    if start <= end && mem > 0 {
      var n := PerfSegment(start, end, AddFactor(ZeroFactors, id, f));
      assert r.perf == [n] + [];
      CheckCons(n, [], lo);
      forall x: nat | lo <= x ensures FactorsAt(r.perf, x) == Updated(FactorsAt([], x), x, start, end, id, f) {
        FactorsAtCons(n, [], x);
      }
    }
  }

  lemma AddFuncSkip(segs: Perf, start: nat, end: nat, id: nat, f: LinearFunc, mem: nat, lo: nat)
    requires id < FactorCount && |segs| > 0 && CheckFrom(segs, lo) && segs[0].end < start <= end <= SizeMax
    requires var rest := AddFuncLoop(segs[1..], start, end, id, f, mem, false);
      LoopShape(rest, segs[0].end + 1, mem) &&
      (rest.status == Ok ==> AddsFunc(segs[1..], rest.perf, segs[0].end + 1, start, end, id, f))
    ensures LoopShape(AddFuncLoop(segs, start, end, id, f, mem, false), lo, mem)
    ensures AddFuncLoop(segs, start, end, id, f, mem, false).status == Ok ==>
              AddsFunc(segs, AddFuncLoop(segs, start, end, id, f, mem, false).perf, lo, start, end, id, f)
  {
    var s := segs[0];
    var rest := AddFuncLoop(segs[1..], start, end, id, f, mem, false);
    var r := AddFuncLoop(segs, start, end, id, f, mem, false);
    assert segs == [s] + segs[1..];
    CheckCons(s, segs[1..], lo);
    CheckCons(s, rest.perf, lo);
    if r.status == Ok {
      forall x: nat | lo <= x ensures FactorsAt(r.perf, x) == Updated(FactorsAt(segs, x), x, start, end, id, f) {
        FactorsAtCons(s, rest.perf, x);
        FactorsAtCons(s, segs[1..], x);
      }
    }
  }

  /** A new gap segment [start, s.start - 1] holding f in front of the result for the rest of the range. */
  lemma ConsGap(segs: Perf, rest: Outcome, start: nat, end: nat, id: nat, f: LinearFunc, mem: nat, lo: nat)
    requires id < FactorCount && |segs| > 0 && lo <= start < segs[0].start <= end <= SizeMax
    requires segs[0].start <= segs[0].end
    requires LoopShape(rest, segs[0].start, mem)
    requires rest.status == Ok ==> AddsFunc(segs, rest.perf, segs[0].start, segs[0].start, end, id, f)
    ensures LoopShape(Cons(PerfSegment(start, segs[0].start - 1, AddFactor(ZeroFactors, id, f)), rest), lo, mem)
    ensures rest.status == Ok ==>
              AddsFunc(segs, Cons(PerfSegment(start, segs[0].start - 1, AddFactor(ZeroFactors, id, f)), rest).perf, lo, start, end, id, f)
  {
    var s := segs[0];
    var gap := PerfSegment(start, s.start - 1, AddFactor(ZeroFactors, id, f));
    assert segs == [s] + segs[1..];
    CheckCons(gap, rest.perf, lo);
    if rest.status == Ok {
      forall x: nat | lo <= x ensures FactorsAt([gap] + rest.perf, x) == Updated(FactorsAt(segs, x), x, start, end, id, f) {
        FactorsAtCons(gap, rest.perf, x);
        FactorsAtCons(s, segs[1..], x);
      }
    }
  }

  /** The whole range lies in the gap before segs: one new segment holding f goes in front. */
  lemma GapOnly(segs: Perf, start: nat, end: nat, id: nat, f: LinearFunc, lo: nat)
    requires id < FactorCount && |segs| > 0 && CheckFrom(segs, lo) && lo <= start <= end < segs[0].start
    ensures CheckFrom([PerfSegment(start, end, AddFactor(ZeroFactors, id, f))] + segs, lo)
    ensures AddsFunc(segs, [PerfSegment(start, end, AddFactor(ZeroFactors, id, f))] + segs, lo, start, end, id, f)
  {
    var s := segs[0];
    var gap := PerfSegment(start, end, AddFactor(ZeroFactors, id, f));
    assert segs == [s] + segs[1..];
    CheckCons(s, segs[1..], lo);
    CheckCons(gap, segs, lo);
    assert CheckFrom(segs, end + 1);
    forall x: nat | lo <= x ensures FactorsAt([gap] + segs, x) == Updated(FactorsAt(segs, x), x, start, end, id, f) {
      FactorsAtCons(gap, segs, x);
      FactorsAtCons(s, segs[1..], x);
    }
  }

  lemma AddFuncGap(segs: Perf, start: nat, end: nat, id: nat, f: LinearFunc, mem: nat, lo: nat)
    requires id < FactorCount && |segs| > 0 && CheckFrom(segs, lo) && lo <= start < segs[0].start && start <= end <= SizeMax
    requires mem > 0 && end >= segs[0].start ==>
      var rest := AddFuncAligned(segs, end, id, f, mem - 1, false);
      LoopShape(rest, segs[0].start, mem - 1) &&
      (rest.status == Ok ==> AddsFunc(segs, rest.perf, segs[0].start, segs[0].start, end, id, f))
    ensures LoopShape(AddFuncLoop(segs, start, end, id, f, mem, false), lo, mem)
    ensures AddFuncLoop(segs, start, end, id, f, mem, false).status == Ok ==>
              AddsFunc(segs, AddFuncLoop(segs, start, end, id, f, mem, false).perf, lo, start, end, id, f)
  {
    var s := segs[0];
    var r := AddFuncLoop(segs, start, end, id, f, mem, false);
    if mem > 0 {
      if end < s.start {
        assert r == Outcome(Ok, [PerfSegment(start, end, AddFactor(ZeroFactors, id, f))] + segs, mem - 1);
        GapOnly(segs, start, end, id, f, lo);
      } else {
        var rest := AddFuncAligned(segs, end, id, f, mem - 1, false);
        assert r == Cons(PerfSegment(start, s.start - 1, AddFactor(ZeroFactors, id, f)), rest);
        ConsGap(segs, rest, start, end, id, f, mem, lo);
      }
    }
  }

  lemma AddFuncSplitFirst(segs: Perf, start: nat, end: nat, id: nat, f: LinearFunc, mem: nat, lo: nat)
    requires id < FactorCount && |segs| > 0 && CheckFrom(segs, lo) && segs[0].start < start <= segs[0].end && start <= end <= SizeMax
    requires mem > 0 ==>
      var b := segs[0].(start := start);
      var rest := AddFuncAligned([b] + segs[1..], end, id, f, mem - 1, false);
      LoopShape(rest, start, mem - 1) &&
      (rest.status == Ok ==> AddsFunc([b] + segs[1..], rest.perf, start, start, end, id, f))
    ensures LoopShape(AddFuncInside(segs, start, end, id, f, mem, false), lo, mem)
    ensures AddFuncInside(segs, start, end, id, f, mem, false).status == Ok ==>
              AddsFunc(segs, AddFuncInside(segs, start, end, id, f, mem, false).perf, lo, start, end, id, f)
  {
    var s := segs[0];
    var r := AddFuncInside(segs, start, end, id, f, mem, false);
    if mem > 0 {
      var a := s.(end := start - 1);
      var b := s.(start := start);
      var rest := AddFuncAligned([b] + segs[1..], end, id, f, mem - 1, false);
      assert segs == [s] + segs[1..];
      CheckCons(s, segs[1..], lo);
      CheckCons(a, rest.perf, lo);
      if r.status == Ok {
        forall x: nat | lo <= x ensures FactorsAt(r.perf, x) == Updated(FactorsAt(segs, x), x, start, end, id, f) {
          FactorsAtCons(a, rest.perf, x);
          FactorsAtCons(s, segs[1..], x);
          FactorsAtCons(b, segs[1..], x);
        }
      }
    }
  }

  lemma AddFuncSplitLast(segs: Perf, end: nat, id: nat, f: LinearFunc, mem: nat, lo: nat)
    requires id < FactorCount && |segs| > 0 && CheckFrom(segs, lo) && segs[0].start <= end < segs[0].end
    ensures LoopShape(AddFuncAligned(segs, end, id, f, mem, false), lo, mem)
    ensures AddFuncAligned(segs, end, id, f, mem, false).status == Ok ==>
              AddsFunc(segs, AddFuncAligned(segs, end, id, f, mem, false).perf, lo, segs[0].start, end, id, f)
  {
    var s := segs[0];
    var r := AddFuncAligned(segs, end, id, f, mem, false);
    if mem > 0 {
      var a := s.(end := end, factors := AddFactor(s.factors, id, f));
      var b := s.(start := end + 1);
      assert segs == [s] + segs[1..];
      assert r.perf == [a] + ([b] + segs[1..]);
      CheckCons(s, segs[1..], lo);
      CheckCons(b, segs[1..], end + 1);
      CheckCons(a, [b] + segs[1..], lo);
      forall x: nat | lo <= x ensures FactorsAt(r.perf, x) == Updated(FactorsAt(segs, x), x, s.start, end, id, f) {
        FactorsAtCons(a, [b] + segs[1..], x);
        FactorsAtCons(b, segs[1..], x);
        FactorsAtCons(s, segs[1..], x);
      }
    }
  }

  /** A whole segment s that gained f in front of the result for the range after it. */
  lemma ConsWhole(s: PerfSegment, tail: Perf, rest: Outcome, end: nat, id: nat, f: LinearFunc, mem: nat, lo: nat)
    requires id < FactorCount && lo <= s.start <= s.end <= end <= SizeMax
    requires s.end == SizeMax ==> rest.perf == []
    requires LoopShape(rest, s.end + 1, mem)
    requires rest.status == Ok ==> AddsFunc(tail, rest.perf, s.end + 1, s.end + 1, end, id, f)
    ensures LoopShape(Cons(s.(factors := AddFactor(s.factors, id, f)), rest), lo, mem)
    ensures rest.status == Ok ==>
              AddsFunc([s] + tail, Cons(s.(factors := AddFactor(s.factors, id, f)), rest).perf, lo, s.start, end, id, f)
  {
    var a := s.(factors := AddFactor(s.factors, id, f));
    CheckCons(a, rest.perf, lo);
    if rest.status == Ok {
      forall x: nat | lo <= x ensures FactorsAt([a] + rest.perf, x) == Updated(FactorsAt([s] + tail, x), x, s.start, end, id, f) {
        FactorsAtCons(a, rest.perf, x);
        FactorsAtCons(s, tail, x);
      }
    }
  }

  lemma AddFuncWhole(segs: Perf, end: nat, id: nat, f: LinearFunc, mem: nat, lo: nat)
    requires id < FactorCount && |segs| > 0 && CheckFrom(segs, lo) && segs[0].end <= end <= SizeMax
    requires var rest := AddFuncLoop(segs[1..], segs[0].end + 1, end, id, f, mem, false);
      LoopShape(rest, segs[0].end + 1, mem) &&
      (rest.status == Ok ==> AddsFunc(segs[1..], rest.perf, segs[0].end + 1, segs[0].end + 1, end, id, f))
    ensures LoopShape(AddFuncAligned(segs, end, id, f, mem, false), lo, mem)
    ensures AddFuncAligned(segs, end, id, f, mem, false).status == Ok ==>
              AddsFunc(segs, AddFuncAligned(segs, end, id, f, mem, false).perf, lo, segs[0].start, end, id, f)
  {
    var s := segs[0];
    var rest := AddFuncLoop(segs[1..], s.end + 1, end, id, f, mem, false);
    assert segs == [s] + segs[1..];
    CheckCons(s, segs[1..], lo);
    assert AddFuncAligned(segs, end, id, f, mem, false) == Cons(s.(factors := AddFactor(s.factors, id, f)), rest);
    if s.end == SizeMax {
      assert rest.perf == [];
    }
    ConsWhole(s, segs[1..], rest, end, id, f, mem, lo);
  }

  lemma {:induction false} AddFuncAlignedSound(segs: Perf, end: nat, id: nat, f: LinearFunc, mem: nat, lo: nat)
    requires id < FactorCount && |segs| > 0 && CheckFrom(segs, lo) && segs[0].start <= end <= SizeMax
    ensures LoopShape(AddFuncAligned(segs, end, id, f, mem, false), lo, mem)
    ensures AddFuncAligned(segs, end, id, f, mem, false).status == Ok ==>
              AddsFunc(segs, AddFuncAligned(segs, end, id, f, mem, false).perf, lo, segs[0].start, end, id, f)
    decreases |segs|, 0
  {
    if end < segs[0].end {
      AddFuncSplitLast(segs, end, id, f, mem, lo);
    } else {
      assert segs == [segs[0]] + segs[1..];
      CheckCons(segs[0], segs[1..], lo);
      AddFuncLoopSound(segs[1..], segs[0].end + 1, end, id, f, mem, segs[0].end + 1);
      AddFuncWhole(segs, end, id, f, mem, lo);
    }
  }

  lemma {:induction false} AddFuncInsideSound(segs: Perf, start: nat, end: nat, id: nat, f: LinearFunc, mem: nat, lo: nat)
    requires id < FactorCount && |segs| > 0 && CheckFrom(segs, lo)
    requires segs[0].start <= start <= segs[0].end && start <= end <= SizeMax
    ensures LoopShape(AddFuncInside(segs, start, end, id, f, mem, false), lo, mem)
    ensures AddFuncInside(segs, start, end, id, f, mem, false).status == Ok ==>
              AddsFunc(segs, AddFuncInside(segs, start, end, id, f, mem, false).perf, lo, start, end, id, f)
    decreases |segs|, 1
  {
    if start > segs[0].start {
      if mem > 0 {
        var b := segs[0].(start := start);
        assert segs == [segs[0]] + segs[1..];
        CheckCons(segs[0], segs[1..], lo);
        CheckCons(b, segs[1..], start);
        AddFuncAlignedSound([b] + segs[1..], end, id, f, mem - 1, start);
      }
      AddFuncSplitFirst(segs, start, end, id, f, mem, lo);
    } else {
      AddFuncAlignedSound(segs, end, id, f, mem, lo);
    }
  }

  lemma {:induction false} AddFuncLoopSound(segs: Perf, start: nat, end: nat, id: nat, f: LinearFunc, mem: nat, lo: nat)
    requires id < FactorCount && CheckFrom(segs, lo) && lo <= start && end <= SizeMax
    ensures LoopShape(AddFuncLoop(segs, start, end, id, f, mem, false), lo, mem)
    ensures AddFuncLoop(segs, start, end, id, f, mem, false).status == Ok ==>
              AddsFunc(segs, AddFuncLoop(segs, start, end, id, f, mem, false).perf, lo, start, end, id, f)
    decreases |segs|, 2
  {
    if |segs| == 0 {
      AddFuncExhausted(start, end, id, f, mem, lo);
    } else if start > end {
    } else if start > segs[0].end {
      assert segs == [segs[0]] + segs[1..];
      CheckCons(segs[0], segs[1..], lo);
      AddFuncLoopSound(segs[1..], start, end, id, f, mem, segs[0].end + 1);
      AddFuncSkip(segs, start, end, id, f, mem, lo);
    } else if start < segs[0].start {
      if mem > 0 && end >= segs[0].start {
        AddFuncAlignedSound(segs, end, id, f, mem - 1, segs[0].start);
      }
      AddFuncGap(segs, start, end, id, f, mem, lo);
    } else {
      AddFuncInsideSound(segs, start, end, id, f, mem, lo);
    }
  }

  /**
   ucp_proto_perf_add_func with `start = seg->end + 1` computed without
   wrap-around (see AddFuncAsWritten for the C expression). Afterwards every
   point of [start, end] is covered and factor id has gained f there, points
   covered for the first time start from zero, and nothing else changes. The
   check invariant holds afterwards, also when an allocation fails midway.
   */
  function AddFunc(perf: Perf, start: nat, end: nat, id: nat, f: LinearFunc, mem: nat): (r: Outcome)
    requires Check(perf) && id < FactorCount && start <= SizeMax && end <= SizeMax
    ensures Check(r.perf) && r.status in {Ok, NoMemory} && r.mem <= mem
    ensures r.status == Ok ==>
              forall x: nat {:trigger FactorsAt(r.perf, x)} ::
                FactorsAt(r.perf, x) == Updated(FactorsAt(perf, x), x, start, end, id, f)
  {
    AddFuncLoopSound(perf, start, end, id, f, mem, 0);
    AddFuncLoop(perf, start, end, id, f, mem, false)
  }

  /**
   ucp_proto_perf_add_func as written: `start = seg->end + 1` is a size_t
   sum, so after a segment ending at SizeMax it is 0 and the remainder branch
   appends a segment [0, end] behind it.
   */
  function AddFuncAsWritten(perf: Perf, start: nat, end: nat, id: nat, f: LinearFunc, mem: nat): Outcome
    requires id < FactorCount
  {
    AddFuncLoop(perf, start, end, id, f, mem, true)
  }

  /**
   Adding over [0, SizeMax] to a structure that already covers [0, SizeMax]
   breaks the check invariant the C code asserts on exit.
   */
  lemma AddFuncAsWrittenWrapCounterexample(f: LinearFunc)
    ensures var perf := [PerfSegment(0, SizeMax, ZeroFactors)];
      var r := AddFuncAsWritten(perf, 0, SizeMax, LocalCpu, f, 1);
      && Check(perf)
      && r.status == Ok
      && |r.perf| == 2 && r.perf[0].end == SizeMax && r.perf[1].start == 0 && r.perf[1].end == SizeMax
      && !Check(r.perf)
  {
    var s := PerfSegment(0, SizeMax, ZeroFactors);
    var perf := [s];
    assert NextStart(SizeMax, true) == 0;
    assert perf[1..] == [];
    var n := PerfSegment(0, SizeMax, AddFactor(ZeroFactors, LocalCpu, f));
    var tail := AddFuncLoop([], 0, SizeMax, LocalCpu, f, 1, true);
    assert tail == Outcome(Ok, [n], 0);
    var r := AddFuncAsWritten(perf, 0, SizeMax, LocalCpu, f, 1);
    assert r == AddFuncInside(perf, 0, SizeMax, LocalCpu, f, 1, true);
    assert r == AddFuncAligned(perf, SizeMax, LocalCpu, f, 1, true);
    assert r == Cons(s.(factors := AddFactor(s.factors, LocalCpu, f)), tail);
    assert r.perf == [s.(factors := AddFactor(s.factors, LocalCpu, f)), n];
    assert r.perf[1..] == [n];
  }

  /** The two variants agree whenever the range stops short of SizeMax. */
  lemma {:induction false} AddFuncAsWrittenAgrees(segs: Perf, start: nat, end: nat, id: nat, f: LinearFunc, mem: nat)
    requires id < FactorCount && end < SizeMax
    ensures AddFuncLoop(segs, start, end, id, f, mem, true) == AddFuncLoop(segs, start, end, id, f, mem, false)
    decreases |segs|, 2
  {
    if |segs| > 0 && start <= end {
      if start > segs[0].end {
        AddFuncAsWrittenAgrees(segs[1..], start, end, id, f, mem);
      } else if start < segs[0].start {
        if mem > 0 && end >= segs[0].start {
          AlignedAgrees(segs, end, id, f, mem - 1);
        }
      } else {
        InsideAgrees(segs, start, end, id, f, mem);
      }
    }
  }

  lemma {:induction false} InsideAgrees(segs: Perf, start: nat, end: nat, id: nat, f: LinearFunc, mem: nat)
    requires id < FactorCount && end < SizeMax
    requires |segs| > 0 && segs[0].start <= start <= segs[0].end && start <= end
    ensures AddFuncInside(segs, start, end, id, f, mem, true) == AddFuncInside(segs, start, end, id, f, mem, false)
    decreases |segs|, 1
  {
    if start > segs[0].start {
      if mem > 0 {
        AlignedAgrees([segs[0].(start := start)] + segs[1..], end, id, f, mem - 1);
      }
    } else {
      AlignedAgrees(segs, end, id, f, mem);
    }
  }

  lemma {:induction false} AlignedAgrees(segs: Perf, end: nat, id: nat, f: LinearFunc, mem: nat)
    requires id < FactorCount && end < SizeMax
    requires |segs| > 0 && segs[0].start <= end
    ensures AddFuncAligned(segs, end, id, f, mem, true) == AddFuncAligned(segs, end, id, f, mem, false)
    decreases |segs|, 0
  {
    if segs[0].end <= end {
      assert NextStart(segs[0].end, true) == NextStart(segs[0].end, false);
      AddFuncAsWrittenAgrees(segs[1..], segs[0].end + 1, end, id, f, mem);
    }
  }

  /** Factor-wise sum of two factor vectors. */
  function AddAll(a: Factors, b: Factors): (r: Factors)
    ensures forall j :: 0 <= j < FactorCount ==> r[j] == a[j].Add(b[j])
  {
    [a[0].Add(b[0]), a[1].Add(b[1]), a[2].Add(b[2]), a[3].Add(b[3]), a[4].Add(b[4]), a[5].Add(b[5]), a[6].Add(b[6])]
  }

  /** The first `count` functions of fs, zero beyond. */
  function PrefixFactors(fs: Factors, count: nat): (r: Factors)
    ensures forall j :: 0 <= j < FactorCount ==> r[j] == if j < count then fs[j] else Zero
  {
    [PrefixAt(fs, count, 0), PrefixAt(fs, count, 1), PrefixAt(fs, count, 2), PrefixAt(fs, count, 3),
     PrefixAt(fs, count, 4), PrefixAt(fs, count, 5), PrefixAt(fs, count, 6)]
  }

  function PrefixAt(fs: Factors, count: nat, j: nat): LinearFunc
    requires j < FactorCount
  {
    if j < count then fs[j] else Zero
  }

  /** Every point of [start, end] is covered and has gained fs; every other point is unchanged. */
  ghost predicate AddsFuncs(before: Perf, after: Perf, start: nat, end: nat, fs: Factors)
  {
    forall x: nat {:trigger FactorsAt(after, x)} ::
      FactorsAt(after, x) ==
        if start <= x <= end then Some(AddAll(OrZero(FactorsAt(before, x)), fs)) else FactorsAt(before, x)
  }

  /**
   ucp_proto_perf_add_funcs (declared in proto_perf.h; its body is not part
   of this model), taken as one add_func per factor in id order, here for the
   first `count` factors of `fs`.
   */
  function AddFuncsUpTo(perf: Perf, start: nat, end: nat, fs: Factors, count: nat, mem: nat): (r: Outcome)
    requires Check(perf) && start <= SizeMax && end <= SizeMax && 0 < count <= FactorCount
    ensures Check(r.perf) && r.status in {Ok, NoMemory}
    ensures r.status == Ok ==> AddsFuncs(perf, r.perf, start, end, PrefixFactors(fs, count))
    decreases count
  {
    var r := if count == 1 then Outcome(Ok, perf, mem) else AddFuncsUpTo(perf, start, end, fs, count - 1, mem);
    if r.status != Ok then r
    else
      var r' := AddFunc(r.perf, start, end, count - 1, fs[count - 1], r.mem);
      if r'.status != Ok then r'
      else
        AddFuncsStep(perf, r.perf, r'.perf, start, end, fs, count);
        r'
  }

  /** One more add_func turns the sum with the first count-1 functions into the sum with the first count. */
  lemma StepFactors(g: Factors, fs: Factors, count: nat)
    requires 0 < count <= FactorCount
    ensures AddFactor(if count == 1 then g else AddAll(g, PrefixFactors(fs, count - 1)), count - 1, fs[count - 1])
            == AddAll(g, PrefixFactors(fs, count))
  {
    var m := if count == 1 then g else AddAll(g, PrefixFactors(fs, count - 1));
    var want := AddAll(g, PrefixFactors(fs, count));
    var got := AddFactor(m, count - 1, fs[count - 1]);
    forall j | 0 <= j < FactorCount ensures got[j] == want[j] {
      ZeroIsIdentity(g[j]);
      ZeroIsIdentity(fs[j]);
    }
  }

  lemma AddFuncsStep(perf: Perf, mid: Perf, r: Perf, start: nat, end: nat, fs: Factors, count: nat)
    requires 0 < count <= FactorCount
    requires count == 1 ==> mid == perf
    requires count > 1 ==> AddsFuncs(perf, mid, start, end, PrefixFactors(fs, count - 1))
    requires forall x: nat {:trigger FactorsAt(r, x)} ::
               FactorsAt(r, x) == Updated(FactorsAt(mid, x), x, start, end, count - 1, fs[count - 1])
    ensures AddsFuncs(perf, r, start, end, PrefixFactors(fs, count))
  {
    forall x: nat
      ensures FactorsAt(r, x) ==
                if start <= x <= end then Some(AddAll(OrZero(FactorsAt(perf, x)), PrefixFactors(fs, count)))
                else FactorsAt(perf, x)
    {
      assert FactorsAt(r, x) == Updated(FactorsAt(mid, x), x, start, end, count - 1, fs[count - 1]);
      if start <= x <= end {
        StepFactors(OrZero(FactorsAt(perf, x)), fs, count);
      } else if count > 1 {
        assert FactorsAt(mid, x) == FactorsAt(perf, x);
      }
    }
  }

  /**
   ucp_proto_perf_add_funcs: every factor gains its function on [start, end]
   and the points there that were not covered start from zero.
   */
  function AddFuncs(perf: Perf, start: nat, end: nat, fs: Factors, mem: nat): (r: Outcome)
    requires Check(perf) && start <= SizeMax && end <= SizeMax
    ensures Check(r.perf) && r.status in {Ok, NoMemory}
    ensures r.status == Ok ==>
              forall x: nat {:trigger FactorsAt(r.perf, x)} ::
                FactorsAt(r.perf, x) ==
                  if start <= x <= end then
                    Some(AddAll(OrZero(FactorsAt(perf, x)), fs))
                  else FactorsAt(perf, x)
  {
    assert PrefixFactors(fs, FactorCount) == fs;
    AddFuncsUpTo(perf, start, end, fs, FactorCount, mem)
  }
}
