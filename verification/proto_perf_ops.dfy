/**
 Whole-structure operations on protocol performance data: building it from a
 protocol's capability ranges (proto_perf.c), the range-clipping iterator,
 and the aggregate and turn_remote operations whose contracts proto_perf.h
 states in its doc-comments.
 */
module ProtoPerfOps {
  import opened Basics
  import opened Linear
  import opened ProtoPerf

  /**
   One capability range of a protocol (ucp_proto_perf_range_t): its maximal
   message length and its single, multi and cpu performance functions.
   */
  datatype CapsRange = CapsRange(maxLength: nat, single: LinearFunc, multi: LinearFunc, cpu: LinearFunc)

  /** The factors from_caps gives the segment of one range. */
  function CapsFactors(rg: CapsRange): (fs: Factors)
    ensures fs[Single] == rg.single && fs[Multi] == rg.multi && fs[LocalCpu] == rg.cpu
    ensures forall j :: 0 <= j < FactorCount && j !in {Single, Multi, LocalCpu} ==> fs[j] == Zero
  {
    ZeroIsIdentity(rg.single);
    ZeroIsIdentity(rg.multi);
    ZeroIsIdentity(rg.cpu);
    AddFactor(AddFactor(AddFactor(ZeroFactors, Single, rg.single), Multi, rg.multi), LocalCpu, rg.cpu)
  }

  /** Index of the first range whose maximal length reaches x, |ranges| if none. */
  function FirstReaching(ranges: seq<CapsRange>, x: nat): (k: nat)
    ensures k <= |ranges|
    ensures forall j :: 0 <= j < k ==> ranges[j].maxLength < x
    ensures k < |ranges| ==> x <= ranges[k].maxLength
    decreases |ranges|
  {
    if |ranges| == 0 then 0
    else if x <= ranges[0].maxLength then 0
    else 1 + FirstReaching(ranges[1..], x)
  }

  /** The loop of ucp_proto_perf_from_caps, from running start rangeStart. */
  function FromCapsLoop(rangeStart: nat, ranges: seq<CapsRange>, mem: nat): Outcome
    requires forall j :: 0 <= j < |ranges| ==> ranges[j].maxLength <= SizeMax
    decreases |ranges|
  {
    if |ranges| == 0 then Outcome(Ok, [], mem)
    else if ranges[0].maxLength < rangeStart then
      // skip empty ranges
      FromCapsLoop(rangeStart, ranges[1..], mem)
    else if mem == 0 then Outcome(NoMemory, [], mem)
    else
      var n := SegmentNew(rangeStart, ranges[0].maxLength);
      var seg := n.(factors := CapsFactors(ranges[0]));
      var rest := FromCapsLoop(WrapAdd(ranges[0].maxLength, 1), ranges[1..], mem - 1);
      if rest.status != Ok then rest else Cons(seg, rest)
  }

  lemma {:induction false} FromCapsLoopSound(rangeStart: nat, ranges: seq<CapsRange>, mem: nat)
    requires forall j :: 0 <= j < |ranges| ==> ranges[j].maxLength <= SizeMax
    requires forall j :: 0 <= j < |ranges| - 1 ==> ranges[j].maxLength < SizeMax
    ensures var r := FromCapsLoop(rangeStart, ranges, mem);
      r.status in {Ok, NoMemory} &&
      (mem >= |ranges| ==> r.status == Ok) &&
      (r.status == NoMemory ==> r.perf == []) &&
      (r.status == Ok ==> CheckFrom(r.perf, rangeStart)) &&
      (r.status == Ok ==> forall x: nat {:trigger FactorsAt(r.perf, x)} ::
         FactorsAt(r.perf, x) ==
           if rangeStart <= x && FirstReaching(ranges, x) < |ranges|
           then Some(CapsFactors(ranges[FirstReaching(ranges, x)])) else None)
    decreases |ranges|
  {
    if |ranges| > 0 {
      var t := ranges[1..];
      var r := FromCapsLoop(rangeStart, ranges, mem);
      if ranges[0].maxLength < rangeStart {
        FromCapsLoopSound(rangeStart, t, mem);
      } else if mem > 0 {
        var m := ranges[0].maxLength;
        var seg := PerfSegment(rangeStart, m, CapsFactors(ranges[0]));
        var next := WrapAdd(m, 1);
        FromCapsLoopSound(next, t, mem - 1);
        var rest := FromCapsLoop(next, t, mem - 1);
        if rest.status == Ok {
          if m == SizeMax {
            assert |t| == 0;
          }
          CheckCons(seg, rest.perf, rangeStart);
          forall x: nat
            ensures FactorsAt(r.perf, x) ==
              if rangeStart <= x && FirstReaching(ranges, x) < |ranges|
              then Some(CapsFactors(ranges[FirstReaching(ranges, x)])) else None
          {
            FactorsAtCons(seg, rest.perf, x);
          }
        }
      }
    }
  }

  /**
   ucp_proto_perf_from_caps: a point is covered exactly when it is at least
   min_length and some range reaches it, and it then carries the factors of
   the first range that reaches it; segments follow each other without gaps.
   On allocation failure the partial structure is destroyed. The capability
   ranges are taken to put a range reaching SizeMax, if any, last.
   */
  function FromCaps(minLength: nat, ranges: seq<CapsRange>, mem: nat): (r: Outcome)
    requires minLength <= SizeMax
    requires forall j :: 0 <= j < |ranges| ==> ranges[j].maxLength <= SizeMax
    requires forall j :: 0 <= j < |ranges| - 1 ==> ranges[j].maxLength < SizeMax
    ensures r.status in {Ok, NoMemory}
    ensures mem == 0 ==> r.status == NoMemory
    ensures mem > |ranges| ==> r.status == Ok
    ensures r.status == NoMemory ==> r.perf == []
    ensures r.status == Ok ==> Check(r.perf)
    ensures r.status == Ok ==> forall x: nat {:trigger FactorsAt(r.perf, x)} ::
              FactorsAt(r.perf, x) ==
                if minLength <= x && FirstReaching(ranges, x) < |ranges|
                then Some(CapsFactors(ranges[FirstReaching(ranges, x)])) else None
  {
    var c := Create(mem);
    if c.status != Ok then c
    else
      FromCapsLoopSound(minLength, ranges, c.mem);
      var r := FromCapsLoop(minLength, ranges, c.mem);
      if r.status != Ok then r
      else
        CheckWeaken(r.perf, 0, minLength);
        r
  }

  /** The segments from_caps builds follow each other: each starts right after the previous ends. */
  lemma {:induction false} FromCapsContiguous(rangeStart: nat, ranges: seq<CapsRange>, mem: nat)
    requires forall j :: 0 <= j < |ranges| ==> ranges[j].maxLength <= SizeMax
    requires forall j :: 0 <= j < |ranges| - 1 ==> ranges[j].maxLength < SizeMax
    ensures var r := FromCapsLoop(rangeStart, ranges, mem);
      r.status == Ok ==>
        (|r.perf| > 0 ==> r.perf[0].start == rangeStart) &&
        forall k :: 0 <= k < |r.perf| - 1 ==> r.perf[k + 1].start == r.perf[k].end + 1
    decreases |ranges|
  {
    if |ranges| > 0 {
      if ranges[0].maxLength < rangeStart {
        FromCapsContiguous(rangeStart, ranges[1..], mem);
      } else if mem > 0 {
        FromCapsContiguous(WrapAdd(ranges[0].maxLength, 1), ranges[1..], mem - 1);
      }
    }
  }

  /** One step of ucp_proto_perf_segment_foreach_range: segment index and clipped bounds. */
  datatype Clip = Clip(seg: nat, start: nat, end: nat)

  function ClipFrom(perf: Perf, i: nat, rangeStart: nat, rangeEnd: nat): (cs: seq<Clip>)
    requires i <= |perf|
    ensures forall k :: 0 <= k < |cs| ==> cs[k].seg == i + k && cs[k].seg < |perf|
    ensures forall k :: 0 <= k < |cs| ==>
              cs[k].start == Max(rangeStart, perf[cs[k].seg].start) &&
              cs[k].end == Min(rangeEnd, perf[cs[k].seg].end) && cs[k].start <= cs[k].end
    decreases |perf| - i
  {
    if i == |perf| then []
    else
      var s := Max(rangeStart, perf[i].start);
      var e := Min(rangeEnd, perf[i].end);
      if s <= e then [Clip(i, s, e)] + ClipFrom(perf, i + 1, rangeStart, rangeEnd) else []
  }

  /**
   ucp_proto_perf_segment_foreach_range: starting at find_segment_lb(range
   start), each segment clipped to the range, stopping at the first empty clip.
   The macro body reads `seg` and `seg_end` where it means its parameters
   _seg and _seg_end; the model follows the parameters.
   */
  function ForeachRange(perf: Perf, rangeStart: nat, rangeEnd: nat): (cs: seq<Clip>)
    ensures forall k :: 0 <= k < |cs| ==>
              (cs[k].seg < |perf| && rangeStart <= cs[k].start <= cs[k].end <= rangeEnd &&
               perf[cs[k].seg].start <= cs[k].start && cs[k].end <= perf[cs[k].seg].end)
    ensures |cs| > 0 ==> FindSegmentLb(perf, rangeStart) == Some(cs[0].seg)
  {
    match FindSegmentLb(perf, rangeStart)
    case None => []
    case Some(i) => ClipFrom(perf, i, rangeStart, rangeEnd)
  }

  /** Every point of a clip is a covered point of the range. */
  lemma ForeachRangeSound(perf: Perf, rangeStart: nat, rangeEnd: nat, k: nat, x: nat)
    requires Check(perf)
    requires k < |ForeachRange(perf, rangeStart, rangeEnd)|
    requires ForeachRange(perf, rangeStart, rangeEnd)[k].start <= x <= ForeachRange(perf, rangeStart, rangeEnd)[k].end
    ensures rangeStart <= x <= rangeEnd && FactorsAt(perf, x).Some?
  {
    var c := ForeachRange(perf, rangeStart, rangeEnd)[k];
    FindSegmentLbContains(perf, x);
    assert FindSegmentLb(perf, x) == Some(c.seg);
  }

  /**
   On a checked structure the iterator misses no covered point of
   [rangeStart, rangeEnd]: the segment holding it is visited, and its clip
   contains the point.
   */
  lemma ForeachRangeComplete(perf: Perf, rangeStart: nat, rangeEnd: nat, x: nat)
    requires Check(perf)
    requires rangeStart <= x <= rangeEnd && FactorsAt(perf, x).Some?
    ensures exists k :: 0 <= k < |ForeachRange(perf, rangeStart, rangeEnd)| &&
              ForeachRange(perf, rangeStart, rangeEnd)[k].start <= x <= ForeachRange(perf, rangeStart, rangeEnd)[k].end
  {
    var cs := ForeachRange(perf, rangeStart, rangeEnd);
    CheckSorted(perf, 0);
    var j := FindSegmentLb(perf, x).value;
    var i := FindSegmentLb(perf, rangeStart).value;
    assert i <= j;
    ClipReaches(perf, i, rangeStart, rangeEnd, j, x);
    assert cs == ClipFrom(perf, i, rangeStart, rangeEnd);
    assert cs[j - i].start <= x <= cs[j - i].end;
  }

  lemma {:induction false} ClipReaches(perf: Perf, i: nat, rangeStart: nat, rangeEnd: nat, j: nat, x: nat)
    requires i <= j < |perf|
    requires forall a, b :: 0 <= a < b < |perf| ==> perf[a].end < perf[b].start
    requires forall a :: 0 <= a < |perf| ==> perf[a].start <= perf[a].end
    requires rangeStart <= perf[i].end
    requires rangeStart <= x <= rangeEnd && perf[j].start <= x <= perf[j].end
    ensures j - i < |ClipFrom(perf, i, rangeStart, rangeEnd)|
    decreases j - i
  {
    if i < j {
      assert perf[i].end < perf[j].start;
      assert rangeStart <= perf[i + 1].end by {
        if i + 1 < j { assert perf[i + 1].end < perf[j].start; }
      }
      ClipReaches(perf, i + 1, rangeStart, rangeEnd, j, x);
    }
  }

  /** Both defined: the factor-wise sum; otherwise undefined. */
  function Combine(a: Option<Factors>, b: Option<Factors>): Option<Factors>
  {
    if a.Some? && b.Some? then Some(AddAll(a.value, b.value)) else None
  }

  /**
   ucp_proto_perf_aggregate2 (declared in proto_perf.h; its body is not
   part of this model): a merge of the two segment lists that keeps the
   overlap of every pair of segments, with the factor-wise sum.
   */
  function Aggregate2(a: Perf, b: Perf): (r: Perf)
    decreases |a| + |b|
  {
    if |a| == 0 || |b| == 0 then []
    else
      var s := Max(a[0].start, b[0].start);
      var e := Min(a[0].end, b[0].end);
      var head := if s <= e then [PerfSegment(s, e, AddAll(a[0].factors, b[0].factors))] else [];
      if a[0].end < b[0].end then head + Aggregate2(a[1..], b)
      else if b[0].end < a[0].end then head + Aggregate2(a, b[1..])
      else head + Aggregate2(a[1..], b[1..])
  }

  lemma FactorsAtHead(head: Perf, rest: Perf, x: nat)
    requires |head| <= 1
    ensures |head| == 0 ==> FactorsAt(head + rest, x) == FactorsAt(rest, x)
    ensures |head| == 1 ==>
              (FactorsAt(head + rest, x) ==
                 if x <= head[0].end then (if head[0].start <= x then Some(head[0].factors) else None)
                 else FactorsAt(rest, x))
  {
    if |head| == 0 {
      assert head + rest == rest;
    } else {
      assert head + rest == [head[0]] + rest;
      FactorsAtCons(head[0], rest, x);
    }
  }

  /** Every segment is a non-empty interval; the check implies it. */
  predicate Proper(perf: Perf)
  {
    forall k :: 0 <= k < |perf| ==> perf[k].start <= perf[k].end
  }

  lemma CheckProper(perf: Perf)
    requires Check(perf)
    ensures Proper(perf)
  {
    CheckSorted(perf, 0);
  }

  /** A point is defined in aggregate2 exactly where both inputs define it, with the sum of their factors. */
  lemma {:induction false} Aggregate2Values(a: Perf, b: Perf, x: nat)
    requires Proper(a) && Proper(b)
    ensures FactorsAt(Aggregate2(a, b), x) == Combine(FactorsAt(a, x), FactorsAt(b, x))
    decreases |a| + |b|
  {
    if |a| > 0 && |b| > 0 {
      var s := Max(a[0].start, b[0].start);
      var e := Min(a[0].end, b[0].end);
      var head := if s <= e then [PerfSegment(s, e, AddAll(a[0].factors, b[0].factors))] else [];
      assert a == [a[0]] + a[1..];
      assert b == [b[0]] + b[1..];
      FactorsAtCons(a[0], a[1..], x);
      FactorsAtCons(b[0], b[1..], x);
      if a[0].end < b[0].end {
        Aggregate2Values(a[1..], b, x);
        FactorsAtHead(head, Aggregate2(a[1..], b), x);
      } else if b[0].end < a[0].end {
        Aggregate2Values(a, b[1..], x);
        FactorsAtHead(head, Aggregate2(a, b[1..]), x);

      } else {
        Aggregate2Values(a[1..], b[1..], x);
        FactorsAtHead(head, Aggregate2(a[1..], b[1..]), x);
      }
    }
  }

  lemma CheckHead(head: Perf, rest: Perf, lo: nat, next: nat)
    requires |head| <= 1
    requires |head| == 1 ==> lo <= head[0].start <= head[0].end <= SizeMax
    requires |head| == 1 && head[0].end == SizeMax ==> |rest| == 0
    requires |head| == 1 && head[0].end < SizeMax ==> head[0].end + 1 <= next
    requires |head| == 0 ==> lo <= next
    requires CheckFrom(rest, next)
    ensures CheckFrom(head + rest, lo)
  {
    if |head| == 0 {
      assert head + rest == rest;
      CheckWeaken(rest, lo, next);
    } else {
      assert head + rest == [head[0]] + rest;
      CheckCons(head[0], rest, lo);
      if head[0].end < SizeMax {
        CheckWeaken(rest, head[0].end + 1, next);
      }
    }
  }

  /** Aggregating two checked structures gives a checked structure. */
  lemma {:induction false} Aggregate2Check(a: Perf, b: Perf, la: nat, lb: nat)
    requires CheckFrom(a, la) && CheckFrom(b, lb)
    ensures CheckFrom(Aggregate2(a, b), Max(la, lb))
    decreases |a| + |b|
  {
    if |a| > 0 && |b| > 0 {
      var s := Max(a[0].start, b[0].start);
      var e := Min(a[0].end, b[0].end);
      var head := if s <= e then [PerfSegment(s, e, AddAll(a[0].factors, b[0].factors))] else [];
      assert a == [a[0]] + a[1..];
      assert b == [b[0]] + b[1..];
      CheckCons(a[0], a[1..], la);
      CheckCons(b[0], b[1..], lb);
      if a[0].end < b[0].end {
        Aggregate2Check(a[1..], b, a[0].end + 1, lb);
        CheckHead(head, Aggregate2(a[1..], b), Max(la, lb), Max(a[0].end + 1, lb));
      } else if b[0].end < a[0].end {
        Aggregate2Check(a, b[1..], la, b[0].end + 1);
        CheckHead(head, Aggregate2(a, b[1..]), Max(la, lb), Max(la, b[0].end + 1));
      } else if a[0].end == SizeMax {
        assert Aggregate2(a[1..], b[1..]) == [];
        CheckHead(head, [], Max(la, lb), 0);
      } else {
        Aggregate2Check(a[1..], b[1..], a[0].end + 1, b[0].end + 1);
        CheckHead(head, Aggregate2(a[1..], b[1..]), Max(la, lb), a[0].end + 1);
      }
    }
  }

  /** Sum of the factors every structure of perfs has at x (zero where undefined). */
  function SumAt(perfs: seq<Perf>, x: nat): Factors
    decreases |perfs|
  {
    if |perfs| == 0 then ZeroFactors
    else AddAll(SumAt(perfs[..|perfs| - 1], x), OrZero(FactorsAt(perfs[|perfs| - 1], x)))
  }

  /** ucp_proto_perf_aggregate, as a left fold of aggregate2. */
  function AggregateFold(perfs: seq<Perf>): Perf
    requires |perfs| > 0
    decreases |perfs|
  {
    if |perfs| == 1 then perfs[0]
    else Aggregate2(AggregateFold(perfs[..|perfs| - 1]), perfs[|perfs| - 1])
  }

  /** Every structure of perfs defines x. */
  predicate DefinedInAll(perfs: seq<Perf>, x: nat)
  {
    forall k :: 0 <= k < |perfs| ==> FactorsAt(perfs[k], x).Some?
  }

  lemma DefinedInAllSnoc(perfs: seq<Perf>, x: nat)
    requires |perfs| > 0
    ensures DefinedInAll(perfs, x) <==>
              DefinedInAll(perfs[..|perfs| - 1], x) && FactorsAt(perfs[|perfs| - 1], x).Some?
  {
    var init := perfs[..|perfs| - 1];
    assert forall k :: 0 <= k < |init| ==> init[k] == perfs[k];
  }

  lemma AggregateFoldSingle(perfs: seq<Perf>, x: nat)
    requires |perfs| == 1
    ensures FactorsAt(AggregateFold(perfs), x) == if DefinedInAll(perfs, x) then Some(SumAt(perfs, x)) else None
  {
    assert perfs[..0] == [];
    if FactorsAt(perfs[0], x).Some? {
      var g := FactorsAt(perfs[0], x).value;
      forall j | 0 <= j < FactorCount ensures SumAt(perfs, x)[j] == g[j] {
        ZeroIsIdentity(g[j]);
      }
      assert SumAt(perfs, x) == g;
    }
  }

  lemma {:induction false} AggregateFoldValues(perfs: seq<Perf>, x: nat)
    requires |perfs| > 0
    requires forall k :: 0 <= k < |perfs| ==> Check(perfs[k])
    ensures FactorsAt(AggregateFold(perfs), x) ==
              if forall k :: 0 <= k < |perfs| ==> FactorsAt(perfs[k], x).Some?
              then Some(SumAt(perfs, x)) else None
    decreases |perfs|
  {
    var n := |perfs|;
    if n == 1 {
      AggregateFoldSingle(perfs, x);
    } else {
      var init := perfs[..n - 1];
      assert forall k :: 0 <= k < |init| ==> Check(init[k]) by {
        assert forall k :: 0 <= k < |init| ==> init[k] == perfs[k];
      }
      AggregateFoldValues(init, x);
      AggregateFoldCheck(init);
      CheckProper(AggregateFold(init));
      CheckProper(perfs[n - 1]);
      Aggregate2Values(AggregateFold(init), perfs[n - 1], x);
      DefinedInAllSnoc(perfs, x);
    }
  }

  lemma {:induction false} AggregateFoldCheck(perfs: seq<Perf>)
    requires |perfs| > 0
    requires forall k :: 0 <= k < |perfs| ==> Check(perfs[k])
    ensures Check(AggregateFold(perfs))
    decreases |perfs|
  {
    if |perfs| > 1 {
      var init := perfs[..|perfs| - 1];
      assert forall k :: 0 <= k < |init| ==> init[k] == perfs[k];
      AggregateFoldCheck(init);
      Aggregate2Check(AggregateFold(init), perfs[|perfs| - 1], 0, 0);
    }
  }

  /**
   ucp_proto_perf_aggregate: defined exactly where all the inputs are
   defined, and there every factor is the sum of that factor over the inputs.
   */
  function Aggregate(perfs: seq<Perf>): (r: Perf)
    requires |perfs| > 0
    requires forall k :: 0 <= k < |perfs| ==> Check(perfs[k])
    ensures Check(r)
    ensures forall x: nat {:trigger FactorsAt(r, x)} ::
              FactorsAt(r, x) ==
                if forall k :: 0 <= k < |perfs| ==> FactorsAt(perfs[k], x).Some?
                then Some(SumAt(perfs, x)) else None
  {
    AggregateFoldCheck(perfs);
    forall x: nat
      ensures FactorsAt(AggregateFold(perfs), x) ==
                if forall k :: 0 <= k < |perfs| ==> FactorsAt(perfs[k], x).Some?
                then Some(SumAt(perfs, x)) else None
    {
      AggregateFoldValues(perfs, x);
    }
    AggregateFold(perfs)
  }

  /** Local and remote factors exchanged; the others kept. */
  function SwapFactors(fs: Factors): (r: Factors)
    ensures r[LocalCpu] == fs[RemoteCpu] && r[RemoteCpu] == fs[LocalCpu]
    ensures r[LocalTl] == fs[RemoteTl] && r[RemoteTl] == fs[LocalTl]
    ensures forall j :: 4 <= j < FactorCount ==> r[j] == fs[j]
  {
    fs[LocalCpu := fs[RemoteCpu]][RemoteCpu := fs[LocalCpu]][LocalTl := fs[RemoteTl]][RemoteTl := fs[LocalTl]]
  }

  /** ucp_proto_perf_turn_remote: the same segments with local and remote factors exchanged. */
  function TurnRemote(perf: Perf): (r: Perf)
    ensures |r| == |perf|
    ensures forall k :: 0 <= k < |r| ==>
              r[k].start == perf[k].start && r[k].end == perf[k].end && r[k].factors == SwapFactors(perf[k].factors)
    decreases |perf|
  {
    if |perf| == 0 then []
    else [perf[0].(factors := SwapFactors(perf[0].factors))] + TurnRemote(perf[1..])
  }

  /** turn_remote keeps the covered points and swaps the factors at each of them. */
  lemma {:induction false} TurnRemoteValues(perf: Perf, x: nat)
    ensures FactorsAt(TurnRemote(perf), x) ==
              if FactorsAt(perf, x).Some? then Some(SwapFactors(FactorsAt(perf, x).value)) else None
    decreases |perf|
  {
    if |perf| > 0 {
      assert perf == [perf[0]] + perf[1..];
      FactorsAtCons(perf[0], perf[1..], x);
      FactorsAtCons(perf[0].(factors := SwapFactors(perf[0].factors)), TurnRemote(perf[1..]), x);
      TurnRemoteValues(perf[1..], x);
    }
  }

  lemma {:induction false} TurnRemoteCheck(perf: Perf, lo: nat)
    requires CheckFrom(perf, lo)
    ensures CheckFrom(TurnRemote(perf), lo)
    decreases |perf|
  {
    if |perf| > 0 {
      var r := TurnRemote(perf);
      assert perf == [perf[0]] + perf[1..];
      assert r == [r[0]] + TurnRemote(perf[1..]);
      CheckCons(perf[0], perf[1..], lo);
      if perf[0].end < SizeMax {
        TurnRemoteCheck(perf[1..], perf[0].end + 1);
      }
      CheckCons(r[0], TurnRemote(perf[1..]), lo);
    }
  }

  /** Turning twice gives back the original structure. */
  lemma TurnRemoteInvolution(perf: Perf)
    ensures TurnRemote(TurnRemote(perf)) == perf
  {
    var r := TurnRemote(TurnRemote(perf));
    forall k | 0 <= k < |perf| ensures r[k] == perf[k] {
      var fs := perf[k].factors;
      assert SwapFactors(SwapFactors(fs)) == fs;
    }
  }
}
