/**
 Construction of a protocol's cost model (src/ucp/proto/proto_init.c): the
 envelope of a set of linear functions over a size range, the pipeline cost
 derived from a fragment's factors, the transport-level factors and the
 size range logic of ucp_proto_common_init_perf.
 */
module ProtoInit {
  import opened Basics
  import opened Linear
  import opened ProtoPerf

  /** Offset at which two candidate functions are compared (UCP_PROTO_MSGLEN_EPSILON). */
  const MsgLenEpsilon: real := 0.5

  /** The largest finite double, DBL_MAX = (2 - 2^-52) * 2^1023. */
  const DblMax: real := 179769313486231570814527423731704356798070567525844996598917476803157260780028538760589558632766878171540458953514382464234321326889464182768467546703537516986049910576551282076245490090389328944075868508455133942304583236903222948165808559332123348274797826204144723168738177180919299881250404026184124858368.0

  /** The envelope_make limit: the candidate mask is one 64-bit word. */
  const MaxEnvelopeFuncs: nat := 64

  // ---------------------------------------------------------------------------
  // Envelope
  // ---------------------------------------------------------------------------

  /** One element of an envelope: function `index` is the best up to and including maxLength. */
  datatype EnvelopeElem = EnvelopeElem(index: nat, maxLength: nat)

  predicate InFuncs(funcs: seq<LinearFunc>, mask: set<nat>)
  {
    forall j :: j in mask ==> j < |funcs|
  }

  /** The sampling point at the start of a piece: half a byte in, unless the range has no room. */
  function XSample(start: nat, rangeEnd: nat): (x: real)
    ensures start as real <= x < start as real + 1.0
    ensures x == start as real <==> start >= rangeEnd
  {
    if start < rangeEnd then start as real + MsgLenEpsilon else start as real
  }

  /**
   The selection loop of envelope_make from bit i on: a candidate replaces the
   current best when there is none yet or when (curr < best) == convex.
   */
  function SelectFrom(funcs: seq<LinearFunc>, mask: set<nat>, x: real, convex: bool, i: nat, best: Option<nat>): Option<nat>
    requires i <= |funcs|
    requires best.Some? ==> best.value < |funcs|
    decreases |funcs| - i
  {
    if i == |funcs| then best
    else if i in mask &&
            (best.None? || ((funcs[i].Apply(x) < funcs[best.value].Apply(x)) == convex))
    then SelectFrom(funcs, mask, x, convex, i + 1, Some(i))
    else SelectFrom(funcs, mask, x, convex, i + 1, best)
  }

  /** What the selection loop has established after looking at the bits below i. */
  ghost predicate SelectInv(funcs: seq<LinearFunc>, mask: set<nat>, x: real, convex: bool, i: nat, best: Option<nat>)
    requires i <= |funcs|
  {
    && (best.None? <==> forall j :: j in mask ==> j >= i)
    && (best.Some? ==> best.value < i && best.value in mask)
    && (best.Some? && convex ==>
          (forall j :: j in mask && j < i ==> funcs[best.value].Apply(x) <= funcs[j].Apply(x)) &&
          (forall j :: j in mask && j < best.value ==> funcs[best.value].Apply(x) < funcs[j].Apply(x)))
    && (best.Some? && !convex ==>
          (forall j :: j in mask && j < i ==> funcs[j].Apply(x) <= funcs[best.value].Apply(x)) &&
          (forall j :: j in mask && best.value < j < i ==> funcs[j].Apply(x) < funcs[best.value].Apply(x)))
  }

  lemma {:induction false} SelectFromSound(funcs: seq<LinearFunc>, mask: set<nat>, x: real, convex: bool, i: nat, best: Option<nat>)
    requires i <= |funcs| && InFuncs(funcs, mask)
    requires SelectInv(funcs, mask, x, convex, i, best)
    ensures SelectInv(funcs, mask, x, convex, |funcs|, SelectFrom(funcs, mask, x, convex, i, best))
    decreases |funcs| - i
  {
    if i < |funcs| {
      if i in mask && (best.None? || ((funcs[i].Apply(x) < funcs[best.value].Apply(x)) == convex)) {
        assert SelectInv(funcs, mask, x, convex, i + 1, Some(i));
        SelectFromSound(funcs, mask, x, convex, i + 1, Some(i));
      } else {
        assert SelectInv(funcs, mask, x, convex, i + 1, best);
        SelectFromSound(funcs, mask, x, convex, i + 1, best);
      }
    }
  }

  /**
   The function envelope_make selects at x: with `convex`, the smallest value
   at x, the earliest index among equals; otherwise the largest value at x,
   the latest index among equals.
   */
  function SelectBest(funcs: seq<LinearFunc>, mask: set<nat>, x: real, convex: bool): (b: nat)
    requires mask != {} && InFuncs(funcs, mask)
    ensures b in mask
    ensures convex ==> forall j :: j in mask ==> funcs[b].Apply(x) <= funcs[j].Apply(x)
    ensures convex ==> forall j :: j in mask && j < b ==> funcs[b].Apply(x) < funcs[j].Apply(x)
    ensures !convex ==> forall j :: j in mask ==> funcs[j].Apply(x) <= funcs[b].Apply(x)
    ensures !convex ==> forall j :: j in mask && b < j ==> funcs[j].Apply(x) < funcs[b].Apply(x)
  {
    SelectFromSound(funcs, mask, x, convex, 0, None);
    SelectFrom(funcs, mask, x, convex, 0, None).value
  }

  /** Candidate j meets the best function at a point after the sampling point. */
  predicate Crosses(funcs: seq<LinearFunc>, best: nat, xs: real, j: nat)
    requires best < |funcs| && j < |funcs|
  {
    Intersect(funcs[j], funcs[best]).Some? && Intersect(funcs[j], funcs[best]).value > xs
  }

  /** The size at which candidate j takes over: the floor of the crossing point. */
  function CrossSize(funcs: seq<LinearFunc>, best: nat, xs: real, j: nat): nat
    requires best < |funcs| && j < |funcs| && xs >= 0.0 && Crosses(funcs, best, xs, j)
  {
    DoubleToSize(Intersect(funcs[j], funcs[best]).value)
  }

  /**
   The crossover loop of envelope_make from bit i on: the smallest size
   (floor of the crossing point) at which a remaining function crosses the
   best one after the sampling point, starting from acc.
   */
  function MidFrom(funcs: seq<LinearFunc>, mask: set<nat>, best: nat, xs: real, i: nat, acc: nat): (mid: nat)
    requires best < |funcs| && i <= |funcs| && xs >= 0.0
    ensures mid <= acc
    ensures mid < acc ==> exists j :: i <= j < |funcs| && j in mask
    decreases |funcs| - i
  {
    if i == |funcs| then acc
    else if i in mask then
      match Intersect(funcs[i], funcs[best])
      case Some(xi) =>
        if xi > xs then MidFrom(funcs, mask, best, xs, i + 1, Min(DoubleToSize(xi), acc))
        else MidFrom(funcs, mask, best, xs, i + 1, acc)
      case None => MidFrom(funcs, mask, best, xs, i + 1, acc)
    else MidFrom(funcs, mask, best, xs, i + 1, acc)
  }

  /** A crossing after the sampling point never lies before the piece's start. */
  lemma {:induction false} MidAtLeast(funcs: seq<LinearFunc>, mask: set<nat>, best: nat, xs: real, i: nat, acc: nat, lo: nat)
    requires best < |funcs| && i <= |funcs| && xs >= 0.0
    requires lo as real <= xs && lo <= acc && lo <= SizeMax
    ensures lo <= MidFrom(funcs, mask, best, xs, i, acc)
    decreases |funcs| - i
  {
    if i < |funcs| {
      if i in mask && Intersect(funcs[i], funcs[best]).Some? && Intersect(funcs[i], funcs[best]).value > xs {
        var xi := Intersect(funcs[i], funcs[best]).value;
        assert lo <= DoubleToSize(xi) by {
          if xi < SizeMax as real {
            assert DoubleToSize(xi) as real + 1.0 > xi > lo as real;
          }
        }
        MidAtLeast(funcs, mask, best, xs, i + 1, Min(DoubleToSize(xi), acc), lo);
      } else {
        MidAtLeast(funcs, mask, best, xs, i + 1, acc, lo);
      }
    }
  }

  /**
   The crossover loop computes a minimum: it ends at or below every crossing
   after the sampling point of a candidate from bit i on, and it is either
   the starting value or one of those crossings.
   */
  lemma {:induction false} MidFromIsMin(funcs: seq<LinearFunc>, mask: set<nat>, best: nat, xs: real, i: nat, acc: nat)
    requires best < |funcs| && i <= |funcs| && xs >= 0.0
    ensures forall j :: i <= j < |funcs| && j in mask && Crosses(funcs, best, xs, j) ==>
              MidFrom(funcs, mask, best, xs, i, acc) <= CrossSize(funcs, best, xs, j)
    ensures || MidFrom(funcs, mask, best, xs, i, acc) == acc
            || exists j :: i <= j < |funcs| && j in mask && Crosses(funcs, best, xs, j) &&
                 MidFrom(funcs, mask, best, xs, i, acc) == CrossSize(funcs, best, xs, j)
    decreases |funcs| - i
  {
    if i < |funcs| {
      var mid := MidFrom(funcs, mask, best, xs, i, acc);
      if i in mask && Crosses(funcs, best, xs, i) {
        var c := CrossSize(funcs, best, xs, i);
        MidFromIsMin(funcs, mask, best, xs, i + 1, Min(c, acc));
        assert mid == MidFrom(funcs, mask, best, xs, i + 1, Min(c, acc));
        if mid == Min(c, acc) && mid != acc {
          assert mid == c;
        }
      } else {
        MidFromIsMin(funcs, mask, best, xs, i + 1, acc);
        assert mid == MidFrom(funcs, mask, best, xs, i + 1, acc);
      }
    }
  }

  /**
   One iteration of envelope_make's do-while loop: the best function just
   after `start` and the last size before another candidate crosses it.
   */
  function FirstPiece(funcs: seq<LinearFunc>, mask: set<nat>, start: nat, rangeEnd: nat, convex: bool): (e: EnvelopeElem)
    requires mask != {} && InFuncs(funcs, mask)
    requires start <= rangeEnd <= SizeMax
    ensures e.index == SelectBest(funcs, mask, XSample(start, rangeEnd), convex)
    ensures e.index in mask && start <= e.maxLength <= rangeEnd
  {
    var xs := XSample(start, rangeEnd);
    var best := SelectBest(funcs, mask, xs, convex);
    var mid := MidFrom(funcs, mask - {best}, best, xs, 0, rangeEnd);
    MidAtLeast(funcs, mask - {best}, best, xs, 0, rangeEnd, start);
    EnvelopeElem(best, mid)
  }

  /**
   Where a piece ends: at or before every point after the sampling point at
   which another candidate crosses the piece's function, and either at
   rangeEnd or at one of those crossings.
   */
  lemma PieceEnd(funcs: seq<LinearFunc>, mask: set<nat>, start: nat, rangeEnd: nat, convex: bool, e: EnvelopeElem)
    requires IsPiece(funcs, mask, start, rangeEnd, convex, e)
    ensures forall j :: j in mask && j != e.index && Crosses(funcs, e.index, XSample(start, rangeEnd), j) ==>
              e.maxLength <= CrossSize(funcs, e.index, XSample(start, rangeEnd), j)
    ensures || e.maxLength == rangeEnd
            || exists j :: j in mask && j != e.index && Crosses(funcs, e.index, XSample(start, rangeEnd), j) &&
                 e.maxLength == CrossSize(funcs, e.index, XSample(start, rangeEnd), j)
  {
    var xs := XSample(start, rangeEnd);
    MidFromIsMin(funcs, mask - {e.index}, e.index, xs, 0, rangeEnd);
  }

  /**
   The shape of an envelope over candidates `mask`: pieces end at strictly
   increasing sizes, the last at rangeEnd; each uses a different candidate of
   mask, so there are at most |mask| of them.
   */
  predicate Pieces(r: seq<EnvelopeElem>, mask: set<nat>, rangeEnd: nat)
  {
    && |r| >= 1 && r[|r| - 1].maxLength == rangeEnd
    && (forall k :: 0 <= k < |r| - 1 ==> r[k].maxLength < r[k + 1].maxLength)
    && (forall k :: 0 <= k < |r| ==> r[k].maxLength <= rangeEnd && r[k].index in mask)
    && (forall k, l :: 0 <= k < l < |r| ==> r[k].index != r[l].index)
    && |r| <= |mask|
  }

  /** The candidates the pieces of r have used up. */
  function Used(r: seq<EnvelopeElem>): set<nat>
  {
    if |r| == 0 then {} else {r[0].index} + Used(r[1..])
  }

  /** Where piece k of an envelope starting at `start` begins: just after the previous piece. */
  function PieceStart(start: nat, r: seq<EnvelopeElem>, k: nat): nat
    requires k < |r|
  {
    if k == 0 then start else r[k - 1].maxLength + 1
  }

  /** e is what one iteration of the loop produces from `start` with the candidates in mask. */
  predicate IsPiece(funcs: seq<LinearFunc>, mask: set<nat>, start: nat, rangeEnd: nat, convex: bool, e: EnvelopeElem)
  {
    && mask != {} && InFuncs(funcs, mask) && start <= rangeEnd <= SizeMax
    && e == FirstPiece(funcs, mask, start, rangeEnd, convex)
  }

  /**
   Every piece of the envelope is one loop iteration: from just after the
   previous piece, with the candidates the earlier pieces used removed.
   */
  ghost predicate Iterations(funcs: seq<LinearFunc>, mask: set<nat>, start: nat, rangeEnd: nat, convex: bool, r: seq<EnvelopeElem>)
  {
    forall k {:trigger Used(r[..k])} :: 0 <= k < |r| ==>
      IsPiece(funcs, mask - Used(r[..k]), PieceStart(start, r, k), rangeEnd, convex, r[k])
  }

  /** The do-while loop of envelope_make from `start`, with the candidates still in `mask`. */
  function EnvelopeFrom(funcs: seq<LinearFunc>, mask: set<nat>, start: nat, rangeEnd: nat, convex: bool): (r: seq<EnvelopeElem>)
    requires mask != {} && InFuncs(funcs, mask)
    requires start <= rangeEnd <= SizeMax
    ensures Pieces(r, mask, rangeEnd)
    ensures r[0].index == SelectBest(funcs, mask, XSample(start, rangeEnd), convex)
    ensures start <= r[0].maxLength
    ensures Iterations(funcs, mask, start, rangeEnd, convex, r)
    decreases |mask|
  {
    var e := FirstPiece(funcs, mask, start, rangeEnd, convex);
    if e.maxLength < rangeEnd then
      var rest := mask - {e.index};
      assert |rest| == |mask| - 1;
      var tail := EnvelopeFrom(funcs, rest, e.maxLength + 1, rangeEnd, convex);
      PrependPiece(e, tail, mask, rangeEnd);
      PrependIteration(funcs, mask, start, rangeEnd, convex, e, tail);
      [e] + tail
    else
      assert |mask| >= 1;
      assert mask - Used([e][..0]) == mask;
      [e]
  }

  /** One loop iteration followed by the iterations from just after its piece. */
  lemma {:induction false} PrependIteration(funcs: seq<LinearFunc>, mask: set<nat>, start: nat, rangeEnd: nat, convex: bool,
                                            e: EnvelopeElem, tail: seq<EnvelopeElem>)
    requires IsPiece(funcs, mask, start, rangeEnd, convex, e) && e.maxLength < rangeEnd
    requires Iterations(funcs, mask - {e.index}, e.maxLength + 1, rangeEnd, convex, tail)
    ensures Iterations(funcs, mask, start, rangeEnd, convex, [e] + tail)
  {
    var r := [e] + tail;
    forall k | 0 <= k < |r|
      ensures IsPiece(funcs, mask - Used(r[..k]), PieceStart(start, r, k), rangeEnd, convex, r[k])
    {
      if k == 0 {
        assert mask - Used(r[..0]) == mask;
      } else {
        var before := r[..k];
        assert before[0] == e && before[1..] == tail[..k - 1];
        var m := (mask - {e.index}) - Used(tail[..k - 1]);
        assert mask - Used(before) == m;
        assert PieceStart(start, r, k) == PieceStart(e.maxLength + 1, tail, k - 1);
        assert r[k] == tail[k - 1];
      }
    }
  }

  /** A piece ending before the next one, using a function the later pieces no longer consider. */
  lemma PrependPiece(e: EnvelopeElem, tail: seq<EnvelopeElem>, mask: set<nat>, rangeEnd: nat)
    requires e.index in mask && Pieces(tail, mask - {e.index}, rangeEnd) && e.maxLength < tail[0].maxLength
    ensures Pieces([e] + tail, mask, rangeEnd)
  {
    var r := [e] + tail;
    assert forall k :: 0 < k < |r| ==> r[k] == tail[k - 1];
    assert |mask - {e.index}| == |mask| - 1;
  }

  /** The initial mask UCS_MASK(funcs_num): every function is a candidate. */
  function AllFuncs(n: nat): (s: set<nat>)
    ensures forall j: nat :: j in s <==> j < n
    ensures |s| == n
  {
    if n == 0 then {} else AllFuncs(n - 1) + {n - 1}
  }

  /**
   ucp_proto_perf_envelope_make (allocation failure of the array append is
   not modelled): pieces end at strictly increasing sizes, the last at
   range_end; each function is used at most once, so there are at most
   funcs_num pieces; every piece is one iteration of the loop, so its
   function is the best of those not used yet just after the previous piece,
   and it ends at range_end or at the first crossing by another of them.
   */
  function EnvelopeMake(funcs: seq<LinearFunc>, rangeStart: nat, rangeEnd: nat, convex: bool): (r: seq<EnvelopeElem>)
    requires 0 < |funcs| < MaxEnvelopeFuncs
    requires rangeStart <= rangeEnd <= SizeMax
    ensures 1 <= |r| <= |funcs|
    ensures r[|r| - 1].maxLength == rangeEnd
    ensures rangeStart <= r[0].maxLength
    ensures r[0].index == SelectBest(funcs, AllFuncs(|funcs|), XSample(rangeStart, rangeEnd), convex)
    ensures forall k :: 0 <= k < |r| - 1 ==> r[k].maxLength < r[k + 1].maxLength
    ensures forall k :: 0 <= k < |r| ==> r[k].index < |funcs|
    ensures forall k, l :: 0 <= k < l < |r| ==> r[k].index != r[l].index
    ensures Iterations(funcs, AllFuncs(|funcs|), rangeStart, rangeEnd, convex, r)
  {
    var mask := AllFuncs(|funcs|);
    assert 0 in mask;
    EnvelopeFrom(funcs, mask, rangeStart, rangeEnd, convex)
  }

  /**
   Piece k of the envelope, spelled out: with the functions of the earlier
   pieces removed, its function is the best one just after the previous
   piece, and it ends at range_end or at the first size, after its sampling
   point, at which one of the remaining functions crosses it.
   */
  lemma EnvelopePiece(funcs: seq<LinearFunc>, rangeStart: nat, rangeEnd: nat, convex: bool, k: nat)
    requires 0 < |funcs| < MaxEnvelopeFuncs
    requires rangeStart <= rangeEnd <= SizeMax
    ensures var r := EnvelopeMake(funcs, rangeStart, rangeEnd, convex);
            k < |r| ==>
            var left := AllFuncs(|funcs|) - Used(r[..k]);
            var xs := XSample(PieceStart(rangeStart, r, k), rangeEnd);
            && left != {} && InFuncs(funcs, left) && xs >= 0.0
            && r[k].index == SelectBest(funcs, left, xs, convex)
            && (forall j :: j in left && j != r[k].index && Crosses(funcs, r[k].index, xs, j) ==>
                  r[k].maxLength <= CrossSize(funcs, r[k].index, xs, j))
            && (|| r[k].maxLength == rangeEnd
                || exists j :: j in left && j != r[k].index && Crosses(funcs, r[k].index, xs, j) &&
                     r[k].maxLength == CrossSize(funcs, r[k].index, xs, j))
  {
    var r := EnvelopeMake(funcs, rangeStart, rangeEnd, convex);
    if k < |r| {
      var left := AllFuncs(|funcs|) - Used(r[..k]);
      assert IsPiece(funcs, left, PieceStart(rangeStart, r, k), rangeEnd, convex, r[k]);
      PieceEnd(funcs, left, PieceStart(rangeStart, r, k), rangeEnd, convex, r[k]);
    }
  }

  // ---------------------------------------------------------------------------
  // Pipeline cost
  // ---------------------------------------------------------------------------

  /** The running-maximum scan of add_ppln_perf from index i. */
  function MaxScan(vs: seq<real>, i: nat, id: nat, mv: real): nat
    requires i <= |vs|
    decreases |vs| - i
  {
    if i == |vs| then id
    else if vs[i] > mv then MaxScan(vs, i + 1, i, vs[i])
    else MaxScan(vs, i + 1, id, mv)
  }

  ghost predicate ScanInv(vs: seq<real>, i: nat, id: nat, mv: real)
    requires i <= |vs|
  {
    || (id == 0 && mv == -DblMax && forall j :: 0 <= j < i ==> vs[j] <= -DblMax)
    || (id < i && mv == vs[id] &&
        (forall j :: 0 <= j < i ==> vs[j] <= mv) && (forall j :: 0 <= j < id ==> vs[j] < mv))
  }

  lemma {:induction false} MaxScanSound(vs: seq<real>, i: nat, id: nat, mv: real)
    requires i <= |vs| && id < |vs| && ScanInv(vs, i, id, mv)
    ensures var r := MaxScan(vs, i, id, mv);
      && r < |vs|
      && (forall j :: 0 <= j < |vs| ==> vs[j] <= vs[r] || vs[j] <= -DblMax)
      && (forall j :: 0 <= j < r ==> vs[j] < vs[r])
    decreases |vs| - i
  {
    if i < |vs| {
      if vs[i] > mv {
        assert ScanInv(vs, i + 1, i, vs[i]);
        MaxScanSound(vs, i + 1, i, vs[i]);
      } else {
        assert ScanInv(vs, i + 1, id, mv);
        MaxScanSound(vs, i + 1, id, mv);
      }
    }
  }

  /**
   The dominant factor of add_ppln_perf: the first index holding the largest
   value, scanning from a running maximum of -DBL_MAX (index 0 if no value
   exceeds it).
   */
  function Dominant(vs: seq<real>): (id: nat)
    requires |vs| > 0
    ensures id < |vs|
    ensures forall j :: 0 <= j < |vs| ==> vs[j] <= vs[id] || vs[j] <= -DblMax
    ensures forall j :: 0 <= j < id ==> vs[j] < vs[id]
  {
    assert ScanInv(vs, 0, 0, -DblMax);
    MaxScanSound(vs, 0, 0, -DblMax);
    MaxScan(vs, 0, 0, -DblMax)
  }

  /** The value of every factor of a segment at the fragment size. */
  function FactorValues(seg: PerfSegment, frag: nat): (vs: seq<real>)
    ensures |vs| == FactorCount
    ensures forall j :: 0 <= j < FactorCount ==> vs[j] == seg.factors[j].Apply(frag as real)
  {
    var x := frag as real;
    [seg.factors[0].Apply(x), seg.factors[1].Apply(x), seg.factors[2].Apply(x), seg.factors[3].Apply(x),
     seg.factors[4].Apply(x), seg.factors[5].Apply(x), seg.factors[6].Apply(x)]
  }

  /** The constant function of each factor's value at the fragment size. */
  function ConstantFactors(vs: seq<real>): (fs: Factors)
    requires |vs| == FactorCount
    ensures forall j :: 0 <= j < FactorCount ==> fs[j] == LinearFunc(vs[j], 0.0)
  {
    [LinearFunc(vs[0], 0.0), LinearFunc(vs[1], 0.0), LinearFunc(vs[2], 0.0), LinearFunc(vs[3], 0.0),
     LinearFunc(vs[4], 0.0), LinearFunc(vs[5], 0.0), LinearFunc(vs[6], 0.0)]
  }

  /**
   The per-fragment factors add_ppln_perf adds beyond the fragment: every
   factor but the dominant one becomes the constant of its value at the
   fragment size; the dominant one keeps a slope that reproduces its value
   at the fragment size, with no constant part.
   */
  function PplnFactors(seg: PerfSegment, frag: nat): (fs: Factors)
    requires frag > 0
    ensures var d := Dominant(FactorValues(seg, frag));
      && fs[d].c == 0.0
      && fs[d].Apply(frag as real) == seg.factors[d].Apply(frag as real)
      && fs[d].m == seg.factors[d].m + seg.factors[d].c / frag as real
      && forall j :: 0 <= j < FactorCount && j != d ==>
           fs[j] == LinearFunc(seg.factors[j].Apply(frag as real), 0.0)
  {
    var vs := FactorValues(seg, frag);
    var d := Dominant(vs);
    var f := seg.factors[d];
    var x := frag as real;
    assert (f.m + f.c / x) * x == f.m * x + (f.c / x) * x;
    ConstantFactors(vs)[d := LinearFunc(0.0, f.m + f.c / x)]
  }

  lemma AddAllFromZero(fs: Factors)
    ensures AddAll(ZeroFactors, fs) == fs
  {
    forall j | 0 <= j < FactorCount ensures AddAll(ZeroFactors, fs)[j] == fs[j] {
      ZeroIsIdentity(fs[j]);
    }
  }

  /**
   ucp_proto_common_add_ppln_perf: on a structure with nothing defined past
   the fragment size, the sizes (frag_size, max_length] get the pipeline
   factors, and nothing else changes.
   */
  function AddPplnPerf(perf: Perf, fragSeg: PerfSegment, maxLength: nat, mem: nat): (r: Outcome)
    requires Check(perf)
    requires 0 < fragSeg.end < maxLength <= SizeMax
    requires FindSegmentLb(perf, fragSeg.end + 1).None?
    ensures Check(r.perf) && r.status in {Ok, NoMemory}
    ensures r.status == Ok ==> forall x: nat {:trigger FactorsAt(r.perf, x)} ::
              FactorsAt(r.perf, x) ==
                if fragSeg.end < x <= maxLength then Some(PplnFactors(fragSeg, fragSeg.end))
                else FactorsAt(perf, x)
  {
    var fs := PplnFactors(fragSeg, fragSeg.end);
    var r := AddFuncs(perf, fragSeg.end + 1, maxLength, fs, mem);
    AddAllFromZero(fs);
    NothingAbove(perf, fragSeg.end + 1);
    r
  }

  /** No segment ends at or after lb, so no point from lb on is defined. */
  lemma NothingAbove(perf: Perf, lb: nat)
    requires FindSegmentLb(perf, lb).None?
    ensures forall x: nat {:trigger FactorsAt(perf, x)} :: lb <= x ==> FactorsAt(perf, x).None?
  {
    forall x: nat | lb <= x ensures FactorsAt(perf, x).None? {
      assert FindSegmentLb(perf, x).None?;
    }
  }

  // ---------------------------------------------------------------------------
  // Transport-level cost and the init range
  // ---------------------------------------------------------------------------

  /** Transport performance of a protocol lane (ucp_proto_common_tl_perf_t, the fields used here). */
  datatype TlPerf = TlPerf(
    latency: real, sysLatency: real,
    sendPreOverhead: real, sendPostOverhead: real, recvOverhead: real,
    bandwidth: real, maxFrag: nat, minLength: nat)

  /** The UCP_PROTO_COMMON_INIT_FLAG_* bits the model reads. */
  datatype InitFlags = InitFlags(
    hdrOnly: bool, sendZcopy: bool, remoteAccess: bool, response: bool, singleFrag: bool)

  /**
   The init parameters the model reads; cpuAccessible stands for
   UCP_MEM_IS_ACCESSIBLE_FROM_CPU of the selected memory type, memtypeOpValid
   for memtype_op != UCT_EP_OP_LAST, fastCmpl for UCP_OP_ATTR_FLAG_FAST_CMPL.
   */
  datatype InitParams = InitParams(
    minLength: nat, maxLength: nat, hdrSize: nat, flags: InitFlags,
    cpuAccessible: bool, memtypeOpValid: bool, fastCmpl: bool)

  function AddConst(fs: Factors, id: nat, c: real): (r: Factors)
    requires id < FactorCount
  {
    fs[id := LinearFunc(fs[id].c + c, fs[id].m)]
  }

  function AddSlope(fs: Factors, id: nat, m: real): (r: Factors)
    requires id < FactorCount
  {
    fs[id := LinearFunc(fs[id].c, fs[id].m + m)]
  }

  function Count(b: bool): real { if b then 1.0 else 0.0 }

  /**
   The factors ucp_proto_init_add_tl_perf adds, in closed form: local cpu
   pays the send overheads; the remote cpu pays the receive overhead unless
   fast completion or remote access, and the send overheads again for a
   response; latency is counted once, again for a response and again for
   fast-completion zero copy; the local transport slope is 1/bandwidth unless
   fast completion without zero copy. The remote transport, single and multi
   factors stay zero.
   */
  function TlPerfFactors(tl: TlPerf, flags: InitFlags, fastCmpl: bool): (fs: Factors)
    requires tl.bandwidth != 0.0
    ensures var send := tl.sendPreOverhead + tl.sendPostOverhead;
      var lat := tl.latency + tl.sysLatency;
      && fs[LocalCpu] == LinearFunc(send, 0.0)
      && fs[RemoteCpu] == LinearFunc(Count(!fastCmpl && !flags.remoteAccess) * tl.recvOverhead +
                                     Count(flags.response) * send, 0.0)
      && fs[Latency] == LinearFunc((1.0 + Count(flags.response) + Count(fastCmpl && flags.sendZcopy)) * lat, 0.0)
      && fs[LocalTl] == LinearFunc(0.0, Count(!fastCmpl || flags.sendZcopy) / tl.bandwidth)
      && fs[RemoteTl] == Zero && fs[Single] == Zero && fs[Multi] == Zero
  {
    var lat := tl.latency + tl.sysLatency;
    var send := tl.sendPreOverhead + tl.sendPostOverhead;
    var f0 := AddConst(AddConst(ZeroFactors, LocalCpu, send), Latency, lat);
    var f1 := if !fastCmpl && !flags.remoteAccess then AddConst(f0, RemoteCpu, tl.recvOverhead) else f0;
    var f2 := if flags.response then AddConst(AddConst(f1, Latency, lat), RemoteCpu, send) else f1;
    var f3 := if !fastCmpl || flags.sendZcopy then AddSlope(f2, LocalTl, 1.0 / tl.bandwidth) else f2;
    if fastCmpl && flags.sendZcopy then AddConst(f3, Latency, lat) else f3
  }

  /** ucp_proto_init_add_tl_perf: the transport factors over [range_start, range_end]. */
  function AddTlPerf(perf: Perf, p: InitParams, tl: TlPerf, rangeStart: nat, rangeEnd: nat, mem: nat): (r: Outcome)
    requires Check(perf) && tl.bandwidth != 0.0 && rangeStart <= SizeMax && rangeEnd <= SizeMax
    ensures Check(r.perf) && r.status in {Ok, NoMemory}
    ensures r.status == Ok ==> forall x: nat {:trigger FactorsAt(r.perf, x)} ::
              FactorsAt(r.perf, x) ==
                if rangeStart <= x <= rangeEnd
                then Some(AddAll(OrZero(FactorsAt(perf, x)), TlPerfFactors(tl, p.flags, p.fastCmpl)))
                else FactorsAt(perf, x)
  {
    AddFuncs(perf, rangeStart, rangeEnd, TlPerfFactors(tl, p.flags, p.fastCmpl), mem)
  }

  /**
   ucp_proto_common_check_mem_access: the payload need not be touched
   (header only, zero copy), or the CPU can reach it, or a memory-type
   operation is defined.
   */
  predicate CheckMemAccess(p: InitParams)
  {
    p.flags.hdrOnly || p.flags.sendZcopy || p.cpuAccessible || p.memtypeOpValid
  }

  /** ucp_proto_common_init_perf asserts the header fits in one fragment for single-fragment protocols. */
  predicate InitPerfPre(p: InitParams, tl: TlPerf)
  {
    CheckMemAccess(p) && p.flags.singleFrag ==> tl.maxFrag >= p.hdrSize
  }

  /**
   The size range of ucp_proto_common_init_perf: it starts at the larger of
   the two minimal lengths; it ends at max_length, capped at max_frag -
   hdr_size for single-fragment protocols, or at 0 when the payload memory
   cannot be accessed.
   */
  function InitRange(p: InitParams, tl: TlPerf): (rg: (nat, nat))
    requires InitPerfPre(p, tl)
    ensures rg.0 == Max(p.minLength, tl.minLength)
    ensures rg.0 >= p.minLength && rg.0 >= tl.minLength
    ensures !CheckMemAccess(p) ==> rg.1 == 0
    ensures CheckMemAccess(p) && !p.flags.singleFrag ==> rg.1 == p.maxLength
    ensures CheckMemAccess(p) && p.flags.singleFrag ==>
              rg.1 <= p.maxLength && rg.1 <= tl.maxFrag - p.hdrSize &&
              (rg.1 == p.maxLength || rg.1 == tl.maxFrag - p.hdrSize)
  {
    var rangeStart := Max(p.minLength, tl.minLength);
    if CheckMemAccess(p) then
      if p.flags.singleFrag then (rangeStart, Min(p.maxLength, tl.maxFrag - p.hdrSize))
      else (rangeStart, p.maxLength)
    else (rangeStart, 0)
  }

  /**
   The pipeline branch of ucp_proto_common_init_perf needs a non-empty range
   ending below max_length for a protocol that is not single-fragment; the
   range logic never produces one, so that branch cannot run.
   */
  lemma PipelineBranchUnreachable(p: InitParams, tl: TlPerf)
    requires InitPerfPre(p, tl)
    ensures var rg := InitRange(p, tl);
      !(rg.1 > 0 && rg.1 < p.maxLength && !p.flags.singleFrag)
  {
  }

  /** The transport stage of init_perf on a new, empty structure. */
  function TlStage(p: InitParams, tl: TlPerf, rangeStart: nat, rangeEnd: nat, mem: nat): (r: Outcome)
    requires tl.bandwidth != 0.0 && rangeStart <= SizeMax && rangeEnd <= SizeMax
    ensures Check(r.perf) && r.status in {Ok, NoMemory}
    ensures r.status == Ok ==> forall x: nat {:trigger FactorsAt(r.perf, x)} ::
              FactorsAt(r.perf, x) ==
                if rangeStart <= x <= rangeEnd then Some(TlPerfFactors(tl, p.flags, p.fastCmpl)) else None
  {
    AddAllFromZero(TlPerfFactors(tl, p.flags, p.fastCmpl));
    assert forall x: nat :: FactorsAt([], x).None?;
    AddTlPerf([], p, tl, rangeStart, rangeEnd, mem)
  }

  /**
   The buffer stage of init_perf, ucp_proto_init_add_buffer_perf: the
   buffer factors over the non-empty sizes of the range. `bufStatus` is what
   the helpers report on their own (UNSUPPORTED when no memtype endpoint can
   copy the data or the copy operation is UCT_EP_OP_LAST, or the status of
   the transport's performance estimate); any status but Ok ends the stage
   with that status.
   */
  function BufferStage(perf: Perf, tf: Factors, buffer: Factors, bufStatus: Status,
                       rangeStart: nat, rangeEnd: nat, mem: nat): (r: Outcome)
    requires Check(perf) && rangeStart <= SizeMax && 0 < rangeEnd <= SizeMax
    requires forall x: nat {:trigger FactorsAt(perf, x)} ::
               FactorsAt(perf, x) == if rangeStart <= x <= rangeEnd then Some(tf) else None
    ensures Check(r.perf)
    ensures bufStatus != Ok ==> r.status == bufStatus
    ensures bufStatus == Ok ==> r.status in {Ok, NoMemory}
    ensures r.status == Ok ==> forall x: nat {:trigger FactorsAt(r.perf, x)} ::
              FactorsAt(r.perf, x) ==
                if rangeStart <= x <= rangeEnd then Some(if x >= 1 then AddAll(tf, buffer) else tf) else None
  {
    if bufStatus != Ok then Outcome(bufStatus, perf, mem)
    else AddFuncs(perf, Max(1, rangeStart), rangeEnd, buffer, mem)
  }

  /**
   ucp_proto_common_init_perf: UNSUPPORTED when the range ends below the
   transport's minimal length; otherwise the structure holds the transport
   factors over the whole range plus the buffer factors over its non-empty
   sizes, and nothing outside it. On failure nothing is returned. The
   buffer copy/registration cost is a parameter (`buffer`), added over
   [max(1, range_start), range_end], and so is the status the buffer helpers
   report on their own (`bufStatus`), which fails init_perf for a non-empty
   range.
   */
  function InitPerf(p: InitParams, tl: TlPerf, buffer: Factors, bufStatus: Status, mem: nat): (r: Outcome)
    requires InitPerfPre(p, tl) && tl.bandwidth != 0.0
    requires p.minLength <= SizeMax && p.maxLength <= SizeMax && tl.minLength <= SizeMax
    ensures r.status in {Ok, NoMemory, Unsupported, bufStatus}
    ensures InitRange(p, tl).1 < tl.minLength ==> r.status == Unsupported
    ensures r.status == Unsupported ==> InitRange(p, tl).1 < tl.minLength || bufStatus == Unsupported
    ensures r.status == Ok ==> InitRange(p, tl).1 == 0 || bufStatus == Ok
    ensures tl.minLength <= InitRange(p, tl).1 && 0 < InitRange(p, tl).1 && bufStatus != Ok ==>
              r.status == bufStatus || r.status == NoMemory
    ensures r.status != Ok ==> r.perf == []
    ensures r.status == Ok ==> Check(r.perf)
    ensures r.status == Ok ==> forall x: nat {:trigger FactorsAt(r.perf, x)} ::
              FactorsAt(r.perf, x) ==
                if InitRange(p, tl).0 <= x <= InitRange(p, tl).1
                then Some(if x >= 1 then AddAll(TlPerfFactors(tl, p.flags, p.fastCmpl), buffer)
                          else TlPerfFactors(tl, p.flags, p.fastCmpl))
                else None
  {
    var rg := InitRange(p, tl);
    var rangeStart := rg.0;
    var rangeEnd := rg.1;
    if rangeEnd < tl.minLength then Outcome(Unsupported, [], mem)
    else
      var c := Create(mem);
      if c.status != Ok then c
      else
        var t := TlStage(p, tl, rangeStart, rangeEnd, c.mem);
        if t.status != Ok then Outcome(t.status, [], t.mem)
        else if rangeEnd > 0 then
          var b := BufferStage(t.perf, TlPerfFactors(tl, p.flags, p.fastCmpl), buffer, bufStatus, rangeStart, rangeEnd, t.mem);
          if b.status != Ok then Outcome(b.status, [], b.mem) else b
        else t
  }
}
