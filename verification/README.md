# UCX protocol performance model in Dafny

This project models the part of UCX that estimates how long a protocol takes
to send a message of a given size, and the rendezvous pipeline protocol
(rndv_ppln) that is built on those estimates.

- `basics.dfy` (`Basics`): size_t values as naturals bounded by
  `SizeMax` = 2^64 - 1. It has the modulo-2^64 sum `WrapAdd`, the status
  codes, `Option`, and the clamping `double -> size_t` conversion.
- `linear_func.dfy` (`Linear`): the affine cost function `c + m*x`
  (ucs_linear_func_t), its pointwise sum, and the crossing point of two lines.
- `piecewise_func.dfy` (`PiecewiseFunc`): the linked-list piecewise-linear
  function (ucs_piecewise_func_t) as a sequence of segments, each given by its
  end point and its function. It covers init, find_segment, apply,
  segment_split, add_range and add_inplace.
- `piecewise_array.dfy` (`PiecewiseArray`): the fixed-size variant of
  piecewise_func.h. It has 128 slots linked by index into a chain from slot 0
  and a free list. It covers make, apply, acquire, add_segment and
  add_inplace. Each is proved to represent the same segments as the list model
  in `PiecewiseFunc`.
- `proto_perf.dfy` (`ProtoPerf`): the protocol performance structure
  (ucp_proto_perf_t). It is a sorted list of disjoint segments `[start, end]`,
  each holding one linear function per performance factor. Gaps between
  segments are sizes the protocol does not support. It covers create,
  is_empty, segment_new, segment_split, find_segment_lb, segment_last,
  add_func and add_funcs.
- `proto_perf_ops.dfy` (`ProtoPerfOps`): from_caps, the
  segment_foreach_range iteration, aggregate, and turn_remote.
- `proto_init.dfy` (`ProtoInit`):
  - the lower or upper envelope of a set of linear functions
    (ucp_proto_perf_envelope_make);
  - the pipeline approximation (ucp_proto_common_add_ppln_perf);
  - the transport cost factors (ucp_proto_init_add_tl_perf);
  - check_mem_access;
  - the range and stage sequence of ucp_proto_common_init_perf.
- `rndv_ppln.dfy` (`RndvPpln`): the pipeline protocol's fragment-size rule and
  its send loop (progress). It also covers query, the fragment completion
  decision, and reset.

`FactorsAt(perf, x)` is the meaning of a performance structure. It gives the
factor vector of the segment that contains `x`, or nothing if `x` falls in a
gap. Most operations are specified by how they change this function.

malloc is modelled by an allocation budget `mem`. This is the number of
allocations that succeed before the first one fails. Every modelled operation
stops at its first failed allocation, so the budget covers every failure
pattern. Coefficients are real numbers.

## Model

| member | source | states |
|---|---|---|
| Basics.WrapAdd | src/ucp/rndv/rndv_ppln.c:296-301 | the size_t sum used for fragment addresses and offsets: the exact sum when it fits, otherwise the sum minus 2^64 |
| Basics.DoubleToSize | src/ucp/proto/proto_init.c:91-92 | a non-negative double converts to the largest size_t not above it, clamped to SIZE_MAX |
| Linear.LinearFunc.Add | src/ucp/proto/proto_perf.c:164 | adding two cost functions adds their values at every size |
| Linear.Intersect | src/ucp/proto/proto_init.c:82-84 | two lines have a crossing point exactly when their slopes differ, and both lines take the same value there |
| PiecewiseFunc.AscendingIff | src/ucs/datastruct/piecewise_func.c:62-84 | the recursive well-formedness predicate is the same as strictly increasing segment ends that start at or above the lower bound |
| PiecewiseFunc.HeadBelowLast | src/ucs/datastruct/piecewise_func.c:70-82 | in a well-formed list the first end is at most the last end |
| PiecewiseFunc.FindSegment | src/ucs/datastruct/piecewise_func.c:86-98 | the segment found is the first one whose end is at least x; every earlier segment ends before x |
| PiecewiseFunc.Coverage | src/ucs/datastruct/piecewise_func.c:62-98 | in a function that passes the check, every size_t point lies in the segment find_segment returns |
| PiecewiseFunc.ApplyInSegment | src/ucs/datastruct/piecewise_func.c:100-105 | apply at a point takes the value of the linear function of the one segment that contains the point |
| PiecewiseFunc.Init | src/ucs/datastruct/piecewise_func.c:38-51 | init succeeds exactly when the allocation succeeds; it then yields the single segment [0, SIZE_MAX] with the zero function, which is zero everywhere |
| PiecewiseFunc.Split | src/ucs/datastruct/piecewise_func.c:107-123 | split fails without change when the allocation fails; on success it yields one more segment, the head ending at the split point with the same function, and the value at every point unchanged and well-formedness kept |
| PiecewiseFunc.SplitKeepsValid | src/ucs/datastruct/piecewise_func.c:107-123 | splitting a segment at a point inside it keeps a well-formed function well-formed |
| PiecewiseFunc.CoverFromSound | src/ucs/datastruct/piecewise_func.c:157-177 | the part of the add_range loop after the first affected segment adds f on every point up to end and leaves later points alone, using at most one allocation |
| PiecewiseFunc.AddRangeFromSound | src/ucs/datastruct/piecewise_func.c:144-177 | the add_range loop keeps the list well-formed, uses at most two allocations, and adds f exactly on [start, end] when it succeeds (on a prefix of it when it fails) |
| PiecewiseFunc.AddRange | src/ucs/datastruct/piecewise_func.c:125-180 | add_range keeps the function well-formed; it needs at most two allocations and always succeeds when two are available; on success the value at every point x is the old value plus f(x) on [start, end] and the old value elsewhere; on failure f was added on [start, cut) only, for some cut |
| PiecewiseFunc.CoverFromSplits | src/ucs/datastruct/piecewise_func.c:158-177 | the covering part of add_range allocates exactly when end is not already a segment end, adds one segment per allocation, and leaves end a segment end |
| PiecewiseFunc.AddRangeFromSplits | src/ucs/datastruct/piecewise_func.c:144-177 | the add_range loop from a segment on allocates once for each of start and end that falls strictly inside a segment, adds one segment per allocation, and leaves end a segment end |
| PiecewiseFunc.AddRangeSplits | src/ucs/datastruct/piecewise_func.c:125-180 | with two allocations available, add_range uses exactly one per boundary of [start, end] that lies strictly inside a segment, grows the list by that many segments, and leaves end a segment end |
| PiecewiseFunc.AddInplaceFromSum | src/ucs/datastruct/piecewise_func.c:187-199 | adding the source segments one range at a time adds each source segment's function on exactly its own range |
| PiecewiseFunc.AddInplace | src/ucs/datastruct/piecewise_func.c:182-202 | add_inplace keeps the destination well-formed and on success makes it the pointwise sum of the two functions at every size_t point |
| PiecewiseArray.Make | src/ucs/datastruct/piecewise_func.h:53-71 | make yields a well-formed array function of 128 slots whose chain is the single slot 0 covering [0, SIZE_MAX] with c + m*x, and whose free list is slots 1 to 127 in index order |
| PiecewiseArray.Evaluate | src/ucs/datastruct/piecewise_func.h:94-106 | apply, walking the chain from slot 0 until a segment ends at or after x, returns the same value as the list model at every size_t point |
| PiecewiseArray.AcquirePops | src/ucs/datastruct/piecewise_func.h:109-116 | with a free slot available, acquire hands out the head of the free list (never slot 0), detached; the free list loses its head, and the chain and the represented function are untouched |
| PiecewiseArray.AcquireExhausted | src/ucs/datastruct/piecewise_func.h:109-116 | with the free list empty, acquire hands out slot 0, the head of the chain, and cuts the chain to that one slot, which ends below SIZE_MAX, so the function no longer covers the size_t range |
| PiecewiseArray.SplitAtSound | src/ucs/datastruct/piecewise_func.h:159-165 | one split step takes the free list head, links it right after the split slot, and has the same effect on the segments as the list model's split: one more segment, the head ending at the split point, the value at every point unchanged |
| PiecewiseArray.AddAtSound | src/ucs/datastruct/piecewise_func.h:186 | adding a function to one slot adds it to exactly that segment; chain, free list and every other segment are unchanged |
| PiecewiseArray.FindStart | src/ucs/datastruct/piecewise_func.h:140-150 | the first loop stops at the first segment that ends at or after start, and seg_start is that segment's start point |
| PiecewiseArray.SplitEnd | src/ucs/datastruct/piecewise_func.h:159-165 | splitting a segment at a point inside it keeps the array well-formed, inserts the head part ending at that point, keeps the slot in place and uses one free slot |
| PiecewiseArray.SplitMiddle | src/ucs/datastruct/piecewise_func.h:153-179 | a range strictly inside one segment splits it into three parts ending at start-1, end and the old end, all with the old function, using two free slots, and continues at the part [start, end] |
| PiecewiseArray.SplitStart | src/ucs/datastruct/piecewise_func.h:168-179 | a range starting inside a segment splits it at start-1, using one free slot, and continues at the part starting at start |
| PiecewiseArray.CoverOne | src/ucs/datastruct/piecewise_func.h:185-188 | one pass of the covering loop adds the function to a segment that ends before end and moves to the next segment, which exists and starts right after it; it leaves the remaining work of the list model's covering step the same |
| PiecewiseArray.CoverBelow | src/ucs/datastruct/piecewise_func.h:185-188 | the covering loop, written as a recursion over chain positions, stops at the segment containing end, having added the function to every segment before it, without using a free slot |
| PiecewiseArray.ChainEnds | src/ucs/datastruct/piecewise_func.h:226-232 | in a well-formed array a chain slot links to slot 0 exactly when it holds the last segment |
| PiecewiseArray.FinishSegment | src/ucs/datastruct/piecewise_func.h:190-204 | the last step splits the final segment at end when it reaches past it (one free slot) and adds the function to the part ending at end, as the list model's covering step does |
| PiecewiseArray.CoverSegments | src/ucs/datastruct/piecewise_func.h:182-204 | from the first affected segment, the rest of add_segment has the effect of the list model's covering step and uses at most one free slot, none when the segment already ends at end |
| PiecewiseArray.AddFromMiddle | src/ucs/datastruct/piecewise_func.h:153-204 | when the range lies strictly inside one segment, add_segment from that segment on agrees with the list model's add_range loop |
| PiecewiseArray.AddFromStart | src/ucs/datastruct/piecewise_func.h:153-204 | when the range starts inside a segment and reaches its end or beyond, add_segment from that segment on agrees with the list model's add_range loop |
| PiecewiseArray.AddFromAligned | src/ucs/datastruct/piecewise_func.h:182-204 | when the range starts where a segment starts, add_segment from that segment on agrees with the list model's add_range loop |
| PiecewiseArray.AddFrom | src/ucs/datastruct/piecewise_func.h:152-204 | the three cases of the first split together give the list model's add_range loop from the first affected segment, taking exactly as many free slots as that loop makes allocations |
| PiecewiseArray.AddRangeSkipTo | src/ucs/datastruct/piecewise_func.h:147-150 | skipping the segments that end before start, as the first loop does, leaves them unchanged in the list model's add_range |
| PiecewiseArray.AddSegment | src/ucs/datastruct/piecewise_func.h:135-205 | given one free slot for each segment the range starts or ends strictly inside, add_segment keeps the array well-formed and represents exactly the list model's add_range result, so the value at every point is the old value plus the function on [start, end] and the old value elsewhere; it takes exactly that many slots from the free list, each becoming one new segment, and afterwards end is a segment end |
| PiecewiseArray.SumBelowStep | src/ucs/datastruct/piecewise_func.h:226-228 | once the destination holds the sum on every point before a source segment, adding that segment's function on its range extends the sum to the points up to its end |
| PiecewiseArray.PassSplits | src/ucs/datastruct/piecewise_func.h:226-228 | a pass of add_inplace never cuts a destination segment where its range starts (0, or the end the previous pass left), and the last pass, ending at SIZE_MAX, cuts none at all |
| PiecewiseArray.AddSourceSegment | src/ucs/datastruct/piecewise_func.h:227-228 | one pass of add_inplace's loop extends the pointwise sum over the current source segment, leaves the segment's end as a destination segment end, takes at most one free slot, and none on the last pass |
| PiecewiseArray.NextSource | src/ucs/datastruct/piecewise_func.h:228-232 | the loop ends exactly after the last source segment; otherwise it moves to the next one with seg_start equal to that segment's start |
| PiecewiseArray.AddSourceFrom | src/ucs/datastruct/piecewise_func.h:224-232 | the do-while loop from source segment k on, with one free destination slot per remaining source segment but the last, extends the sum from the points below that segment to every size_t point |
| PiecewiseArray.AddInplace | src/ucs/datastruct/piecewise_func.h:215-233 | with one free destination slot per source segment but the last, add_inplace keeps the destination well-formed and makes it the pointwise sum of both functions at every size_t point, each new segment taking one free slot |
| ProtoPerf.AddFactor | src/ucp/proto/proto_perf.c:157-174 | adding a function to one factor of a segment changes that factor by the pointwise sum and leaves every other factor alone |
| ProtoPerf.CheckSorted | src/ucp/proto/proto_perf.c:64-84 | a list that passes the check has non-empty segments within size_t, and each segment ends before any later one starts |
| ProtoPerf.Create | src/ucp/proto/proto_perf.c:176-189 | create succeeds exactly when its allocation does, and yields a structure with no segments that passes the check |
| ProtoPerf.SegmentNew | src/ucp/proto/proto_perf.c:86-109 | a new segment covers exactly [start, end] and every factor is zero |
| ProtoPerf.SegmentSplit | src/ucp/proto/proto_perf.c:111-136 | splitting at e yields [start, e] and [e+1, end], both with the original factors |
| ProtoPerf.FindSegmentLb | src/ucp/proto/proto_perf.c:343-356 | the result is the first segment that ends at or after lb, or none when every segment ends before lb |
| ProtoPerf.IsEmpty | src/ucp/proto/proto_perf.h:83 | the structure is empty when it holds no segment (a definition; EmptyIffUncovered states its meaning) |
| ProtoPerf.EmptyIffUncovered | src/ucp/proto/proto_perf.h:83 | a checked structure is empty exactly when no size_t point has factors |
| ProtoPerf.SegmentLast | src/ucp/proto/proto_perf.h:231-232 | there is a last segment exactly when the structure is not empty, and it is the final one in the list |
| ProtoPerf.FindSegmentLbContains | src/ucp/proto/proto_perf.h:162-173 | in a checked structure, find_segment_lb returns the segment that contains lb when there is one; when lb is in a gap, the segment returned starts after lb |
| ProtoPerf.AddFuncLoopSound | src/ucp/proto/proto_perf.c:277-334 | the add_func loop plus the remainder keeps the check, and on success adds f to the chosen factor at exactly the points of [start, end]; points there that had no segment get a segment with zero factors plus f |
| ProtoPerf.AddFunc | src/ucp/proto/proto_perf.c:258-341 | add_func keeps the structure checked and returns Ok or NoMemory; on success, every point in [start, end] gets f added to the chosen factor (starting from zero factors where the point was undefined) and every other point is unchanged |
| ProtoPerf.AddFuncAsWrittenWrapCounterexample | src/ucp/proto/proto_perf.c:320-334 | with the C wrap-around of `seg->end + 1`, adding to [0, SIZE_MAX] over a segment that ends at SIZE_MAX appends a second segment [0, SIZE_MAX], so the result fails the check |
| ProtoPerf.AddFuncAsWrittenAgrees | src/ucp/proto/proto_perf.c:320-322 | when end is below SIZE_MAX, the wrap-around never happens and the code as written computes the corrected result |
| ProtoPerf.AddFuncsUpTo | src/ucp/proto/proto_perf.h:86-110 | adding the first count factors one by one keeps the check and adds each of them on exactly [start, end] |
| ProtoPerf.AddFuncs | src/ucp/proto/proto_perf.h:86-110 | add_funcs keeps the structure checked; on success every point in [start, end] gets the whole factor vector added (from zero where undefined) and every other point is unchanged |
| ProtoPerfOps.CapsFactors | src/ucp/proto/proto_perf.c:234-243 | a caps range contributes its single, multi and cpu functions to those three factors; every other factor is zero |
| ProtoPerfOps.FirstReaching | src/ucp/proto/proto_perf.c:217-222 | the range a size belongs to is the first range whose max_length reaches it |
| ProtoPerfOps.FromCapsLoopSound | src/ucp/proto/proto_perf.c:217-246 | the from_caps loop yields a checked list in which each size from min_length on has the factors of the first range reaching it, and every other size is undefined |
| ProtoPerfOps.FromCaps | src/ucp/proto/proto_perf.c:202-256 | from_caps returns Ok or NoMemory; it fails when create cannot allocate and succeeds when one allocation per range plus one is available; on failure no structure is left; on success the structure passes the check and each size at or above min_length that some range reaches has the factors of the first such range; all other sizes are undefined |
| ProtoPerfOps.FromCapsContiguous | src/ucp/proto/proto_perf.c:217-246 | the segments from_caps builds start at min_length and follow each other without gaps |
| ProtoPerfOps.ForeachRange | src/ucp/proto/proto_perf.h:52-61 | each visited piece lies inside both the requested range and its segment, and the walk starts at the segment find_segment_lb gives |
| ProtoPerfOps.ForeachRangeSound | src/ucp/proto/proto_perf.h:52-61 | every point of a visited piece is in the requested range and defined in the structure |
| ProtoPerfOps.ForeachRangeComplete | src/ucp/proto/proto_perf.h:52-61 | every defined point of the requested range lies in some visited piece |
| ProtoPerfOps.Aggregate2Values | src/ucp/proto/proto_perf.h:113-121 | the aggregate of two structures is defined at a size exactly when both are, and its factors there are the factor-wise sum |
| ProtoPerfOps.Aggregate2Check | src/ucp/proto/proto_perf.h:134-137 | aggregating two checked structures gives a checked structure |
| ProtoPerfOps.AggregateFoldValues | src/ucp/proto/proto_perf.h:113-121 | folding the pairwise aggregate over a list is defined exactly where every element is, with the sum of all their factors |
| ProtoPerfOps.AggregateFoldCheck | src/ucp/proto/proto_perf.h:113-131 | the fold of checked structures is checked |
| ProtoPerfOps.Aggregate | src/ucp/proto/proto_perf.h:113-131 | aggregate yields a checked structure; a size is defined in the result exactly when it is defined in every input, and its factors are the sum of the inputs' factors |
| ProtoPerfOps.SwapFactors | src/ucp/proto/proto_perf.h:140-148 | local and remote cpu, and local and remote transport, trade places; latency, single and multi stay |
| ProtoPerfOps.TurnRemote | src/ucp/proto/proto_perf.h:140-148 | turn_remote keeps every segment's range and swaps the local and remote factors |
| ProtoPerfOps.TurnRemoteValues | src/ucp/proto/proto_perf.h:140-148 | at every size the turned structure is defined exactly when the original is, with swapped factors |
| ProtoPerfOps.TurnRemoteCheck | src/ucp/proto/proto_perf.h:140-148 | turning a checked structure keeps it checked |
| ProtoPerfOps.TurnRemoteInvolution | src/ucp/proto/proto_perf.h:140-148 | turning twice gives back the original structure |
| ProtoInit.XSample | src/ucp/proto/proto_init.c:52-55 | the sample point is start + 0.5, or start itself when start has reached the end of the range |
| ProtoInit.SelectFromSound | src/ucp/proto/proto_init.c:56-66 | the selection loop ends with the best function of the mask at the sample point, ties resolved as the comparison does |
| ProtoInit.SelectBest | src/ucp/proto/proto_init.c:48-69 | the selected function is in the mask; for a convex envelope its value is minimal, and strictly below every earlier index; otherwise its value is maximal, and strictly above every later index |
| ProtoInit.MidAtLeast | src/ucp/proto/proto_init.c:79-99 | the midpoint found by the crossover loop is never below the current start |
| ProtoInit.MidFromIsMin | src/ucp/proto/proto_init.c:79-99 | the crossover loop yields the minimum of range_end and the floors of every crossing after the sample point: it is at most each of them and equal to range_end or to one of them |
| ProtoInit.FirstPiece | src/ucp/proto/proto_init.c:48-107 | one envelope step picks the best remaining function at the sample point and ends its piece between start and the end of the range |
| ProtoInit.PieceEnd | src/ucp/proto/proto_init.c:79-105 | a piece ends at or before the floor of every crossing, after the sample point, of its function by another remaining function, and at range_end or at one of those crossings |
| ProtoInit.EnvelopeFrom | src/ucp/proto/proto_init.c:48-108 | the envelope loop ends: its pieces end at strictly increasing points, the last one at range_end; each uses a distinct function of the mask; piece k is exactly one loop iteration from just after piece k-1 with the functions of pieces 0..k-1 removed from the mask |
| ProtoInit.AllFuncs | src/ucp/proto/proto_init.c:45-46 | the starting mask holds exactly the indices below funcs_num |
| ProtoInit.EnvelopeMake | src/ucp/proto/proto_init.c:28-111 | envelope_make yields between 1 and funcs_num pieces; their max_lengths increase strictly, from at least range_start to exactly range_end; each names a distinct function; every piece is one loop iteration from just after the previous piece over the functions not used yet |
| ProtoInit.EnvelopePiece | src/ucp/proto/proto_init.c:48-108 | piece k of envelope_make uses the best function, at its sample point, among those earlier pieces did not use, and ends at range_end or at the first crossing of that function by another unused one after the sample point |
| ProtoInit.MaxScanSound | src/ucp/proto/proto_init.c:158-167 | the max-factor loop finds a factor whose value is at least every other value above -DBL_MAX, and strictly above every earlier one |
| ProtoInit.Dominant | src/ucp/proto/proto_init.c:158-167 | the dominant factor has the largest value at the fragment size (ties go to the lowest id) |
| ProtoInit.FactorValues | src/ucp/proto/proto_init.c:160-162 | each factor's value is its function applied at the fragment size |
| ProtoInit.PplnFactors | src/ucp/proto/proto_init.c:158-176 | the dominant factor keeps its cost at the fragment size but all of it becomes slope; every other factor becomes the constant it takes at the fragment size |
| ProtoInit.AddPplnPerf | src/ucp/proto/proto_init.c:128-183 | when nothing is defined above the fragment size, add_ppln_perf keeps the check and on success defines every size in (frag_size, max_length] with the pipeline factors, leaving all other sizes unchanged |
| ProtoInit.NothingAbove | src/ucp/proto/proto_init.c:143-145 | if find_segment_lb finds nothing at lb, no size at or above lb is defined |
| ProtoInit.TlPerfFactors | src/ucp/proto/proto_init.c:209-235 | the transport factors in closed form, for each combination of fast completion, response, remote access and zero-copy flags |
| ProtoInit.AddTlPerf | src/ucp/proto/proto_init.c:185-239 | add_tl_perf adds those transport factors on exactly [range_start, range_end] and keeps the check |
| ProtoInit.CheckMemAccess | src/ucp/proto/proto_init.c:462-477 | the payload memory counts as accessible exactly when the protocol is header-only or zero-copy, the memory is CPU-accessible, or a memtype operation is set (a definition; InitRange states its effect) |
| ProtoInit.InitRange | src/ucp/proto/proto_init.c:491-504 | the range starts at the larger of the two min lengths; it ends at 0 without memory access; otherwise it ends at max_length, capped by max_frag - hdr_size for single-fragment protocols |
| ProtoInit.PipelineBranchUnreachable | src/ucp/proto/proto_init.c:491-536 | with that range the pipeline branch of init_perf is never taken: a multi-fragment protocol's range always ends at max_length |
| ProtoInit.TlStage | src/ucp/proto/proto_init.c:510-519 | after create and add_tl_perf, a size is defined exactly when it is in the range, with the transport factors |
| ProtoInit.BufferStage | src/ucp/proto/proto_init.c:521-528 | a failure the buffer helpers report on their own (UNSUPPORTED without a memtype endpoint or for UCT_EP_OP_LAST, or a failed transport estimate) is the stage's status; otherwise it fails only for lack of memory, and on success adds the buffer factors at every size from 1 on in the range, leaving the zero size and all other sizes unchanged |
| ProtoInit.InitPerf | src/ucp/proto/proto_init.c:479-547 | init_perf is Unsupported when the range ends below the transport's min length, and otherwise only when the buffer helpers report it; for a non-empty range any failure the buffer helpers report fails init_perf (with that status, or NoMemory from an earlier stage); it leaves no structure when it fails; on success a size is defined exactly when it is in the range, with the transport factors plus (from size 1 on) the buffer factors |
| RndvPpln.NextFragSize | src/ucp/rndv/rndv_ppln.c:279-285 | the next fragment asks for frag_size or the fragment protocol's min length, and for frag_size whenever the rest fits one fragment |
| RndvPpln.Slice | src/ucp/rndv/rndv_ppln.c:279-293 | a fragment is never empty and never longer than what is left |
| RndvPpln.SliceBounds | src/ucp/rndv/rndv_ppln.c:279-293 | a remainder that fits a fragment is sent whole; no fragment exceeds the larger of frag_size and the min length; without wrap-around, and with frag_size at least twice the min length, a fragment is at least the min length and leaves either nothing or at least the min length behind |
| RndvPpln.PlanCovers | src/ucp/rndv/rndv_ppln.c:272-316 | the slicing ends, and the fragment lengths add up to exactly the message length |
| RndvPpln.PlanPositive | src/ucp/rndv/rndv_ppln.c:292-293 | every planned fragment is non-empty and not longer than the message |
| RndvPpln.PlanAtLeastMin | src/ucp/rndv/rndv_ppln.c:279-285 | with the sum computed exactly, no fragment is shorter than the fragment protocol's min length (for messages at least that long and frag_size at least twice it) |
| RndvPpln.PlanAsWrittenWrapCounterexample | src/ucp/rndv/rndv_ppln.c:282-284 | with the size_t sum as written, frag_size SIZE_MAX-1 and min length 2, a message of SIZE_MAX bytes is cut into SIZE_MAX-1 and 1: a tail below the min length |
| RndvPpln.PlanAsWrittenAgrees | src/ucp/rndv/rndv_ppln.c:282-284 | when frag_size + min length fits in size_t, the code as written cuts exactly as the corrected rule |
| RndvPpln.FragmentsAreLaidPlan | src/ucp/rndv/rndv_ppln.c:272-316 | the fragments sent are the planned lengths laid one after another from the current offset |
| RndvPpln.LayTile | src/ucp/rndv/rndv_ppln.c:296-301 | fragments laid end to end start at the offset and keep their lengths; each is non-empty, within the message, and aimed at the peer address and rendezvous offset shifted by its own offset |
| RndvPpln.FragmentsTile | src/ucp/rndv/rndv_ppln.c:272-316 | the fragments progress sends tile the rest of the message without gap or overlap; there is none exactly when nothing is left; each targets the remote address and offset shifted by its own offset |
| RndvPpln.Progress | src/ucp/rndv/rndv_ppln.c:250-319 | progress sends every fragment exactly when all fragment allocations succeed (status Ok); otherwise it hands NoMemory to the request abort after sending exactly the fragments whose allocations succeeded, in order (the C function returns UCS_OK either way) |
| RndvPpln.Query | src/ucp/rndv/rndv_ppln.c:153-180 | the reported max message length is frag_size for a message that fits one fragment and SIZE_MAX otherwise; the lane map is the fragment protocol's plus the ack lane; a fragmented message is not an estimation |
| RndvPpln.FragComplete | src/ucp/rndv/rndv_ppln.c:182-209 | a completion adds its length to ack_data_size when it asks for an ack; the request waits unless all fragments are done or it aborts; it then sends the ack exactly when it did not abort and some acked data exists, otherwise completes |
| RndvPpln.AckAfterAccumulates | src/ucp/rndv/rndv_ppln.c:189-191 | after a run of completions ack_data_size has grown by exactly the lengths of the fragments that asked for an ack |
| RndvPpln.AckedBytesPositive | src/ucp/rndv/rndv_ppln.c:203-208 | acked data is positive exactly when some non-empty fragment asked for an ack |
| RndvPpln.PipelineCompletion | src/ucp/rndv/rndv_ppln.c:182-209 | when the last fragment of a non-aborted request completes, the ack is sent exactly when some non-empty fragment asked for one, and the request completes directly otherwise |
| RndvPpln.Reset | src/ucp/rndv/rndv_ppln.c:387-402 | reset always leaves the request uninitialized with its stage and completed size unchanged; it is fatal exactly when an initialized request sits in a stage other than send or ack |
| RndvPpln.ResetIdempotent | src/ucp/rndv/rndv_ppln.c:387-402 | a second reset changes nothing and succeeds |

## Left out

- PiecewiseArray: the int16_t next index and the uint16_t result of segment_idx are plain naturals, since every index is below 128. segment_idx, which subtracts the array base address, is the slot index itself.
- PiecewiseArray: the invariant Rep does not fix the slot count at 128. Make builds 128 slots and no operation changes the count, so every array the code can reach has 128 slots.
- PiecewiseArray: _ucs_piecewise_func_assert_range, compiled only with assertions on, is replaced by the well-formedness invariant Rep, which every operation requires and keeps.
- ucs_piecewise_func_make_max_inplace: it is not used by the performance core modelled here.
- Perf nodes, reference counts, names, trace output and the text dump of perf structures: they never change a size or a factor value.
- The performance factors are the seven concrete ones (local/remote cpu, local/remote transport, latency, single, multi). proto_perf.h enumerates the first five; proto_perf.c also names single and multi. The factor count is therefore fixed at seven instead of being abstract.
- ucp_proto_perf_add_funcs, aggregate, aggregate2 and turn_remote are declared in proto_perf.h, but their bodies are not part of this model. ProtoPerf.AddFuncs is add_func applied once per factor. ProtoPerfOps.Aggregate is a fold of a pairwise merge, and ProtoPerfOps.TurnRemote swaps factors. All three are modelled from the header's documented contract.
- ucp_proto_perf_envelope and ucp_proto_perf_sum: only declared in the header; their bodies are not part of this model.
- ProtoPerfOps.FromCaps: requires that every caps range except the last ends below SIZE_MAX. The C loop's `max_length + 1` would wrap to 0 there and re-admit later ranges; no caller produces such ranges.
- ProtoInit.EnvelopeMake: the failure of ucs_array_append (UCS_ERR_NO_MEMORY) is not modelled. The envelope list is unbounded.
- Floating point: coefficients are exact reals. IEEE rounding, NaN and the DBL_MAX assertion of the envelope are not modelled. ucs_double_to_sizet is taken to truncate and clamp at SIZE_MAX.
- PiecewiseFunc.AddInplace: on allocation failure it states only that the destination stays well-formed, not which source segments were already added.
- ProtoPerfOps.ForeachRange: models the macro as its parameters intend. The text at proto_perf.h:56-59 reads `seg` and `seg_end` instead of its `_seg` and `_seg_end` parameters, so it compiles only where the caller's own variables carry those names, and then behaves as modelled.
- ProtoPerf.AddFunc: on allocation failure it states only that the structure still passes the check, not which part of the range was already updated.
- ProtoPerf.AddFuncs: on allocation failure it states only that the structure still passes the check, not which factors were already added.
- ProtoInit.TlPerfFactors: requires a non-zero bandwidth, because the C code divides by it.
- ProtoInit.AddPplnPerf: requires a non-zero fragment size, because the C code divides by it. The probe never configures a zero fragment size.
- ucp_proto_init_add_memreg_time, ucp_proto_init_add_buffer_copy_time and ucp_proto_init_add_buffer_perf depend on memory domains, worker endpoints and transport queries. Their combined factors are a parameter (`buffer`) of ProtoInit.InitPerf, and so is the status they report on their own (`bufStatus`: UNSUPPORTED at proto_init.c:328 and 346, or the estimate status at 364-366). Which of the four modelled statuses an estimate failure maps to is left to that parameter.
- ProtoInit.BufferStage: an allocation failure of the buffer factors' add_funcs fails the stage with NoMemory. The C propagates it only on the memory registration path (proto_init.c:287-289) and ignores it on the rcache, memcpy and memtype copy paths (proto_init.c:263, 315, 390), where init_perf then succeeds with a partly updated structure. The model does not promise that partial result.
- ProtoInit.InitPerf: inherits the BufferStage line above: where the C ignores an add_funcs allocation failure of the buffer stage and returns UCS_OK, the model returns NoMemory and no structure.
- ProtoInit.InitPerf: the pipeline call at proto_init.c:530-536 is not modelled, because ProtoInit.PipelineBranchUnreachable proves its condition never holds. ProtoInit.AddPplnPerf models ucp_proto_common_add_ppln_perf on its own.
- RndvPpln.Progress: cuts fragments with the corrected short-tail test of the rndv_ppln.c:282-284 row under Findings, not the size_t sum as written; the two agree whenever frag_size + frag_proto_min_length fits in size_t (RndvPpln.PlanAsWrittenAgrees). Its status output is the status passed to ucp_proto_request_abort; the C progress function returns UCS_OK on every path.
- RndvPpln.Progress: starts from a fresh iterator (offset 0), as the first call does. The remote request id, rkey, datatype iterator internals and the actual send are not modelled; a fragment is its offset, length and remote address/offset.
- RndvPpln.FragComplete: whether all fragments are done (ucp_proto_rndv_frag_complete) is a parameter. Releasing the rkey, iterator cleanup and the completion callbacks are not modelled.
- RndvPpln.Query: the fragment protocol's query (ucp_proto_rndv_variant_query) is a parameter. The description and config strings are not modelled.
- RndvPpln.Reset: UCP_PROTO_STAGE_START is taken to be 0, so the send stage is 0 and the ack stage is 1.
- The pipeline probe, ucp_proto_rndv_recv_ppln_reset, ATS/ATP packing and the ack progress are not modelled. They select protocols, restart requests and build wire messages. The only part of the probe used is that frag_size is the non-zero max_length of the fragment protocol's last range (RndvPpln.ValidPriv).

## Findings

| source | as written | input that shows it | evidently intended | confidence | as-written member | corrected member |
|---|---|---|---|---|---|---|
| src/ucp/proto/proto_perf.c:321 | `start = seg->end + 1` wraps to 0 when the segment just updated ends at SIZE_MAX, and the remainder step at lines 326-334 then appends a segment starting at 0 | perf = one segment [0, SIZE_MAX]; add_func on [0, SIZE_MAX] | stop once the segment ending at SIZE_MAX has been updated, with no remainder | not executed | ProtoPerf.AddFuncAsWrittenWrapCounterexample | ProtoPerf.AddFunc |
| src/ucp/rndv/rndv_ppln.c:282-284 | `frag_size + frag_proto_min_length` is a size_t sum and can wrap, so the short-tail test is skipped | frag_size = SIZE_MAX-1, frag_proto_min_length = 2, message length SIZE_MAX: fragments SIZE_MAX-1 and 1 | compare without overflow, so no fragment is shorter than frag_proto_min_length | not executed | RndvPpln.PlanAsWrittenWrapCounterexample | RndvPpln.PlanAtLeastMin |
| src/ucs/datastruct/piecewise_func.h:109-116 | acquire never checks that the free list is non-empty; when it is empty, free_idx is 0 and it hands out slot 0, the head of the chain, and sets its next index to 0 | make(0, 0), then add_segment(2k+1, 2k+1, f) for k = 0 to 63: each call splits the last segment twice, so the 64th call's second acquire (line 168) finds the 127 free slots used up and takes slot 0 | add_segment fails, or asserts, when fewer free slots remain than the segments it must split, instead of corrupting the chain; given those slots it is the list model's add_range | not executed | PiecewiseArray.AcquireExhausted | PiecewiseArray.AddSegment |
