/**
 The rendezvous pipeline protocol (rndv_ppln): how a large message is cut into
 fragments that are each sent by a fragment protocol, what the protocol reports
 when queried, how fragment completions decide between sending the final
 acknowledgement and completing the request, and how a request is reset.
 */
module RndvPpln {
  import opened Basics

  /**
   The pipeline's private configuration (ucp_proto_rndv_ppln_priv_t), reduced
   to the fields the modelled rules read.
   */
  datatype PplnPriv = PplnPriv(fragSize: nat, fragProtoMinLength: nat, ackLane: nat)

  /**
   probe only configures a fragment protocol whose last range has a non-zero
   max_length, and that max_length becomes frag_size.
   */
  predicate ValidPriv(p: PplnPriv) {
    0 < p.fragSize <= SizeMax && p.fragProtoMinLength <= SizeMax
  }

  /**
   The fragment size progress asks for when msgLeft bytes remain: frag_size,
   unless a full fragment would leave a tail shorter than the fragment
   protocol's minimal length, in which case the minimal length. With wrap set
   the sum frag_size + frag_proto_min_length is taken modulo 2^64 as the C code
   computes it; without, it is the mathematical sum.
   */
  function NextFragSize(p: PplnPriv, msgLeft: nat, wrap: bool): (n: nat)
    requires ValidPriv(p) && msgLeft <= SizeMax
    ensures n == p.fragSize || n == p.fragProtoMinLength
    ensures msgLeft <= p.fragSize ==> n == p.fragSize
  {
    var bound := if wrap then WrapAdd(p.fragSize, p.fragProtoMinLength)
                 else p.fragSize + p.fragProtoMinLength;
    if p.fragSize < msgLeft && msgLeft < bound then p.fragProtoMinLength
    else p.fragSize
  }

  /**
   The length of the next fragment: the datatype iterator's next_slice takes
   min(next_frag, remaining) bytes.
   */
  function Slice(p: PplnPriv, left: nat, wrap: bool): (k: nat)
    requires ValidPriv(p) && 0 < left <= SizeMax
    ensures 0 < k <= left
  {
    Min(NextFragSize(p, left, wrap), left)
  }

  /**
   A slice never exceeds the larger of the two configured sizes, a tail that
   fits one fragment goes whole, and when a fragment holds two minimal ones a
   slice neither is nor leaves a tail shorter than the minimal length.
   */
  lemma SliceBounds(p: PplnPriv, left: nat, wrap: bool)
    requires ValidPriv(p) && 0 < left <= SizeMax
    ensures left <= p.fragSize ==> Slice(p, left, wrap) == left
    ensures Slice(p, left, wrap) <= Max(p.fragSize, p.fragProtoMinLength)
    ensures !wrap && 2 * p.fragProtoMinLength <= p.fragSize && p.fragProtoMinLength <= left ==>
              Slice(p, left, wrap) >= p.fragProtoMinLength &&
              (Slice(p, left, wrap) == left || left - Slice(p, left, wrap) >= p.fragProtoMinLength)
  {
  }

  /** The fragment lengths, in order, that slice a message of `left` bytes. */
  function Plan(p: PplnPriv, left: nat, wrap: bool): seq<nat>
    requires ValidPriv(p) && left <= SizeMax
    decreases left
  {
    if left == 0 then []
    else
      var k := Slice(p, left, wrap);
      [k] + Plan(p, left - k, wrap)
  }

  function Sum(s: seq<nat>): nat {
    if |s| == 0 then 0 else s[0] + Sum(s[1..])
  }

  /** The slicing terminates, and the slices cover the message exactly. */
  lemma {:induction false} PlanCovers(p: PplnPriv, left: nat, wrap: bool)
    requires ValidPriv(p) && left <= SizeMax
    ensures Sum(Plan(p, left, wrap)) == left
    ensures |Plan(p, left, wrap)| <= left
    decreases left
  {
    if left > 0 {
      var k := Slice(p, left, wrap);
      PlanCovers(p, left - k, wrap);
      assert Plan(p, left, wrap)[1..] == Plan(p, left - k, wrap);
    }
  }

  /** Every slice is non-empty and no longer than what was left. */
  lemma {:induction false} PlanPositive(p: PplnPriv, left: nat, wrap: bool)
    requires ValidPriv(p) && left <= SizeMax
    ensures forall j :: 0 <= j < |Plan(p, left, wrap)| ==> 0 < Plan(p, left, wrap)[j] <= left
    decreases left
  {
    if left > 0 {
      var k := Slice(p, left, wrap);
      PlanPositive(p, left - k, wrap);
      var r := Plan(p, left, wrap);
      assert r == [k] + Plan(p, left - k, wrap);
      forall j | 0 <= j < |r|
        ensures 0 < r[j] <= left
      {
        if j > 0 {
          assert r[j] == Plan(p, left - k, wrap)[j - 1];
        }
      }
    }
  }

  /**
   The minimal-length rule achieves its aim when a fragment holds at least two
   minimal fragments: no fragment is shorter than frag_proto_min_length, unless
   the whole message is.
   */
  lemma {:induction false} PlanAtLeastMin(p: PplnPriv, left: nat)
    requires ValidPriv(p) && left <= SizeMax
    requires 2 * p.fragProtoMinLength <= p.fragSize
    requires p.fragProtoMinLength <= left
    ensures forall j :: 0 <= j < |Plan(p, left, false)| ==> Plan(p, left, false)[j] >= p.fragProtoMinLength
  {
    if left > 0 {
      var k := Slice(p, left, false);
      var r := Plan(p, left, false);
      SliceBounds(p, left, false);
      assert r == [k] + Plan(p, left - k, false);
      if k < left {
        PlanAtLeastMin(p, left - k);
      }
      forall j | 0 <= j < |r|
        ensures r[j] >= p.fragProtoMinLength
      {
        if j > 0 {
          assert r[j] == Plan(p, left - k, false)[j - 1];
        }
      }
    }
  }

  /**
   With frag_size = SIZE_MAX - 1 and frag_proto_min_length = 2, the C sum
   frag_size + frag_proto_min_length wraps to 0, the minimal-length rule is
   skipped, and a message of SIZE_MAX bytes ends with a 1-byte fragment.
   */
  lemma PlanAsWrittenWrapCounterexample()
    ensures var p := PplnPriv(SizeMax - 1, 2, 0);
            ValidPriv(p) && 2 * p.fragProtoMinLength <= p.fragSize &&
            Plan(p, SizeMax, true) == [SizeMax - 1, 1] &&
            Plan(p, SizeMax, true)[1] < p.fragProtoMinLength
  {
    var p := PplnPriv(SizeMax - 1, 2, 0);
    assert WrapAdd(p.fragSize, p.fragProtoMinLength) == 0;
    assert Slice(p, SizeMax, true) == SizeMax - 1;
    assert Slice(p, 1, true) == 1;
    assert Plan(p, 0, true) == [];
    assert Plan(p, 1, true) == [1];
  }

  /** Whenever frag_size + frag_proto_min_length fits a size_t, the C arithmetic slices as intended. */
  lemma {:induction false} PlanAsWrittenAgrees(p: PplnPriv, left: nat)
    requires ValidPriv(p) && left <= SizeMax
    requires p.fragSize + p.fragProtoMinLength <= SizeMax
    ensures Plan(p, left, true) == Plan(p, left, false)
  {
    if left > 0 {
      assert Slice(p, left, true) == Slice(p, left, false);
      PlanAsWrittenAgrees(p, left - Slice(p, left, false));
    }
  }

  /** One fragment request: its slice of the message and where it lands on the peer. */
  datatype Fragment = Fragment(offset: nat, length: nat, remoteAddress: nat, remoteOffset: nat)

  /** The parts of the super request progress reads. */
  datatype PplnRequest = PplnRequest(length: nat, remoteAddress: nat, rndvOffset: nat)

  /** Zero-length messages never reach the pipeline. */
  predicate ValidRequest(req: PplnRequest) {
    0 < req.length <= SizeMax && req.remoteAddress <= SizeMax && req.rndvOffset <= SizeMax
  }

  function Lengths(fs: seq<Fragment>): (r: seq<nat>)
    ensures |r| == |fs|
  {
    if |fs| == 0 then [] else [fs[0].length] + Lengths(fs[1..])
  }

  /**
   The fragments progress sends for the bytes from `offset` on: each is the
   next slice of the message, aimed at the peer buffer and rendezvous offset
   shifted by its own offset (size_t arithmetic).
   */
  function Fragments(p: PplnPriv, req: PplnRequest, offset: nat): seq<Fragment>
    requires ValidPriv(p) && ValidRequest(req) && offset <= req.length
    decreases req.length - offset
  {
    if offset == req.length then []
    else
      var len := Slice(p, req.length - offset, false);
      [Fragment(offset, len, WrapAdd(req.remoteAddress, offset), WrapAdd(req.rndvOffset, offset))] +
      Fragments(p, req, offset + len)
  }

  lemma FragmentsUnfold(p: PplnPriv, req: PplnRequest, offset: nat)
    requires ValidPriv(p) && ValidRequest(req) && offset < req.length
    ensures var len := Slice(p, req.length - offset, false);
            Fragments(p, req, offset) ==
            [Fragment(offset, len, WrapAdd(req.remoteAddress, offset), WrapAdd(req.rndvOffset, offset))] +
            Fragments(p, req, offset + len)
  {
  }

  /**
   Lays slices of the given lengths one after another from `offset` on, each
   aimed at the peer buffer and rendezvous offset shifted by its own offset.
   */
  function Lay(req: PplnRequest, offset: nat, lens: seq<nat>): (r: seq<Fragment>)
    requires ValidRequest(req) && offset + Sum(lens) <= req.length
    ensures |r| == |lens|
    decreases |lens|
  {
    if |lens| == 0 then []
    else
      [Fragment(offset, lens[0], WrapAdd(req.remoteAddress, offset), WrapAdd(req.rndvOffset, offset))] +
      Lay(req, offset + lens[0], lens[1..])
  }

  /** The fragments progress sends are the planned slices laid end to end. */
  lemma {:induction false} FragmentsAreLaidPlan(p: PplnPriv, req: PplnRequest, offset: nat)
    requires ValidPriv(p) && ValidRequest(req) && offset <= req.length
    ensures Sum(Plan(p, req.length - offset, false)) == req.length - offset &&
            Fragments(p, req, offset) == Lay(req, offset, Plan(p, req.length - offset, false))
    decreases req.length - offset
  {
    PlanCovers(p, req.length - offset, false);
    if offset < req.length {
      var len := Slice(p, req.length - offset, false);
      LaidStep(p, req, offset);
      FragmentsAreLaidPlan(p, req, offset + len);
    }
  }

  /** One step of FragmentsAreLaidPlan: both sides start with the same fragment. */
  lemma LaidStep(p: PplnPriv, req: PplnRequest, offset: nat)
    requires ValidPriv(p) && ValidRequest(req) && offset < req.length
    ensures var len := Slice(p, req.length - offset, false);
            var frag := Fragment(offset, len, WrapAdd(req.remoteAddress, offset), WrapAdd(req.rndvOffset, offset));
            && 0 < len && offset + len <= req.length
            && Fragments(p, req, offset) == [frag] + Fragments(p, req, offset + len)
            && Sum(Plan(p, req.length - (offset + len), false)) == req.length - (offset + len)
            && Lay(req, offset, Plan(p, req.length - offset, false)) ==
                 [frag] + Lay(req, offset + len, Plan(p, req.length - (offset + len), false))
  {
    var left := req.length - offset;
    var len := Slice(p, left, false);
    var lens := Plan(p, left, false);
    var after := req.length - (offset + len);
    var rest := Plan(p, after, false);
    PlanCovers(p, left, false);
    FragmentsUnfold(p, req, offset);
    PlanUnfold(p, req.length, offset);
    PlanCovers(p, after, false);
    assert lens[0] == len && lens[1..] == rest;
    LayCons(req, offset, lens);
  }

  lemma LayCons(req: PplnRequest, offset: nat, lens: seq<nat>)
    requires ValidRequest(req) && offset + Sum(lens) <= req.length && |lens| > 0
    ensures offset + lens[0] + Sum(lens[1..]) <= req.length
    ensures Lay(req, offset, lens) ==
              [Fragment(offset, lens[0], WrapAdd(req.remoteAddress, offset), WrapAdd(req.rndvOffset, offset))] +
              Lay(req, offset + lens[0], lens[1..])
  {
  }

  lemma PlanUnfold(p: PplnPriv, total: nat, offset: nat)
    requires ValidPriv(p) && offset < total <= SizeMax
    ensures Plan(p, total - offset, false) ==
            [Slice(p, total - offset, false)] + Plan(p, total - (offset + Slice(p, total - offset, false)), false)
  {
  }

  /** Laying slices keeps their lengths and their order. */
  lemma {:induction false} LayLengths(req: PplnRequest, offset: nat, lens: seq<nat>)
    requires ValidRequest(req) && offset + Sum(lens) <= req.length
    ensures Lengths(Lay(req, offset, lens)) == lens
    decreases |lens|
  {
    if |lens| > 0 {
      LayLengths(req, offset + lens[0], lens[1..]);
      assert Lay(req, offset, lens)[1..] == Lay(req, offset + lens[0], lens[1..]);
    }
  }

  /**
   Slice j laid from `offset` lies inside the message after `offset`, lands on
   the peer at its own offset, and starts where slice j - 1 ends (slice 0 at
   `offset`).
   */
  lemma {:induction false} LayAt(req: PplnRequest, offset: nat, lens: seq<nat>, j: nat)
    requires ValidRequest(req) && offset + Sum(lens) <= req.length
    requires j < |lens|
    ensures var f := Lay(req, offset, lens)[j];
            f.length == lens[j] && offset <= f.offset && f.offset + f.length <= req.length &&
            f.remoteAddress == WrapAdd(req.remoteAddress, f.offset) &&
            f.remoteOffset == WrapAdd(req.rndvOffset, f.offset)
    ensures j == 0 ==> Lay(req, offset, lens)[0].offset == offset
    ensures j > 0 ==> Lay(req, offset, lens)[j].offset ==
                      Lay(req, offset, lens)[j - 1].offset + Lay(req, offset, lens)[j - 1].length
    decreases j
  {
    if j > 0 {
      var fs := Lay(req, offset, lens);
      var rest := Lay(req, offset + lens[0], lens[1..]);
      LayAt(req, offset + lens[0], lens[1..], j - 1);
      assert fs[j] == rest[j - 1];
      if j > 1 {
        assert fs[j - 1] == rest[j - 2];
      }
    }
  }

  /** Non-empty slices laid from `offset` tile the bytes they cover, in order and without gaps. */
  lemma LayTile(req: PplnRequest, offset: nat, lens: seq<nat>)
    requires ValidRequest(req) && offset + Sum(lens) <= req.length
    requires forall j :: 0 <= j < |lens| ==> 0 < lens[j]
    ensures var fs := Lay(req, offset, lens);
            (|fs| > 0 ==> fs[0].offset == offset) &&
            Lengths(fs) == lens &&
            (forall j :: 0 < j < |fs| ==> fs[j].offset == fs[j - 1].offset + fs[j - 1].length) &&
            (forall j :: 0 <= j < |fs| ==> 0 < fs[j].length && offset <= fs[j].offset && fs[j].offset + fs[j].length <= req.length) &&
            (forall j :: 0 <= j < |fs| ==>
               fs[j].remoteAddress == WrapAdd(req.remoteAddress, fs[j].offset) &&
               fs[j].remoteOffset == WrapAdd(req.rndvOffset, fs[j].offset))
  {
    var fs := Lay(req, offset, lens);
    LayLengths(req, offset, lens);
    if |fs| > 0 {
      LayAt(req, offset, lens, 0);
    }
    forall j | 0 <= j < |fs|
      ensures 0 < fs[j].length && offset <= fs[j].offset && fs[j].offset + fs[j].length <= req.length
      ensures fs[j].remoteAddress == WrapAdd(req.remoteAddress, fs[j].offset)
      ensures fs[j].remoteOffset == WrapAdd(req.rndvOffset, fs[j].offset)
      ensures j > 0 ==> fs[j].offset == fs[j - 1].offset + fs[j - 1].length
    {
      LayAt(req, offset, lens, j);
    }
  }

  /**
   The fragments sent from `offset` on tile the rest of the message in order
   and without gaps: the first starts at `offset`, each later one where its
   predecessor ends, all are non-empty, their lengths are the planned slices
   and add up to what is left, and each lands on the peer at its own offset.
   */
  lemma FragmentsTile(p: PplnPriv, req: PplnRequest, offset: nat)
    requires ValidPriv(p) && ValidRequest(req) && offset <= req.length
    ensures var fs := Fragments(p, req, offset);
            (|fs| == 0 <==> offset == req.length) &&
            (|fs| > 0 ==> fs[0].offset == offset) &&
            Lengths(fs) == Plan(p, req.length - offset, false) &&
            Sum(Lengths(fs)) == req.length - offset &&
            (forall j :: 0 < j < |fs| ==> fs[j].offset == fs[j - 1].offset + fs[j - 1].length) &&
            (forall j :: 0 <= j < |fs| ==> 0 < fs[j].length && offset <= fs[j].offset && fs[j].offset + fs[j].length <= req.length) &&
            (forall j :: 0 <= j < |fs| ==>
               fs[j].remoteAddress == WrapAdd(req.remoteAddress, fs[j].offset) &&
               fs[j].remoteOffset == WrapAdd(req.rndvOffset, fs[j].offset))
  {
    var lens := Plan(p, req.length - offset, false);
    PlanPositive(p, req.length - offset, false);
    FragmentsAreLaidPlan(p, req, offset);
    LayTile(req, offset, lens);
    if offset < req.length {
      FragmentsUnfold(p, req, offset);
    }
  }

  /**
   ucp_proto_rndv_ppln_progress from a fresh iterator: allocate a fragment
   request, choose its size, slice it off the message, point it at the peer
   buffer at the same offset, send it, and advance. `allocs` is the number of
   fragment-request allocations that succeed; the first failure aborts the
   request with the fragments sent so far. `status` is Ok when every fragment
   went out and otherwise the status handed to ucp_proto_request_abort; the
   C function itself returns UCS_OK on both paths. Slices are cut with the
   corrected short-tail test (see Slice).
   */
  method Progress(p: PplnPriv, req: PplnRequest, allocs: nat) returns (frags: seq<Fragment>, status: Status)
    requires ValidPriv(p) && ValidRequest(req)
    ensures status == Ok || status == NoMemory
    ensures status == Ok <==> |Fragments(p, req, 0)| <= allocs
    ensures status == Ok ==> frags == Fragments(p, req, 0)
    ensures status == NoMemory ==> |frags| == allocs && frags == Fragments(p, req, 0)[..allocs]
  {
    frags := [];
    var offset := 0;
    ghost var all := Fragments(p, req, 0);
    while offset < req.length && |frags| < allocs
      invariant offset <= req.length
      invariant |frags| <= allocs
      invariant all == frags + Fragments(p, req, offset)
      decreases req.length - offset
    {
      var len := Slice(p, req.length - offset, false);
      var frag := Fragment(offset, len, WrapAdd(req.remoteAddress, offset), WrapAdd(req.rndvOffset, offset));
      FragmentsUnfold(p, req, offset);
      frags, offset := frags + [frag], offset + len;
    }
    if offset < req.length {
      FragmentsUnfold(p, req, offset);
      assert all[..allocs] == frags;
      status := NoMemory;
    } else {
      status := Ok;
    }
  }

  /** What ucp_proto_rndv_ppln_query reports. */
  datatype QueryAttr = QueryAttr(maxMsgLength: nat, isEstimation: bool, laneMap: set<nat>)

  /**
   ucp_proto_rndv_ppln_query. `fragQuery` stands for the fragment protocol's
   own query (ucp_proto_rndv_variant_query), which is not part of this model:
   it is asked about the whole message when that fits a fragment, otherwise
   about one full fragment.
   */
  function Query(p: PplnPriv, msgLength: nat, fragQuery: nat -> QueryAttr): (r: QueryAttr)
    requires ValidPriv(p) && msgLength <= SizeMax
    ensures r.maxMsgLength == if msgLength <= p.fragSize then p.fragSize else SizeMax
    ensures msgLength <= r.maxMsgLength
    ensures p.ackLane in r.laneMap
    ensures r.laneMap == fragQuery(Min(msgLength, p.fragSize)).laneMap + {p.ackLane}
    ensures msgLength > p.fragSize ==> !r.isEstimation
  {
    if msgLength <= p.fragSize then
      var a := fragQuery(msgLength);
      QueryAttr(p.fragSize, a.isEstimation, a.laneMap + {p.ackLane})
    else
      var a := fragQuery(p.fragSize);
      QueryAttr(SizeMax, false, a.laneMap + {p.ackLane})
  }

  /** What the super request does after a fragment completes. */
  datatype Next = Wait | SendAck | Complete

  datatype CompleteResult = CompleteResult(ackDataSize: nat, next: Next)

  /**
   ucp_proto_rndv_ppln_frag_complete. `allDone` is the answer of
   ucp_proto_rndv_frag_complete (whether every fragment of the request has now
   completed), which is not part of this model.
   */
  function FragComplete(ackDataSize: nat, fragLength: nat, sendAck: bool, abort: bool, allDone: bool): (r: CompleteResult)
    ensures r.ackDataSize == ackDataSize + (if sendAck then fragLength else 0)
    ensures r.next == Wait <==> !allDone && !abort
    ensures r.next == SendAck <==> (allDone || abort) && !abort && r.ackDataSize > 0
    ensures r.next == Complete <==> (allDone || abort) && (abort || r.ackDataSize == 0)
  {
    var ack := if sendAck then ackDataSize + fragLength else ackDataSize;
    if !allDone && !abort then CompleteResult(ack, Wait)
    else if ack > 0 && !abort then CompleteResult(ack, SendAck)
    else CompleteResult(ack, Complete)
  }

  /** A fragment completion as the super request sees it. */
  datatype Completion = Completion(length: nat, sendAck: bool)

  /** The bytes whose fragments asked for an acknowledgement. */
  function AckedBytes(cs: seq<Completion>): nat {
    if |cs| == 0 then 0 else (if cs[0].sendAck then cs[0].length else 0) + AckedBytes(cs[1..])
  }

  /** ack_data_size after a run of completions that neither abort nor finish the request. */
  function AckAfter(ack: nat, cs: seq<Completion>): nat
    decreases |cs|
  {
    if |cs| == 0 then ack
    else AckAfter(FragComplete(ack, cs[0].length, cs[0].sendAck, false, false).ackDataSize, cs[1..])
  }

  lemma {:induction false} AckAfterAccumulates(ack: nat, cs: seq<Completion>)
    ensures AckAfter(ack, cs) == ack + AckedBytes(cs)
    decreases |cs|
  {
    if |cs| > 0 {
      AckAfterAccumulates(FragComplete(ack, cs[0].length, cs[0].sendAck, false, false).ackDataSize, cs[1..]);
    }
  }

  lemma {:induction false} AckedBytesPositive(cs: seq<Completion>)
    ensures AckedBytes(cs) > 0 <==> exists j :: 0 <= j < |cs| && cs[j].sendAck && cs[j].length > 0
  {
    if |cs| > 0 {
      AckedBytesPositive(cs[1..]);
      if AckedBytes(cs[1..]) > 0 {
        var j :| 0 <= j < |cs[1..]| && cs[1..][j].sendAck && cs[1..][j].length > 0;
        assert cs[j + 1] == cs[1..][j];
      }
      if exists j :: 0 <= j < |cs| && cs[j].sendAck && cs[j].length > 0 {
        var j :| 0 <= j < |cs| && cs[j].sendAck && cs[j].length > 0;
        if j > 0 {
          assert cs[1..][j - 1] == cs[j];
        }
      }
    }
  }

  /**
   A request whose fragments all complete without abort, starting from the
   ack_data_size of 0 that progress sets: when the last one completes, the
   acknowledgement covers exactly the acknowledged bytes, and the request moves
   to the ACK stage iff some non-empty fragment asked for an acknowledgement;
   otherwise it completes at once.
   */
  lemma PipelineCompletion(cs: seq<Completion>)
    requires |cs| > 0
    ensures var last := cs[|cs| - 1];
            var r := FragComplete(AckAfter(0, cs[..|cs| - 1]), last.length, last.sendAck, false, true);
            r.ackDataSize == AckedBytes(cs) &&
            (r.next == SendAck <==> exists j :: 0 <= j < |cs| && cs[j].sendAck && cs[j].length > 0) &&
            (r.next == Complete <==> forall j :: 0 <= j < |cs| && cs[j].sendAck ==> cs[j].length == 0)
  {
    var n := |cs| - 1;
    AckAfterAccumulates(0, cs[..n]);
    AckedBytesSplit(cs[..n], cs[n..]);
    assert cs[..n] + cs[n..] == cs;
    assert AckedBytes(cs[n..]) == if cs[n].sendAck then cs[n].length else 0 by {
      assert cs[n..][1..] == [];
    }
    AckedBytesPositive(cs);
  }

  lemma {:induction false} AckedBytesSplit(a: seq<Completion>, b: seq<Completion>)
    ensures AckedBytes(a + b) == AckedBytes(a) + AckedBytes(b)
  {
    if |a| > 0 {
      assert (a + b)[1..] == a[1..] + b;
      AckedBytesSplit(a[1..], b);
    } else {
      assert a + b == b;
    }
  }

  /** The pipeline's protocol stages; UCP_PROTO_STAGE_START is taken to be 0. */
  const StageSend: nat := 0
  const StageAck: nat := 1

  /** The parts of a request that reset reads and writes. */
  datatype ReqState = ReqState(initialized: bool, completedSize: nat, stage: nat)

  datatype ResetResult = ResetResult(req: ReqState, status: Status)

  /**
   ucp_proto_rndv_ppln_reset. A request reset while initialized must not have
   completed any data yet. Fatal stands for ucp_proto_fatal_invalid_stage,
   which terminates the process.
   */
  function Reset(s: ReqState): (r: ResetResult)
    requires s.initialized ==> s.completedSize == 0
    ensures !r.req.initialized
    ensures r.req.completedSize == s.completedSize && r.req.stage == s.stage
    ensures r.status == Ok || r.status == Fatal
    ensures r.status == Fatal <==> s.initialized && s.stage != StageSend && s.stage != StageAck
  {
    if !s.initialized then ResetResult(s, Ok)
    else
      var t := s.(initialized := false);
      if t.stage != StageSend && t.stage != StageAck then ResetResult(t, Fatal)
      else ResetResult(t, Ok)
  }

  /** Resetting twice is the same as resetting once, and the second reset is a no-op. */
  lemma ResetIdempotent(s: ReqState)
    requires s.initialized ==> s.completedSize == 0
    ensures Reset(Reset(s).req) == ResetResult(Reset(s).req, Ok)
  {
  }
}
