/**
 The linked-list piecewise-linear function (ucs_piecewise_func_t of
 src/ucs/datastruct/piecewise_func.c), modelled as a sequence of segments.
 Segment i holds its linear function on [previous end + 1, end]; the first
 segment starts at 0 and the last one ends at SizeMax.

 malloc is modelled by an allocation budget `mem`: the number of allocations
 that succeed before the first failing one. Every operation stops at its
 first failing allocation, so the budget covers every pattern of failures.
 */
module PiecewiseFunc {
  import opened Basics
  import opened Linear

  datatype Segment = Segment(end: nat, func: LinearFunc)

  /** Status of a mutating call, the resulting segment list and the allocation budget left. */
  datatype Outcome = Outcome(status: Status, segs: seq<Segment>, mem: nat)

  /** Segment ends are strictly increasing and the first one is at least `lo`. */
  predicate Ascending(segs: seq<Segment>, lo: nat)
    decreases |segs|
  {
    |segs| == 0 || (lo <= segs[0].end && Ascending(segs[1..], segs[0].end + 1))
  }

  /** The invariant ucs_piecewise_func_check asserts. */
  predicate Valid(segs: seq<Segment>)
  {
    |segs| > 0 && Ascending(segs, 0) && segs[|segs| - 1].end == SizeMax
  }

  /** Inclusive start of segment i: one past the previous end. */
  function SegStart(segs: seq<Segment>, i: nat): nat
    requires i < |segs|
  {
    if i == 0 then 0 else segs[i - 1].end + 1
  }

  predicate Contains(segs: seq<Segment>, i: nat, x: nat)
  {
    i < |segs| && SegStart(segs, i) <= x <= segs[i].end
  }

  /** The recursive invariant is the pairwise order the C check walks. */
  lemma {:induction false} AscendingIff(segs: seq<Segment>, lo: nat)
    ensures Ascending(segs, lo) <==>
              ((|segs| > 0 ==> lo <= segs[0].end) &&
               forall j, k :: 0 <= j < k < |segs| ==> segs[j].end < segs[k].end)
    decreases |segs|
  {
    if |segs| > 0 {
      AscendingIff(segs[1..], segs[0].end + 1);
      if Ascending(segs, lo) {
        forall j, k | 0 <= j < k < |segs| ensures segs[j].end < segs[k].end {
          if j > 0 {
            assert segs[1..][j - 1] == segs[j] && segs[1..][k - 1] == segs[k];
          } else {
            assert segs[1..][k - 1] == segs[k];
          }
        }
      }
      if (lo <= segs[0].end && forall j, k :: 0 <= j < k < |segs| ==> segs[j].end < segs[k].end) {
        var t := segs[1..];
        forall j, k | 0 <= j < k < |t| ensures t[j].end < t[k].end {
          assert t[j] == segs[j + 1] && t[k] == segs[k + 1];
        }
        if |t| > 0 {
          assert t[0] == segs[1];
        }
      }
    }
  }

  /** Lowering the bound keeps a list ascending. */
  lemma {:induction false} AscendingWeaken(segs: seq<Segment>, lo: nat, hi: nat)
    requires Ascending(segs, hi) && lo <= hi
    ensures Ascending(segs, lo)
  {
  }

  /** In an ascending list no segment ends after the last one. */
  lemma {:induction false} HeadBelowLast(segs: seq<Segment>, lo: nat)
    requires |segs| > 0 && Ascending(segs, lo)
    ensures lo <= segs[0].end <= segs[|segs| - 1].end
    decreases |segs|
  {
    if |segs| > 1 {
      HeadBelowLast(segs[1..], segs[0].end + 1);
    }
  }

  /** ucs_piecewise_func_find_segment: index of the first segment ending at or after x. */
  function FindSegment(segs: seq<Segment>, x: nat): (i: nat)
    ensures i <= |segs|
    ensures forall j :: 0 <= j < i ==> segs[j].end < x
    ensures i < |segs| ==> x <= segs[i].end
    decreases |segs|
  {
    if |segs| == 0 then 0
    else if x <= segs[0].end then 0
    else 1 + FindSegment(segs[1..], x)
  }

  /** ucs_piecewise_func_apply: evaluate the segment FindSegment picks. */
  function Apply(segs: seq<Segment>, x: nat): real
  {
    var i := FindSegment(segs, x);
    if i < |segs| then segs[i].func.Apply(x as real) else 0.0
  }

  /** Apply walks the list: the head decides when x is at most its end. */
  lemma ApplyCons(segs: seq<Segment>, x: nat)
    requires |segs| > 0
    ensures Apply(segs, x) ==
              if x <= segs[0].end then segs[0].func.Apply(x as real) else Apply(segs[1..], x)
  {
    if x > segs[0].end {
      var i := FindSegment(segs[1..], x);
      assert FindSegment(segs, x) == 1 + i;
      if i < |segs[1..]| {
        assert segs[1 + i] == segs[1..][i];
      }
    }
  }

  lemma ApplyPrepend(s: Segment, rest: seq<Segment>, x: nat)
    ensures Apply([s] + rest, x) == if x <= s.end then s.func.Apply(x as real) else Apply(rest, x)
  {
    ApplyCons([s] + rest, x);
    assert ([s] + rest)[1..] == rest;
  }

  /** Every size point lies in the segment FindSegment returns. */
  lemma Coverage(segs: seq<Segment>, x: nat)
    requires Valid(segs) && x <= SizeMax
    ensures Contains(segs, FindSegment(segs, x), x)
  {
    assert segs[|segs| - 1].end == SizeMax;
  }

  /**
   The segment FindSegment returns is the only one containing x, so Apply
   evaluates the unique segment whose range contains the point.
   */
  lemma ApplyInSegment(segs: seq<Segment>, i: nat, x: nat)
    requires Valid(segs) && Contains(segs, i, x)
    ensures FindSegment(segs, x) == i
    ensures Apply(segs, x) == segs[i].func.Apply(x as real)
  {
    AscendingIff(segs, 0);
    forall j | 0 <= j < i ensures segs[j].end < x {
      if j < i - 1 {
        assert segs[j].end < segs[i - 1].end;
      }
    }
  }

  /** ucs_piecewise_func_init: one zero segment over the whole domain. */
  function Init(mem: nat): (r: Outcome)
    ensures r.status == Ok <==> mem > 0
    ensures r.status == Ok ==> Valid(r.segs) && r.segs == [Segment(SizeMax, Zero)]
    ensures r.status == Ok ==> forall x: nat :: Apply(r.segs, x) == 0.0
  {
    if mem == 0 then Outcome(NoMemory, [], 0)
    else Outcome(Ok, [Segment(SizeMax, Zero)], mem - 1)
  }

  /**
   ucs_piecewise_segment_split: a copy of segment i is inserted after it and
   the original is shortened to end at p. The new node is allocated before
   the original is touched, so a failed allocation changes nothing.
   */
  function Split(segs: seq<Segment>, i: nat, p: nat, mem: nat): (r: Outcome)
    requires i < |segs| && p < segs[i].end
    ensures r.status == Ok <==> mem > 0
    ensures r.status != Ok ==> r.segs == segs && r.mem == mem
    ensures r.status == Ok ==>
              |r.segs| == |segs| + 1 && r.mem == mem - 1 &&
              r.segs[i] == Segment(p, segs[i].func) && r.segs[i + 1] == segs[i]
    ensures forall x: nat :: Apply(r.segs, x) == Apply(segs, x)
    ensures Valid(segs) && SegStart(segs, i) <= p ==> Valid(r.segs)
  {
    if mem == 0 then Outcome(NoMemory, segs, mem)
    else
      var r := segs[..i] + [Segment(p, segs[i].func)] + segs[i..];
      SplitKeepsValues(segs, i, p);
      SplitKeepsValid(segs, i, p);
      Outcome(Ok, r, mem - 1)
  }

  lemma {:induction false} SplitKeepsValues(segs: seq<Segment>, i: nat, p: nat)
    requires i < |segs| && p < segs[i].end
    ensures forall x: nat :: Apply(segs[..i] + [Segment(p, segs[i].func)] + segs[i..], x) == Apply(segs, x)
    decreases i
  {
    var r := segs[..i] + [Segment(p, segs[i].func)] + segs[i..];
    forall x: nat ensures Apply(r, x) == Apply(segs, x) {
      if i == 0 {
        assert r == [Segment(p, segs[0].func)] + segs;
        ApplyPrepend(Segment(p, segs[0].func), segs, x);
        ApplyCons(segs, x);
      } else {
        var t := segs[1..];
        SplitKeepsValues(t, i - 1, p);
        assert r == [segs[0]] + (t[..i - 1] + [Segment(p, t[i - 1].func)] + t[i - 1..]);
        ApplyPrepend(segs[0], t[..i - 1] + [Segment(p, t[i - 1].func)] + t[i - 1..], x);
        ApplyCons(segs, x);
      }
    }
  }

  /** Inserting a segment ending at p just before segment i keeps the ends ascending. */
  lemma {:induction false} SplitAscending(segs: seq<Segment>, i: nat, p: nat, lo: nat)
    requires i < |segs| && p < segs[i].end && Ascending(segs, lo)
    requires if i == 0 then lo <= p else segs[i - 1].end < p
    ensures Ascending(segs[..i] + [Segment(p, segs[i].func)] + segs[i..], lo)
    decreases i
  {
    var r := segs[..i] + [Segment(p, segs[i].func)] + segs[i..];
    if i == 0 {
      assert r == [Segment(p, segs[0].func)] + segs;
      assert r[1..] == segs;
    } else {
      var t := segs[1..];
      assert t[i - 1] == segs[i];
      if i > 1 {
        assert t[i - 2] == segs[i - 1];
      }
      SplitAscending(t, i - 1, p, segs[0].end + 1);
      assert r == [segs[0]] + (t[..i - 1] + [Segment(p, t[i - 1].func)] + t[i - 1..]);
      assert r[1..] == t[..i - 1] + [Segment(p, t[i - 1].func)] + t[i - 1..];
    }
  }

  lemma SplitKeepsValid(segs: seq<Segment>, i: nat, p: nat)
    requires i < |segs| && p < segs[i].end
    ensures Valid(segs) && SegStart(segs, i) <= p ==> Valid(segs[..i] + [Segment(p, segs[i].func)] + segs[i..])
  {
    var r := segs[..i] + [Segment(p, segs[i].func)] + segs[i..];
    if Valid(segs) && SegStart(segs, i) <= p {
      SplitAscending(segs, i, p, 0);
      assert r[|r| - 1] == segs[|segs| - 1];
    }
  }

  /** `after` equals `before` plus f on [lo, hi), at every point from `from` on. */
  ghost predicate AddedOn(before: seq<Segment>, after: seq<Segment>, from: nat, lo: nat, hi: nat, f: LinearFunc)
  {
    forall x: nat {:trigger Apply(after, x)} :: from <= x ==>
      Apply(after, x) == Apply(before, x) + (if lo <= x < hi then f.Apply(x as real) else 0.0)
  }

  /**
   The shape an add keeps: the status is one of the two the C code returns,
   the list is non-empty, ascending from lo and keeps its last end, and at
   most k allocations were used (all of them succeed when k are available).
   */
  ghost predicate KeepsShape(segs: seq<Segment>, r: Outcome, lo: nat, mem: nat, k: nat)
  {
    && r.status in {Ok, NoMemory}
    && |segs| > 0 && |r.segs| > 0
    && Ascending(r.segs, lo) && r.segs[|r.segs| - 1].end == segs[|segs| - 1].end
    && r.mem <= mem && mem - r.mem <= k
    && (mem >= k ==> r.status == Ok)
  }

  /**
   Success adds f on [start, end]; a failure adds it on a prefix [start, cut)
   of the range. Both from point `from` on.
   */
  ghost predicate AddsRange(segs: seq<Segment>, r: Outcome, from: nat, start: nat, end: nat, f: LinearFunc)
  {
    && (r.status == Ok ==> AddedOn(segs, r.segs, from, start, end + 1, f))
    && (r.status == NoMemory ==>
          exists cut: nat {:trigger AddedOn(segs, r.segs, from, start, cut, f)} ::
            start <= cut <= end && AddedOn(segs, r.segs, from, start, cut, f))
  }

  /**
   The second half of the loop of ucs_piecewise_func_add_range, once the
   current segment starts inside the range: split the segment holding `end`,
   add f to every segment up to it, stop at the segment ending at `end`.
   */
  function CoverFrom(segs: seq<Segment>, end: nat, f: LinearFunc, mem: nat): (r: Outcome)
    decreases |segs|
  {
    if |segs| == 0 then Outcome(Ok, segs, mem)
    else if end < segs[0].end then
      if mem == 0 then Outcome(NoMemory, segs, mem)
      else Outcome(Ok, [Segment(end, segs[0].func.Add(f))] + segs, mem - 1)
    else if end == segs[0].end then
      Outcome(Ok, [Segment(end, segs[0].func.Add(f))] + segs[1..], mem)
    else
      var rest := CoverFrom(segs[1..], end, f, mem);
      rest.(segs := [Segment(segs[0].end, segs[0].func.Add(f))] + rest.segs)
  }

  /** The covering loop never gains allocations. */
  lemma {:induction false} CoverFromMem(segs: seq<Segment>, end: nat, f: LinearFunc, mem: nat)
    ensures CoverFrom(segs, end, f, mem).mem <= mem
    decreases |segs|
  {
    if |segs| > 0 && end > segs[0].end {
      CoverFromMem(segs[1..], end, f, mem);
    }
  }

  /**
   The loop of ucs_piecewise_func_add_range from a segment starting at
   segStart: skip segments ending before `start`, split the first affected
   segment at start - 1, then continue with CoverFrom.
   */
  function AddRangeFrom(segs: seq<Segment>, segStart: nat, start: nat, end: nat, f: LinearFunc, mem: nat): (r: Outcome)
    decreases |segs|
  {
    if |segs| == 0 then Outcome(Ok, segs, mem)
    else if start > segs[0].end then
      var rest := AddRangeFrom(segs[1..], segs[0].end + 1, start, end, f, mem);
      rest.(segs := [segs[0]] + rest.segs)
    else if start > segStart then
      if mem == 0 then Outcome(NoMemory, segs, mem)
      else
        var rest := CoverFrom(segs, end, f, mem - 1);
        rest.(segs := [Segment(start - 1, segs[0].func)] + rest.segs)
    else CoverFrom(segs, end, f, mem)
  }

  /** Putting a segment in front of a result that starts after it. */
  lemma PrependShape(s: Segment, segs: seq<Segment>, rest: Outcome, lo: nat, mem: nat, k: nat)
    requires |segs| > 0 && lo <= s.end
    requires KeepsShape(segs, rest, s.end + 1, mem, k)
    ensures KeepsShape(segs, rest.(segs := [s] + rest.segs), lo, mem, k)
  {
    var r := [s] + rest.segs;
    assert r[1..] == rest.segs;
    assert r[|r| - 1] == rest.segs[|rest.segs| - 1];
  }

  lemma CoverSplitCase(segs: seq<Segment>, lo: nat, end: nat, f: LinearFunc, mem: nat)
    requires |segs| > 0 && end <= segs[|segs| - 1].end
    requires Ascending(segs, lo) && lo <= end < segs[0].end
    ensures KeepsShape(segs, CoverFrom(segs, end, f, mem), lo, mem, 1)
    ensures AddsRange(segs, CoverFrom(segs, end, f, mem), 0, 0, end, f)
  {
    var r := CoverFrom(segs, end, f, mem);
    var head := Segment(end, segs[0].func.Add(f));
    if mem == 0 {
      assert AddedOn(segs, r.segs, 0, 0, 0, f);
    } else {
      forall x: nat ensures Apply(r.segs, x) == Apply(segs, x) + (if x < end + 1 then f.Apply(x as real) else 0.0) {
        ApplyPrepend(head, segs, x);
        ApplyCons(segs, x);
      }
      PrependShape(head, segs, Outcome(Ok, segs, mem - 1), lo, mem, 1);
    }
  }

  lemma CoverLastCase(segs: seq<Segment>, lo: nat, end: nat, f: LinearFunc, mem: nat)
    requires |segs| > 0 && end <= segs[|segs| - 1].end
    requires Ascending(segs, lo) && lo <= end == segs[0].end
    ensures KeepsShape(segs, CoverFrom(segs, end, f, mem), lo, mem, 1)
    ensures AddsRange(segs, CoverFrom(segs, end, f, mem), 0, 0, end, f)
  {
    var r := CoverFrom(segs, end, f, mem);
    var head := Segment(end, segs[0].func.Add(f));
    forall x: nat ensures Apply(r.segs, x) == Apply(segs, x) + (if x < end + 1 then f.Apply(x as real) else 0.0) {
      ApplyPrepend(head, segs[1..], x);
      ApplyCons(segs, x);
    }
    if |segs| > 1 {
      assert r.segs[|r.segs| - 1] == segs[|segs| - 1];
    }
  }

  /** A covered head segment in front of a covered tail extends the covered prefix past the head. */
  lemma PrependAddedOn(s: Segment, t: seq<Segment>, restSegs: seq<Segment>, hiRest: nat, f: LinearFunc)
    requires AddedOn(t, restSegs, 0, 0, hiRest, f)
    ensures AddedOn([s] + t, [Segment(s.end, s.func.Add(f))] + restSegs, 0, 0, Max(hiRest, s.end + 1), f)
  {
    var head := Segment(s.end, s.func.Add(f));
    var hi := Max(hiRest, s.end + 1);
    forall x: nat ensures Apply([head] + restSegs, x) == Apply([s] + t, x) + (if x < hi then f.Apply(x as real) else 0.0) {
      ApplyPrepend(head, restSegs, x);
      ApplyPrepend(s, t, x);
      if x > s.end {
        assert Apply(restSegs, x) == Apply(t, x) + (if 0 <= x < hiRest then f.Apply(x as real) else 0.0);
      }
    }
  }

  lemma CoverNextCase(segs: seq<Segment>, lo: nat, end: nat, f: LinearFunc, mem: nat)
    requires |segs| > 1 && end <= segs[|segs| - 1].end
    requires Ascending(segs, lo) && segs[0].end < end
    requires var t := segs[1..];
      KeepsShape(t, CoverFrom(t, end, f, mem), segs[0].end + 1, mem, 1) && AddsRange(t, CoverFrom(t, end, f, mem), 0, 0, end, f)
    ensures KeepsShape(segs, CoverFrom(segs, end, f, mem), lo, mem, 1)
    ensures AddsRange(segs, CoverFrom(segs, end, f, mem), 0, 0, end, f)
  {
    var s := segs[0];
    var t := segs[1..];
    assert segs == [s] + t;
    var rest := CoverFrom(t, end, f, mem);
    var head := Segment(s.end, s.func.Add(f));
    var r := CoverFrom(segs, end, f, mem);
    assert r == rest.(segs := [head] + rest.segs);
    assert t[|t| - 1] == segs[|segs| - 1];
    PrependShape(head, t, rest, lo, mem, 1);
    var hiRest: nat;
    if rest.status == Ok {
      hiRest := end + 1;
    } else {
      hiRest :| hiRest <= end && AddedOn(t, rest.segs, 0, 0, hiRest, f);
    }
    PrependAddedOn(s, t, rest.segs, hiRest, f);
    assert AddedOn(segs, r.segs, 0, 0, Max(hiRest, s.end + 1), f);
  }

  lemma {:induction false} CoverFromSound(segs: seq<Segment>, lo: nat, end: nat, f: LinearFunc, mem: nat)
    requires |segs| > 0 && end <= segs[|segs| - 1].end
    requires Ascending(segs, lo) && lo <= end
    ensures KeepsShape(segs, CoverFrom(segs, end, f, mem), lo, mem, 1)
    ensures AddsRange(segs, CoverFrom(segs, end, f, mem), 0, 0, end, f)
    decreases |segs|
  {
    if end < segs[0].end {
      CoverSplitCase(segs, lo, end, f, mem);
    } else if end == segs[0].end {
      CoverLastCase(segs, lo, end, f, mem);
    } else {
      var t := segs[1..];
      assert |t| > 0 && t[|t| - 1] == segs[|segs| - 1];
      CoverFromSound(t, segs[0].end + 1, end, f, mem);
      CoverNextCase(segs, lo, end, f, mem);
    }
  }

  /** An untouched head segment ending before `start` keeps what the tail gained. */
  lemma PrependKeptOn(s: Segment, t: seq<Segment>, restSegs: seq<Segment>, from: nat, start: nat, hi: nat, f: LinearFunc)
    requires s.end < start
    requires AddedOn(t, restSegs, s.end + 1, start, hi, f)
    ensures AddedOn([s] + t, [s] + restSegs, from, start, hi, f)
  {
    forall x: nat | from <= x
      ensures Apply([s] + restSegs, x) == Apply([s] + t, x) + (if start <= x < hi then f.Apply(x as real) else 0.0)
    {
      ApplyPrepend(s, restSegs, x);
      ApplyPrepend(s, t, x);
      if x > s.end {
        assert Apply(restSegs, x) == Apply(t, x) + (if start <= x < hi then f.Apply(x as real) else 0.0);
      }
    }
  }

  /** Putting an untouched segment in front of a result that adds f only after it. */
  lemma PrependAdds(s: Segment, t: seq<Segment>, rest: Outcome, from: nat, start: nat, end: nat, f: LinearFunc)
    requires s.end < start <= end
    requires AddsRange(t, rest, s.end + 1, start, end, f)
    ensures AddsRange([s] + t, rest.(segs := [s] + rest.segs), from, start, end, f)
  {
    if rest.status == Ok {
      PrependKeptOn(s, t, rest.segs, from, start, end + 1, f);
    } else if rest.status == NoMemory {
      var hi: nat :| start <= hi <= end && AddedOn(t, rest.segs, s.end + 1, start, hi, f);
      PrependKeptOn(s, t, rest.segs, from, start, hi, f);
    }
  }

  lemma {:induction false} AddRangeSkipCase(segs: seq<Segment>, segStart: nat, start: nat, end: nat, f: LinearFunc, mem: nat)
    requires |segs| > 1 && end <= segs[|segs| - 1].end
    requires Ascending(segs, segStart) && segs[0].end < start <= end
    requires var t := segs[1..];
      var rest := AddRangeFrom(t, segs[0].end + 1, start, end, f, mem);
      KeepsShape(t, rest, segs[0].end + 1, mem, 2) && AddsRange(t, rest, segs[0].end + 1, start, end, f)
    ensures KeepsShape(segs, AddRangeFrom(segs, segStart, start, end, f, mem), segStart, mem, 2)
    ensures AddsRange(segs, AddRangeFrom(segs, segStart, start, end, f, mem), segStart, start, end, f)
  {
    var s := segs[0];
    var t := segs[1..];
    assert segs == [s] + t;
    var rest := AddRangeFrom(t, s.end + 1, start, end, f, mem);
    assert AddRangeFrom(segs, segStart, start, end, f, mem) == rest.(segs := [s] + rest.segs);
    assert t[|t| - 1] == segs[|segs| - 1];
    PrependShape(s, t, rest, segStart, mem, 2);
    PrependAdds(s, t, rest, segStart, start, end, f);
  }

  /** Splitting the head before `start`, in front of a list that gained f on [0, cut), adds f on [start, cut). */
  lemma SplitHeadAddedOn(segs: seq<Segment>, restSegs: seq<Segment>, from: nat, start: nat, cut: nat, f: LinearFunc)
    requires |segs| > 0 && 0 < start <= segs[0].end
    requires AddedOn(segs, restSegs, 0, 0, cut, f)
    ensures AddedOn(segs, [Segment(start - 1, segs[0].func)] + restSegs, from, start, Max(cut, start), f)
  {
    var head := Segment(start - 1, segs[0].func);
    var hi := Max(cut, start);
    forall x: nat | from <= x
      ensures Apply([head] + restSegs, x) == Apply(segs, x) + (if start <= x < hi then f.Apply(x as real) else 0.0)
    {
      ApplyPrepend(head, restSegs, x);
      ApplyCons(segs, x);
      if x >= start {
        assert Apply(restSegs, x) == Apply(segs, x) + (if 0 <= x < cut then f.Apply(x as real) else 0.0);
      }
    }
  }

  /** The split allocation succeeds: the head is cut at start - 1 and CoverFrom continues. */
  /** The split-off head in front of a result that adds f from the start of segs on. */
  lemma SplitHeadAdds(segs: seq<Segment>, rest: Outcome, from: nat, start: nat, end: nat, f: LinearFunc)
    requires |segs| > 0 && 0 < start <= segs[0].end && start <= end
    requires AddsRange(segs, rest, 0, 0, end, f)
    ensures AddsRange(segs, rest.(segs := [Segment(start - 1, segs[0].func)] + rest.segs), from, start, end, f)
  {
    if rest.status == Ok {
      SplitHeadAddedOn(segs, rest.segs, from, start, end + 1, f);
    } else if rest.status == NoMemory {
      var cut: nat :| cut <= end && AddedOn(segs, rest.segs, 0, 0, cut, f);
      SplitHeadAddedOn(segs, rest.segs, from, start, cut, f);
    }
  }

  lemma AddRangeSplitCover(segs: seq<Segment>, segStart: nat, start: nat, end: nat, f: LinearFunc, mem: nat)
    requires |segs| > 0 && end <= segs[|segs| - 1].end
    requires Ascending(segs, segStart) && segStart < start <= segs[0].end && start <= end && mem > 0
    ensures KeepsShape(segs, AddRangeFrom(segs, segStart, start, end, f, mem), segStart, mem, 2)
    ensures AddsRange(segs, AddRangeFrom(segs, segStart, start, end, f, mem), segStart, start, end, f)
  {
    var r := AddRangeFrom(segs, segStart, start, end, f, mem);
    assert Ascending(segs, start);
    CoverFromSound(segs, start, end, f, mem - 1);
    var rest := CoverFrom(segs, end, f, mem - 1);
    var head := Segment(start - 1, segs[0].func);
    assert r == rest.(segs := [head] + rest.segs);
    PrependShape(head, segs, rest, segStart, mem, 2);
    SplitHeadAdds(segs, rest, segStart, start, end, f);
  }

  lemma AddRangeSplitCase(segs: seq<Segment>, segStart: nat, start: nat, end: nat, f: LinearFunc, mem: nat)
    requires |segs| > 0 && end <= segs[|segs| - 1].end
    requires Ascending(segs, segStart) && segStart < start <= segs[0].end && start <= end
    ensures KeepsShape(segs, AddRangeFrom(segs, segStart, start, end, f, mem), segStart, mem, 2)
    ensures AddsRange(segs, AddRangeFrom(segs, segStart, start, end, f, mem), segStart, start, end, f)
  {
    if mem == 0 {
      var r := AddRangeFrom(segs, segStart, start, end, f, mem);
      assert AddedOn(segs, r.segs, segStart, start, start, f);
    } else {
      AddRangeSplitCover(segs, segStart, start, end, f, mem);
    }
  }

  lemma AddRangeAlignedCase(segs: seq<Segment>, segStart: nat, start: nat, end: nat, f: LinearFunc, mem: nat)
    requires |segs| > 0 && end <= segs[|segs| - 1].end
    requires Ascending(segs, segStart) && segStart == start <= segs[0].end && start <= end
    ensures KeepsShape(segs, AddRangeFrom(segs, segStart, start, end, f, mem), segStart, mem, 2)
    ensures AddsRange(segs, AddRangeFrom(segs, segStart, start, end, f, mem), segStart, start, end, f)
  {
    var r := AddRangeFrom(segs, segStart, start, end, f, mem);
    CoverFromSound(segs, segStart, end, f, mem);
    if r.status == NoMemory {
      var cut: nat :| cut <= end && AddedOn(segs, r.segs, 0, 0, cut, f);
      var hi := Max(cut, start);
      assert AddedOn(segs, r.segs, segStart, start, hi, f);
    }
  }

  lemma {:induction false} AddRangeFromSound(segs: seq<Segment>, segStart: nat, start: nat, end: nat, f: LinearFunc, mem: nat)
    requires |segs| > 0 && end <= segs[|segs| - 1].end
    requires Ascending(segs, segStart) && segStart <= start <= end
    ensures KeepsShape(segs, AddRangeFrom(segs, segStart, start, end, f, mem), segStart, mem, 2)
    ensures AddsRange(segs, AddRangeFrom(segs, segStart, start, end, f, mem), segStart, start, end, f)
    decreases |segs|
  {
    if start > segs[0].end {
      var t := segs[1..];
      assert |t| > 0 && t[|t| - 1] == segs[|segs| - 1];
      AddRangeFromSound(t, segs[0].end + 1, start, end, f, mem);
      AddRangeSkipCase(segs, segStart, start, end, f, mem);
    } else if start > segStart {
      AddRangeSplitCase(segs, segStart, start, end, f, mem);
    } else {
      AddRangeAlignedCase(segs, segStart, start, end, f, mem);
    }
  }

  /**
   ucs_piecewise_func_add_range: add f on the inclusive range [start, end].
   Success adds f exactly there; a failed allocation leaves a valid function
   that has gained f on some prefix [start, cut) of the range.
   */
  function AddRange(segs: seq<Segment>, start: nat, end: nat, f: LinearFunc, mem: nat): (r: Outcome)
    requires Valid(segs) && start <= end <= SizeMax
    ensures Valid(r.segs)
    ensures r.status in {Ok, NoMemory}
    ensures r.mem <= mem && mem - r.mem <= 2
    ensures mem >= 2 ==> r.status == Ok
    ensures r.status == Ok ==>
              forall x: nat {:trigger Apply(r.segs, x)} ::
                Apply(r.segs, x) == Apply(segs, x) + (if start <= x <= end then f.Apply(x as real) else 0.0)
    ensures r.status == NoMemory ==>
              exists cut: nat {:trigger AddedOn(segs, r.segs, 0, start, cut, f)} ::
                start <= cut <= end && AddedOn(segs, r.segs, 0, start, cut, f)
  {
    AddRangeFromSound(segs, 0, start, end, f, mem);
    AddRangeFrom(segs, 0, start, end, f, mem)
  }

  /** Some segment ends at p. */
  predicate IsEnd(segs: seq<Segment>, p: nat)
    decreases |segs|
  {
    |segs| > 0 && (segs[0].end == p || IsEnd(segs[1..], p))
  }

  /** Some segment starts at x, in a list whose first segment starts at lo. */
  predicate IsStart(segs: seq<Segment>, lo: nat, x: nat)
  {
    x == lo || (x > 0 && IsEnd(segs, x - 1))
  }

  /**
   The segments add_range has to cut for [start, end]: one when the range
   starts inside a segment, one when it ends inside one.
   */
  function Splits(segs: seq<Segment>, lo: nat, start: nat, end: nat): nat
  {
    (if IsStart(segs, lo, start) then 0 else 1) + (if IsEnd(segs, end) then 0 else 1)
  }

  /** No segment of an ascending list ends below its first end. */
  lemma {:induction false} NoEndBelowHead(segs: seq<Segment>, lo: nat, p: nat)
    requires |segs| > 0 && Ascending(segs, lo) && p < segs[0].end
    ensures !IsEnd(segs, p)
    decreases |segs|
  {
    if |segs| > 1 {
      NoEndBelowHead(segs[1..], segs[0].end + 1, p);
    }
  }

  /** The last segment's end is a segment end. */
  lemma {:induction false} LastIsEnd(segs: seq<Segment>)
    requires |segs| > 0
    ensures IsEnd(segs, segs[|segs| - 1].end)
    decreases |segs|
  {
    if |segs| > 1 {
      LastIsEnd(segs[1..]);
      assert segs[1..][|segs| - 2] == segs[|segs| - 1];
    }
  }

  /**
   The covering loop cuts a segment exactly when `end` is not already a
   segment end, and afterwards `end` is one.
   */
  lemma {:induction false} CoverFromSplits(segs: seq<Segment>, lo: nat, end: nat, f: LinearFunc, mem: nat)
    requires |segs| > 0 && end <= segs[|segs| - 1].end
    requires Ascending(segs, lo) && lo <= end && mem >= 1
    ensures var r := CoverFrom(segs, end, f, mem);
            && r.mem + (if IsEnd(segs, end) then 0 else 1) == mem
            && |r.segs| == |segs| + (mem - r.mem)
            && IsEnd(r.segs, end)
    decreases |segs|
  {
    var r := CoverFrom(segs, end, f, mem);
    if end < segs[0].end {
      NoEndBelowHead(segs, lo, end);
    } else if end == segs[0].end {
      } else {
      var t := segs[1..];
      assert |t| > 0 && t[|t| - 1] == segs[|segs| - 1];
      CoverFromSplits(t, segs[0].end + 1, end, f, mem);
        assert r.segs[1..] == CoverFrom(t, end, f, mem).segs;
    }
  }

  /**
   add_range from a segment starting at segStart uses one allocation per
   cut segment, adds one segment per allocation, and leaves `end` a
   segment end.
   */
  lemma {:induction false} AddRangeFromSplits(segs: seq<Segment>, segStart: nat, start: nat, end: nat, f: LinearFunc, mem: nat)
    requires |segs| > 0 && end <= segs[|segs| - 1].end
    requires Ascending(segs, segStart) && segStart <= start <= end && mem >= 2
    ensures var r := AddRangeFrom(segs, segStart, start, end, f, mem);
            && r.mem + Splits(segs, segStart, start, end) == mem
            && |r.segs| == |segs| + (mem - r.mem)
            && IsEnd(r.segs, end)
    decreases |segs|
  {
    var r := AddRangeFrom(segs, segStart, start, end, f, mem);
    if start > segs[0].end {
      var t := segs[1..];
      assert |t| > 0 && t[|t| - 1] == segs[|segs| - 1];
      AddRangeFromSplits(t, segs[0].end + 1, start, end, f, mem);
      assert r.segs[1..] == AddRangeFrom(t, segs[0].end + 1, start, end, f, mem).segs;
    } else if start > segStart {
      CoverFromSplits(segs, segStart, end, f, mem - 1);
      NoEndBelowHead(segs, segStart, start - 1);
      assert r.segs[1..] == CoverFrom(segs, end, f, mem - 1).segs;
    } else {
      CoverFromSplits(segs, segStart, end, f, mem);
    }
  }

  /**
   With room for two allocations, add_range cuts exactly the segments the
   range starts or ends strictly inside, adds one segment per cut, and
   leaves `end` a segment end.
   */
  lemma AddRangeSplits(segs: seq<Segment>, start: nat, end: nat, f: LinearFunc, mem: nat)
    requires Valid(segs) && start <= end <= SizeMax && mem >= 2
    ensures var r := AddRange(segs, start, end, f, mem);
            && r.mem + Splits(segs, 0, start, end) == mem
            && |r.segs| == |segs| + Splits(segs, 0, start, end)
            && IsEnd(r.segs, end)
  {
    AddRangeFromSplits(segs, 0, start, end, f, mem);
  }

  /**
   The loop of ucs_piecewise_func_add_inplace from a source segment starting
   at segStart: add each remaining source segment to dst with AddRange.
   */
  function AddInplaceFrom(dst: seq<Segment>, src: seq<Segment>, segStart: nat, mem: nat): (r: Outcome)
    requires Valid(dst) && Ascending(src, segStart)
    requires |src| > 0 ==> src[|src| - 1].end == SizeMax
    ensures Valid(r.segs) && r.status in {Ok, NoMemory} && r.mem <= mem
    decreases |src|
  {
    if |src| == 0 then Outcome(Ok, dst, mem)
    else
      HeadBelowLast(src, segStart);
      var r := AddRange(dst, segStart, src[0].end, src[0].func, mem);
      if r.status != Ok then r
      else AddInplaceFrom(r.segs, src[1..], src[0].end + 1, r.mem)
  }

  /** `after` is `before` plus src from point segStart on. */
  ghost predicate SumFrom(before: seq<Segment>, after: seq<Segment>, src: seq<Segment>, segStart: nat)
  {
    forall x: nat {:trigger Apply(after, x)} :: x <= SizeMax ==>
      Apply(after, x) == Apply(before, x) + (if segStart <= x then Apply(src, x) else 0.0)
  }

  lemma SumFromStep(dst: seq<Segment>, mid: seq<Segment>, r: seq<Segment>, src: seq<Segment>, segStart: nat)
    requires |src| > 0 && segStart <= src[0].end
    requires forall x: nat {:trigger Apply(mid, x)} ::
               Apply(mid, x) == Apply(dst, x) + (if segStart <= x <= src[0].end then src[0].func.Apply(x as real) else 0.0)
    requires SumFrom(mid, r, src[1..], src[0].end + 1)
    ensures SumFrom(dst, r, src, segStart)
  {
    forall x: nat | x <= SizeMax
      ensures Apply(r, x) == Apply(dst, x) + (if segStart <= x then Apply(src, x) else 0.0)
    {
      ApplyCons(src, x);
      assert Apply(r, x) == Apply(mid, x) + (if src[0].end + 1 <= x then Apply(src[1..], x) else 0.0);
      assert Apply(mid, x) == Apply(dst, x) + (if segStart <= x <= src[0].end then src[0].func.Apply(x as real) else 0.0);
    }
  }

  lemma {:induction false} AddInplaceFromSum(dst: seq<Segment>, src: seq<Segment>, segStart: nat, mem: nat)
    requires Valid(dst) && Ascending(src, segStart)
    requires |src| > 0 ==> src[|src| - 1].end == SizeMax
    ensures AddInplaceFrom(dst, src, segStart, mem).status == Ok ==>
              SumFrom(dst, AddInplaceFrom(dst, src, segStart, mem).segs, src, segStart)
    decreases |src|
  {
    var r := AddInplaceFrom(dst, src, segStart, mem);
    if |src| > 0 {
      HeadBelowLast(src, segStart);
      var a := AddRange(dst, segStart, src[0].end, src[0].func, mem);
      if a.status == Ok {
        assert r == AddInplaceFrom(a.segs, src[1..], src[0].end + 1, a.mem);
        AddInplaceFromSum(a.segs, src[1..], src[0].end + 1, a.mem);
        if r.status == Ok {
          SumFromStep(dst, a.segs, r.segs, src, segStart);
        }
      }
    }
  }

  /**
   ucs_piecewise_func_add_inplace: dst gains src at every point. The result
   is valid whether or not every allocation succeeds.
   */
  function AddInplace(dst: seq<Segment>, src: seq<Segment>, mem: nat): (r: Outcome)
    requires Valid(dst) && Valid(src)
    ensures Valid(r.segs) && r.status in {Ok, NoMemory}
    ensures r.status == Ok ==>
              forall x: nat {:trigger Apply(r.segs, x)} :: x <= SizeMax ==>
                Apply(r.segs, x) == Apply(dst, x) + Apply(src, x)
  {
    AddInplaceFromSum(dst, src, 0, mem);
    AddInplaceFrom(dst, src, 0, mem)
  }
}
