/** Range calls: the cached feature flags, and going through the gaps of a sorted keep list. */
module Ranges {
  import opened Base
  import opened Kernels
  import opened KeepLists

  /** The crate's static atomics. */
  class Features {
    /** `MAY_HAVE_CLOSE_RANGE` (Linux). */
    var mayClose: bool
    /** `MAY_HAVE_CLOSE_RANGE_CLOEXEC` (Linux). */
    var mayCloexec: bool
    /** `HAS_CLOSE_RANGE` (FreeBSD): 1 present, 0 absent, anything else unknown. */
    var present: nat

    constructor ()
      ensures mayClose && mayCloexec && present == 2
    {
      mayClose, mayCloexec, present := true, true, 2;
    }

    /** The cache never claims a call that would kill the process. */
    ghost predicate Safe(k: Kernel)
      reads this
    {
      present == 1 ==> k.hasCloseRange
    }

    /** On a kernel that accepts every valid range, a feature is given up only if it is absent. */
    ghost predicate Truthful(k: Kernel)
      reads this
    {
      k.rangesReliable ==>
        && (!mayClose ==> !k.hasCloseRange)
        && (!mayCloexec ==> !k.Supports(true))
        && (present == 0 ==> !k.hasCloseRange)
    }
  }

  datatype RangeOp = CloseOp | CloexecOp

  /** From `t0`, targets below `upto` have been closed, other targets perhaps, and nothing else; `dir` aside. */
  ghost predicate Closing(t0: Table, t: Table, minfd: int, keep: seq<int>, upto: int, dir: int) {
    && (forall f :: f in t && f != dir ==> f in t0 && t[f] == t0[f])
    && (forall f :: f in t0 && !Target(minfd, keep, f) ==> f in t)
    && (forall f :: f in t && f != dir && Target(minfd, keep, f) ==> upto <= f)
  }

  /** From `t0`, targets below `upto` have been marked, other targets perhaps, and nothing else; `dir` aside. */
  ghost predicate Marking(t0: Table, t: Table, minfd: int, keep: seq<int>, upto: int, dir: int) {
    && (forall f :: f in t && f != dir ==> f in t0)
    && (forall f :: f in t0 ==> f in t && (t[f] == t0[f] || (Target(minfd, keep, f) && t[f] == Marked(t0[f]))))
    && (forall f :: f in t0 && Target(minfd, keep, f) && f < upto ==> t[f] == Marked(t0[f]))
  }

  ghost predicate Progress(op: RangeOp, t0: Table, t: Table, minfd: int, keep: seq<int>, upto: int, dir: int) {
    match op
    case CloseOp => Closing(t0, t, minfd, keep, upto, dir)
    case CloexecOp => Marking(t0, t, minfd, keep, upto, dir)
  }

  /** The descriptors to be left alone. */
  ghost function Protected(t: Table, minfd: int, keep: seq<int>): set<int> {
    set f | f in t && !Target(minfd, keep, f)
  }

  lemma ProtectedSame(t: Table, minfd: int, keep: seq<int>, minfd1: int, keep1: seq<int>)
    requires SameTargets(minfd, keep, minfd1, keep1)
    ensures Protected(t, minfd1, keep1) == Protected(t, minfd, keep)
  {
  }

  /** What one range call did to the table. */
  ghost predicate RangeEffect(op: RangeOp, t: Table, t1: Table, lo: int, hi: int, ok: bool) {
    match op
    case CloseOp => ClosedWithin(t, t1, lo, hi) && (ok ==> forall f :: f in t1 ==> !(lo <= f <= hi))
    case CloexecOp => MarkedWithin(t, t1, lo, hi) && (ok ==> forall f :: f in t1 && lo <= f <= hi ==> t1[f] == Marked(t[f]))
  }

  /** A range call on targets is progress, and past its end if it succeeds where the last one ended. */
  lemma RangeStep(op: RangeOp, t0: Table, t: Table, t1: Table, minfd: int, keep: seq<int>, upto: int, dir: int,
                  lo: int, hi: int, ok: bool)
    requires Progress(op, t0, t, minfd, keep, upto, dir) && RangeEffect(op, t, t1, lo, hi, ok)
    requires forall f :: lo <= f <= hi ==> Target(minfd, keep, f)
    ensures Progress(op, t0, t1, minfd, keep, upto, dir)
    ensures ok && (forall f :: upto <= f < lo ==> !Target(minfd, keep, f)) ==>
              Progress(op, t0, t1, minfd, keep, hi + 1, dir)
  {
  }

  lemma SparingStep(log0: seq<set<int>>, log: seq<set<int>>, log1: seq<set<int>>, p: set<int>, s: set<int>)
    requires Sparing(log0, log, p) && Within(log, log1, s) && p !! s
    ensures Sparing(log0, log1, p)
  {
  }

  // ---------------------------------------------------------------------------------------------
  // Single range calls

  /** Linux `try_close_range`: a failure is remembered. The range must not be empty. */
  method TryCloseRange(k: Kernel, fs: Features, lo: CUInt, hi: CUInt) returns (ok: bool)
    requires k.Valid() && k.platform.Linux? && lo <= hi
    modifies k, fs`mayClose
    ensures k.Valid() && RangeEffect(CloseOp, old(k.table), k.table, lo, hi, ok)
    ensures k.cursors == map d | d in old(k.cursors) && d in k.table :: old(k.cursors)[d]
    ensures Within(old(k.log), k.log, set f | f in old(k.table) && lo <= f <= hi)
    ensures fs.mayClose == (old(fs.mayClose) && ok)
    ensures k.rangesReliable ==> (ok <==> k.hasCloseRange)
    ensures !k.hasCloseRange ==> !ok && k.table == old(k.table)
    ensures k.rangeCalls == old(k.rangeCalls) + [(lo, hi)]
    ensures old(fs.Truthful(k)) ==> fs.Truthful(k)
  {
    var r := k.CloseRange(lo, hi, false);
    ok := r.Done?;
    if !ok {
      fs.mayClose := false;
    }
  }

  /** `set_cloexec_range`. */
  method SetCloexecRange(k: Kernel, fs: Features, lo: CUInt, hi: CUInt) returns (ok: bool)
    requires k.Valid() && k.platform.Linux? && lo <= hi
    modifies k, fs`mayCloexec
    ensures k.Valid() && RangeEffect(CloexecOp, old(k.table), k.table, lo, hi, ok)
    ensures k.cursors == old(k.cursors)
    ensures Within(old(k.log), k.log, set f | f in old(k.table) && lo <= f <= hi)
    ensures fs.mayCloexec == (old(fs.mayCloexec) && ok)
    ensures k.rangesReliable ==> (ok <==> k.Supports(true))
    ensures !k.Supports(true) ==> !ok && k.table == old(k.table)
    ensures k.rangeCalls == old(k.rangeCalls) + [(lo, hi)]
    ensures old(fs.Truthful(k)) ==> fs.Truthful(k)
  {
    var r := k.CloseRange(lo, hi, true);
    ok := r.Done?;
    if !ok {
      fs.mayCloexec := false;
    }
  }

  /** FreeBSD `check_has_close_range`: asks once and remembers the answer. */
  method CheckHasCloseRange(k: Kernel, fs: Features) returns (ok: bool)
    requires k.Valid() && fs.Safe(k) && k.platform.FreeBSD?
    modifies fs`present
    ensures fs.Safe(k) && fs.present == if ok then 1 else 0
    ensures old(fs.present) < 2 ==> fs.present == old(fs.present)
    ensures ok ==> k.hasCloseRange
    ensures k.rangesReliable && old(fs.present) >= 2 ==> ok == k.hasCloseRange
    ensures old(fs.Truthful(k)) ==> fs.Truthful(k)
  {
    if fs.present == 1 {
      return true;
    } else if fs.present == 0 {
      return false;
    }
    var osreldate := k.OsRelDate();
    if osreldate.None? || osreldate.value < 1_202_000 {
      fs.present := 0;
      return false;
    }
    fs.present := 1;
    return true;
  }

  /** FreeBSD `try_close_range`, to be used only where the call is known to exist. */
  method TryCloseRangeFreeBSD(k: Kernel, lo: CUInt, hi: CUInt) returns (ok: bool)
    requires k.Valid() && k.platform.FreeBSD? && k.hasCloseRange && lo <= hi
    modifies k
    ensures k.Valid() && RangeEffect(CloseOp, old(k.table), k.table, lo, hi, ok)
    ensures Within(old(k.log), k.log, set f | f in old(k.table) && lo <= f <= hi)
    ensures k.rangesReliable ==> ok
    ensures k.rangeCalls == old(k.rangeCalls) + [(lo, hi)]
  {
    var r := k.CloseRange(lo, hi, false);
    ok := r.Done?;
  }

  /** Whether `op` can be issued as a range call here. */
  ghost predicate Issuable(k: Kernel, op: RangeOp) {
    k.platform.Linux? || (op.CloseOp? && k.platform.FreeBSD? && k.hasCloseRange)
  }

  ghost predicate Has(k: Kernel, op: RangeOp) {
    k.Supports(op.CloexecOp?)
  }

  /** The closure handed to `apply_range`. */
  method RangeCall(k: Kernel, fs: Features, op: RangeOp, lo: CUInt, hi: CUInt) returns (ok: bool)
    requires k.Valid() && Issuable(k, op) && lo <= hi
    modifies k, fs
    ensures k.Valid() && RangeEffect(op, old(k.table), k.table, lo, hi, ok)
    ensures Within(old(k.log), k.log, set f | f in old(k.table) && lo <= f <= hi)
    ensures k.rangesReliable && Has(k, op) ==> ok
    ensures !Has(k, op) ==> !ok && k.table == old(k.table)
    ensures k.rangeCalls == old(k.rangeCalls) + [(lo, hi)]
    ensures fs.present == old(fs.present)
    ensures FlagsAfter(k, op, ok, old(fs.mayClose), old(fs.mayCloexec), fs.mayClose, fs.mayCloexec)
  {
    if op.CloexecOp? {
      ok := SetCloexecRange(k, fs, lo, hi);
    } else if k.platform.Linux? {
      ok := TryCloseRange(k, fs, lo, hi);
    } else {
      ok := TryCloseRangeFreeBSD(k, lo, hi);
    }
  }

  // ---------------------------------------------------------------------------------------------
  // apply_range

  /** Everything between neighbours of a sorted list, and past its last element, is a target. */
  lemma TargetsBetween(minfd: int, keep: seq<int>, j: nat)
    requires Sorted(keep) && Keepable(keep) && j < |keep| && minfd <= keep[j]
    ensures !Target(minfd, keep, keep[j])
    ensures forall f :: keep[j] < f && (if j + 1 < |keep| then f < keep[j + 1] else f <= CINT_MAX) ==> Target(minfd, keep, f)
  {
    NeighboursOf(keep, j);
    forall f | keep[j] < f && (if j + 1 < |keep| then f < keep[j + 1] else f <= CINT_MAX) ensures Target(minfd, keep, f) {
      assert f !in Kept(keep);
    }
  }

  /** Everything from `minfd` up to the first element that is not below it is a target. */
  lemma TargetsBefore(minfd: int, keep: seq<int>)
    requires Sorted(keep)
    ensures var i := FirstFrom(keep, minfd);
            forall f :: minfd <= f && (if i < |keep| then f < keep[i] else f <= CINT_MAX) ==> Target(minfd, keep, f)
  {
    var i := FirstFrom(keep, minfd);
    BeforeFirst(keep, minfd);
    forall f | minfd <= f && (if i < |keep| then f < keep[i] else f <= CINT_MAX) ensures Target(minfd, keep, f) {
      assert f !in Kept(keep);
    }
  }

  /** What `apply_range` knows when it has dealt with all targets below `upto`. */
  ghost predicate Ranging(k: Kernel, op: RangeOp, t0: Table, log0: seq<set<int>>, minfd: int, keep: seq<int>, upto: int)
    reads k
  {
    && k.Valid() && Issuable(k, op)
    && Progress(op, t0, k.table, minfd, keep, upto, -1)
    && Sparing(log0, k.log, Protected(t0, minfd, keep))
    && (!Has(k, op) ==> k.table == t0)
  }

  /** The range calls issued since `calls0`: all of `gaps` on success, a non-empty prefix of them on failure. */
  ghost predicate Issued(calls0: seq<Range>, calls: seq<Range>, gaps: seq<Range>, ok: bool) {
    if ok then calls == calls0 + gaps else calls0 < calls <= calls0 + gaps
  }

  /** What becomes of the cached flags: only a failing call on Linux clears one, that of its own operation. */
  ghost predicate FlagsAfter(k: Kernel, op: RangeOp, ok: bool, mayClose0: bool, mayCloexec0: bool, mayClose: bool, mayCloexec: bool) {
    if ok then mayClose == mayClose0 && mayCloexec == mayCloexec0
    else if op.CloseOp? then mayCloexec == mayCloexec0 && mayClose == (mayClose0 && !k.platform.Linux?)
    else mayClose == mayClose0 && mayCloexec == (mayCloexec0 && !k.platform.Linux?)
  }

  /** One call on a range of targets. */
  method RangeTurn(k: Kernel, fs: Features, op: RangeOp, ghost t0: Table, ghost log0: seq<set<int>>,
                   ghost minfd: int, ghost keep: seq<int>, ghost upto: int, lo: CInt, hi: CInt)
    returns (ok: bool)
    requires Ranging(k, op, t0, log0, minfd, keep, upto) && minfd <= upto <= lo <= hi && 0 <= lo
    requires forall f :: lo <= f <= hi ==> Target(minfd, keep, f)
    requires forall f :: upto <= f < lo ==> !Target(minfd, keep, f)
    modifies k, fs
    ensures Ranging(k, op, t0, log0, minfd, keep, if ok then hi + 1 else minfd)
    ensures k.rangeCalls == old(k.rangeCalls) + [(lo, hi)]
    ensures (k.rangesReliable && Has(k, op) ==> ok) && (!Has(k, op) ==> !ok)
    ensures fs.present == old(fs.present)
    ensures FlagsAfter(k, op, ok, old(fs.mayClose), old(fs.mayCloexec), fs.mayClose, fs.mayCloexec)
  {
    ghost var t, log := k.table, k.log;
    ok := RangeCall(k, fs, op, lo, hi);
    RangeStep(op, t0, t, k.table, minfd, keep, upto, -1, lo, hi, ok);
    SparingStep(log0, log, k.log, Protected(t0, minfd, keep), set f | f in t && lo <= f <= hi);
  }

  /** The hole between two neighbours of a keep list, if there is one. */
  function GapAt(keep: seq<int>, i: nat): seq<Range>
    requires i + 1 < |keep|
  {
    if keep[i + 1] - keep[i] >= 2 then [(keep[i] + 1, keep[i + 1] - 1)] else []
  }

  lemma GapsAfterStep(calls: seq<Range>, keep: seq<int>, i: nat)
    requires i + 1 < |keep|
    ensures calls + GapsAfter(keep, i) == (calls + GapAt(keep, i)) + GapsAfter(keep, i + 1)
  {
  }

  /** One turn of the loop in `apply_range`. */
  method GapTurn(k: Kernel, fs: Features, op: RangeOp, ghost t0: Table, ghost log0: seq<set<int>>,
                 ghost minfd: int, keep: seq<CInt>, i: nat)
    returns (ok: bool)
    requires Keepable(keep) && Sorted(keep) && i + 1 < |keep| && 0 <= minfd <= keep[i]
    requires Ranging(k, op, t0, log0, minfd, keep, keep[i])
    modifies k, fs
    ensures Ranging(k, op, t0, log0, minfd, keep, if ok then keep[i + 1] else minfd)
    ensures k.rangeCalls == old(k.rangeCalls) + GapAt(keep, i) && (!ok ==> GapAt(keep, i) != [])
    ensures k.rangesReliable && Has(k, op) ==> ok
    ensures fs.present == old(fs.present)
    ensures FlagsAfter(k, op, ok, old(fs.mayClose), old(fs.mayCloexec), fs.mayClose, fs.mayCloexec)
  {
    ok := true;
    var low, high := keep[i], keep[i + 1];
    TargetsBetween(minfd, keep, i);
    if high - low >= 2 {
      ok := RangeTurn(k, fs, op, t0, log0, minfd, keep, low, low + 1, high - 1);
    }
  }

  /** The part of `apply_range` from the first kept descriptor that is at least `minfd`. */
  method ApplyGapsAfter(k: Kernel, fs: Features, op: RangeOp, ghost t0: Table, ghost log0: seq<set<int>>,
                        ghost minfd: int, keep: seq<CInt>, index: nat)
    returns (ok: bool)
    requires Keepable(keep) && Sorted(keep) && index < |keep| && 0 <= minfd <= keep[index]
    requires Ranging(k, op, t0, log0, minfd, keep, keep[index])
    modifies k, fs
    ensures Ranging(k, op, t0, log0, minfd, keep, if ok then CINT_MAX + 1 else minfd)
    ensures Issued(old(k.rangeCalls), k.rangeCalls, GapsAfter(keep, index), ok)
    ensures (k.rangesReliable && Has(k, op) ==> ok) && (!Has(k, op) ==> !ok)
    ensures fs.present == old(fs.present)
    ensures FlagsAfter(k, op, ok, old(fs.mayClose), old(fs.mayCloexec), fs.mayClose, fs.mayCloexec)
  {
    ghost var calls0 := k.rangeCalls;
    var i := index;
    while i < |keep| - 1
      invariant index <= i < |keep| && minfd <= keep[i]
      invariant Ranging(k, op, t0, log0, minfd, keep, keep[i])
      invariant calls0 <= k.rangeCalls && k.rangeCalls + GapsAfter(keep, i) == calls0 + GapsAfter(keep, index)
      invariant fs.present == old(fs.present) && fs.mayClose == old(fs.mayClose) && fs.mayCloexec == old(fs.mayCloexec)
    {
      GapsAfterStep(k.rangeCalls, keep, i);
      ok := GapTurn(k, fs, op, t0, log0, minfd, keep, i);
      if !ok {
        return;
      }
      i := i + 1;
    }
    TargetsBetween(minfd, keep, i);
    ok := RangeTurn(k, fs, op, t0, log0, minfd, keep, keep[i], keep[i] + 1, CINT_MAX);
  }

  /** The gap before the first kept descriptor that is at least `minfd`, if there is one. */
  function FirstGap(minfd: int, keep: seq<int>, index: nat): seq<Range>
    requires index < |keep|
  {
    if keep[index] > minfd then [(minfd, keep[index] - 1)] else []
  }

  /** The call on that gap. */
  method FirstGapTurn(k: Kernel, fs: Features, op: RangeOp, ghost t0: Table, ghost log0: seq<set<int>>,
                      minfd: CInt, keep: seq<CInt>, index: nat)
    returns (ok: bool)
    requires Sorted(keep) && index < |keep| && index == FirstFrom(keep, minfd) && 0 <= minfd
    requires Ranging(k, op, t0, log0, minfd, keep, minfd)
    modifies k, fs
    ensures Ranging(k, op, t0, log0, minfd, keep, if ok then keep[index] else minfd)
    ensures k.rangeCalls == old(k.rangeCalls) + FirstGap(minfd, keep, index) && (!ok ==> FirstGap(minfd, keep, index) != [])
    ensures k.rangesReliable && Has(k, op) ==> ok
    ensures fs.present == old(fs.present)
    ensures FlagsAfter(k, op, ok, old(fs.mayClose), old(fs.mayCloexec), fs.mayClose, fs.mayCloexec)
  {
    ok := true;
    TargetsBefore(minfd, keep);
    if keep[index] > minfd {
      ok := RangeTurn(k, fs, op, t0, log0, minfd, keep, minfd, minfd, keep[index] - 1);
    }
  }

  lemma GapsSplit(calls: seq<Range>, minfd: int, keep: seq<int>)
    requires FirstFrom(keep, minfd) < |keep|
    ensures var i := FirstFrom(keep, minfd);
            calls + Gaps(minfd, keep) == (calls + FirstGap(minfd, keep, i)) + GapsAfter(keep, i)
  {
  }

  /** `apply_range` as progress from `t0`. */
  method ApplyGaps(k: Kernel, fs: Features, op: RangeOp, ghost t0: Table, ghost log0: seq<set<int>>, minfd: CInt, keep: seq<CInt>)
    returns (ok: bool)
    requires 0 <= minfd && Keepable(keep) && Sorted(keep)
    requires Ranging(k, op, t0, log0, minfd, keep, minfd)
    modifies k, fs
    ensures Ranging(k, op, t0, log0, minfd, keep, if ok then CINT_MAX + 1 else minfd)
    ensures Issued(old(k.rangeCalls), k.rangeCalls, Gaps(minfd, keep), ok)
    ensures (k.rangesReliable && Has(k, op) ==> ok) && (!Has(k, op) ==> !ok)
    ensures fs.present == old(fs.present)
    ensures FlagsAfter(k, op, ok, old(fs.mayClose), old(fs.mayCloexec), fs.mayClose, fs.mayCloexec)
  {
    var index := FirstFrom(keep, minfd);
    if index == |keep| {
      TargetsBefore(minfd, keep);
      ok := RangeTurn(k, fs, op, t0, log0, minfd, keep, minfd, minfd, CINT_MAX);
      return;
    }
    GapsSplit(k.rangeCalls, minfd, keep);
    ok := FirstGapTurn(k, fs, op, t0, log0, minfd, keep, index);
    if ok {
      ok := ApplyGapsAfter(k, fs, op, t0, log0, minfd, keep, index);
    }
  }

  /**
   Issues `op` on every gap of a sorted keep list until one call fails. The calls the kernel sees are the maximal runs
   of targets, or a prefix of them; targets are dealt with, all of them if no call failed, none if the call does not
   exist, and nothing else is touched.
   */
  method ApplyRange(k: Kernel, fs: Features, op: RangeOp, minfd: CInt, keep: seq<CInt>) returns (ok: bool)
    requires k.Valid() && Issuable(k, op) && 0 <= minfd && Keepable(keep) && Sorted(keep)
    modifies k, fs
    ensures Ranging(k, op, old(k.table), old(k.log), minfd, keep, if ok then CINT_MAX + 1 else minfd)
    ensures Issued(old(k.rangeCalls), k.rangeCalls, Gaps(minfd, keep), ok) && AreRuns(Gaps(minfd, keep), minfd, Kept(keep))
    ensures (k.rangesReliable && Has(k, op) ==> ok) && (!Has(k, op) ==> !ok)
    ensures old(fs.Truthful(k)) ==> fs.Truthful(k)
    ensures fs.present == old(fs.present)
    ensures FlagsAfter(k, op, ok, old(fs.mayClose), old(fs.mayCloexec), fs.mayClose, fs.mayCloexec)
  {
    GapsAreRuns(minfd, keep);
    ok := ApplyGaps(k, fs, op, k.table, k.log, minfd, keep);
  }
}
