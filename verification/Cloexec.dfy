/** `set_fds_cloexec`: marking every target close-on-exec, by whichever means work. */
module Cloexecs {
  import opened Base
  import opened Kernels
  import opened DirFdIters
  import opened FdIters
  import opened KeepLists
  import opened Ranges
  import opened Closes

  /** The table with exactly the targets marked. */
  function MarkTargets(t: Table, minfd: int, keep: seq<int>): Table {
    map f | f in t :: if Target(minfd, keep, f) then Marked(t[f]) else t[f]
  }

  /** What `exec` leaves open. */
  function AfterExec(t: Table): Table {
    map f | f in t && !IsMarked(t[f]) :: t[f]
  }

  /** A program started afterwards inherits the same descriptors, whether the targets were marked or closed. */
  lemma ExecAgrees(t: Table, minfd: int, keep: seq<int>)
    ensures AfterExec(MarkTargets(t, minfd, keep)) == AfterExec(Survivors(t, minfd, keep))
  {
  }

  // ---------------------------------------------------------------------------------------------
  // Single descriptors

  /** `set_cloexec`: a no-op on what is not open, and on what is marked already. */
  method SetCloexec(k: Kernel, fd: CInt)
    requires k.Valid()
    modifies k
    ensures k.Valid() && k.cursors == old(k.cursors)
    ensures k.table == if fd in old(k.table) then old(k.table)[fd := Marked(old(k.table)[fd])] else old(k.table)
    ensures Within(old(k.log), k.log, {fd})
    ensures fd !in old(k.table) || IsMarked(old(k.table)[fd]) ==> k.log == old(k.log)
  {
    var flags := k.GetFd(fd);
    if flags.Some? {
      AlreadyMarked(flags.value);
      if flags.value & 1 != 1 {
        k.SetFd(fd, flags.value | 1);
      }
    }
  }

  lemma MarkingVisit(t0: Table, t: Table, t1: Table, minfd: int, keep: seq<int>, fd: int, dir: int)
    requires Marking(t0, t, minfd, keep, fd, dir) && minfd <= fd
    requires if fd in keep then t1 == t else t1 == if fd in t then t[fd := Marked(t[fd])] else t
    requires dir !in t0
    ensures Marking(t0, t1, minfd, keep, fd + 1, dir)
  {
  }

  lemma MarkingNext(t0: Table, t: Table, t1: Table, minfd: int, keep: seq<int>, upto: int, dir: int, upto1: int, dir1: int)
    requires Marking(t0, t, minfd, keep, upto, dir) && dir !in t0
    requires t1 == (if dir1 == dir then t else t - {dir}) && (dir1 == dir || dir1 == -1) && -1 !in t0
    requires forall f :: f in t1 && upto <= f < upto1 ==> f == dir1
    ensures Marking(t0, t1, minfd, keep, upto1, dir1)
  {
  }

  // ---------------------------------------------------------------------------------------------
  // The loop

  /** What the loop knows when it has dealt with all numbers below `upto`. */
  ghost predicate MarkLooping(t0: Table, log0: seq<set<int>>, k: Kernel, it: FdIter, minfd: int, keep: seq<int>, upto: int)
    reads k, it, it.dirIter
  {
    && it.k == k && it.Valid() && it.possible && 0 <= minfd <= upto <= it.curfd
    && Marking(t0, k.table, minfd, keep, upto, it.DirFd())
    && it.DirFd() !in t0 && (forall f :: f in t0 ==> 0 <= f)
    && Sparing(log0, k.log, Protected(t0, minfd, keep))
  }

  /** What is known in the end, when all numbers below `upto` have been dealt with and the iterator is dropped. */
  ghost predicate MarkFinished(t0: Table, log0: seq<set<int>>, k: Kernel, minfd: int, keep: seq<int>, upto: int)
    reads k
  {
    && k.Valid() && Marking(t0, k.table, minfd, keep, upto, -1)
    && Sparing(log0, k.log, Protected(t0, minfd, keep))
  }

  /** Every descriptor of `t0` past the limit has the same flags in `t` and in `t1`. */
  ghost predicate SameBeyond(t0: Table, t: Table, t1: Table, limit: int) {
    forall f :: f in t0 && limit < f ==> f in t && f in t1 && t1[f] == t[f]
  }

  /** The next item, or the knowledge that every target not marked yet is past the loop's reach. */
  method NextMark(k: Kernel, it: FdIter, ghost t0: Table, ghost log0: seq<set<int>>, ghost minfd: int, ghost keep: seq<int>)
    returns (r: Option<CInt>)
    requires MarkLooping(t0, log0, k, it, minfd, keep, it.curfd)
    modifies k, it, it.dirIter
    ensures (it.dirIter == old(it.dirIter) || it.dirIter == null) && old(it.curfd) <= it.curfd
    ensures MarkLooping(t0, log0, k, it, minfd, keep, if r.Some? then r.value else old(it.curfd))
    ensures r.Some? ==> old(it.curfd) <= r.value && it.curfd == r.value + 1 && r.value != it.DirFd()
    ensures r.None? ==>
              Marking(t0, k.table, minfd, keep, Limit(k, it.dirIter != null || old(it.curfd) <= Reach(k)), it.DirFd())
    ensures k.listingReliable && old(it.DirIntact()) ==> it.DirIntact()
    ensures it.dirIter == null && !MayTellMaxfd(k) && r.Some? ==> r.value <= ClampedLimit(k.openMax)
    ensures old(it.dirIter) == null ==> k.table == old(k.table)
  {
    ghost var t, log, upto, dir := k.table, k.log, it.curfd, it.DirFd();
    r := it.Next();
    SparingStep(log0, log, k.log, Protected(t0, minfd, keep), {dir});
    ghost var upto1 := if r.Some? then r.value else Limit(k, it.dirIter != null || upto <= Reach(k));
    MarkingNext(t0, t, k.table, minfd, keep, upto, dir, upto1, it.DirFd());
  }

  /** Marks an item unless it is kept. */
  method MarkItem(k: Kernel, it: FdIter, fd: CInt, kept: bool,
                  ghost t0: Table, ghost log0: seq<set<int>>, ghost minfd: int, ghost keep: seq<int>)
    requires MarkLooping(t0, log0, k, it, minfd, keep, fd) && it.curfd == fd + 1 && fd != it.DirFd()
    requires kept <==> fd in keep
    modifies k
    ensures MarkLooping(t0, log0, k, it, minfd, keep, it.curfd)
    ensures old(it.DirIntact()) ==> it.DirIntact()
    ensures SameBeyond(t0, old(k.table), k.table, fd)
  {
    ghost var t, log := k.table, k.log;
    if !kept {
      SetCloexec(k, fd);
      SparingStep(log0, log, k.log, Protected(t0, minfd, keep), {fd});
    }
    MarkingVisit(t0, t, k.table, minfd, keep, fd, it.DirFd());
  }

  /** Looks an item up in the keep list and marks it unless it is there. */
  method VisitMark(k: Kernel, it: FdIter, fd: CInt, cursor: seq<CInt>, sorted: bool,
                   ghost t0: Table, ghost log0: seq<set<int>>, ghost minfd: int, ghost keep: seq<int>)
    returns (rest: seq<CInt>)
    requires MarkLooping(t0, log0, k, it, minfd, keep, fd) && it.curfd == fd + 1 && fd != it.DirFd()
    requires Cursor(cursor, keep, sorted, fd)
    modifies k
    ensures MarkLooping(t0, log0, k, it, minfd, keep, it.curfd) && Cursor(rest, keep, sorted, it.curfd)
    ensures old(it.DirIntact()) ==> it.DirIntact()
    ensures SameBeyond(t0, old(k.table), k.table, fd)
  {
    var kept;
    rest, kept := CheckShouldKeep(cursor, fd, sorted);
    MarkItem(k, it, fd, kept, t0, log0, minfd, keep);
  }

  /** Drops the iterator. */
  method DropMark(k: Kernel, it: FdIter, ghost minfd: int, ghost keep: seq<int>, ghost upto: int,
                  ghost t0: Table, ghost log0: seq<set<int>>)
    requires it.k == k && it.Valid() && Marking(t0, k.table, minfd, keep, upto, it.DirFd()) && it.DirFd() !in t0
    requires Sparing(log0, k.log, Protected(t0, minfd, keep))
    modifies k
    ensures MarkFinished(t0, log0, k, minfd, keep, upto)
    ensures it.dirIter == null ==> k.table == old(k.table)
  {
    ghost var log := k.log;
    it.Drop();
    SparingStep(log0, log, k.log, Protected(t0, minfd, keep), {it.DirFd()});
  }

  /** Marks the next item, which is not kept; or drops the iterator if there is none. */
  method MarkTailTurn(k: Kernel, it: FdIter, ghost t0: Table, ghost log0: seq<set<int>>, ghost minfd: int, ghost keep: seq<int>)
    returns (more: bool)
    requires MarkLooping(t0, log0, k, it, minfd, keep, it.curfd) && forall f :: f in keep ==> f < it.curfd
    modifies k, it, it.dirIter
    ensures it.dirIter == old(it.dirIter) || it.dirIter == null
    ensures more ==> MarkLooping(t0, log0, k, it, minfd, keep, it.curfd) && old(it.curfd) < it.curfd
    ensures more && k.listingReliable && old(it.DirIntact()) ==> it.DirIntact()
    ensures !more ==> MarkFinished(t0, log0, k, minfd, keep, Limit(k, k.listingReliable && old(it.DirIntact())))
    ensures old(it.dirIter) == null && !MayTellMaxfd(k) ==> SameBeyond(t0, old(k.table), k.table, ClampedLimit(k.openMax))
  {
    ghost var upto := it.curfd;
    var r := NextMark(k, it, t0, log0, minfd, keep);
    more := r.Some?;
    if more {
      MarkItem(k, it, r.value, false, t0, log0, minfd, keep);
    } else {
      DropMark(k, it, minfd, keep, Limit(k, it.dirIter != null || upto <= Reach(k)), t0, log0);
    }
  }

  /** Marks `fd` and every later item one by one, then drops the iterator. */
  method MarkTail(k: Kernel, it: FdIter, fd: CInt, ghost t0: Table, ghost log0: seq<set<int>>, ghost minfd: int, ghost keep: seq<int>)
    requires MarkLooping(t0, log0, k, it, minfd, keep, fd) && it.curfd == fd + 1 && fd != it.DirFd()
    requires forall f :: f in keep ==> f < fd
    modifies k, it, it.dirIter
    ensures MarkFinished(t0, log0, k, minfd, keep, Limit(k, k.listingReliable && old(it.DirIntact())))
    ensures old(InLoop(k, it, fd)) ==> SameBeyond(t0, old(k.table), k.table, ClampedLimit(k.openMax))
  {
    ghost var t1, sure, loop := k.table, k.listingReliable && it.DirIntact(), InLoop(k, it, fd);
    MarkItem(k, it, fd, false, t0, log0, minfd, keep);
    var more := true;
    while more
      invariant it.dirIter == old(it.dirIter) || it.dirIter == null
      invariant more ==> MarkLooping(t0, log0, k, it, minfd, keep, it.curfd) && fd < it.curfd && (sure ==> it.DirIntact())
      invariant !more ==> MarkFinished(t0, log0, k, minfd, keep, Limit(k, sure))
      invariant loop ==> SameBeyond(t0, t1, k.table, ClampedLimit(k.openMax))
      decreases more, CINT_MAX - it.curfd
    {
      more := MarkTailTurn(k, it, t0, log0, minfd, keep);
    }
  }

  /** Marking a range is tried and is possible. */
  ghost predicate MarksRange(k: Kernel, fs: Features)
    reads fs
  {
    k.platform.Linux? && fs.mayCloexec && k.Supports(true)
  }

  /** The tail is sure to be marked by one call. */
  ghost predicate MarkTailSure(k: Kernel, fs: Features)
    reads fs
  {
    MarksRange(k, fs) && k.rangesReliable
  }

  /** Tries to mark the tail with one range call; whatever that does, the iterator can go on. */
  method MarkRangeTail(k: Kernel, fs: Features, fd: CInt, it: FdIter, ghost t0: Table, ghost log0: seq<set<int>>, ghost minfd: int, ghost keep: seq<int>)
    returns (ok: bool)
    requires MarkLooping(t0, log0, k, it, minfd, keep, fd) && k.platform.Linux?
    requires forall f :: f in keep ==> f < fd
    modifies k, fs`mayCloexec
    ensures MarkLooping(t0, log0, k, it, minfd, keep, fd)
    ensures ok ==> Marking(t0, k.table, minfd, keep, CINT_MAX + 1, it.DirFd())
    ensures k.rangesReliable && k.Supports(true) ==> ok
    ensures !k.Supports(true) ==> !ok && k.table == old(k.table)
    ensures k.rangeCalls == old(k.rangeCalls) + [(fd, 0xffff_ffff)]
    ensures old(it.DirIntact()) ==> it.DirIntact()
    ensures old(fs.Truthful(k)) ==> fs.Truthful(k)
  {
    ghost var t, log := k.table, k.log;
    ok := SetCloexecRange(k, fs, fd, CUINT_MAX);
    RangeStep(CloexecOp, t0, t, k.table, minfd, keep, fd, it.DirFd(), fd, CUINT_MAX, ok);
    SparingStep(log0, log, k.log, Protected(t0, minfd, keep), set f | f in t && fd <= f <= CUINT_MAX);
    assert MarkedWithin(t, k.table, fd, CUINT_MAX);
    assert forall f :: f in k.table <==> f in t;
  }

  /** Marks everything from `fd` on: nothing there is kept. */
  method MarkRest(k: Kernel, fs: Features, fd: CInt, it: FdIter, ghost t0: Table, ghost log0: seq<set<int>>, ghost minfd: int, ghost keep: seq<int>)
    requires MarkLooping(t0, log0, k, it, minfd, keep, fd) && it.curfd == fd + 1 && fd != it.DirFd()
    requires forall f :: f in keep ==> f < fd
    modifies k, fs`mayCloexec, it, it.dirIter
    ensures MarkFinished(t0, log0, k, minfd, keep, Limit(k, old(MarkTailSure(k, fs)) || (k.listingReliable && old(it.DirIntact()))))
    ensures old(InLoop(k, it, fd)) && !old(MarksRange(k, fs)) ==> SameBeyond(t0, old(k.table), k.table, ClampedLimit(k.openMax))
    ensures old(fs.Truthful(k)) ==> fs.Truthful(k)
  {
    var ok := false;
    if k.platform.Linux? && fs.mayCloexec {
      ok := MarkRangeTail(k, fs, fd, it, t0, log0, minfd, keep);
    }
    if ok {
      DropMark(k, it, minfd, keep, CINT_MAX + 1, t0, log0);
    } else {
      MarkTail(k, it, fd, t0, log0, minfd, keep);
    }
  }

  /** If there is a tail call, the loop cannot get far enough to make it. */
  ghost predicate MarkTailOutOfReach(k: Kernel, fs: Features, max: int)
    reads fs
  {
    MarksRange(k, fs) ==> ClampedLimit(k.openMax) <= max
  }

  /** The iterator runs in loop mode only, up to the clamped limit, and no tail call can have any effect. */
  ghost predicate MarkLoopOnly(k: Kernel, fs: Features, it: FdIter, max: int)
    reads fs, it
  {
    it.dirIter == null && !MayTellMaxfd(k) && MarkTailOutOfReach(k, fs, max)
  }

  /** The tail call is sure, and the loop is sure to get past the last kept descriptor. */
  ghost predicate MarkTailReached(k: Kernel, fs: Features, minfd: int, max: int)
    reads fs
  {
    MarkTailSure(k, fs) && minfd <= max < Reach(k)
  }

  /**
   One turn of the loop. An item up to `max` is looked up and marked unless kept; a larger one starts the rest, which
   ends the loop, as does the end of the items.
   */
  method MarkTurn(k: Kernel, fs: Features, it: FdIter, cursor: seq<CInt>, max: CInt, sorted: bool,
                  ghost t0: Table, ghost log0: seq<set<int>>, ghost minfd: int, ghost keep: seq<int>)
    returns (more: bool, rest: seq<CInt>)
    requires MarkLooping(t0, log0, k, it, minfd, keep, it.curfd) && Cursor(cursor, keep, sorted, it.curfd)
    requires forall f :: f in keep ==> f <= max
    modifies k, fs`mayCloexec, it, it.dirIter
    ensures more ==> it.dirIter == old(it.dirIter) || it.dirIter == null
    ensures more ==>
              && MarkLooping(t0, log0, k, it, minfd, keep, it.curfd) && Cursor(rest, keep, sorted, it.curfd)
              && old(it.curfd) < it.curfd <= max + 1 && fs.mayCloexec == old(fs.mayCloexec)
    ensures more && k.listingReliable && old(it.DirIntact()) ==> it.DirIntact()
    ensures !more ==>
              MarkFinished(t0, log0, k, minfd, keep,
                           Limit(k, old(MarkTailSure(k, fs) && it.curfd <= Reach(k)) || (k.listingReliable && old(it.DirIntact()))))
    ensures old(MarkLoopOnly(k, fs, it, max)) ==> SameBeyond(t0, old(k.table), k.table, ClampedLimit(k.openMax))
    ensures old(fs.Truthful(k)) ==> fs.Truthful(k)
  {
    ghost var upto := it.curfd;
    more, rest := false, cursor;
    var r := NextMark(k, it, t0, log0, minfd, keep);
    if r.None? {
      DropMark(k, it, minfd, keep, Limit(k, it.dirIter != null || upto <= Reach(k)), t0, log0);
    } else if r.value > max {
      MarkRest(k, fs, r.value, it, t0, log0, minfd, keep);
    } else {
      more := true;
      rest := VisitMark(k, it, r.value, cursor, sorted, t0, log0, minfd, keep);
    }
  }

  /** The iterator loop of `set_fds_cloexec`. */
  method MarkLoop(k: Kernel, fs: Features, it: FdIter, minfd: CInt, keep: seq<CInt>, max: CInt, sorted: bool,
                  ghost t0: Table, ghost log0: seq<set<int>>)
    requires MarkLooping(t0, log0, k, it, minfd, keep, it.curfd) && it.curfd == minfd
    requires (sorted ==> Sorted(keep)) && forall f :: f in keep ==> f <= max
    modifies k, fs`mayCloexec, it, it.dirIter
    ensures MarkFinished(t0, log0, k, minfd, keep,
                         Limit(k, old(MarkTailReached(k, fs, minfd, max)) || (k.listingReliable && old(it.DirIntact()))))
    ensures old(MarkLoopOnly(k, fs, it, max)) ==> SameBeyond(t0, old(k.table), k.table, ClampedLimit(k.openMax))
    ensures old(fs.Truthful(k)) ==> fs.Truthful(k)
  {
    ghost var t1, loop := k.table, MarkLoopOnly(k, fs, it, max);
    ghost var tail, sure := MarkTailReached(k, fs, minfd, max), k.listingReliable && it.DirIntact();
    var cursor, more := keep, true;
    while more
      invariant more ==> it.dirIter == old(it.dirIter) || it.dirIter == null
      invariant more ==>
                  && MarkLooping(t0, log0, k, it, minfd, keep, it.curfd) && Cursor(cursor, keep, sorted, it.curfd)
                  && (it.curfd == minfd || it.curfd <= max + 1) && fs.mayCloexec == old(fs.mayCloexec)
      invariant more && sure ==> it.DirIntact()
      invariant !more ==> MarkFinished(t0, log0, k, minfd, keep, Limit(k, tail || sure))
      invariant loop ==> SameBeyond(t0, t1, k.table, ClampedLimit(k.openMax))
      invariant old(fs.Truthful(k)) ==> fs.Truthful(k)
      decreases more, CINT_MAX - it.curfd
    {
      more, cursor := MarkTurn(k, fs, it, cursor, max, sorted, t0, log0, minfd, keep);
    }
  }

  // ---------------------------------------------------------------------------------------------
  // set_cloexec_shortcut and set_fds_cloexec

  ghost predicate MarkShortcutSure(k: Kernel, fs: Features, minfd: int, max: int, sorted: bool)
    reads fs
  {
    MarkTailSure(k, fs) && (sorted || max < minfd)
  }

  method SetCloexecShortcut(k: Kernel, fs: Features, minfd: CInt, keep: seq<CInt>, max: CInt, sorted: bool) returns (ok: bool)
    requires k.Valid() && k.platform.Linux? && 0 <= minfd && (sorted ==> Sorted(keep) && Keepable(keep))
    requires forall f :: f in keep ==> f <= max
    modifies k, fs
    ensures k.Valid() && (old(fs.Truthful(k)) ==> fs.Truthful(k))
    ensures Marking(old(k.table), k.table, minfd, keep, if ok then CINT_MAX + 1 else minfd, -1)
    ensures Sparing(old(k.log), k.log, Protected(old(k.table), minfd, keep))
    ensures old(MarkShortcutSure(k, fs, minfd, max, sorted)) ==> ok
    ensures !(old(MarksRange(k, fs)) && (sorted || max < minfd)) ==> !ok && k.table == old(k.table)
    ensures MarksRange(k, fs) ==> old(MarksRange(k, fs))
    ensures old(fs.mayCloexec) && max < minfd ==> k.rangeCalls == old(k.rangeCalls) + [(minfd, 0xffff_ffff)]
    ensures fs.mayClose == old(fs.mayClose) && fs.present == old(fs.present)
    ensures k.rangesReliable && k.Supports(true) ==> fs.mayCloexec == old(fs.mayCloexec)
  {
    ghost var t0, log0 := k.table, k.log;
    if !fs.mayCloexec {
      return false;
    } else if max < minfd {
      ok := SetCloexecRange(k, fs, minfd, CUINT_MAX);
      RangeStep(CloexecOp, t0, t0, k.table, minfd, keep, minfd, -1, minfd, CUINT_MAX, ok);
      SparingStep(log0, log0, k.log, Protected(t0, minfd, keep), set f | f in t0 && minfd <= f <= CUINT_MAX);
    } else if sorted {
      ok := ApplyRange(k, fs, CloexecOp, minfd, keep);
    } else {
      return false;
    }
  }

  /** The conditions under which every target is sure to be marked, however large. */
  ghost predicate MarkSure(k: Kernel, fs: Features, minfd: int, max: int, sorted: bool, b: FdIterBuilder)
    reads k, fs
  {
    || (MarkTailSure(k, fs) && (sorted || max < minfd || max < Reach(k)))
    || Lists(k, b)
  }

  /** The conditions under which nothing but a loop up to the clamped limit is possible. */
  ghost predicate MarkByLoopOnly(k: Kernel, fs: Features, minfd: int, max: int, sorted: bool, b: FdIterBuilder)
    reads k, fs
  {
    && !(MarksRange(k, fs) && (sorted || max < minfd))
    && !MayTellMaxfd(k) && !CanList(k, b) && MarkTailOutOfReach(k, fs, max)
  }

  /** The iterator half of `set_fds_cloexec`. */
  method MarkByIteration(k: Kernel, fs: Features, minfd: CInt, keep: seq<CInt>, max: CInt, sorted: bool, b: FdIterBuilder,
                         ghost t0: Table, ghost log0: seq<set<int>>)
    requires MarkFinished(t0, log0, k, minfd, keep, minfd) && 0 <= minfd && forall f :: f in t0 ==> 0 <= f
    requires (sorted ==> Sorted(keep)) && forall f :: f in keep ==> f <= max
    modifies k, fs`mayCloexec
    ensures MarkFinished(t0, log0, k, minfd, keep, Limit(k, old(MarkTailReached(k, fs, minfd, max)) || old(Lists(k, b))))
    ensures !MayTellMaxfd(k) && !old(CanList(k, b)) && old(MarkTailOutOfReach(k, fs, max)) ==>
              SameBeyond(t0, old(k.table), k.table, ClampedLimit(k.openMax))
    ensures old(fs.Truthful(k)) ==> fs.Truthful(k)
  {
    ghost var t := k.table;
    var it := IterFrom(k, b.(possible := true), minfd);
    assert forall f :: f in t ==> f in k.table && k.table[f] == t[f] && f != it.DirFd();
    MarkLoop(k, fs, it, minfd, keep, max, sorted, t0, log0);
  }

  /** `set_fds_cloexec` once the keep list is simplified. */
  method MarkSimplified(k: Kernel, fs: Features, minfd: CInt, keep: seq<CInt>, max: CInt, sorted: bool, b: FdIterBuilder)
    requires k.Valid() && 0 <= minfd && (sorted ==> Sorted(keep) && Keepable(keep))
    requires forall f :: f in keep ==> f <= max
    modifies k, fs
    ensures old(fs.Truthful(k)) ==> fs.Truthful(k)
    ensures MarkFinished(old(k.table), old(k.log), k, minfd, keep, Limit(k, old(MarkSure(k, fs, minfd, max, sorted, b))))
    ensures old(MarkByLoopOnly(k, fs, minfd, max, sorted, b)) ==> SameBeyond(old(k.table), old(k.table), k.table, ClampedLimit(k.openMax))
    ensures fs.mayClose == old(fs.mayClose) && fs.present == old(fs.present)
  {
    ghost var t0, log0 := k.table, k.log;
    if k.platform.Linux? {
      var ok := SetCloexecShortcut(k, fs, minfd, keep, max, sorted);
      if ok {
        return;
      }
      assert old(k.HasRoom()) ==> k.HasRoom() by {
        if old(k.HasRoom()) {
          var f :| 0 <= f < CINT_MAX && f !in t0;
          assert f !in k.table;
        }
      }
    }
    MarkByIteration(k, fs, minfd, keep, max, sorted, b, t0, log0);
  }

  lemma MarkingSame(t0: Table, t: Table, minfd: int, keep: seq<int>, minfd1: int, keep1: seq<int>, upto: int, dir: int)
    requires Marking(t0, t, minfd1, keep1, upto, dir)
    requires SameTargets(minfd, keep, minfd1, keep1)
    ensures Marking(t0, t, minfd, keep, upto, dir)
  {
  }

  /** Finished progress is the specification. */
  lemma MarkingDone(t0: Table, t: Table, minfd: int, keep: seq<int>)
    requires Marking(t0, t, minfd, keep, CINT_MAX + 1, -1) && -1 !in t && forall f :: f in t0 ==> f < CINT_MAX
    ensures t == MarkTargets(t0, minfd, keep)
  {
    var s := MarkTargets(t0, minfd, keep);
    assert forall f :: f in t ==> f in s && t[f] == s[f];
    assert forall f :: f in s ==> f in t;
    assert t.Keys == s.Keys;
  }

  method SetFdsCloexec(k: Kernel, fs: Features, minfd: CInt, kf: KeepFds, b: FdIterBuilder)
    requires k.Valid() && kf.Usable() && 0 <= minfd
    modifies k, fs
    ensures old(fs.Truthful(k)) ==> fs.Truthful(k)
    ensures MarkFinished(old(k.table), old(k.log), k, minfd, kf.fds, Limit(k, old(CloexecSure(k, fs, minfd, kf, b))))
    ensures old(CloexecByLoopOnly(k, fs, minfd, kf, b)) ==> SameBeyond(old(k.table), old(k.table), k.table, ClampedLimit(k.openMax))
    ensures fs.mayClose == old(fs.mayClose) && fs.present == old(fs.present)
  {
    ghost var t0, sure := k.table, CloexecSure(k, fs, minfd, kf, b);
    var keep, raised := SimplifyKeep(kf, minfd);
    ProtectedSame(t0, minfd, kf.fds, raised, keep);
    MarkSimplified(k, fs, raised, keep, kf.max, kf.sorted, b);
    MarkingSame(t0, k.table, minfd, kf.fds, raised, keep, Limit(k, sure), -1);
  }

  ghost predicate CloexecSure(k: Kernel, fs: Features, minfd: int, kf: KeepFds, b: FdIterBuilder)
    reads k, fs
  {
    MarkSure(k, fs, RaisedMin(kf.fds, kf.sorted, minfd), kf.max, kf.sorted, b)
  }

  ghost predicate CloexecByLoopOnly(k: Kernel, fs: Features, minfd: int, kf: KeepFds, b: FdIterBuilder)
    reads k, fs
  {
    MarkByLoopOnly(k, fs, RaisedMin(kf.fds, kf.sorted, minfd), kf.max, kf.sorted, b)
  }

  /** Every target past the limit is marked already. */
  ghost predicate MarkedBeyond(t: Table, minfd: int, keep: seq<int>, limit: int) {
    forall f :: f in t && Target(minfd, keep, f) && limit < f ==> IsMarked(t[f])
  }

  /** Every target past the limit on open files, within its bounds, is marked already. */
  ghost predicate MarkedPast(t: Table, minfd: int, keep: seq<int>, openMax: int) {
    forall f :: f in t && Target(minfd, keep, f) && PastLimit(openMax, f) ==> IsMarked(t[f])
  }

  /** Platform by platform, what makes marking complete on a reliable kernel, however large the descriptors. */
  ghost predicate MarksAll(k: Kernel, fs: Features, minfd: int, kf: KeepFds, b: FdIterBuilder)
    reads k, fs
  {
    var start := RaisedMin(kf.fds, kf.sorted, if minfd < 0 then 0 else minfd);
    var listed := b.dirfd && k.hasListing && k.HasRoom();
    match k.platform
    case Linux =>
      || listed
      || (fs.mayCloexec && k.hasCloseRange && k.hasCloexecRange
          && (kf.sorted || kf.max < start || !PastLimit(k.openMax, kf.max + 1)))
    case FreeBSD => listed
    case NetBSD => listed || k.hasMaxfd
    case OpenBSD => false
    case DragonFly => false
    case MacOS => listed
    case Solaris => listed
    case Other => false
  }

  /** On a reliable kernel the means are clear beforehand. */
  lemma CloexecDecided(k: Kernel, fs: Features, minfd: CInt, kf: KeepFds, b: FdIterBuilder)
    requires Reliable(k)
    ensures MarksAll(k, fs, minfd, kf, b) <==> Reach(k) == CINT_MAX || CloexecSure(k, fs, Clamp0(minfd), kf, b)
    ensures !MarksAll(k, fs, minfd, kf, b) ==> CloexecByLoopOnly(k, fs, Clamp0(minfd), kf, b)
  {
  }

  lemma ClampedMarksSame(t: Table, minfd: CInt, keep: seq<int>)
    requires forall f :: f in t ==> 0 <= f
    ensures MarkTargets(t, Clamp0(minfd), keep) == MarkTargets(t, minfd, keep)
  {
  }

  /**
   `cloexecfrom`, for every kernel, flag history and point of failure, and every `minfd`, negative ones included. The
   open descriptors stay the same, and in every state on the way those below `minfd` or kept have their flags. Targets
   within reach are marked, none loses a flag. Exactly the targets are marked if those past the reach were, or if one of
   the sure ways is open; if only the loop is possible, if and only if those past the limit on open files, within its
   bounds, were marked before. If no call fails without cause, exactly the targets are marked if and only if those past
   that limit were before or the platform has a way.
   */
  method CloexecFrom(k: Kernel, fs: Features, minfd: CInt, kf: KeepFds, b: FdIterBuilder)
    requires k.Valid() && kf.Usable()
    modifies k, fs
    ensures k.Valid() && (old(fs.Truthful(k)) ==> fs.Truthful(k))
    ensures Sparing(old(k.log), k.log, Protected(old(k.table), minfd, kf.fds))
    ensures forall f :: f in k.table <==> f in old(k.table)
    ensures forall f :: f in old(k.table) && (f < minfd || f in kf.fds) ==> k.table[f] == old(k.table)[f]
    ensures forall f :: f in old(k.table) && minfd <= f && f !in kf.fds ==>
                          || k.table[f] == Marked(old(k.table)[f])
                          || (f > Reach(k) && PastLimit(k.openMax, f) && k.table[f] == old(k.table)[f])
    ensures MarkedBeyond(old(k.table), minfd, kf.fds, Reach(k)) || old(CloexecSure(k, fs, Clamp0(minfd), kf, b)) ==>
              k.table == MarkTargets(old(k.table), minfd, kf.fds)
    ensures old(CloexecByLoopOnly(k, fs, Clamp0(minfd), kf, b)) ==>
              && (forall f :: f in old(k.table) && PastLimit(k.openMax, f) ==> k.table[f] == old(k.table)[f])
              && (k.table == MarkTargets(old(k.table), minfd, kf.fds) <==> MarkedPast(old(k.table), minfd, kf.fds, k.openMax))
    ensures Reliable(k) ==>
              (k.table == MarkTargets(old(k.table), minfd, kf.fds)
               <==> MarkedPast(old(k.table), minfd, kf.fds, k.openMax) || old(MarksAll(k, fs, minfd, kf, b)))
    ensures fs.mayClose == old(fs.mayClose) && fs.present == old(fs.present)
  {
    ghost var t0 := k.table;
    var start := Clamp0(minfd);
    ClampedSame(t0, minfd, kf.fds);
    ClampedMarksSame(t0, minfd, kf.fds);
    ghost var sure := MarkedBeyond(t0, start, kf.fds, Reach(k)) || CloexecSure(k, fs, start, kf, b);
    if Reliable(k) {
      CloexecDecided(k, fs, minfd, kf, b);
    }
    SetFdsCloexec(k, fs, start, kf, b);
    forall f | f in t0 ensures IsMarked(t0[f]) <==> Marked(t0[f]) == t0[f] {
      AlreadyMarked(t0[f]);
    }
    if sure {
      MarkingDone(t0, k.table, start, kf.fds);
    }
  }
}
