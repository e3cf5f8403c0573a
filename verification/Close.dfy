/** `close_fds`: closing every target, by whichever means work. */
module Closes {
  import opened Base
  import opened Kernels
  import opened DirFdIters
  import opened FdIters
  import opened KeepLists
  import opened Ranges

  /** What should be left: the descriptors below `minfd` and the kept ones, with their flags. */
  function Survivors(t: Table, minfd: int, keep: seq<int>): Table {
    map f | f in t && !Target(minfd, keep, f) :: t[f]
  }

  // ---------------------------------------------------------------------------------------------
  // close_fds_shortcut

  /** `closefrom` is progress past every number when nothing from `lo` on is kept. */
  lemma ClosefromStep(t0: Table, t: Table, t1: Table, minfd: int, keep: seq<int>, lo: int, dir: int)
    requires Closing(t0, t, minfd, keep, lo, dir) && minfd <= lo
    requires t1 == map f | f in t && f < lo :: t[f]
    requires forall f :: f in keep ==> f < lo
    ensures Closing(t0, t1, minfd, keep, CINT_MAX + 1, dir)
  {
  }

  /** There is a call that closes everything from a number on. */
  ghost predicate ClosesFrom(k: Kernel) {
    k.platform.FreeBSD? || k.platform.NetBSD? || k.platform.OpenBSD? || k.platform.DragonFly?
  }

  /** The means by which the shortcut is sure to succeed. */
  ghost predicate ShortcutSure(k: Kernel, fs: Features, minfd: int, max: int, sorted: bool)
    reads fs
  {
    || (ClosesFrom(k) && max < minfd)
    || (LinuxRange(k, fs) && k.rangesReliable && (sorted || max < minfd))
    || (k.platform.FreeBSD? && k.rangesReliable && k.hasCloseRange && fs.present != 0 && sorted)
  }

  /** Closing a range, on Linux, is tried and is possible. */
  ghost predicate LinuxRange(k: Kernel, fs: Features)
    reads fs
  {
    k.platform.Linux? && fs.mayClose && k.hasCloseRange
  }

  /** No bulk call applies that could have any effect. */
  ghost predicate NoShortcut(k: Kernel, fs: Features, minfd: int, max: int, sorted: bool)
    reads fs
  {
    && !(ClosesFrom(k) && max < minfd)
    && !(LinuxRange(k, fs) && (sorted || max < minfd))
    && !(k.platform.FreeBSD? && k.hasCloseRange && fs.present != 0 && sorted)
  }

  method CloseFdsShortcut(k: Kernel, fs: Features, minfd: CInt, keep: seq<CInt>, max: CInt, sorted: bool) returns (ok: bool)
    requires k.Valid() && fs.Safe(k) && 0 <= minfd && (sorted ==> Sorted(keep) && Keepable(keep))
    requires forall f :: f in keep ==> f <= max
    requires sorted && minfd <= max ==> keep != []
    modifies k, fs
    ensures k.Valid() && fs.Safe(k) && (old(fs.Truthful(k)) ==> fs.Truthful(k))
    ensures Closing(old(k.table), k.table, minfd, keep, if ok then CINT_MAX + 1 else minfd, -1)
    ensures Sparing(old(k.log), k.log, Protected(old(k.table), minfd, keep))
    ensures old(ShortcutSure(k, fs, minfd, max, sorted)) ==> ok
    ensures old(NoShortcut(k, fs, minfd, max, sorted)) ==> !ok && k.table == old(k.table)
    ensures fs.mayCloexec == old(fs.mayCloexec) && (fs.mayClose ==> old(fs.mayClose))
    ensures k.rangesReliable && k.hasCloseRange ==> fs.mayClose == old(fs.mayClose)
    ensures !ok && k.platform.Linux? && fs.mayClose ==> minfd <= max
    ensures !ok && ClosesFrom(k) ==> minfd <= max
    ensures LinuxRange(k, fs) ==> old(LinuxRange(k, fs))
    ensures !old(LinuxRange(k, fs)) && k.platform.Linux? ==> k.table == old(k.table)
    ensures k.platform.Linux? && old(fs.mayClose) && max < minfd ==> k.rangeCalls == old(k.rangeCalls) + [(minfd, 0xffff_ffff)]
  {
    ghost var t0, log0 := k.table, k.log;
    if k.platform.HasClosefrom() && max < minfd {
      k.Closefrom(minfd);
      ClosefromStep(t0, t0, k.table, minfd, keep, minfd, -1);
      return true;
    }
    if k.platform.Linux? {
      if !fs.mayClose {
        return false;
      } else if max < minfd {
        ok := TryCloseRange(k, fs, minfd, CUINT_MAX);
        RangeStep(CloseOp, t0, t0, k.table, minfd, keep, minfd, -1, minfd, CUINT_MAX, ok);
        SparingStep(log0, log0, k.log, Protected(t0, minfd, keep), set f | f in t0 && minfd <= f <= CUINT_MAX);
        return;
      }
    }
    if (k.platform.Linux? || k.platform.FreeBSD?) && sorted {
      assert keep != [];
      if k.platform.FreeBSD? {
        var present := CheckHasCloseRange(k, fs);
        if !present {
          return false;
        }
      }
      ok := ApplyRange(k, fs, CloseOp, minfd, keep);
      return;
    }
    return false;
  }

  // ---------------------------------------------------------------------------------------------
  // The loop

  /** Everything that is open past the limit in `t` is still open in `t1`. */
  ghost predicate OpenBeyond(t: Table, t1: Table, limit: int) {
    forall f :: f in t && limit < f ==> f in t1
  }

  lemma SparingClose(log0: seq<set<int>>, log: seq<set<int>>, p: set<int>, s: set<int>)
    requires Sparing(log0, log, p) && s !! p
    ensures Sparing(log0, log + [s], p)
  {
  }

  /** Removing the directory, or forgetting it, and skipping numbers that hold no target, is progress. */
  lemma ClosingNext(t0: Table, t: Table, t1: Table, minfd: int, keep: seq<int>, upto: int, dir: int, upto1: int, dir1: int)
    requires Closing(t0, t, minfd, keep, upto, dir) && (dir in t0 ==> Target(minfd, keep, dir))
    requires t1 == (if dir1 == dir then t else t - {dir}) && (dir1 == dir || dir1 == -1)
    requires forall f :: f in t1 && upto <= f < upto1 ==> f == dir1
    ensures Closing(t0, t1, minfd, keep, upto1, dir1)
  {
  }

  /** What the loop knows when it has dealt with all numbers below `upto`. */
  ghost predicate Looping(t0: Table, log0: seq<set<int>>, k: Kernel, it: FdIter, minfd: int, keep: seq<int>, upto: int)
    reads k, it, it.dirIter
  {
    && it.k == k && it.Valid() && it.possible && 0 <= minfd <= upto <= it.curfd
    && Closing(t0, k.table, minfd, keep, upto, it.DirFd())
    && (it.DirFd() in t0 ==> Target(minfd, keep, it.DirFd())) && (forall f :: f in t0 ==> 0 <= f)
    && Sparing(log0, k.log, Protected(t0, minfd, keep))
  }

  /** What is known in the end, when all numbers below `upto` have been dealt with and the iterator is dropped. */
  ghost predicate Finished(t0: Table, log0: seq<set<int>>, k: Kernel, minfd: int, keep: seq<int>, upto: int)
    reads k
  {
    && k.Valid() && Closing(t0, k.table, minfd, keep, upto, -1)
    && Sparing(log0, k.log, Protected(t0, minfd, keep))
  }

  /** The next item, past which only targets from it on, or past the loop's reach, are still open. */
  method NextItem(k: Kernel, it: FdIter, ghost t0: Table, ghost log0: seq<set<int>>, ghost minfd: int, ghost keep: seq<int>)
    returns (r: Option<CInt>)
    requires Looping(t0, log0, k, it, minfd, keep, it.curfd)
    modifies k, it, it.dirIter
    ensures (it.dirIter == old(it.dirIter) || it.dirIter == null) && old(it.curfd) <= it.curfd
    ensures Looping(t0, log0, k, it, minfd, keep, if r.Some? then r.value else old(it.curfd))
    ensures r.Some? ==> old(it.curfd) <= r.value && it.curfd == r.value + 1 && r.value != it.DirFd()
    ensures r.None? ==>
              Closing(t0, k.table, minfd, keep, Limit(k, it.dirIter != null || old(it.curfd) <= Reach(k)), it.DirFd())
    ensures k.listingReliable && old(it.DirIntact()) ==> it.DirIntact()
    ensures it.dirIter == null && !MayTellMaxfd(k) && r.Some? ==> r.value <= ClampedLimit(k.openMax)
    ensures old(it.dirIter) == null ==> k.table == old(k.table)
  {
    ghost var t, log, upto, dir := k.table, k.log, it.curfd, it.DirFd();
    r := it.Next();
    SparingStep(log0, log, k.log, Protected(t0, minfd, keep), {dir});
    ghost var upto1 := if r.Some? then r.value else Limit(k, it.dirIter != null || upto <= Reach(k));
    ClosingNext(t0, t, k.table, minfd, keep, upto, dir, upto1, it.DirFd());
  }

  lemma ClosingVisit(t0: Table, t: Table, t1: Table, minfd: int, keep: seq<int>, fd: int, dir: int)
    requires Closing(t0, t, minfd, keep, fd, dir) && minfd <= fd && t1 == if fd in keep then t else t - {fd}
    ensures Closing(t0, t1, minfd, keep, fd + 1, dir)
  {
  }

  /** Closes an item unless it is kept. */
  method CloseItem(k: Kernel, it: FdIter, fd: CInt, kept: bool,
                   ghost t0: Table, ghost log0: seq<set<int>>, ghost minfd: int, ghost keep: seq<int>)
    requires Looping(t0, log0, k, it, minfd, keep, fd) && it.curfd == fd + 1 && fd != it.DirFd()
    requires kept <==> fd in keep
    modifies k
    ensures Looping(t0, log0, k, it, minfd, keep, it.curfd)
    ensures old(it.DirIntact()) ==> it.DirIntact()
    ensures OpenBeyond(old(k.table), k.table, fd)
  {
    ghost var t := k.table;
    if !kept {
      SparingClose(log0, k.log, Protected(t0, minfd, keep), {fd} * k.table.Keys);
      k.Close(fd);
    }
    ClosingVisit(t0, t, k.table, minfd, keep, fd, it.DirFd());
  }

  /** Looks an item up in the keep list and closes it unless it is there. */
  method VisitItem(k: Kernel, it: FdIter, fd: CInt, cursor: seq<CInt>, sorted: bool,
                   ghost t0: Table, ghost log0: seq<set<int>>, ghost minfd: int, ghost keep: seq<int>)
    returns (rest: seq<CInt>)
    requires Looping(t0, log0, k, it, minfd, keep, fd) && it.curfd == fd + 1 && fd != it.DirFd()
    requires Cursor(cursor, keep, sorted, fd)
    modifies k
    ensures Looping(t0, log0, k, it, minfd, keep, it.curfd) && Cursor(rest, keep, sorted, it.curfd)
    ensures old(it.DirIntact()) ==> it.DirIntact()
    ensures OpenBeyond(old(k.table), k.table, fd)
  {
    var kept;
    rest, kept := CheckShouldKeep(cursor, fd, sorted);
    CloseItem(k, it, fd, kept, t0, log0, minfd, keep);
  }

  /** Drops the iterator. */
  method FinishEnd(k: Kernel, it: FdIter, ghost minfd: int, ghost keep: seq<int>, ghost upto: int,
                   ghost t0: Table, ghost log0: seq<set<int>>)
    requires it.k == k && it.Valid() && Closing(t0, k.table, minfd, keep, upto, it.DirFd())
    requires it.DirFd() in t0 ==> Target(minfd, keep, it.DirFd())
    requires Sparing(log0, k.log, Protected(t0, minfd, keep))
    modifies k
    ensures Finished(t0, log0, k, minfd, keep, upto)
    ensures k.table == old(k.table) - {it.DirFd()} && (it.dirIter == null ==> k.table == old(k.table))
  {
    ghost var log := k.log;
    it.Drop();
    SparingStep(log0, log, k.log, Protected(t0, minfd, keep), {it.DirFd()});
  }

  // ---------------------------------------------------------------------------------------------
  // close_rest

  /** Nothing but the loop up to the clamped limit is at work, and it has not passed the limit. */
  ghost predicate InLoop(k: Kernel, it: FdIter, fd: int)
    reads it
  {
    it.dirIter == null && !MayTellMaxfd(k) && fd <= ClampedLimit(k.openMax)
  }

  /** Closes the next item, which is not kept; or drops the iterator if there is none. */
  method TailTurn(k: Kernel, it: FdIter, ghost t0: Table, ghost log0: seq<set<int>>, ghost minfd: int, ghost keep: seq<int>)
    returns (more: bool)
    requires Looping(t0, log0, k, it, minfd, keep, it.curfd) && forall f :: f in keep ==> f < it.curfd
    modifies k, it, it.dirIter
    ensures it.dirIter == old(it.dirIter) || it.dirIter == null
    ensures more ==> Looping(t0, log0, k, it, minfd, keep, it.curfd) && old(it.curfd) < it.curfd
    ensures more && k.listingReliable && old(it.DirIntact()) ==> it.DirIntact()
    ensures !more ==> Finished(t0, log0, k, minfd, keep, Limit(k, k.listingReliable && old(it.DirIntact())))
    ensures old(it.dirIter) == null && !MayTellMaxfd(k) ==> OpenBeyond(old(k.table), k.table, ClampedLimit(k.openMax))
  {
    ghost var upto := it.curfd;
    var r := NextItem(k, it, t0, log0, minfd, keep);
    more := r.Some?;
    if more {
      CloseItem(k, it, r.value, false, t0, log0, minfd, keep);
    } else {
      FinishEnd(k, it, minfd, keep, Limit(k, it.dirIter != null || upto <= Reach(k)), t0, log0);
    }
  }

  /** Closes `fd` and every later item one by one, then drops the iterator. */
  method CloseTail(k: Kernel, it: FdIter, fd: CInt, ghost t0: Table, ghost log0: seq<set<int>>, ghost minfd: int, ghost keep: seq<int>)
    requires Looping(t0, log0, k, it, minfd, keep, fd) && it.curfd == fd + 1 && fd != it.DirFd()
    requires forall f :: f in keep ==> f < fd
    modifies k, it, it.dirIter
    ensures Finished(t0, log0, k, minfd, keep, Limit(k, k.listingReliable && old(it.DirIntact())))
    ensures old(InLoop(k, it, fd)) ==> OpenBeyond(old(k.table), k.table, ClampedLimit(k.openMax))
  {
    ghost var t1, sure, loop := k.table, k.listingReliable && it.DirIntact(), InLoop(k, it, fd);
    CloseItem(k, it, fd, false, t0, log0, minfd, keep);
    var more := true;
    while more
      invariant it.dirIter == old(it.dirIter) || it.dirIter == null
      invariant more ==> Looping(t0, log0, k, it, minfd, keep, it.curfd) && fd < it.curfd && (sure ==> it.DirIntact())
      invariant !more ==> Finished(t0, log0, k, minfd, keep, Limit(k, sure))
      invariant loop ==> OpenBeyond(t1, k.table, ClampedLimit(k.openMax))
      decreases more, CINT_MAX - it.curfd
    {
      more := TailTurn(k, it, t0, log0, minfd, keep);
    }
  }

  /** The tail is sure to be closed by one call. */
  ghost predicate TailSure(k: Kernel, fs: Features)
    reads fs
  {
    ClosesFrom(k) || (LinuxRange(k, fs) && k.rangesReliable)
  }

  /** Listing the directory is sure to find everything. */
  ghost predicate ListingSure(k: Kernel, fs: Features)
    reads fs
  {
    k.listingReliable && (LinuxRange(k, fs) ==> k.rangesReliable)
  }

  /** Tries to close the tail with one range call; whatever that does, the iterator can go on. */
  method RangeTail(k: Kernel, fs: Features, fd: CInt, it: FdIter, ghost t0: Table, ghost log0: seq<set<int>>, ghost minfd: int, ghost keep: seq<int>)
    returns (ok: bool)
    requires Looping(t0, log0, k, it, minfd, keep, fd) && k.platform.Linux?
    requires forall f :: f in keep ==> f < fd
    modifies k, fs`mayClose
    ensures Looping(t0, log0, k, it, minfd, keep, fd)
    ensures ok ==> Closing(t0, k.table, minfd, keep, CINT_MAX + 1, it.DirFd())
    ensures k.rangeCalls == old(k.rangeCalls) + [(fd, 0xffff_ffff)]
    ensures k.rangesReliable && k.hasCloseRange ==> ok
    ensures !k.hasCloseRange ==> !ok && k.table == old(k.table) && (old(it.DirIntact()) ==> it.DirIntact())
    ensures old(fs.Truthful(k)) ==> fs.Truthful(k)
  {
    ghost var t, log := k.table, k.log;
    ok := TryCloseRange(k, fs, fd, CUINT_MAX);
    RangeStep(CloseOp, t0, t, k.table, minfd, keep, fd, it.DirFd(), fd, CUINT_MAX, ok);
    SparingStep(log0, log, k.log, Protected(t0, minfd, keep), set f | f in t && fd <= f <= CUINT_MAX);
    assert ClosedWithin(t, k.table, fd, CUINT_MAX);
    assert forall f :: f in k.table.Keys ==> f in t.Keys;
  }

  /** Drops the iterator, then closes everything from `fd` on with one call. */
  method ClosefromTail(k: Kernel, fd: CInt, it: FdIter, ghost t0: Table, ghost log0: seq<set<int>>, ghost minfd: int, ghost keep: seq<int>)
    requires Looping(t0, log0, k, it, minfd, keep, fd) && ClosesFrom(k)
    requires forall f :: f in keep ==> f < fd
    modifies k
    ensures Finished(t0, log0, k, minfd, keep, CINT_MAX + 1)
    ensures k.log != [] && forall f :: f in k.log[|k.log| - 1] <==> f in old(k.table) && fd <= f && f != it.DirFd()
  {
    FinishEnd(k, it, minfd, keep, fd, t0, log0);
    ghost var t := k.table;
    SparingClose(log0, k.log, Protected(t0, minfd, keep), set f | f in t && fd <= f);
    k.Closefrom(fd);
    ClosefromStep(t0, t, k.table, minfd, keep, fd, -1);
  }

  /** Closes everything from `fd` on: nothing there is kept. */
  method CloseRest(k: Kernel, fs: Features, fd: CInt, it: FdIter, ghost t0: Table, ghost log0: seq<set<int>>, ghost minfd: int, ghost keep: seq<int>)
    requires Looping(t0, log0, k, it, minfd, keep, fd) && it.curfd == fd + 1 && fd != it.DirFd()
    requires forall f :: f in keep ==> f < fd
    modifies k, fs`mayClose, it, it.dirIter
    ensures Finished(t0, log0, k, minfd, keep, Limit(k, old(TailSure(k, fs)) || old(ListingSure(k, fs) && it.DirIntact())))
    ensures old(InLoop(k, it, fd)) && !ClosesFrom(k) && !old(LinuxRange(k, fs)) ==>
              OpenBeyond(old(k.table), k.table, ClampedLimit(k.openMax))
    ensures old(fs.Truthful(k)) ==> fs.Truthful(k)
  {
    var ok := false;
    if k.platform.HasClosefrom() {
      ClosefromTail(k, fd, it, t0, log0, minfd, keep);
      return;
    } else if k.platform.Linux? && fs.mayClose {
      ok := RangeTail(k, fs, fd, it, t0, log0, minfd, keep);
    }
    if ok {
      FinishEnd(k, it, minfd, keep, CINT_MAX + 1, t0, log0);
    } else {
      CloseTail(k, it, fd, t0, log0, minfd, keep);
    }
  }

  // ---------------------------------------------------------------------------------------------
  // close_fds

  /** If there is a tail call, the loop cannot get far enough to make it. */
  ghost predicate TailOutOfReach(k: Kernel, fs: Features, max: int)
    reads fs
  {
    ClosesFrom(k) || LinuxRange(k, fs) ==> ClampedLimit(k.openMax) <= max
  }

  /** The iterator runs in loop mode only, up to the clamped limit, and no tail call can have any effect. */
  ghost predicate LoopOnly(k: Kernel, fs: Features, it: FdIter, max: int)
    reads fs, it
  {
    it.dirIter == null && !MayTellMaxfd(k) && TailOutOfReach(k, fs, max)
  }

  /** The tail call is sure, and the loop is sure to get past the last kept descriptor. */
  ghost predicate TailReached(k: Kernel, fs: Features, minfd: int, max: int)
    reads fs
  {
    TailSure(k, fs) && minfd <= max < Reach(k)
  }

  /**
   One turn of the loop. An item up to `max` is looked up and closed unless kept; a larger one starts the rest, which
   ends the loop, as does the end of the items.
   */
  method CloseTurn(k: Kernel, fs: Features, it: FdIter, cursor: seq<CInt>, max: CInt, sorted: bool,
                   ghost t0: Table, ghost log0: seq<set<int>>, ghost minfd: int, ghost keep: seq<int>)
    returns (more: bool, rest: seq<CInt>)
    requires Looping(t0, log0, k, it, minfd, keep, it.curfd) && Cursor(cursor, keep, sorted, it.curfd)
    requires forall f :: f in keep ==> f <= max
    modifies k, fs`mayClose, it, it.dirIter
    ensures more ==> it.dirIter == old(it.dirIter) || it.dirIter == null
    ensures more ==>
              && Looping(t0, log0, k, it, minfd, keep, it.curfd) && Cursor(rest, keep, sorted, it.curfd)
              && old(it.curfd) < it.curfd <= max + 1 && fs.mayClose == old(fs.mayClose)
    ensures more && k.listingReliable && old(it.DirIntact()) ==> it.DirIntact()
    ensures !more ==>
              Finished(t0, log0, k, minfd, keep,
                       Limit(k, old(TailSure(k, fs) && it.curfd <= Reach(k)) || old(ListingSure(k, fs) && it.DirIntact())))
    ensures old(LoopOnly(k, fs, it, max)) ==> OpenBeyond(old(k.table), k.table, ClampedLimit(k.openMax))
    ensures old(fs.Truthful(k)) ==> fs.Truthful(k)
  {
    ghost var upto := it.curfd;
    more, rest := false, cursor;
    var r := NextItem(k, it, t0, log0, minfd, keep);
    if r.None? {
      FinishEnd(k, it, minfd, keep, Limit(k, it.dirIter != null || upto <= Reach(k)), t0, log0);
    } else if r.value > max {
      CloseRest(k, fs, r.value, it, t0, log0, minfd, keep);
    } else {
      more := true;
      rest := VisitItem(k, it, r.value, cursor, sorted, t0, log0, minfd, keep);
    }
  }

  /** The iterator loop of `close_fds`. Where `closefrom` will deal with the tail, descriptors are not to be counted. */
  method CloseLoop(k: Kernel, fs: Features, it: FdIter, minfd: CInt, keep: seq<CInt>, max: CInt, sorted: bool,
                   ghost t0: Table, ghost log0: seq<set<int>>)
    requires Looping(t0, log0, k, it, minfd, keep, it.curfd) && it.curfd == minfd && (ClosesFrom(k) ==> it.skipNfds)
    requires (sorted ==> Sorted(keep)) && forall f :: f in keep ==> f <= max
    modifies k, fs`mayClose, it, it.dirIter
    ensures Finished(t0, log0, k, minfd, keep,
                     Limit(k, old(TailReached(k, fs, minfd, max)) || old(ListingSure(k, fs) && it.DirIntact())))
    ensures old(LoopOnly(k, fs, it, max)) ==> OpenBeyond(old(k.table), k.table, ClampedLimit(k.openMax))
    ensures old(fs.Truthful(k)) ==> fs.Truthful(k)
  {
    ghost var t1, loop := k.table, LoopOnly(k, fs, it, max);
    ghost var tail, sure := TailReached(k, fs, minfd, max), ListingSure(k, fs) && it.DirIntact();
    var cursor, more := keep, true;
    while more
      invariant more ==> it.dirIter == old(it.dirIter) || it.dirIter == null
      invariant more ==>
                  && Looping(t0, log0, k, it, minfd, keep, it.curfd) && Cursor(cursor, keep, sorted, it.curfd)
                  && (it.curfd == minfd || it.curfd <= max + 1) && fs.mayClose == old(fs.mayClose)
      invariant more && sure ==> it.DirIntact()
      invariant !more ==> Finished(t0, log0, k, minfd, keep, Limit(k, tail || sure))
      invariant loop ==> OpenBeyond(t1, k.table, ClampedLimit(k.openMax))
      invariant old(fs.Truthful(k)) ==> fs.Truthful(k)
      decreases more, CINT_MAX - it.curfd
    {
      more, cursor := CloseTurn(k, fs, it, cursor, max, sorted, t0, log0, minfd, keep);
    }
  }

  /** Both ways of writing down the targets describe the same progress. */
  lemma ClosingSame(t0: Table, t: Table, minfd: int, keep: seq<int>, minfd1: int, keep1: seq<int>, upto: int, dir: int)
    requires Closing(t0, t, minfd1, keep1, upto, dir)
    requires SameTargets(minfd, keep, minfd1, keep1)
    ensures Closing(t0, t, minfd, keep, upto, dir)
  {
  }

  /** The conditions under which everything is sure to be closed, however large. */
  ghost predicate Sure(k: Kernel, fs: Features, minfd: int, max: int, sorted: bool, b: FdIterBuilder)
    reads k, fs
  {
    || ShortcutSure(k, fs, minfd, max, sorted)
    || (TailSure(k, fs) && max < Reach(k))
    || (Lists(k, b) && ListingSure(k, fs))
  }

  /** The conditions under which nothing but a loop up to the clamped limit is possible. */
  ghost predicate ByLoopOnly(k: Kernel, fs: Features, minfd: int, max: int, sorted: bool, b: FdIterBuilder)
    reads k, fs
  {
    NoShortcut(k, fs, minfd, max, sorted) && !MayTellMaxfd(k) && !CanList(k, b) && TailOutOfReach(k, fs, max)
  }

  /** Opening the directory undoes nothing: its number was free, so it is no protected one. */
  lemma ClosingOpened(t0: Table, t: Table, t1: Table, minfd: int, keep: seq<int>, dir: int)
    requires Closing(t0, t, minfd, keep, minfd, -1) && -1 !in t && dir !in t
    requires t1 == t || t1 == t[dir := FD_CLOEXEC]
    ensures Closing(t0, t1, minfd, keep, minfd, dir) && (dir in t0 ==> Target(minfd, keep, dir))
  {
  }

  /** The iterator half of `close_fds`, after the shortcut has failed somewhere. */
  method CloseByIteration(k: Kernel, fs: Features, minfd: CInt, keep: seq<CInt>, max: CInt, sorted: bool, b: FdIterBuilder,
                          ghost t0: Table, ghost log0: seq<set<int>>)
    requires Finished(t0, log0, k, minfd, keep, minfd) && 0 <= minfd && forall f :: f in t0 ==> 0 <= f
    requires (sorted ==> Sorted(keep)) && forall f :: f in keep ==> f <= max
    modifies k, fs`mayClose
    ensures Finished(t0, log0, k, minfd, keep,
                     Limit(k, old(TailReached(k, fs, minfd, max)) || old(Lists(k, b) && ListingSure(k, fs))))
    ensures !MayTellMaxfd(k) && !old(CanList(k, b)) && old(TailOutOfReach(k, fs, max)) ==>
              OpenBeyond(old(k.table), k.table, ClampedLimit(k.openMax))
    ensures old(fs.Truthful(k)) ==> fs.Truthful(k)
  {
    var itb := b.(possible := true);
    if k.platform.HasClosefrom() {
      itb := itb.(skipNfds := true);
    }
    ghost var t := k.table;
    var it := IterFrom(k, itb, minfd);
    ClosingOpened(t0, t, k.table, minfd, keep, it.DirFd());
    CloseLoop(k, fs, it, minfd, keep, max, sorted, t0, log0);
  }

  /** `close_fds` once the keep list is simplified. */
  method CloseSimplified(k: Kernel, fs: Features, minfd: CInt, keep: seq<CInt>, max: CInt, sorted: bool, b: FdIterBuilder)
    requires k.Valid() && fs.Safe(k) && 0 <= minfd && (sorted ==> Sorted(keep) && Keepable(keep))
    requires (forall f :: f in keep ==> f <= max) && (sorted && minfd <= max ==> keep != [])
    modifies k, fs
    ensures fs.Safe(k) && (old(fs.Truthful(k)) ==> fs.Truthful(k))
    ensures Finished(old(k.table), old(k.log), k, minfd, keep, Limit(k, old(Sure(k, fs, minfd, max, sorted, b))))
    ensures old(ByLoopOnly(k, fs, minfd, max, sorted, b)) ==> OpenBeyond(old(k.table), k.table, ClampedLimit(k.openMax))
    ensures fs.mayCloexec == old(fs.mayCloexec)
  {
    ghost var t0, log0 := k.table, k.log;
    var ok := CloseFdsShortcut(k, fs, minfd, keep, max, sorted);
    if !ok {
      assert old(k.HasRoom()) ==> k.HasRoom() by {
        if old(k.HasRoom()) {
          var f :| 0 <= f < CINT_MAX && f !in t0;
          assert f !in k.table;
        }
      }
      CloseByIteration(k, fs, minfd, keep, max, sorted, b, t0, log0);
    }
  }

  /**
   `close_fds`. Only targets are ever closed, the directory aside, and of the targets only those past the loop's
   reach may be left: none under `CloseSure`, and all of those past the clamped limit under `CloseByLoopOnly`.
   */
  method CloseFds(k: Kernel, fs: Features, minfd: CInt, kf: KeepFds, b: FdIterBuilder)
    requires k.Valid() && fs.Safe(k) && kf.Usable() && 0 <= minfd
    modifies k, fs
    ensures fs.Safe(k) && (old(fs.Truthful(k)) ==> fs.Truthful(k))
    ensures Finished(old(k.table), old(k.log), k, minfd, kf.fds, Limit(k, old(CloseSure(k, fs, minfd, kf, b))))
    ensures old(CloseByLoopOnly(k, fs, minfd, kf, b)) ==> OpenBeyond(old(k.table), k.table, ClampedLimit(k.openMax))
    ensures fs.mayCloexec == old(fs.mayCloexec)
  {
    ghost var t0, sure := k.table, CloseSure(k, fs, minfd, kf, b);
    var keep, raised := SimplifyKeep(kf, minfd);
    ProtectedSame(t0, minfd, kf.fds, raised, keep);
    CloseSimplified(k, fs, raised, keep, kf.max, kf.sorted, b);
    ClosingSame(t0, k.table, minfd, kf.fds, raised, keep, Limit(k, sure), -1);
  }

  ghost predicate CloseSure(k: Kernel, fs: Features, minfd: int, kf: KeepFds, b: FdIterBuilder)
    reads k, fs
  {
    Sure(k, fs, RaisedMin(kf.fds, kf.sorted, minfd), kf.max, kf.sorted, b)
  }

  ghost predicate CloseByLoopOnly(k: Kernel, fs: Features, minfd: int, kf: KeepFds, b: FdIterBuilder)
    reads k, fs
  {
    ByLoopOnly(k, fs, RaisedMin(kf.fds, kf.sorted, minfd), kf.max, kf.sorted, b)
  }

  // ---------------------------------------------------------------------------------------------
  // CloseFdsBuilder::closefrom

  /** Finished progress is the specification. */
  lemma ClosingDone(t0: Table, t: Table, minfd: int, keep: seq<int>)
    requires Closing(t0, t, minfd, keep, CINT_MAX + 1, -1) && -1 !in t && forall f :: f in t0 ==> f < CINT_MAX
    ensures t == Survivors(t0, minfd, keep)
  {
    var s := Survivors(t0, minfd, keep);
    assert forall f :: f in t ==> f in s && t[f] == s[f];
    assert forall f :: f in s ==> f in t;
    assert t.Keys == s.Keys;
  }

  /** Calls fail only where they are not supported, or for want of a free number. */
  ghost predicate Reliable(k: Kernel) {
    k.rangesReliable && IterationReliable(k)
  }

  /** No target is past the loop's reach. */
  ghost predicate TargetsCovered(t: Table, minfd: int, keep: seq<int>, limit: int) {
    forall f :: f in t && Target(minfd, keep, f) ==> f <= limit
  }

  /** No target is past the limit on open files, within its bounds. */
  ghost predicate NonePast(t: Table, minfd: int, keep: seq<int>, openMax: int) {
    forall f :: f in t && Target(minfd, keep, f) ==> !PastLimit(openMax, f)
  }

  /** Platform by platform, what makes closing complete on a reliable kernel, however large the descriptors. */
  ghost predicate ClosesAll(k: Kernel, fs: Features, minfd: int, kf: KeepFds, b: FdIterBuilder)
    reads k, fs
  {
    var start := RaisedMin(kf.fds, kf.sorted, if minfd < 0 then 0 else minfd);
    var bulk := kf.max < start || !PastLimit(k.openMax, kf.max + 1);
    var listed := b.dirfd && k.hasListing && k.HasRoom();
    match k.platform
    case Linux => listed || (fs.mayClose && k.hasCloseRange && (kf.sorted || bulk))
    case FreeBSD => listed || bulk || (kf.sorted && k.hasCloseRange && fs.present != 0)
    case NetBSD => listed || bulk || k.hasMaxfd
    case OpenBSD => bulk
    case DragonFly => bulk
    case MacOS => listed
    case Solaris => listed
    case Other => false
  }

  /** On a reliable kernel the means are clear beforehand: a sure one, an exact bound for the loop, or the clamped loop. */
  lemma CloseDecided(k: Kernel, fs: Features, minfd: CInt, kf: KeepFds, b: FdIterBuilder)
    requires Reliable(k)
    ensures ClosesAll(k, fs, minfd, kf, b) <==> Reach(k) == CINT_MAX || CloseSure(k, fs, Clamp0(minfd), kf, b)
    ensures !ClosesAll(k, fs, minfd, kf, b) ==> CloseByLoopOnly(k, fs, Clamp0(minfd), kf, b)
  {
  }

  /** Descriptors are not negative, so it makes no difference whether `minfd` is raised to 0 first. */
  lemma ClampedSame(t: Table, minfd: CInt, keep: seq<int>)
    requires forall f :: f in t ==> 0 <= f
    ensures Survivors(t, Clamp0(minfd), keep) == Survivors(t, minfd, keep)
    ensures Protected(t, Clamp0(minfd), keep) == Protected(t, minfd, keep)
    ensures forall f :: f in t ==> (Target(Clamp0(minfd), keep, f) <==> Target(minfd, keep, f))
  {
  }

  /**
   `closefrom`, for every kernel, flag history and point of failure, and every `minfd`, negative ones included.

   In every state on the way, no descriptor below `minfd` or kept has been closed. In the end those are all there, with
   their flags; the directory is gone; and what else is left is past the loop's reach. So exactly the survivors are
   left if no target is past the reach, or if one of the sure ways is open. If only the loop is possible, exactly the
   survivors are left if and only if no target is past the limit on open files, within its bounds. If no call fails
   without cause, exactly the survivors are left if and only if no target is past that limit or the platform has a way.
   */
  method CloseFrom(k: Kernel, fs: Features, minfd: CInt, kf: KeepFds, b: FdIterBuilder)
    requires k.Valid() && fs.Safe(k) && kf.Usable()
    modifies k, fs
    ensures k.Valid() && fs.Safe(k) && (old(fs.Truthful(k)) ==> fs.Truthful(k))
    ensures Sparing(old(k.log), k.log, Protected(old(k.table), minfd, kf.fds))
    ensures forall f :: f in k.table ==> f in old(k.table) && k.table[f] == old(k.table)[f]
    ensures forall f :: f in old(k.table) && (f < minfd || f in kf.fds) ==> f in k.table
    ensures forall f :: f in k.table && minfd <= f && f !in kf.fds ==> f > Reach(k) && PastLimit(k.openMax, f)
    ensures TargetsCovered(old(k.table), minfd, kf.fds, Reach(k)) || old(CloseSure(k, fs, Clamp0(minfd), kf, b)) ==>
              k.table == Survivors(old(k.table), minfd, kf.fds)
    ensures old(CloseByLoopOnly(k, fs, Clamp0(minfd), kf, b)) ==>
              && (forall f :: f in old(k.table) && PastLimit(k.openMax, f) ==> f in k.table)
              && (k.table == Survivors(old(k.table), minfd, kf.fds) <==> NonePast(old(k.table), minfd, kf.fds, k.openMax))
    ensures Reliable(k) ==>
              (k.table == Survivors(old(k.table), minfd, kf.fds)
               <==> NonePast(old(k.table), minfd, kf.fds, k.openMax) || old(ClosesAll(k, fs, minfd, kf, b)))
    ensures fs.mayCloexec == old(fs.mayCloexec)
  {
    ghost var t0 := k.table;
    var start := Clamp0(minfd);
    ClampedSame(t0, minfd, kf.fds);
    ghost var sure := TargetsCovered(t0, start, kf.fds, Reach(k)) || CloseSure(k, fs, start, kf, b);
    if Reliable(k) {
      CloseDecided(k, fs, minfd, kf, b);
    }
    CloseFds(k, fs, start, kf, b);
    if sure {
      ClosingDone(t0, k.table, start, kf.fds);
    }
  }
}
