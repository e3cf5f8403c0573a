/** Whole runs of the iterator: what a client sees that closes descriptors while iterating. */
module Iteration {
  import opened Base
  import opened Kernels
  import opened DirFdIters
  import opened FdIters

  /** `items` is the ascending list of the descriptors of `t` from `lo` on. */
  ghost predicate IsListing(items: seq<int>, t: Table, lo: int) {
    Ascending(items) && forall f :: f in items <==> f in t && lo <= f
  }

  /** No descriptor of `t` from `lo` on is past what the fallback loop is sure to reach. */
  ghost predicate CoveredFrom(k: Kernel, t: Table, lo: int) {
    forall f :: f in t && lo <= f ==> f <= Reach(k)
  }

  ghost function Elements(s: seq<int>): set<int> {
    set f | f in s
  }

  /** What a client has closed after `n` items, if after the i-th item it closes `schedule[i]`. */
  ghost function ClosedBy(schedule: seq<seq<CInt>>, n: nat): set<int> {
    if n == 0 then {}
    else ClosedBy(schedule, n - 1) + Elements(Nth(schedule, n - 1))
  }

  method CloseEach(k: Kernel, fds: seq<CInt>)
    requires k.Valid()
    modifies k
    ensures k.Valid()
    ensures k.table == map f | f in old(k.table) && f !in fds :: old(k.table)[f]
    ensures k.cursors == map d | d in old(k.cursors) && d !in fds :: old(k.cursors)[d]
  {
    for i := 0 to |fds|
      invariant k.Valid()
      invariant k.table == map f | f in old(k.table) && f !in fds[..i] :: old(k.table)[f]
      invariant k.cursors == map d | d in old(k.cursors) && d !in fds[..i] :: old(k.cursors)[d]
    {
      assert fds[..i + 1] == fds[..i] + [fds[i]];
      k.Close(fds[i]);
    }
    assert fds[..|fds|] == fds;
  }

  /** What the client closes does not disturb the iterator, nor the directory unless it is among that. */
  method CloseBeside(it: FdIter, fds: seq<CInt>)
    requires it.Valid()
    modifies it.k
    ensures it.Valid()
    ensures forall f :: f in it.k.table ==> f in old(it.k.table) && f !in fds
    ensures forall f :: f in old(it.k.table) ==> f in it.k.table || f in fds
    ensures old(it.DirIntact()) && it.DirFd() !in fds ==> it.DirIntact()
  {
    CloseEach(it.k, fds);
    assert forall f :: f in it.k.table.Keys ==> f in old(it.k.table.Keys);
  }

  /** One turn of a client loop: the next item, after which the client closes `fds`. */
  method Turn(it: FdIter, fds: seq<CInt>) returns (r: Option<CInt>)
    requires it.Valid()
    modifies it, it.dirIter, it.k
    ensures it.Valid() && (it.dirIter == old(it.dirIter) || it.dirIter == null)
    ensures it.given == old(it.given) + [r]
    ensures it.DirFd() == old(it.DirFd()) || it.DirFd() == -1
    ensures old(it.curfd) <= it.curfd
    ensures it.DirFd() == old(it.DirFd()) || old(it.DirFd()) !in it.k.table
    ensures forall f :: f in it.k.table ==> f in old(it.k.table) && (r.Some? ==> f !in fds)
    ensures forall f :: f in old(it.k.table) && f != old(it.DirFd()) ==> f in it.k.table || (r.Some? && f in fds)
    ensures r.Some? ==> old(it.curfd) <= r.value < CINT_MAX && it.curfd == r.value + 1
    ensures r.Some? && (!it.possible || (it.k.listingReliable && old(it.DirIntact()))) ==> r.value in it.origin
    ensures r.Some? && it.dirIter == null ==> it.maxfd.Some? && r.value <= it.maxfd.value
    ensures r.Some? && it.possible && old(it.dirIter) == null ==> r.value == old(it.curfd)
    ensures r.None? ==> it.Exhausted()
    ensures forall f :: f in old(it.k.table) && old(it.curfd) <= f && f != old(it.DirFd()) ==>
                          if r.Some? then r.value <= f else it.dirIter == null && f > Reach(it.k)
    ensures it.k.listingReliable && old(it.DirIntact()) && (r.Some? ==> old(it.DirFd()) !in fds) ==> it.DirIntact()
    ensures r.None? && it.possible && it.dirIter == null ==> old(it.curfd) > it.maxfd.value
    ensures old(it.maxfd).Some? ==> it.maxfd == old(it.maxfd)
    ensures old(it.Exhausted()) ==> r.None?
    ensures old(it.Buffered()) > 0 ==> r.Some? && it.Buffered() == old(it.Buffered()) - 1
  {
    r := it.Next();
    ghost var t := it.k.table;
    assert forall f :: f in old(it.k.table) && f != old(it.DirFd()) ==> f in t;
    if r.Some? {
      CloseBeside(it, fds);
    }
  }

  function Nth(schedule: seq<seq<CInt>>, n: nat): seq<CInt> {
    if n < |schedule| then schedule[n] else []
  }

  /**
   `items` ascend inside [start, upto), and every descriptor of `open` in there but the directory has been an
   item or is gone.
   */
  ghost predicate Swept(open: set<int>, start: int, upto: int, dir: int, items: seq<int>, gone: set<int>) {
    && Ascending(items)
    && (forall f :: f in items ==> start <= f < upto)
    && (forall f :: f in open && start <= f < upto && f != dir ==> f in items || f in gone)
  }

  lemma SweepStep(open: set<int>, start: int, upto: int, dir: int, items: seq<int>, gone: set<int>, fd: int, more: set<int>)
    requires Swept(open, start, upto, dir, items, gone) && start <= upto <= fd
    requires forall f :: f in open && upto <= f && f != dir ==> fd <= f || f in gone
    ensures Swept(open, start, fd + 1, dir, items + [fd], gone + more)
  {
    forall i | 0 <= i < |items| ensures items[i] < fd {
      assert items[i] in items;
    }
    assert forall f :: f in items + [fd] <==> f in items || f == fd;
  }

  /** What is open is what was open and is not gone, the directory perhaps aside. */
  ghost predicate Remaining(open: set<int>, t: Table, dir: int, gone: set<int>) {
    && (forall f :: f in t ==> f in open && f !in gone)
    && (forall f :: f in open && f != dir ==> f in t || f in gone)
  }

  lemma RemainingStep(open: set<int>, t: Table, t1: Table, dir: int, gone: set<int>, fds: seq<int>)
    requires Remaining(open, t, dir, gone)
    requires forall f :: f in t1 ==> f in t && f !in fds
    requires forall f :: f in t && f != dir ==> f in t1 || f in fds
    ensures Remaining(open, t1, dir, gone + Elements(fds))
  {
  }

  /** The client closes, after each item, nothing but descriptors it has been given. */
  ghost predicate ClosesOnlyItems(schedule: seq<seq<CInt>>, items: seq<int>) {
    forall i :: 0 <= i < |items| ==> forall f :: f in Nth(schedule, i) ==> f in items[..i + 1]
  }

  /** If the client has closed only items, then not the directory, since the items were open before that was. */
  ghost predicate DirSpared(schedule: seq<seq<CInt>>, items: seq<int>, gone: set<int>, dir: int, origin: set<int>) {
    ClosesOnlyItems(schedule, items) ==> dir !in gone && forall f :: f in items ==> 0 <= f && f in origin
  }

  lemma DirSparedStep(schedule: seq<seq<CInt>>, items: seq<int>, gone: set<int>, dir: int, origin: set<int>, fd: int)
    requires DirSpared(schedule, items, gone, dir, origin) && (dir < 0 || dir !in origin)
    requires 0 <= fd && (dir !in gone ==> fd in origin)
    ensures DirSpared(schedule, items + [fd], gone + Elements(Nth(schedule, |items|)), dir, origin)
  {
    var next := items + [fd];
    if ClosesOnlyItems(schedule, next) {
      forall i | 0 <= i < |items| ensures forall f :: f in Nth(schedule, i) ==> f in items[..i + 1] {
        assert next[..i + 1] == items[..i + 1];
      }
      assert next[..|items| + 1] == next;
    }
  }

  /** The directory is in use, and reading it to its end cannot fail unless it is closed. */
  ghost predicate DirSure(it: FdIter)
    reads it, it.dirIter, it.k
  {
    it.k.listingReliable && it.DirIntact()
  }

  /** The state of an iterator in which a run of it begins. */
  datatype Start = Start(open: set<int>, curfd: int, dir: int, sure: bool, loop: bool, inDir: bool,
                         buffered: nat, bound: Option<CInt>, done: bool)

  ghost function StartOf(it: FdIter): Start
    reads it, it.dirIter, it.k
  {
    Start(it.k.table.Keys, it.curfd, it.DirFd(), DirSure(it), it.dirIter == null && !MayTellMaxfd(it.k), it.dirIter != null,
          it.Buffered(), it.maxfd, it.Exhausted())
  }

  /** What is known of a run when `items` have been given, all from below `upto`, and `gone` has been closed. */
  ghost predicate Sweeping(it: FdIter, s: Start, upto: int, items: seq<int>, gone: set<int>, schedule: seq<seq<CInt>>)
    reads it, it.dirIter, it.k
  {
    && it.Valid() && 0 <= s.curfd <= upto <= it.curfd && (s.dir < 0 || s.dir !in it.origin)
    && (it.DirFd() == s.dir || (it.DirFd() == -1 && s.dir !in it.k.table))
    && Swept(s.open, s.curfd, upto, s.dir, items, gone) && Remaining(s.open, it.k.table, s.dir, gone)
    && (!it.possible ==> forall f :: f in items ==> f in it.origin)
    && (s.loop ==> it.dirIter == null && !MayTellMaxfd(it.k) && forall f :: f in items ==> f <= ClampedLimit(it.k.openMax))
    && (s.sure ==> it.k.listingReliable && DirSpared(schedule, items, gone, s.dir, it.origin))
    && (s.sure && s.dir !in gone ==> it.DirIntact())
  }

  /** How many items have come, held against what the iterator had in store: buffered ones, or a known bound. */
  ghost predicate Counted(it: FdIter, s: Start, upto: int, items: seq<int>)
    reads it, it.dirIter
  {
    && s.buffered <= |items| + it.Buffered()
    && (s.done ==> items == [] && it.Exhausted())
    && (!s.inDir ==>
          && it.dirIter == null
          && (s.bound.Some? ==> it.maxfd == s.bound)
          && (items != [] ==> it.maxfd.Some? && upto <= it.maxfd.value + 1)
          && (it.possible ==> upto == s.curfd + |items| && items == Consecutive(s.curfd, |items|)))
  }

  /** What is known when a run is over. */
  ghost predicate Ended(it: FdIter, s: Start, upto: int, items: seq<int>, gone: set<int>, schedule: seq<seq<CInt>>)
    reads it, it.dirIter, it.k
  {
    && Sweeping(it, s, upto, items, gone, schedule) && Counted(it, s, upto, items) && it.Exhausted()
    && s.buffered <= |items| && (!s.inDir && it.possible ==> upto > it.maxfd.value)
    && (forall f :: f in s.open && s.curfd <= f && f != s.dir ==>
                      f in items || f in gone || (it.dirIter == null && f > Reach(it.k)))
  }

  /** What `next` returns in the calls that give these items. */
  ghost function Answers(items: seq<int>): (r: seq<Option<int>>)
    ensures |r| == |items| && forall i :: 0 <= i < |items| ==> r[i] == Some(items[i])
  {
    seq(|items|, i requires 0 <= i < |items| => Some(items[i]))
  }

  /** Since `given0`, exactly `items` have been given. */
  ghost predicate Gave(given0: seq<Option<int>>, given: seq<Option<int>>, items: seq<int>) {
    given == given0 + Answers(items)
  }

  lemma GaveStep(given0: seq<Option<int>>, given: seq<Option<int>>, given1: seq<Option<int>>, items: seq<int>, fd: int)
    requires Gave(given0, given, items) && given1 == given + [Some(fd)]
    ensures Gave(given0, given1, items + [fd])
  {
    assert Answers(items + [fd]) == Answers(items) + [Some(fd)];
  }

  /** The numbers from `start` on, `n` of them. */
  ghost function Consecutive(start: int, n: nat): seq<int> {
    seq(n, i => start + i)
  }

  /** One turn of a run. */
  method SweepTurn(it: FdIter, fds: seq<CInt>, ghost s: Start, ghost items: seq<int>, ghost gone: set<int>,
                   ghost schedule: seq<seq<CInt>>)
    returns (r: Option<CInt>)
    requires Sweeping(it, s, it.curfd, items, gone, schedule) && Counted(it, s, it.curfd, items)
    requires fds == Nth(schedule, |items|)
    modifies it, it.dirIter, it.k
    ensures it.dirIter == old(it.dirIter) || it.dirIter == null
    ensures it.given == old(it.given) + [r]
    ensures r.Some? ==>
              && old(it.curfd) < it.curfd
              && Sweeping(it, s, it.curfd, items + [r.value], gone + Elements(fds), schedule)
              && Counted(it, s, it.curfd, items + [r.value])
    ensures r.None? ==> Ended(it, s, old(it.curfd), items, gone, schedule)
  {
    assert -1 !in it.k.table;
    ghost var t, upto := it.k.table, it.curfd;
    r := Turn(it, fds);
    if r.Some? {
      SweepStep(s.open, s.curfd, upto, s.dir, items, gone, r.value, Elements(fds));
      RemainingStep(s.open, t, it.k.table, s.dir, gone, fds);
      if s.sure {
        DirSparedStep(schedule, items, gone, s.dir, it.origin, r.value);
      }
    }
  }

  /** All turns of a run. */
  method SweepLoop(it: FdIter, schedule: seq<seq<CInt>>) returns (items: seq<int>, ghost upto: int)
    requires it.Valid()
    modifies it, it.dirIter, it.k
    ensures Ended(it, old(StartOf(it)), upto, items, ClosedBy(schedule, |items|), schedule)
    ensures it.given == old(it.given) + Answers(items) + [None]
  {
    items, upto := [], it.curfd;
    ghost var s, gone, given0 := StartOf(it), {}, it.given;
    while true
      invariant it.dirIter == old(it.dirIter) || it.dirIter == null
      invariant Sweeping(it, s, it.curfd, items, gone, schedule) && Counted(it, s, it.curfd, items)
      invariant gone == ClosedBy(schedule, |items|) && Gave(given0, it.given, items)
      decreases CINT_MAX - it.curfd
    {
      var fds := Nth(schedule, |items|);
      ghost var given := it.given;
      upto := it.curfd;
      var r := SweepTurn(it, fds, s, items, gone, schedule);
      if r.None? {
        break;
      }
      GaveStep(given0, given, it.given, items, r.value);
      items, gone := items + [r.value], gone + Elements(fds);
    }
  }

  /**
   Runs any iterator to its end while the client closes what it likes, even descriptors not reached yet or the
   directory. Items ascend, and a descriptor that was open from the cursor on is missed only if the client closed
   it or it is past what the loop can reach; never for the latter reason if the directory is sure to be read and
   the client leaves it alone, as it does if it only closes what it was given.
   */
  method Sweep(it: FdIter, schedule: seq<seq<CInt>>) returns (items: seq<int>)
    requires it.Valid()
    modifies it, it.dirIter, it.k
    ensures it.given == old(it.given) + Answers(items) + [None]
    ensures it.Valid() && it.Exhausted()
    ensures it.DirFd() == old(it.DirFd()) || (it.DirFd() == -1 && old(it.DirFd()) !in it.k.table)
    ensures Ascending(items) && forall f :: f in items ==> old(it.curfd) <= f < CINT_MAX
    ensures !it.possible ==> forall f :: f in items ==> f in it.origin
    ensures old(it.dirIter) == null && !MayTellMaxfd(it.k) ==> forall f :: f in items ==> f <= ClampedLimit(it.k.openMax)
    ensures forall f :: f in old(it.k.table) && old(it.curfd) <= f && f != old(it.DirFd()) ==>
                          f in items || f in ClosedBy(schedule, |items|)
                          || f >= Limit(it.k, old(DirSure(it)) && old(it.DirFd()) !in ClosedBy(schedule, |items|))
    ensures old(DirSure(it)) && ClosesOnlyItems(schedule, items) ==> old(it.DirFd()) !in ClosedBy(schedule, |items|)
    ensures forall f :: f in it.k.table ==> f in old(it.k.table) && f !in ClosedBy(schedule, |items|)
    ensures forall f :: f in old(it.k.table) && f != old(it.DirFd()) ==>
                          f in it.k.table || f in ClosedBy(schedule, |items|)
    ensures old(it.Buffered()) <= |items| && (old(it.Exhausted()) ==> items == [])
    ensures old(it.dirIter) == null ==> it.maxfd.Some? && (old(it.maxfd).Some? ==> it.maxfd == old(it.maxfd))
    ensures old(it.dirIter) == null ==> forall f :: f in items ==> f <= it.maxfd.value
    ensures old(it.dirIter) == null && it.possible ==>
              items == Consecutive(old(it.curfd), if old(it.curfd) <= it.maxfd.value then it.maxfd.value + 1 - old(it.curfd) else 0)
  {
    ghost var upto;
    items, upto := SweepLoop(it, schedule);
  }

  /** The same, after which the iterator is dropped: the directory is closed, and beside it what the client closed. */
  method Drain(it: FdIter, schedule: seq<seq<CInt>>) returns (items: seq<int>)
    requires it.Valid()
    modifies it, it.dirIter, it.k
    ensures it.k.Valid() && it.Exhausted() && it.given == old(it.given) + Answers(items) + [None]
    ensures Ascending(items) && forall f :: f in items ==> old(it.curfd) <= f < CINT_MAX
    ensures !it.possible ==> forall f :: f in items ==> f in it.origin
    ensures old(it.dirIter) == null && !MayTellMaxfd(it.k) ==> forall f :: f in items ==> f <= ClampedLimit(it.k.openMax)
    ensures forall f :: f in old(it.k.table) && old(it.curfd) <= f && f != old(it.DirFd()) ==>
                          f in items || f in ClosedBy(schedule, |items|)
                          || f >= Limit(it.k, old(DirSure(it)) && old(it.DirFd()) !in ClosedBy(schedule, |items|))
    ensures old(DirSure(it)) && ClosesOnlyItems(schedule, items) ==> old(it.DirFd()) !in ClosedBy(schedule, |items|)
    ensures forall f :: f in it.k.table <==> f in old(it.k.table) && f != old(it.DirFd()) && f !in ClosedBy(schedule, |items|)
  {
    items := Sweep(it, schedule);
    ghost var t := it.k.table;
    it.Drop();
    assert forall f :: f in it.k.table <==> f in t && f != it.DirFd();
    assert forall f :: f in old(it.k.table) && f != old(it.DirFd()) && f !in ClosedBy(schedule, |items|) ==> f in t;
  }

  lemma {:induction false} ClosedItems(schedule: seq<seq<CInt>>, items: seq<int>, n: nat)
    requires n <= |items| && ClosesOnlyItems(schedule, items)
    ensures forall f :: f in ClosedBy(schedule, n) ==> f in items
  {
    if n > 0 {
      ClosedItems(schedule, items, n - 1);
      forall f | f in Nth(schedule, n - 1) ensures f in items {
        assert f in items[..n];
      }
    }
  }

  /**
   Iterating while closing. Each descriptor open at the start, from `minfd` on and within reach of the loop, is
   yielded exactly once and in ascending order unless the client closes it first, in particular if the client only
   closes what it was given: across refills, across a directory error that switches to the loop, and even if the
   client closes the directory itself. There is no limit to the reach if the directory is sure to be listed and the
   client closes nothing but what it was given, or nothing but what was open at the start.
   */
  method IterateWhileClosing(k: Kernel, b: FdIterBuilder, minfd: CInt, schedule: seq<seq<CInt>>) returns (items: seq<int>)
    requires k.Valid()
    modifies k
    ensures k.Valid()
    ensures Ascending(items) && forall f :: f in items ==> 0 <= f && minfd <= f
    ensures !b.possible ==> forall f :: f in items ==> f in old(k.table)
    ensures !old(CanList(k, b)) && !MayTellMaxfd(k) ==> forall f :: f in items ==> f <= ClampedLimit(k.openMax)
    ensures forall f :: f in old(k.table) && minfd <= f ==>
                          f in items || f in ClosedBy(schedule, |items|)
                          || f >= Limit(k, old(Lists(k, b)) && ClosedBy(schedule, |items|) <= old(k.table.Keys))
    ensures ClosesOnlyItems(schedule, items) ==>
              forall f :: f in old(k.table) && minfd <= f ==> f in items || f >= Limit(k, old(Lists(k, b)))
    ensures forall f :: f in k.table <==> f in old(k.table) && f !in ClosedBy(schedule, |items|)
  {
    var it := IterFrom(k, b, minfd);
    ghost var dir := it.DirFd();
    assert forall f :: f in old(k.table) ==> f in k.table && f != dir;
    items := Drain(it, schedule);
    if ClosesOnlyItems(schedule, items) {
      ClosedItems(schedule, items, |items|);
    }
  }

  /**
   With a table nobody changes, directory and loop give the same list: all open descriptors from `minfd` on, if the
   directory is sure or none of them is past the loop's reach; and only then, if nothing fails without cause.
   */
  method Collect(k: Kernel, b: FdIterBuilder, minfd: CInt) returns (items: seq<int>)
    requires k.Valid() && !b.possible
    modifies k
    ensures k.Valid() && k.table.Keys == old(k.table.Keys)
    ensures Ascending(items) && forall f :: f in items ==> f in old(k.table) && minfd <= f
    ensures forall f :: f in old(k.table) && minfd <= f < Limit(k, old(Lists(k, b))) ==> f in items
    ensures old(Lists(k, b)) || CoveredFrom(k, old(k.table), minfd) ==> IsListing(items, old(k.table), minfd)
    ensures IterationReliable(k) ==>
              (IsListing(items, old(k.table), minfd) <==> old(Lists(k, b)) || CoveredFrom(k, old(k.table), minfd))
  {
    items := IterateWhileClosing(k, b, minfd, []);
    NothingClosed(|items|);
    assert forall f :: f in k.table.Keys <==> f in old(k.table.Keys);
  }

  lemma {:induction false} NothingClosed(n: nat)
    ensures ClosedBy([], n) == {}
  {
    if n > 0 {
      NothingClosed(n - 1);
    }
  }

  /** There is only one such list, so the answer does not depend on how it was found. */
  lemma ListingUnique(a: seq<int>, b: seq<int>, t: Table, lo: int)
    requires IsListing(a, t, lo) && IsListing(b, t, lo)
    ensures a == b
  {
    AscendingUnique(a, b);
  }

  /** Once the directory is closed, by the iterator or with it, the table is as before. */
  lemma DirGone(t: Table, t1: Table, t2: Table, t3: Table, dir: int, dir2: int)
    requires dir !in t && -1 !in t && (t1 == t || t1 == t[dir := FD_CLOEXEC])
    requires (dir2 == dir && t2 == t1) || (dir2 == -1 && t2 == t1 - {dir})
    requires t3 == t2 - {dir2}
    ensures t3 == t && forall f :: f in t ==> f in t2 && f != dir
  {
  }

  /** `min`: the first item. */
  method MinOpen(k: Kernel, b: FdIterBuilder, minfd: CInt) returns (r: Option<CInt>)
    requires k.Valid() && !b.possible
    modifies k
    ensures k.Valid() && k.table == old(k.table)
    ensures r.Some? ==> r.value in k.table && minfd <= r.value
    ensures forall f :: f in k.table && minfd <= f ==> if r.Some? then r.value <= f else f >= Limit(k, old(Lists(k, b)))
  {
    ghost var t := k.table;
    var it := IterFrom(k, b, minfd);
    ghost var t1, dir := k.table, it.DirFd();
    ghost var limit, start := Limit(k, it.DirIntact() && k.listingReliable), it.curfd;
    r := it.Next();
    ghost var t2 := k.table;
    assert forall f :: f in t2 && start <= f && f != dir ==> if r.Some? then r.value <= f else f >= limit;
    it.Drop();
    DirGone(t, t1, t2, k.table, dir, it.DirFd());
  }

  /** `max`: the last item. */
  method MaxOpenFrom(k: Kernel, b: FdIterBuilder, minfd: CInt) returns (r: Option<int>)
    requires k.Valid() && !b.possible
    modifies k
    ensures k.Valid() && k.table.Keys == old(k.table.Keys)
    ensures r.Some? ==> r.value in k.table && minfd <= r.value
    ensures forall f :: f in k.table && minfd <= f < Limit(k, old(Lists(k, b))) ==> r.Some? && f <= r.value
  {
    var items := Collect(k, b, minfd);
    if items == [] {
      return None;
    }
    assert items[|items| - 1] in items;
    return Some(items[|items| - 1]);
  }

  lemma {:induction false} AscendingLength(s: seq<int>, lo: int, hi: int)
    requires Ascending(s) && lo <= hi && forall f :: f in s ==> lo <= f < hi
    ensures |s| <= hi - lo
  {
    if s != [] {
      var front, last := s[..|s| - 1], s[|s| - 1];
      assert last in s;
      forall f | f in front ensures lo <= f < last {
        assert f in s;
      }
      AscendingLength(front, lo, last);
    }
  }

  /**
   The size hint of any iterator, held against the items that then come while the client closes what it likes. In
   "possible" mode they are simply the numbers up to the bound, and the hint is their number once the bound is known.
   */
  method HintHolds(it: FdIter, schedule: seq<seq<CInt>>) returns (low: nat, high: nat, items: seq<int>)
    requires it.Valid()
    modifies it, it.dirIter, it.k
    ensures old(it.IsHint(low, high)) && low <= |items| <= high
    ensures it.given == old(it.given) + Answers(items) + [None]
    ensures it.Exhausted() && Ascending(items) && forall f :: f in items ==> old(it.curfd) <= f < CINT_MAX
    ensures !it.possible ==> forall f :: f in items ==> f in it.origin
    ensures forall f :: f in old(it.k.table) && old(it.curfd) <= f && f != old(it.DirFd()) ==>
                          f in items || f in ClosedBy(schedule, |items|)
                          || f >= Limit(it.k, old(DirSure(it)) && old(it.DirFd()) !in ClosedBy(schedule, |items|))
    ensures old(it.dirIter) == null ==> it.maxfd.Some? && forall f :: f in items ==> f <= it.maxfd.value
    ensures old(it.dirIter) == null && it.possible ==>
              items == Consecutive(old(it.curfd), if old(it.curfd) <= it.maxfd.value then it.maxfd.value + 1 - old(it.curfd) else 0)
    ensures old(it.dirIter) == null && old(it.maxfd).Some? ==> it.maxfd == old(it.maxfd) && (it.possible ==> low == |items| == high)
  {
    low, high := it.SizeHint();
    ghost var start := it.curfd;
    items := Sweep(it, schedule);
    AscendingLength(items, start, CINT_MAX);
    if old(it.dirIter) == null && start <= it.maxfd.value {
      AscendingLength(items, start, it.maxfd.value + 1);
    }
    assert items != [] ==> items[0] in items;
  }

  /** Fusedness: after its end an iterator yields nothing, however the descriptor table changes between the calls. */
  method PollAfterEnd(it: FdIter, changes: seq<Table>) returns (answers: seq<Option<CInt>>)
    requires it.k.Valid() && it.Exhausted()
    requires forall i, f :: 0 <= i < |changes| && f in changes[i] ==> 0 <= f < CINT_MAX
    modifies it, it.dirIter, it.k
    ensures it.Exhausted() && it.given == old(it.given) + answers
    ensures |answers| == |changes| && forall i :: 0 <= i < |answers| ==> answers[i] == None
  {
    answers := [];
    for i := 0 to |changes|
      invariant it.k.Valid() && it.Exhausted() && it.dirIter == old(it.dirIter)
      invariant it.given == old(it.given) + answers
      invariant |answers| == i && forall j :: 0 <= j < i ==> answers[j] == None
    {
      it.k.Disturb(changes[i]);
      var r := it.Next();
      answers := answers + [r];
    }
  }
}
