/**
 The process's descriptor table and the system calls the crate makes on it.

 Each method's contract is loose on purpose: it admits every outcome the crate has to survive, so what is
 proved about the callers holds for every kernel that meets the contracts. Single-threaded use is built in:
 the table changes only through these calls.
 */
module Kernels {
  import opened Base
  import opened Decimal
  import opened Dirents

  const FD_CLOEXEC: bv32 := 1
  /** `size_of::<libc::dirent64>()`, the size of the buffer handed to `getdents`. */
  const DIRENT_BUFFER: nat := 280
  /** The directory position before the entries "." and "..", which precede descriptor 0. */
  const LISTING_START: int := -2

  /** Open descriptors with their descriptor flags. */
  type Table = map<int, bv32>

  datatype Errno = EINVAL | ENOSYS | EOTHER
  datatype SysResult = Done | Failed(errno: Errno)
  datatype DirRead = DirFailed | Entries(recs: seq<Dirent>)

  /** Sets FD_CLOEXEC, bit 0 of the descriptor flags. */
  function Marked(flags: bv32): bv32 {
    flags | 1
  }

  predicate IsMarked(flags: bv32) {
    flags & 1 == 1
  }

  lemma AlreadyMarked(flags: bv32)
    ensures IsMarked(flags) <==> Marked(flags) == flags
  {
  }

  /** Marking changes no other flag bit. */
  lemma MarkedKeepsOtherBits(flags: bv32)
    ensures Marked(flags) & 0xffff_fffe == flags & 0xffff_fffe
  {
  }

  /** `t1` differs from `t0` only by some descriptors of the range having been closed. */
  ghost predicate ClosedWithin(t0: Table, t1: Table, lo: int, hi: int) {
    && (forall f :: f in t1 ==> f in t0 && t1[f] == t0[f])
    && (forall f :: f in t0 && !(lo <= f <= hi) ==> f in t1)
  }

  /** `t1` differs from `t0` only by some descriptors of the range having been marked close-on-exec. */
  ghost predicate MarkedWithin(t0: Table, t1: Table, lo: int, hi: int) {
    && t1.Keys == t0.Keys
    && (forall f :: f in t1 ==> t1[f] == t0[f] || (lo <= f <= hi && t1[f] == Marked(t0[f])))
  }

  /** One successful `getdents` call: the records name exactly the open descriptors in [from, to), ascending. */
  ghost predicate Batch(recs: seq<Dirent>, open: set<int>, from: int, to: int) {
    && from < to <= CINT_MAX
    && recs != [] && Tiled(recs) && Bytes(recs) <= DIRENT_BUFFER
    && Ascending(Listed(recs))
    && (forall f :: f in Listed(recs) <==> f in open && from <= f < to)
  }

  /** Every effect logged after `log0` stays inside `s`. */
  ghost predicate Within(log0: seq<set<int>>, log1: seq<set<int>>, s: set<int>) {
    log0 <= log1 && forall i :: |log0| <= i < |log1| ==> log1[i] <= s
  }

  /** No effect logged after `log0` touches `s`. */
  ghost predicate Sparing(log0: seq<set<int>>, log1: seq<set<int>>, s: set<int>) {
    log0 <= log1 && forall i :: |log0| <= i < |log1| ==> log1[i] !! s
  }

  class Kernel {
    const platform: Platform
    /** `sysconf(_SC_OPEN_MAX)`. */
    const openMax: int
    /** Whether the `close_range` call exists, and whether it knows the close-on-exec flag. */
    const hasCloseRange: bool
    const hasCloexecRange: bool
    /** Supported range calls on valid ranges never fail, nor does the FreeBSD version query. */
    const rangesReliable: bool
    /** Whether there is a descriptor directory to open, and whether opening and reading it never fail without cause. */
    const hasListing: bool
    const listingReliable: bool
    /** Whether `fcntl(F_MAXFD)` exists (NetBSD), and never fails without cause. */
    const hasMaxfd: bool
    const maxfdReliable: bool
    /** Counting the open descriptors works (FreeBSD, OpenBSD). */
    const countReliable: bool

    var table: Table
    /** Directory streams among the open descriptors, with their positions. */
    var cursors: map<int, int>
    /** For every call so far: at least the descriptors it closed, or whose flags it changed. */
    ghost var log: seq<set<int>>
    /** The ranges of all `close_range` calls so far. */
    ghost var rangeCalls: seq<(int, int)>
    /** What the last of them returned. */
    ghost var answer: SysResult

    ghost predicate Valid()
      reads this
    {
      && (forall f :: f in table ==> 0 <= f < CINT_MAX)
      && cursors.Keys <= table.Keys
      && (forall d :: d in cursors ==> LISTING_START <= cursors[d] <= CINT_MAX)
    }

    /** Some descriptor number is free. */
    ghost predicate HasRoom()
      reads this
    {
      exists f :: 0 <= f < CINT_MAX && f !in table
    }

    constructor (platform: Platform, openMax: int, hasCloseRange: bool, hasCloexecRange: bool, rangesReliable: bool,
                 hasListing: bool, listingReliable: bool, hasMaxfd: bool, maxfdReliable: bool, countReliable: bool,
                 table: Table)
      requires forall f :: f in table ==> 0 <= f < CINT_MAX
      ensures Valid()
      ensures this.platform == platform && this.openMax == openMax
      ensures this.hasCloseRange == hasCloseRange && this.hasCloexecRange == hasCloexecRange
      ensures this.rangesReliable == rangesReliable
      ensures this.hasListing == hasListing && this.listingReliable == listingReliable
      ensures this.hasMaxfd == hasMaxfd && this.maxfdReliable == maxfdReliable && this.countReliable == countReliable
      ensures this.table == table && cursors == map[] && log == [] && rangeCalls == []
    {
      this.platform, this.openMax := platform, openMax;
      this.hasCloseRange, this.hasCloexecRange := hasCloseRange, hasCloexecRange;
      this.rangesReliable := rangesReliable;
      this.hasListing, this.listingReliable := hasListing, listingReliable;
      this.hasMaxfd, this.maxfdReliable, this.countReliable := hasMaxfd, maxfdReliable, countReliable;
      this.table, this.cursors, this.log, this.rangeCalls := table, map[], [], [];
    }

    /** `close(fd)`: an error, and nothing else, when `fd` is not open. */
    method Close(fd: CInt)
      requires Valid()
      modifies this
      ensures Valid()
      ensures table == old(table) - {fd} && cursors == old(cursors) - {fd}
      ensures log == old(log) + [{fd} * old(table.Keys)] && rangeCalls == old(rangeCalls) && answer == old(answer)
    {
      log := log + [{fd} * table.Keys];
      table, cursors := table - {fd}, cursors - {fd};
    }

    /** Code outside the crate opens and closes descriptors as it likes. */
    method Disturb(t: Table)
      requires Valid() && forall f :: f in t ==> 0 <= f < CINT_MAX
      modifies this
      ensures Valid() && table == t && log == old(log) + [old(table.Keys) + t.Keys]
      ensures rangeCalls == old(rangeCalls) && answer == old(answer)
    {
      log := log + [table.Keys + t.Keys];
      table, cursors := t, map[];
    }

    /** `closefrom(lo)`, where there is one. */
    method Closefrom(lo: CInt)
      requires Valid() && (platform.FreeBSD? || platform.NetBSD? || platform.OpenBSD? || platform.DragonFly?)
      modifies this
      ensures Valid()
      ensures table == map f | f in old(table) && f < lo :: old(table)[f]
      ensures cursors == map f | f in old(cursors) && f < lo :: old(cursors)[f]
      ensures log == old(log) + [set f | f in old(table) && lo <= f] && rangeCalls == old(rangeCalls) && answer == old(answer)
    {
      log := log + [set f | f in table && lo <= f];
      table := map f | f in table && f < lo :: table[f];
      cursors := map f | f in cursors && f < lo :: cursors[f];
    }

    /** Opens the descriptor directory, close-on-exec, on any free number; or fails. */
    method OpenListing() returns (r: Option<CInt>)
      requires Valid()
      modifies this
      ensures Valid() && log == old(log) && rangeCalls == old(rangeCalls) && answer == old(answer)
      ensures r.None? ==> table == old(table) && cursors == old(cursors)
      ensures r.Some? ==>
                && 0 <= r.value < CINT_MAX && r.value !in old(table)
                && table == old(table)[r.value := FD_CLOEXEC]
                && cursors == old(cursors)[r.value := LISTING_START]
      ensures !hasListing ==> r.None?
      ensures hasListing && listingReliable && old(HasRoom()) ==> r.Some?
    {
      var fail: bool := *;
      if !hasListing || (fail && !listingReliable) {
        return None;
      }
      var fd := 0;
      while fd < CINT_MAX && fd in table
        invariant 0 <= fd <= CINT_MAX
        invariant forall f :: 0 <= f < fd ==> f in table
      {
        fd := fd + 1;
      }
      if fd == CINT_MAX {
        return None;
      }
      table, cursors := table[fd := FD_CLOEXEC], cursors[fd := LISTING_START];
      return Some(fd);
    }

    /**
     `getdents(fd)`: reads some further entries and moves the position past them; no entries means that
     no open descriptor is left at or past the position. Anything but an open directory is an error.
     */
    method Getdents(fd: CInt) returns (r: DirRead)
      requires Valid()
      modifies this
      ensures Valid() && table == old(table) && log == old(log) && rangeCalls == old(rangeCalls) && answer == old(answer)
      ensures r.DirFailed? ==> cursors == old(cursors)
      ensures r.Entries? ==> fd in old(cursors)
      ensures r.Entries? && r.recs == [] ==>
                cursors == old(cursors) && forall f :: f in table ==> f < cursors[fd]
      ensures r.Entries? && r.recs != [] ==>
                && cursors.Keys == old(cursors.Keys)
                && cursors == old(cursors)[fd := cursors[fd]]
                && Batch(r.recs, table.Keys, old(cursors)[fd], cursors[fd])
      ensures listingReliable && fd in old(cursors) ==> r.Entries?
    {
      var fail: bool := *;
      if fd !in cursors || (fail && !listingReliable) {
        return DirFailed;
      }
      var f := cursors[fd];
      if f < 0 {
        cursors := cursors[fd := f + 1];
        r := Entries([Dirent([46, 0], 24)]);
        DotEntry();
        assert r.recs[1..] == [];
        return r;
      }
      while f < CINT_MAX && f !in table
        invariant cursors[fd] <= f <= CINT_MAX
        invariant forall g :: cursors[fd] <= g < f ==> g !in table
      {
        f := f + 1;
      }
      if f == CINT_MAX {
        return Entries([]);
      }
      cursors := cursors[fd := f + 1];
      r := Entries([Dirent(Digits(f) + [0], 32)]);
      NumberEntry(f, 32);
      assert r.recs[1..] == [];
    }

    /** What a range call returns, and which descriptors of its range `all` it deals with. */
    method RangeOutcome(lo: CUInt, hi: CUInt, cloexec: bool, all: set<int>) returns (r: SysResult, hit: set<int>)
      ensures hit <= all && (r.Done? ==> lo <= hi && hit == all)
      ensures !hasCloseRange ==> r == Failed(ENOSYS)
      ensures !Supports(cloexec) ==> r.Failed? && hit == {}
      ensures rangesReliable && Supports(cloexec) ==> if lo <= hi then r.Done? else r == Failed(EINVAL)
    {
      var fail: bool := *;
      var part: set<int> := *;
      if !hasCloseRange {
        return Failed(ENOSYS), {};
      } else if (cloexec && !hasCloexecRange) || lo > hi {
        return Failed(if fail && !rangesReliable then EOTHER else EINVAL), {};
      } else if fail && !rangesReliable {
        return Failed(EOTHER), all * part;
      }
      return Done, all;
    }

    /**
     `close_range(lo, hi, flags)`. A failing call may have dealt with any part of its range. On FreeBSD the
     process is killed if the call does not exist, so there its existence is a precondition.
     */
    method CloseRange(lo: CUInt, hi: CUInt, cloexec: bool) returns (r: SysResult)
      requires Valid()
      requires platform.Linux? || (platform.FreeBSD? && hasCloseRange && !cloexec)
      modifies this
      ensures Valid()
      ensures if cloexec then MarkedWithin(old(table), table, lo, hi) && cursors == old(cursors)
              else ClosedWithin(old(table), table, lo, hi)
                   && cursors == map d | d in old(cursors) && d in table :: old(cursors)[d]
      ensures rangeCalls == old(rangeCalls) + [(lo, hi)] && answer == r
      ensures r.Done? ==> lo <= hi
      ensures r.Done? && !cloexec ==> forall f :: f in table ==> !(lo <= f <= hi)
      ensures r.Done? && cloexec ==>
                forall f :: f in table && lo <= f <= hi ==> table[f] == Marked(old(table)[f])
      ensures |log| == |old(log)| + 1 && Within(old(log), log, set f | f in old(table) && lo <= f <= hi)
      ensures forall f :: f in old(table) && (f !in table || table[f] != old(table)[f]) ==> f in log[|log| - 1]
      ensures !hasCloseRange ==> r == Failed(ENOSYS)
      ensures cloexec && !hasCloexecRange ==> r.Failed?
      ensures !Supports(cloexec) ==> table == old(table)
      ensures rangesReliable && Supports(cloexec) ==>
                if lo <= hi then r.Done? else r == Failed(EINVAL)
    {
      var hit := set f | f in table && lo <= f <= hi;
      r, hit := RangeOutcome(lo, hi, cloexec, hit);
      log, rangeCalls, answer := log + [hit], rangeCalls + [(lo, hi)], r;
      if cloexec {
        MarkAll(hit);
      } else {
        CloseAll(hit);
      }
    }

    method MarkAll(hit: set<int>)
      requires Valid()
      modifies this`table
      ensures Valid() && table.Keys == old(table.Keys)
      ensures forall f :: f in table ==> table[f] == if f in hit then Marked(old(table)[f]) else old(table)[f]
      ensures hit == {} ==> table == old(table)
    {
      table := map f | f in table :: if f in hit then Marked(table[f]) else table[f];
    }

    method CloseAll(hit: set<int>)
      requires Valid()
      modifies this`table, this`cursors
      ensures Valid()
      ensures forall f :: f in table ==> f in old(table) && f !in hit && table[f] == old(table)[f]
      ensures forall f :: f in old(table) && f !in hit ==> f in table
      ensures cursors == map d | d in old(cursors) && d in table :: old(cursors)[d]
      ensures hit == {} ==> table == old(table)
    {
      table, cursors := table - hit, cursors - hit;
    }

    ghost predicate Supports(cloexec: bool) {
      hasCloseRange && (cloexec ==> hasCloexecRange)
    }

    /** `fcntl(fd, F_GETFD)`: the flags of an open descriptor, or an error. */
    method GetFd(fd: CInt) returns (r: Option<bv32>)
      requires Valid()
      ensures r == if fd in table then Some(table[fd]) else None
    {
      return if fd in table then Some(table[fd]) else None;
    }

    /** `fcntl(fd, F_SETFD, flags)`. */
    method SetFd(fd: CInt, flags: bv32)
      requires Valid() && fd in table
      modifies this
      ensures Valid() && cursors == old(cursors)
      ensures table == old(table)[fd := flags]
      ensures log == old(log) + [{fd}] && rangeCalls == old(rangeCalls) && answer == old(answer)
    {
      table, log := table[fd := flags], log + [{fd}];
    }

    /** The number of open descriptors, if the system will tell. */
    method CountOpen() returns (r: Option<int>)
      requires Valid() && (platform.FreeBSD? || platform.OpenBSD?)
      ensures r.Some? ==> r.value == |table|
      ensures countReliable ==> r.Some?
    {
      var fail: bool := *;
      return if fail && !countReliable then None else Some(|table|);
    }

    /** `fcntl(0, F_MAXFD)`: the largest open descriptor, or -1 if there is none. */
    method MaxOpen() returns (r: Option<CInt>)
      requires Valid() && platform.NetBSD?
      ensures !hasMaxfd ==> r.None?
      ensures hasMaxfd && maxfdReliable ==> r.Some?
      ensures r.Some? ==> IsMax(r.value)
    {
      var fail: bool := *;
      if !hasMaxfd || (fail && !maxfdReliable) {
        return None;
      }
      var m: CInt := CINT_MAX - 1;
      while m >= 0 && m !in table
        invariant -1 <= m < CINT_MAX
        invariant forall f :: f in table ==> f <= m
      {
        m := m - 1;
      }
      return Some(m);
    }

    ghost predicate IsMax(m: int)
      reads this
    {
      && -1 <= m < CINT_MAX
      && (m == -1 || m in table)
      && (forall f :: f in table ==> f <= m)
    }

    /** `kern.osreldate`: FreeBSD has `close_range` from 12.2 on. */
    method OsRelDate() returns (r: Option<CInt>)
      requires Valid() && platform.FreeBSD?
      ensures r.Some? ==> (r.value >= 1_202_000 <==> hasCloseRange)
      ensures rangesReliable ==> r.Some?
    {
      var fail: bool := *;
      return if fail && !rangesReliable then None else Some(if hasCloseRange then 1_202_000 else 1_201_000);
    }
  }

  lemma DotEntry()
    ensures Listed([Dirent([46, 0], 24)]) == []
  {
  }

  lemma NumberEntry(f: int, reclen: nat)
    requires 0 <= f <= CINT_MAX
    ensures Listed([Dirent(Digits(f) + [0], reclen)]) == [f]
  {
    var d := Dirent(Digits(f) + [0], reclen);
    CNameStops(Digits(f));
    ParseInvertsPrint(f);
    assert [d][1..] == [];
  }

  lemma {:induction false} CNameStops(s: seq<Byte>)
    requires AllDigits(s)
    ensures CName(s + [0]) == s
  {
    if s != [] {
      assert (s + [0])[1..] == s[1..] + [0];
      CNameStops(s[1..]);
    }
  }
}
