/** `FdIter`: the directory listing, with a loop up to a guessed maximum descriptor to fall back on. */
module FdIters {
  import opened Base
  import opened Kernels
  import opened DirFdIters

  /** `fdlimit.max(1024).min(65536) - 1`. */
  function ClampedLimit(openMax: int): (r: int)
    ensures 1023 <= r <= 65535
  {
    (if openMax < 1024 then 1024 else if openMax > 65536 then 65536 else openMax) - 1
  }

  /** `f` is out of the loop's reach where the limit on open files is all that is known. */
  ghost predicate PastLimit(openMax: int, f: int) {
    f >= 1024 && (f >= openMax || f >= 65536)
  }

  /** The loop bound may be an exact maximum that is larger than the clamped limit. */
  ghost predicate MayTellMaxfd(k: Kernel) {
    k.platform.NetBSD? && k.hasMaxfd
  }

  /** The number up to which the fallback loop is sure to reach every open descriptor. */
  ghost function Reach(k: Kernel): (r: int)
    ensures 1023 <= r <= CINT_MAX
  {
    if MayTellMaxfd(k) && k.maxfdReliable then CINT_MAX else ClampedLimit(k.openMax)
  }

  /** The first number that may be missed: none if it is sure that everything is found. */
  ghost function Limit(k: Kernel, sure: bool): (r: int)
    ensures Reach(k) < r <= CINT_MAX + 1
  {
    if sure then CINT_MAX + 1 else Reach(k) + 1
  }

  /** No descriptor of `t` is past what the fallback loop is sure to reach. */
  ghost predicate Covered(k: Kernel, t: Table) {
    forall f :: f in t ==> f <= Reach(k)
  }

  // ---------------------------------------------------------------------------------------------
  // From the number of open descriptors to the largest one

  lemma CountBelowStep(s: set<int>, n: int)
    ensures CountBelow(s, n + 1) == CountBelow(s, n) + (if n in s then 1 else 0)
  {
    var a, b := set f | f in s && f < n, set f | f in s && f < n + 1;
    if n in s {
      assert b == a + {n};
    } else {
      assert b == a;
    }
  }

  /** All elements are below `n` exactly when counting below `n` finds them all. */
  lemma CountBelowAll(s: set<int>, n: int)
    ensures CountBelow(s, n) <= |s|
    ensures CountBelow(s, n) == |s| <==> forall f :: f in s ==> f < n
  {
    var a, b := set f | f in s && f < n, set f | f in s && n <= f;
    assert s == a + b;
    assert |s| == |a| + |b|;
    if b == {} {
      assert forall f :: f in s ==> f in a;
    } else {
      var x :| x in b;
    }
  }

  /**
   `nfds_to_maxfd`. Whatever `nfds` is, the result is the `nfds`-th smallest open descriptor if that is below
   `2 * nfds`. If `nfds` is the true count, there is a result exactly when `nfds` is zero, or below 100 with
   every descriptor below `2 * nfds`; and then it is the largest open descriptor, or -1.
   */
  method NfdsToMaxfd(k: Kernel, nfds: int) returns (r: Option<CInt>)
    requires k.Valid()
    ensures nfds == 0 ==> r == Some(-1)
    ensures nfds < 0 || nfds >= 100 ==> r.None?
    ensures 0 < nfds < 100 && r.Some? ==>
              r.value in k.table && r.value < 2 * nfds && CountBelow(k.table.Keys, r.value + 1) == nfds
    ensures 0 < nfds < 100 && r.None? ==> CountBelow(k.table.Keys, 2 * nfds) < nfds
    ensures nfds == |k.table| ==>
              && (r.Some? <==> nfds == 0 || (nfds < 100 && forall f :: f in k.table ==> f < 2 * nfds))
              && (r.Some? ==> k.IsMax(r.value))
  {
    ghost var open := k.table.Keys;
    assert |open| == |k.table|;
    if nfds == 0 {
      return Some(-1);
    } else if nfds < 0 {
      return None;
    } else if nfds >= 100 {
      return None;
    }

    var found := 0;
    assert (set f | f in open && f < 0) == {};
    for fd := 0 to nfds * 2
      invariant found == CountBelow(open, fd) < nfds
    {
      CountBelowStep(open, fd);
      var flags := k.GetFd(fd);
      if flags.Some? {
        found := found + 1;
        if found >= nfds {
          CountBelowAll(open, fd + 1);
          return Some(fd);
        }
      }
    }
    CountBelowAll(open, nfds * 2);
    return None;
  }

  /** Few enough descriptors are open, and on numbers small enough, for the scan to find them all. */
  ghost predicate Dense(k: Kernel)
    reads k
  {
    |k.table| < 100 && forall f :: f in k.table ==> f < 2 * |k.table|
  }

  // ---------------------------------------------------------------------------------------------

  class FdIter {
    const k: Kernel
    var dirIter: DirFdIter?
    var curfd: CInt
    const possible: bool
    var maxfd: Option<CInt>
    const skipNfds: bool

    /** The descriptors open when the iterator was created. */
    ghost const origin: set<int>
    /** What `next` has returned so far, call by call. */
    ghost var given: seq<Option<int>>

    /** The directory descriptor in use, or -1. */
    ghost function DirFd(): int
      reads this, dirIter
    {
      if dirIter != null then dirIter.dirfd else -1
    }

    /** The directory, if one is used, can still be read. */
    ghost predicate DirIntact()
      reads this, dirIter, k
    {
      dirIter != null && (dirIter.dirfd < 0 || dirIter.dirfd in k.cursors)
    }

    /** How many items will come whatever happens to the table. */
    ghost function Buffered(): nat
      reads this, dirIter
    {
      if dirIter != null && dirIter.dirfd >= 0 then dirIter.Buffered() else 0
    }

    /** `v` bounds the loop: the clamped limit, or at least every open descriptor. */
    ghost predicate Bounds(v: int)
      reads this, k
    {
      && -1 <= v < CINT_MAX
      && (v == ClampedLimit(k.openMax) || forall f :: f in k.table ==> f <= v)
      && (MayTellMaxfd(k) && k.maxfdReliable ==> forall f :: f in k.table ==> f <= v)
      && (!MayTellMaxfd(k) ==> v <= ClampedLimit(k.openMax))
    }

    ghost predicate Valid()
      reads this, dirIter, k
    {
      && k.Valid()
      && 0 <= curfd
      && (dirIter != null ==>
            dirIter.k == k && dirIter.Valid() && dirIter.seen == curfd && dirIter.origin == origin && maxfd.None?)
      && (dirIter == null ==> k.table.Keys <= origin)
      && (maxfd.Some? ==> Bounds(maxfd.value))
    }

    /** Nothing more will come: a fact about the iterator alone, whatever the descriptor table. */
    ghost predicate Exhausted()
      reads this, dirIter
    {
      if dirIter != null then dirIter.k == k && dirIter.dirfd < 0
      else 0 <= curfd && maxfd.Some? && -1 <= maxfd.value < CINT_MAX && curfd > maxfd.value
    }

    constructor (k: Kernel, dirIter: DirFdIter?, curfd: CInt, possible: bool, skipNfds: bool, ghost origin: set<int>)
      ensures this.k == k && this.dirIter == dirIter && this.curfd == curfd && this.possible == possible
      ensures maxfd == None && this.skipNfds == skipNfds && this.origin == origin && given == []
    {
      this.k, this.dirIter, this.curfd, this.possible := k, dirIter, curfd, possible;
      this.maxfd, this.skipNfds, this.origin, this.given := None, skipNfds, origin, [];
    }

    method GetMaxfdDirect() returns (r: CInt)
      requires k.Valid()
      ensures Bounds(r)
      ensures MayTellMaxfd(k) && k.maxfdReliable ==> k.IsMax(r)
      ensures (k.platform.FreeBSD? || k.platform.OpenBSD?) && !skipNfds && k.countReliable && Dense(k) ==> k.IsMax(r)
      ensures !MayTellMaxfd(k) && (!(k.platform.FreeBSD? || k.platform.OpenBSD?) || skipNfds || !Dense(k)) ==>
                r == if k.openMax < 1024 then 1023 else if k.openMax > 65536 then 65535 else k.openMax - 1
    {
      if k.platform.NetBSD? {
        var m := k.MaxOpen();
        if m.Some? {
          return m.value;
        }
      }
      if k.platform.HasNfds() && !skipNfds {
        var n := k.CountOpen();
        if n.Some? {
          var m := NfdsToMaxfd(k, n.value);
          if m.Some? {
            return m.value;
          }
        }
      }
      return ClampedLimit(k.openMax);
    }

    method GetMaxfd() returns (r: CInt)
      requires k.Valid() && (maxfd.Some? ==> -1 <= maxfd.value < CINT_MAX)
      modifies this`maxfd
      ensures maxfd == Some(r)
      ensures if old(maxfd).Some? then maxfd == old(maxfd) else Bounds(r)
    {
      if maxfd.Some? {
        return maxfd.value;
      }
      r := GetMaxfdDirect();
      maxfd := Some(r);
    }

    /** The fallback loop: the least number from `curfd` to the bound that is open, or any in "possible" mode. */
    method NextInRange() returns (r: Option<CInt>)
      requires k.Valid() && dirIter == null && 0 <= curfd
      requires maxfd.Some? ==> -1 <= maxfd.value < CINT_MAX
      modifies this`curfd, this`maxfd, this`given
      ensures given == old(given) + [r]
      ensures maxfd.Some? && (if old(maxfd).Some? then maxfd == old(maxfd) else Bounds(maxfd.value))
      ensures r.Some? ==>
                && old(curfd) <= r.value <= maxfd.value && curfd == r.value + 1
                && (possible ==> r.value == old(curfd))
                && (!possible ==> r.value in k.table)
                && forall f :: f in k.table && old(curfd) <= f ==> r.value <= f
      ensures r.None? ==>
                && old(curfd) <= curfd && curfd > maxfd.value
                && (old(curfd) > maxfd.value ==> curfd == old(curfd))
                && (possible ==> old(curfd) > maxfd.value)
                && forall f :: f in k.table && old(curfd) <= f ==> maxfd.value < f
    {
      var bound := GetMaxfd();
      while curfd <= bound
        invariant old(curfd) <= curfd && (curfd <= bound + 1 || curfd == old(curfd))
        invariant possible ==> curfd == old(curfd)
        invariant forall f :: f in k.table && old(curfd) <= f ==> curfd <= f
        invariant given == old(given)
        modifies this`curfd, this`given
        decreases bound - curfd
      {
        var fd := curfd;
        curfd := curfd + 1;
        if possible {
          given := given + [Some(fd)];
          return Some(fd);
        }
        var flags := k.GetFd(fd);
        if flags.Some? {
          given := given + [Some(fd)];
          return Some(fd);
        }
      }
      given := given + [None];
      return None;
    }

    /** The directory's next item, or its end; an error drops the directory, and the loop takes over. */
    method NextInDir() returns (r: DirNext)
      requires k.Valid() && dirIter != null && (Exhausted() || Valid())
      modifies this`dirIter, this`curfd, this`given, dirIter, k
      ensures k.Valid() && (old(Valid()) ==> Valid())
      ensures given == old(given) + match r { case Item(fd) => [Some(fd)] case End => [None] case Error => [] }
      ensures dirIter == if r.Error? then null else old(dirIter)
      ensures r.End? ==> Exhausted() && curfd == old(curfd)
      ensures old(Exhausted()) ==> r.End? && unchanged(k)
      ensures DirFd() == old(DirFd()) || DirFd() == -1
      ensures k.table == if DirFd() == old(DirFd()) then old(k.table) else old(k.table) - {old(DirFd())}
      ensures Within(old(k.log), k.log, {old(DirFd())})
      ensures r.Item? ==>
                && old(curfd) <= r.fd < CINT_MAX && curfd == r.fd + 1 && r.fd != DirFd() && r.fd in origin
                && forall f :: f in k.table && old(curfd) <= f < r.fd ==> f == DirFd()
      ensures r.End? && old(Valid()) ==> forall f :: f in k.table ==> f < old(curfd)
      ensures r.Error? ==> curfd == old(curfd)
      ensures old(Buffered()) > 0 ==> r.Item? && Buffered() == old(Buffered()) - 1
      ensures k.listingReliable && old(DirIntact()) ==> DirIntact()
    {
      r := dirIter.Next();
      match r {
        case Item(fd) =>
          curfd, given := fd + 1, given + [Some(fd)];
        case End =>
          given := given + [None];
        case Error =>
          dirIter.Drop();
          dirIter := null;
      }
    }

    /**
     The next item. Only the directory descriptor is ever closed. Items ascend, nothing open is skipped on the
     way, and when there is no item, every descriptor still open from the cursor on is past the loop bound.
     */
    method Next() returns (r: Option<CInt>)
      requires k.Valid() && (Exhausted() || Valid())
      modifies this, dirIter, k
      ensures k.Valid() && (old(Valid()) ==> Valid())
      ensures dirIter == old(dirIter) || dirIter == null
      ensures given == old(given) + [r]
      // fused
      ensures r.None? ==> Exhausted()
      ensures old(Exhausted()) ==> r.None? && unchanged(k) && curfd == old(curfd) && dirIter == old(dirIter)
      // effect
      ensures DirFd() == old(DirFd()) || DirFd() == -1
      ensures k.table == if DirFd() == old(DirFd()) then old(k.table) else old(k.table) - {old(DirFd())}
      ensures Within(old(k.log), k.log, {old(DirFd())})
      // items
      ensures r.Some? ==>
                && old(curfd) <= r.value < CINT_MAX && curfd == r.value + 1
                && r.value != DirFd() && (!possible || dirIter != null ==> r.value in origin)
                && (dirIter == null ==> maxfd.Some? && r.value <= maxfd.value)
                && (possible && old(dirIter) == null ==> r.value == old(curfd))
                && forall f :: f in k.table && old(curfd) <= f < r.value ==> f == DirFd()
      ensures r.None? && old(Valid()) ==>
                && old(curfd) <= curfd
                && (forall f :: f in k.table && old(curfd) <= f ==> dirIter == null && maxfd.value < f)
                && (dirIter == null && possible ==> old(curfd) > maxfd.value)
      // bounds
      ensures old(maxfd).Some? ==> maxfd == old(maxfd)
      ensures old(Buffered()) > 0 ==> r.Some? && Buffered() == old(Buffered()) - 1
      ensures k.listingReliable && old(DirIntact()) ==> DirIntact()
    {
      r := None;
      if dirIter != null {
        var got := NextInDir();
        if got.Item? {
          r := Some(got.fd);
        }
      }
      if dirIter == null {
        r := NextInRange();
      }
    }

    /** What the size hint is in this state. */
    ghost predicate IsHint(low: int, high: int)
      reads this, dirIter
    {
      if dirIter != null then low == Buffered() && high == if dirIter.dirfd < 0 then 0 else CINT_MAX
      else if maxfd.Some? then
        && high == (if curfd <= maxfd.value then maxfd.value + 1 - curfd else 0)
        && low == (if possible then high else 0)
      else low == 0 && high == CINT_MAX
    }

    /** Bounds on the number of items still to come. */
    method SizeHint() returns (low: nat, high: nat)
      requires Valid()
      ensures IsHint(low, high)
    {
      if dirIter != null {
        low, high := dirIter.SizeHint();
        return;
      }
      if maxfd.Some? {
        if maxfd.value == -1 {
          return 0, 0;
        }
        var diff := if curfd <= maxfd.value + 1 then maxfd.value + 1 - curfd else 0;
        return if possible then diff else 0, diff;
      }
      return 0, CINT_MAX;
    }

    /** Dropping the iterator closes the directory, if it is still open, and nothing else. */
    method Drop()
      requires k.Valid() && (dirIter != null ==> dirIter.k == k)
      modifies k
      ensures k.Valid() && k.table == old(k.table) - {DirFd()}
      ensures Within(old(k.log), k.log, {DirFd()})
    {
      if dirIter != null {
        dirIter.Drop();
      }
    }
  }

  datatype FdIterBuilder = FdIterBuilder(possible: bool, skipNfds: bool, dirfd: bool)

  /** `max(minfd, 0)`. */
  function Clamp0(minfd: CInt): CInt {
    if minfd < 0 then 0 else minfd
  }

  /** There is a descriptor directory, it may be used, and a number is free for it. */
  ghost predicate CanList(k: Kernel, b: FdIterBuilder)
    reads k
  {
    && b.dirfd && k.hasListing && k.HasRoom()
    && (k.platform.Linux? || k.platform.MacOS? || k.platform.FreeBSD? || k.platform.NetBSD? || k.platform.Solaris?)
  }

  /** A descriptor directory is sure to be opened, and to be read to its end. */
  ghost predicate Lists(k: Kernel, b: FdIterBuilder)
    reads k
  {
    CanList(k, b) && k.listingReliable
  }

  /** Listing, and asking for the maximum, fail only where they are not supported. */
  ghost predicate IterationReliable(k: Kernel) {
    k.listingReliable && k.maxfdReliable
  }

  /** `FdIterBuilder::iter_from`. */
  method IterFrom(k: Kernel, b: FdIterBuilder, minfd: CInt) returns (it: FdIter)
    requires k.Valid()
    modifies k
    ensures fresh(it) && (it.dirIter != null ==> fresh(it.dirIter))
    ensures it.Valid() && it.k == k && it.origin == old(k.table.Keys)
    ensures 0 <= it.curfd && minfd <= it.curfd && (it.curfd == 0 || it.curfd == minfd)
    ensures it.given == [] && it.possible == b.possible && it.skipNfds == b.skipNfds && it.maxfd.None?
    ensures it.DirFd() !in old(k.table) && k.log == old(k.log)
    ensures k.table == if it.dirIter == null then old(k.table) else old(k.table)[it.DirFd() := FD_CLOEXEC]
    ensures !old(CanList(k, b)) ==> it.dirIter == null
    ensures old(Lists(k, b)) ==> it.DirIntact()
  {
    var start := Clamp0(minfd);
    var d: DirFdIter? := null;
    if b.dirfd && k.platform.HasListing() {
      d := OpenDirIter(k, start);
    }
    it := new FdIter(k, d, start, b.possible, b.skipNfds, old(k.table.Keys));
  }
}
