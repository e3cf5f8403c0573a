/** Whole sessions: any run of closing, marking and probing calls in one process. */
module Runs {
  import opened Base
  import opened Kernels
  import opened FdIters
  import opened KeepLists
  import opened Ranges
  import opened Closes
  import opened Cloexecs

  // ---------------------------------------------------------------------------------------------
  // Probing

  lemma EmptyRangeCloses(t: Table, t1: Table, lo: int, hi: int)
    requires ClosedWithin(t, t1, lo, hi) && hi < lo
    ensures t1 == t
  {
    assert forall f :: f in t1 <==> f in t;
    assert forall f :: f in t ==> t[f] == t1[f];
    assert t.Keys == t1.Keys;
  }

  /** `close::probe`: on Linux, an empty range must be refused as invalid, or the call is not there. */
  method ProbeClose(k: Kernel, fs: Features)
    requires k.Valid() && fs.Safe(k)
    modifies k, fs
    ensures k.Valid() && k.table == old(k.table) && fs.Safe(k)
    ensures fs.mayCloexec == old(fs.mayCloexec)
    ensures k.platform.Linux? && k.rangesReliable ==> fs.mayClose == (old(fs.mayClose) && k.hasCloseRange)
    ensures k.platform.Linux? && !k.hasCloseRange ==> !fs.mayClose
    ensures k.platform.Linux? ==>
              && k.rangeCalls == old(k.rangeCalls) + [(0xffff_ffff, 0xffff_fffe)]
              && fs.mayClose == (old(fs.mayClose) && k.answer == Failed(EINVAL))
    ensures k.platform.FreeBSD? && k.rangesReliable && old(fs.present) >= 2 ==> fs.present == if k.hasCloseRange then 1 else 0
    ensures k.platform.FreeBSD? ==> fs.present < 2 && (old(fs.present) < 2 ==> fs.present == old(fs.present))
    ensures old(fs.Truthful(k)) ==> fs.Truthful(k)
  {
    if k.platform.Linux? {
      ghost var t := k.table;
      var r := k.CloseRange(CUINT_MAX, CUINT_MAX - 1, false);
      EmptyRangeCloses(t, k.table, CUINT_MAX, CUINT_MAX - 1);
      if r.Done? || r.errno != EINVAL {
        fs.mayClose := false;
      }
    }
    if k.platform.FreeBSD? {
      var _ := CheckHasCloseRange(k, fs);
    }
  }

  /** `cloexec::probe`: marks a range in which no descriptor can be. */
  method ProbeCloexec(k: Kernel, fs: Features)
    requires k.Valid()
    modifies k, fs`mayCloexec
    ensures k.Valid() && k.table == old(k.table)
    ensures k.platform.Linux? && k.rangesReliable ==> fs.mayCloexec == (old(fs.mayCloexec) && k.Supports(true))
    ensures k.platform.Linux? ==> k.rangeCalls == old(k.rangeCalls) + [(0xffff_ffff, 0xffff_ffff)]
    ensures old(fs.Truthful(k)) ==> fs.Truthful(k)
  {
    if k.platform.Linux? {
      ghost var t := k.table;
      var _ := SetCloexecRange(k, fs, CUINT_MAX, CUINT_MAX);
      assert MarkedWithin(t, k.table, CUINT_MAX, CUINT_MAX);
      assert forall f :: f in k.table ==> k.table[f] == t[f];
    }
  }

  /** After probing, each flag says whether the feature is there, and no descriptor has been touched. */
  method Probe(k: Kernel, fs: Features)
    requires k.Valid() && fs.Safe(k)
    modifies k, fs
    ensures k.Valid() && k.table == old(k.table) && fs.Safe(k)
    ensures old(fs.Truthful(k)) ==> fs.Truthful(k)
    ensures old(fs.Truthful(k)) && k.rangesReliable && k.platform.Linux? ==>
              fs.mayClose == k.hasCloseRange && fs.mayCloexec == k.Supports(true)
    ensures old(fs.Truthful(k)) && k.rangesReliable && k.platform.FreeBSD? ==>
              fs.present == if k.hasCloseRange then 1 else 0
  {
    ProbeClose(k, fs);
    ProbeCloexec(k, fs);
  }

  // ---------------------------------------------------------------------------------------------
  // Any run of calls

  datatype Call =
    | CloseCall(minfd: CInt, keep: KeepFds, b: FdIterBuilder)
    | CloexecCall(minfd: CInt, keep: KeepFds, b: FdIterBuilder)
    | ProbeCall
  {
    ghost predicate Valid() {
      ProbeCall? || keep.Usable()
    }
  }

  /** What a call should do to the table. */
  ghost function CallSpec(t: Table, c: Call): Table {
    match c
    case CloseCall(minfd, kf, _) => Survivors(t, minfd, kf.fds)
    case CloexecCall(minfd, kf, _) => MarkTargets(t, minfd, kf.fds)
    case ProbeCall => t
  }

  ghost function RunSpec(t: Table, calls: seq<Call>): Table {
    if calls == [] then t else RunSpec(CallSpec(t, calls[0]), calls[1..])
  }

  method Perform(k: Kernel, fs: Features, c: Call)
    requires k.Valid() && fs.Safe(k) && c.Valid()
    modifies k, fs
    ensures k.Valid() && fs.Safe(k) && (old(fs.Truthful(k)) ==> fs.Truthful(k))
    ensures Covered(k, old(k.table)) ==> k.table == CallSpec(old(k.table), c) && Covered(k, k.table)
  {
    match c {
      case CloseCall(minfd, kf, b) => CloseFrom(k, fs, minfd, kf, b);
      case CloexecCall(minfd, kf, b) => CloexecFrom(k, fs, minfd, kf, b);
      case ProbeCall => Probe(k, fs);
    }
  }

  /**
   A whole session from a fresh process. If all open descriptors are within the loop's reach, the table ends up as
   the calls one after the other specify, whatever the platform, the failures and the flags left by earlier calls.
   On a kernel that accepts valid ranges, no flag ever gives up a feature that is there.
   */
  method Session(k: Kernel, calls: seq<Call>) returns (fs: Features)
    requires k.Valid() && forall i :: 0 <= i < |calls| ==> calls[i].Valid()
    modifies k
    ensures k.Valid() && fs.Safe(k) && fs.Truthful(k)
    ensures Covered(k, old(k.table)) ==> k.table == RunSpec(old(k.table), calls)
    ensures calls != [] && calls[|calls| - 1].ProbeCall? && k.platform.Linux? && k.rangesReliable ==>
              fs.mayClose == k.hasCloseRange && fs.mayCloexec == k.Supports(true)
  {
    fs := new Features();
    ghost var t0 := k.table;
    for i := 0 to |calls|
      invariant k.Valid() && fs.Safe(k) && fs.Truthful(k) && fresh(fs)
      invariant Covered(k, t0) ==> Covered(k, k.table) && RunSpec(t0, calls) == RunSpec(k.table, calls[i..])
      invariant i > 0 && calls[i - 1].ProbeCall? && k.platform.Linux? && k.rangesReliable ==>
                  fs.mayClose == k.hasCloseRange && fs.mayCloexec == k.Supports(true)
    {
      assert calls[i..][1..] == calls[i + 1..];
      if calls[i].ProbeCall? {
        Probe(k, fs);
      } else {
        Perform(k, fs, calls[i]);
      }
    }
    assert calls[|calls|..] == [];
  }

  /** Marking in one process and closing in another with the same table: what they run inherits the same descriptors. */
  method MarkOrClose(k1: Kernel, k2: Kernel, minfd: CInt, kf: KeepFds, b: FdIterBuilder)
    requires k1 != k2 && k1.Valid() && k2.Valid() && kf.Usable()
    requires k1.table == k2.table && Covered(k1, k1.table) && Covered(k2, k2.table)
    modifies k1, k2
    ensures k1.table == MarkTargets(old(k1.table), minfd, kf.fds) && k2.table == Survivors(old(k2.table), minfd, kf.fds)
    ensures AfterExec(k1.table) == AfterExec(k2.table) == AfterExec(Survivors(old(k1.table), minfd, kf.fds))
  {
    ExecAgrees(k1.table, minfd, kf.fds);
    var fs1 := new Features();
    var fs2 := new Features();
    CloexecFrom(k1, fs1, minfd, kf, b);
    CloseFrom(k2, fs2, minfd, kf, b);
  }

  // ---------------------------------------------------------------------------------------------
  // Where closing and marking are not complete

  /**
   Descriptors 3 and `high` are open, and the first call of a process is to close everything from some number up to 3 on,
   with nothing kept: exactly which systems leave `high` open, if it is past the limit on open files.
   */
  method ClosingLeaks(k: Kernel, minfd: CInt, high: CInt, b: FdIterBuilder)
    requires k.Valid() && Reliable(k) && minfd <= 3 < high && k.table.Keys == {3, high}
    modifies k
    ensures 3 !in k.table
    ensures high in k.table <==>
              && high >= 1024 && (high >= k.openMax || high >= 65536)
              && match k.platform {
                   case Linux => !k.hasCloseRange && !(k.hasListing && b.dirfd)
                   case FreeBSD => false
                   case NetBSD => false
                   case OpenBSD => false
                   case DragonFly => false
                   case MacOS => !(k.hasListing && b.dirfd)
                   case Solaris => !(k.hasListing && b.dirfd)
                   case Other => true
                 }
  {
    ghost var t := k.table;
    assert high in t && 3 in t && 0 !in t;
    var fs := new Features();
    CloseFrom(k, fs, minfd, EmptyKeep(), b);
    assert high !in Survivors(t, minfd, []);
  }

  /** The same for marking. A call that marks a range exists on Linux alone, and an exact bound for the loop on NetBSD. */
  method MarkingMisses(k: Kernel, minfd: CInt, high: CInt, b: FdIterBuilder)
    requires k.Valid() && Reliable(k) && minfd <= 3 < high && k.table == map[3 := 0, high as int := 0]
    modifies k
    ensures k.table.Keys == {3, high} && IsMarked(k.table[3])
    ensures !IsMarked(k.table[high]) <==>
              && high >= 1024 && (high >= k.openMax || high >= 65536)
              && match k.platform {
                   case Linux => !(k.hasCloseRange && k.hasCloexecRange) && !(k.hasListing && b.dirfd)
                   case FreeBSD => !(k.hasListing && b.dirfd)
                   case NetBSD => !k.hasMaxfd && !(k.hasListing && b.dirfd)
                   case OpenBSD => true
                   case DragonFly => true
                   case MacOS => !(k.hasListing && b.dirfd)
                   case Solaris => !(k.hasListing && b.dirfd)
                   case Other => true
                 }
  {
    ghost var t := k.table;
    assert high in t && 3 in t && t[high] == 0 && 0 !in t && Target(minfd, [], high);
    var fs := new Features();
    CloexecFrom(k, fs, minfd, EmptyKeep(), b);
    assert forall f :: f in k.table.Keys <==> f in t.Keys;
    assert k.table == MarkTargets(t, minfd, []) ==> k.table[high] == Marked(0);
  }

  /**
   The same for closing where `kept`, between the two, is to be kept, and there is neither a range call nor a directory
   nor an exact bound. `closefrom` is only called once the loop passes `kept`, so where it exists `high` leaks exactly if
   `kept` is the last number the loop goes through, or larger.
   */
  method LeakPastTheClamp(k: Kernel, kept: CInt, high: CInt, b: FdIterBuilder)
    requires k.Valid() && Reliable(k) && 3 < kept < high && k.table.Keys == {3, kept, high}
    requires !k.hasCloseRange && !k.hasMaxfd && !(k.hasListing && b.dirfd)
    modifies k
    ensures 3 !in k.table && kept in k.table
    ensures high in k.table <==>
              match k.platform {
                case FreeBSD => kept >= 1023 && (kept >= k.openMax - 1 || kept >= 65535)
                case NetBSD => kept >= 1023 && (kept >= k.openMax - 1 || kept >= 65535)
                case OpenBSD => kept >= 1023 && (kept >= k.openMax - 1 || kept >= 65535)
                case DragonFly => kept >= 1023 && (kept >= k.openMax - 1 || kept >= 65535)
                case _ => high >= 1024 && (high >= k.openMax || high >= 65536)
              }
  {
    var fs := new Features();
    var kf := NewKeepSorted([kept]);
    assert kf.fds == [kept] && kept in kf.fds;
    ghost var t := k.table;
    assert high in t && 3 in t && kept in t;
    assert Target(3, kf.fds, high) && Raise(kf.fds, 3) == 3;
    CloseFrom(k, fs, 3, kf, b);
    assert high !in Survivors(t, 3, kf.fds);
  }
}
