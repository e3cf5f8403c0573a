/** The algebra of keep lists: inspecting, simplifying, querying, and the gaps between kept descriptors. */
module KeepLists {
  import opened Base

  /** `f` is to be closed (or marked): at least `minfd` and not kept. */
  predicate Target(minfd: int, keep: seq<int>, f: int) {
    minfd <= f && f !in keep
  }

  /** One past each element is still a C `int`: the code adds one to the elements of sorted lists. */
  predicate Keepable(keep: seq<int>) {
    forall i :: 0 <= i < |keep| ==> keep[i] < CINT_MAX
  }

  // ---------------------------------------------------------------------------------------------
  // KeepFds

  datatype KeepFds = KeepFds(fds: seq<CInt>, max: CInt, sorted: bool) {
    ghost predicate Valid() {
      && (sorted ==> Sorted(fds))
      && (forall f :: f in fds ==> f <= max)
      && (if fds == [] then max < 0 else max in fds)
    }

    /** What the drivers need besides: no overflow. */
    ghost predicate Usable() {
      Valid() && (sorted ==> Keepable(fds))
    }
  }

  function EmptyKeep(): (r: KeepFds)
    ensures r.Valid() && r.fds == [] && r.sorted
  {
    KeepFds([], -1, true)
  }

  /** The maximum of a list (`CINT_MIN` for none), and whether the list is sorted. */
  method InspectKeepFds(keep: seq<CInt>) returns (max: CInt, sorted: bool)
    ensures forall f :: f in keep ==> f <= max
    ensures if keep == [] then max == CINT_MIN else max in keep
    ensures sorted <==> Sorted(keep)
  {
    max := CINT_MIN;
    var last: CInt := CINT_MIN;
    sorted := true;
    for i := 0 to |keep|
      invariant last == if i == 0 then CINT_MIN else keep[i - 1]
      invariant last <= max
      invariant forall j :: 0 <= j < i ==> keep[j] <= max
      invariant if i == 0 then max == CINT_MIN else max in keep
      invariant sorted <==> Sorted(keep[..i])
      invariant sorted ==> max == last
    {
      var fd := keep[i];
      assert keep[..i + 1] == keep[..i] + [fd];
      assert i > 0 ==> keep[..i + 1][i - 1] == last;
      if fd > max {
        max := fd;
        assert last <= fd;
      } else if last > fd {
        sorted := false;
      }
      last := fd;
    }
    assert keep[..|keep|] == keep;
  }

  method NewKeep(fds: seq<CInt>) returns (r: KeepFds)
    ensures r.Valid() && r.fds == fds && (r.sorted <==> Sorted(fds))
  {
    var max, sorted := InspectKeepFds(fds);
    return KeepFds(fds, max, sorted);
  }

  function NewKeepSorted(fds: seq<CInt>): (r: KeepFds)
    requires Sorted(fds)
    ensures r.Valid() && r.fds == fds && r.sorted
  {
    KeepFds(fds, if fds == [] then -1 else fds[|fds| - 1], true)
  }

  // ---------------------------------------------------------------------------------------------
  // simplify_keep_fds

  /** The least number from `minfd` on that is not in a sorted list; `minfd` itself for other lists. */
  ghost predicate IsRaised(minfd: int, keep: seq<int>, sorted: bool, raised: int) {
    if sorted then
      minfd <= raised && raised !in keep && forall f :: minfd <= f < raised ==> f in keep
    else raised == minfd
  }

  /** What simplifying raises `minfd` to. */
  function Raise(keep: seq<int>, minfd: int): int {
    if keep == [] || keep[0] > minfd then minfd
    else Raise(keep[1..], if keep[0] == minfd then minfd + 1 else minfd)
  }

  function RaisedMin(keep: seq<int>, sorted: bool, minfd: int): int {
    if sorted then Raise(keep, minfd) else minfd
  }

  /** Cutting off a front of elements below `low`: the rest is sorted and answers for everything from `low` on. */
  lemma CutFront(keep: seq<int>, n: nat, low: int)
    requires Sorted(keep) && n <= |keep| && forall j :: 0 <= j < n ==> keep[j] < low
    ensures Sorted(keep[n..])
    ensures forall f :: f in keep[n..] ==> f in keep && keep[n] <= f
    ensures forall f :: low <= f ==> (f in keep[n..] <==> f in keep)
  {
    forall f | f in keep[n..] ensures f in keep && keep[n] <= f {
      var i :| 0 <= i < |keep[n..]| && keep[n..][i] == f;
      assert keep[n + i] == f;
    }
    forall f | low <= f && f in keep ensures f in keep[n..] {
      var j :| 0 <= j < |keep| && keep[j] == f;
      assert keep[n..][j - n] == f;
    }
  }

  /** What the loop has established after taking `n` elements off the front. */
  ghost predicate Taken(keep: seq<int>, n: nat, minfd: int, raised: int) {
    && n <= |keep| && minfd <= raised
    && (forall j :: 0 <= j < n ==> keep[j] < raised)
    && (forall f :: minfd <= f < raised ==> f in keep)
    && Raise(keep, minfd) == Raise(keep[n..], raised)
  }

  lemma TakeOne(keep: seq<int>, n: nat, minfd: int, raised: int)
    requires Taken(keep, n, minfd, raised) && n < |keep| && keep[n] <= raised
    ensures Taken(keep, n + 1, minfd, if keep[n] == raised then raised + 1 else raised)
  {
    assert keep[n..][1..] == keep[n + 1..];
    assert keep[n] in keep;
  }

  /** A kept front traded for a larger `minfd` leaves the targets as they were. */
  lemma TakenTargets(keep: seq<int>, n: nat, minfd: int, raised: int)
    requires Sorted(keep) && Taken(keep, n, minfd, raised) && (n < |keep| ==> raised < keep[n])
    ensures IsRaised(minfd, keep, true, raised)
    ensures forall f :: Target(raised, keep[n..], f) <==> Target(minfd, keep, f)
  {
    CutFront(keep, n, raised);
    assert raised !in keep[n..];
  }

  /**
   Trades leading kept descriptors for a larger `minfd`. The targets stay the same, what remains is a suffix, and
   for a sorted list `minfd` becomes the least number not kept, below everything that remains.
   */
  method SimplifyKeepFds(keep: seq<CInt>, sorted: bool, minfd: CInt) returns (rest: seq<CInt>, raised: CInt)
    requires sorted ==> Sorted(keep) && Keepable(keep)
    ensures |rest| <= |keep| && rest == keep[|keep| - |rest|..]
    ensures raised == RaisedMin(keep, sorted, minfd) && IsRaised(minfd, keep, sorted, raised)
    ensures forall f :: Target(raised, rest, f) <==> Target(minfd, keep, f)
    ensures forall f :: raised <= f ==> (f in rest <==> f in keep)
    ensures if sorted then forall f :: f in rest ==> raised < f else rest == keep
    ensures (sorted ==> Sorted(rest) && Keepable(rest)) && forall f :: f in rest ==> f in keep
  {
    rest, raised := keep, minfd;
    if sorted {
      ghost var n := 0;
      while rest != []
        invariant n <= |keep| && rest == keep[n..] && Taken(keep, n, minfd, raised)
        decreases |rest|
      {
        assert rest[0] == keep[n];
        if rest[0] > raised {
          break;
        }
        TakeOne(keep, n, minfd, raised);
        if rest[0] == raised {
          raised := raised + 1;
        }
        rest, n := rest[1..], n + 1;
      }
      CutFront(keep, n, raised);
      TakenTargets(keep, n, minfd, raised);
    }
  }

  /** If a sorted list has a maximum from the raised `minfd` on, something remains of it. */
  lemma RestNonEmpty(kf: KeepFds, minfd: CInt, rest: seq<CInt>, raised: CInt)
    requires kf.Valid() && kf.sorted && 0 <= minfd <= raised <= kf.max
    requires forall f :: raised <= f ==> (f in rest <==> f in kf.fds)
    ensures rest != [] && kf.max in rest
  {
  }

  /** Both pairs describe the same targets. */
  ghost predicate SameTargets(minfd: int, keep: seq<int>, minfd1: int, keep1: seq<int>) {
    forall f :: Target(minfd1, keep1, f) <==> Target(minfd, keep, f)
  }

  /** What the drivers rely on after simplifying. */
  method SimplifyKeep(kf: KeepFds, minfd: CInt) returns (rest: seq<CInt>, raised: CInt)
    requires kf.Usable() && 0 <= minfd
    ensures SameTargets(minfd, kf.fds, raised, rest)
    ensures 0 <= raised == RaisedMin(kf.fds, kf.sorted, minfd)
    ensures kf.sorted ==> Sorted(rest) && Keepable(rest)
    ensures forall f :: f in rest ==> f <= kf.max
    ensures kf.sorted && raised <= kf.max ==> rest != []
  {
    rest, raised := SimplifyKeepFds(kf.fds, kf.sorted, minfd);
    if kf.sorted && raised <= kf.max {
      RestNonEmpty(kf, minfd, rest, raised);
    }
  }

  // ---------------------------------------------------------------------------------------------
  // check_should_keep

  /** Whether `fd` is in the list; for a sorted list, moves the cursor past smaller elements. */
  method CheckShouldKeep(keep: seq<CInt>, fd: CInt, sorted: bool) returns (rest: seq<CInt>, r: bool)
    requires sorted ==> Sorted(keep)
    ensures |rest| <= |keep| && rest == keep[|keep| - |rest|..]
    ensures r <==> fd in keep
    ensures forall f :: fd <= f ==> (f in rest <==> f in keep)
    ensures sorted && keep != [] && fd <= keep[|keep| - 1] ==> rest != [] && fd <= rest[0]
    ensures sorted && keep != [] && keep[|keep| - 1] < fd ==> rest == keep
    ensures sorted ==> Sorted(rest)
    ensures !sorted ==> rest == keep
  {
    rest := keep;
    if !sorted {
      return keep, fd in keep;
    }
    var index := 0;
    while index < |keep| && keep[index] < fd
      invariant index <= |keep| && forall j :: 0 <= j < index ==> keep[j] < fd
    {
      index := index + 1;
    }
    CutFront(keep, index, fd);
    if index < |keep| {
      rest := keep[index..];
    }
    r := rest != [] && rest[0] == fd;
  }

  /** The cursor is sorted and answers for the whole list from `low` on. */
  ghost predicate Cursor(cursor: seq<int>, keep: seq<int>, sorted: bool, low: int) {
    && (sorted ==> Sorted(cursor))
    && (forall f :: low <= f ==> (f in cursor <==> f in keep))
  }

  /** Nondecreasing queries get the answers of plain membership, although the cursor discards elements. */
  method AnswerQueries(keep: seq<CInt>, queries: seq<CInt>, sorted: bool) returns (answers: seq<bool>)
    requires sorted ==> Sorted(keep)
    requires sorted ==> Sorted(queries)
    ensures |answers| == |queries|
    ensures forall i :: 0 <= i < |queries| ==> (answers[i] <==> queries[i] in keep)
  {
    answers := [];
    var cursor := keep;
    for i := 0 to |queries|
      invariant |answers| == i
      invariant i == 0 || !sorted ==> cursor == keep
      invariant i > 0 ==> Cursor(cursor, keep, sorted, if sorted then queries[i - 1] else CINT_MIN)
      invariant forall j :: 0 <= j < i ==> (answers[j] <==> queries[j] in keep)
    {
      ghost var last := if i > 0 && sorted then queries[i - 1] else CINT_MIN;
      assert Cursor(cursor, keep, sorted, last) && last <= queries[i];
      var a;
      cursor, a := CheckShouldKeep(cursor, queries[i], sorted);
      answers := answers + [a];
    }
  }

  // ---------------------------------------------------------------------------------------------
  // The ranges apply_range goes through

  type Range = (int, int)

  /** The calls after `keep[i]`: one for each hole between neighbours, and one for everything past the last. */
  function GapsAfter(keep: seq<int>, i: nat): seq<Range>
    requires i < |keep|
    decreases |keep| - i
  {
    if i == |keep| - 1 then [(keep[i] + 1, CINT_MAX)]
    else if keep[i + 1] - keep[i] >= 2 then [(keep[i] + 1, keep[i + 1] - 1)] + GapsAfter(keep, i + 1)
    else GapsAfter(keep, i + 1)
  }

  /** The index of the first element that is at least `minfd`. */
  function FirstFrom(keep: seq<int>, minfd: int): (i: nat)
    ensures i <= |keep|
    ensures forall j :: 0 <= j < i ==> keep[j] < minfd
    ensures i < |keep| ==> minfd <= keep[i]
  {
    if keep == [] || minfd <= keep[0] then 0 else 1 + FirstFrom(keep[1..], minfd)
  }

  /** The calls, if `keep[i]` is the first element that is at least `minfd`, or `i` the length if there is none. */
  function GapsFrom(minfd: int, keep: seq<int>, i: nat): seq<Range>
    requires i <= |keep|
  {
    if i == |keep| then [(minfd, CINT_MAX)]
    else if keep[i] > minfd then [(minfd, keep[i] - 1)] + GapsAfter(keep, i)
    else GapsAfter(keep, i)
  }

  function Gaps(minfd: int, keep: seq<int>): seq<Range> {
    GapsFrom(minfd, keep, FirstFrom(keep, minfd))
  }

  /** The elements of a keep list. */
  ghost function Kept(keep: seq<int>): set<int> {
    set f | f in keep
  }

  /** A maximal run of numbers from `minfd` on that are not kept: it cannot be extended on either side. */
  ghost predicate IsRun(r: Range, minfd: int, kept: set<int>) {
    && minfd <= r.0 <= r.1 <= CINT_MAX
    && (forall f :: r.0 <= f <= r.1 ==> f !in kept)
    && (r.0 == minfd || r.0 - 1 in kept)
    && (r.1 == CINT_MAX || r.1 + 1 in kept)
  }

  /** Some range of `rs` contains `f`. */
  ghost predicate InRanges(rs: seq<Range>, f: int) {
    exists i :: 0 <= i < |rs| && rs[i].0 <= f <= rs[i].1
  }

  /** `rs` are all the maximal runs up to CINT_MAX, in ascending order. */
  ghost predicate AreRuns(rs: seq<Range>, minfd: int, kept: set<int>) {
    && (forall i :: 0 <= i < |rs| ==> IsRun(rs[i], minfd, kept))
    && (forall i, j :: 0 <= i < j < |rs| ==> rs[i].1 < rs[j].0)
    && (forall f :: minfd <= f <= CINT_MAX && f !in kept ==> InRanges(rs, f))
  }

  lemma PrependRun(r: Range, rs: seq<Range>, minfd: int, mid: int, kept: set<int>)
    requires IsRun(r, minfd, kept) && r.0 == minfd && r.1 + 1 == mid && mid in kept
    requires AreRuns(rs, mid + 1, kept)
    ensures AreRuns([r] + rs, minfd, kept)
  {
    var all := [r] + rs;
    forall i | 0 < i < |all| ensures IsRun(all[i], minfd, kept) && mid < all[i].0 {
      assert all[i] == rs[i - 1] && IsRun(rs[i - 1], mid + 1, kept);
    }
    assert forall i :: 0 <= i < |all| ==> IsRun(all[i], minfd, kept);
    forall f | minfd <= f <= CINT_MAX && f !in kept ensures InRanges(all, f) {
      PrependCovers(r, rs, f, mid, kept);
    }
  }

  lemma PrependCovers(r: Range, rs: seq<Range>, f: int, mid: int, kept: set<int>)
    requires r.0 <= f && f !in kept && mid in kept && r.1 + 1 == mid && (mid < f ==> InRanges(rs, f))
    ensures InRanges([r] + rs, f)
  {
    var all := [r] + rs;
    if f <= r.1 {
      assert all[0] == r;
    } else {
      var i :| 0 <= i < |rs| && rs[i].0 <= f <= rs[i].1;
      assert all[i + 1] == rs[i];
    }
  }

  lemma WidenRuns(rs: seq<Range>, minfd: int, mid: int, kept: set<int>)
    requires AreRuns(rs, mid + 1, kept) && mid in kept && mid <= minfd <= mid + 1
    ensures AreRuns(rs, minfd, kept)
  {
    forall i | 0 <= i < |rs| ensures IsRun(rs[i], minfd, kept) {
      assert IsRun(rs[i], mid + 1, kept);
    }
  }

  lemma WholeRun(minfd: int, kept: set<int>)
    requires minfd <= CINT_MAX && FreeBetween(kept, minfd - 1, CINT_MAX + 1)
    ensures AreRuns([(minfd, CINT_MAX)], minfd, kept)
  {
    var rs := [(minfd, CINT_MAX)];
    assert IsRun(rs[0], minfd, kept);
    forall f | minfd <= f <= CINT_MAX && f !in kept
      ensures InRanges(rs, f)
    {
      assert rs[0].0 <= f <= rs[0].1;
    }
  }

  /** No number strictly between `a` and `b` is kept. */
  ghost predicate FreeBetween(kept: set<int>, a: int, b: int) {
    forall f :: a < f < b ==> f !in kept
  }

  /** `keep[j]` is kept, and nothing between it and the next element is. */
  ghost predicate Neighbours(keep: seq<int>, kept: set<int>, j: nat)
    requires j < |keep|
  {
    var next := if j + 1 < |keep| then keep[j + 1] else CINT_MAX + 1;
    keep[j] in kept && keep[j] <= next && keep[j] < CINT_MAX && FreeBetween(kept, keep[j], next)
  }

  lemma NeighboursOf(keep: seq<int>, j: nat)
    requires Sorted(keep) && Keepable(keep) && j < |keep|
    ensures Neighbours(keep, Kept(keep), j)
  {
    forall f | f in Kept(keep) ensures f <= keep[j] || (j + 1 < |keep| && keep[j + 1] <= f) {
      var i :| 0 <= i < |keep| && keep[i] == f;
    }
  }

  lemma BeforeFirst(keep: seq<int>, minfd: int)
    requires Sorted(keep)
    ensures var i := FirstFrom(keep, minfd);
            FreeBetween(Kept(keep), minfd - 1, if i < |keep| then keep[i] else CINT_MAX + 1)
  {
    var i := FirstFrom(keep, minfd);
    forall f | f in Kept(keep) ensures f < minfd || (i < |keep| && keep[i] <= f) {
      var j :| 0 <= j < |keep| && keep[j] == f;
    }
  }

  lemma {:induction false} GapsAfterAreRuns(keep: seq<int>, kept: set<int>, i: nat)
    requires i < |keep| && forall j :: 0 <= j < |keep| ==> Neighbours(keep, kept, j)
    ensures AreRuns(GapsAfter(keep, i), keep[i] + 1, kept)
    decreases |keep| - i
  {
    assert Neighbours(keep, kept, i);
    if i == |keep| - 1 {
      WholeRun(keep[i] + 1, kept);
    } else {
      assert Neighbours(keep, kept, i + 1);
      GapsAfterAreRuns(keep, kept, i + 1);
      if keep[i + 1] - keep[i] >= 2 {
        PrependRun((keep[i] + 1, keep[i + 1] - 1), GapsAfter(keep, i + 1), keep[i] + 1, keep[i + 1], kept);
      } else {
        WidenRuns(GapsAfter(keep, i + 1), keep[i] + 1, keep[i + 1], kept);
      }
    }
  }

  /** The runs from `minfd` on are those after `keep[i]`, and the gap before it if there is one. */
  lemma GapBeforeRuns(minfd: int, keep: seq<int>, kept: set<int>, i: nat)
    requires i < |keep| && minfd < keep[i] <= CINT_MAX && keep[i] in kept && FreeBetween(kept, minfd - 1, keep[i])
    requires AreRuns(GapsAfter(keep, i), keep[i] + 1, kept)
    ensures AreRuns(GapsFrom(minfd, keep, i), minfd, kept)
  {
    PrependRun((minfd, keep[i] - 1), GapsAfter(keep, i), minfd, keep[i], kept);
  }

  lemma NoGapBeforeRuns(minfd: int, keep: seq<int>, kept: set<int>, i: nat)
    requires i < |keep| && minfd == keep[i] && keep[i] in kept
    requires AreRuns(GapsAfter(keep, i), keep[i] + 1, kept)
    ensures AreRuns(GapsFrom(minfd, keep, i), minfd, kept)
  {
    WidenRuns(GapsAfter(keep, i), minfd, keep[i], kept);
  }

  lemma GapsFromAreRuns(minfd: int, keep: seq<int>, kept: set<int>, i: nat)
    requires minfd <= CINT_MAX && i <= |keep| && (i < |keep| ==> minfd <= keep[i])
    requires forall j :: 0 <= j < |keep| ==> Neighbours(keep, kept, j)
    requires FreeBetween(kept, minfd - 1, if i < |keep| then keep[i] else CINT_MAX + 1)
    ensures AreRuns(GapsFrom(minfd, keep, i), minfd, kept)
  {
    if i == |keep| {
      WholeRun(minfd, kept);
    } else {
      assert Neighbours(keep, kept, i);
      GapsAfterAreRuns(keep, kept, i);
      if keep[i] > minfd {
        GapBeforeRuns(minfd, keep, kept, i);
      } else {
        NoGapBeforeRuns(minfd, keep, kept, i);
      }
    }
  }

  /** For a sorted list the calls are exactly the maximal runs of numbers not kept. */
  lemma GapsAreRuns(minfd: int, keep: seq<int>)
    requires minfd <= CINT_MAX && Sorted(keep) && Keepable(keep)
    ensures AreRuns(Gaps(minfd, keep), minfd, Kept(keep))
  {
    BeforeFirst(keep, minfd);
    forall j | 0 <= j < |keep| ensures Neighbours(keep, Kept(keep), j) {
      NeighboursOf(keep, j);
    }
    GapsFromAreRuns(minfd, keep, Kept(keep), FirstFrom(keep, minfd));
  }

  /** Two maximal runs through the same number are the same. */
  lemma RunThrough(r: Range, s: Range, f: int, minfd: int, kept: set<int>)
    requires IsRun(r, minfd, kept) && IsRun(s, minfd, kept)
    requires r.0 <= f <= r.1 && s.0 <= f <= s.1
    ensures r == s
  {
  }

  lemma RunStarts(a: seq<Range>, b: seq<Range>, minfd: int, kept: set<int>, i: nat)
    requires AreRuns(a, minfd, kept) && AreRuns(b, minfd, kept) && i < |a|
    ensures exists j :: 0 <= j < |b| && b[j].0 == a[i].0
  {
    assert IsRun(a[i], minfd, kept) && InRanges(b, a[i].0);
    var j :| 0 <= j < |b| && b[j].0 <= a[i].0 <= b[j].1;
    RunThrough(a[i], b[j], a[i].0, minfd, kept);
  }

  /** The maximal runs are determined by `minfd` and what is kept. */
  lemma RunsUnique(a: seq<Range>, b: seq<Range>, minfd: int, kept: set<int>)
    requires AreRuns(a, minfd, kept) && AreRuns(b, minfd, kept)
    ensures a == b
  {
    var sa, sb := seq(|a|, i requires 0 <= i < |a| => a[i].0), seq(|b|, i requires 0 <= i < |b| => b[i].0);
    assert Ascending(sa) by {
      forall i, j | 0 <= i < j < |a| ensures sa[i] < sa[j] { assert IsRun(a[i], minfd, kept); }
    }
    assert Ascending(sb) by {
      forall i, j | 0 <= i < j < |b| ensures sb[i] < sb[j] { assert IsRun(b[i], minfd, kept); }
    }
    forall i | 0 <= i < |a| ensures sa[i] in sb {
      RunStarts(a, b, minfd, kept, i);
      var j :| 0 <= j < |b| && b[j].0 == a[i].0;
      assert sb[j] == sa[i];
    }
    forall i | 0 <= i < |b| ensures sb[i] in sa {
      RunStarts(b, a, minfd, kept, i);
      var j :| 0 <= j < |a| && a[j].0 == b[i].0;
      assert sa[j] == sb[i];
    }
    AscendingUnique(sa, sb);
    forall i | 0 <= i < |a| ensures a[i] == b[i] {
      assert sa[i] == sb[i];
      RunThrough(a[i], b[i], a[i].0, minfd, kept);
    }
  }

  lemma {:induction false} GapsAfterShape(keep: seq<int>, i: nat)
    requires i < |keep|
    ensures var rs := GapsAfter(keep, i);
            && rs != [] && rs[|rs| - 1] == (keep[|keep| - 1] + 1, CINT_MAX)
            && forall j :: 0 <= j < |rs| - 1 ==> rs[j].0 <= rs[j].1
    decreases |keep| - i
  {
    if i < |keep| - 1 {
      GapsAfterShape(keep, i + 1);
    }
  }

  /** When CINT_MAX itself is kept, and only then, the last range starts past the C integers and is empty. */
  lemma GapsOverflow(minfd: CInt, keep: seq<CInt>)
    requires Sorted(keep)
    ensures (forall i :: 0 <= i < |Gaps(minfd, keep)| ==> Gaps(minfd, keep)[i].0 <= Gaps(minfd, keep)[i].1)
            <==> CINT_MAX !in keep
  {
    var n := |keep|;
    var i := FirstFrom(keep, minfd);
    var rs := Gaps(minfd, keep);
    if i < n {
      GapsAfterShape(keep, i);
      var last: int := keep[n - 1];
      assert rs[|rs| - 1] == (last + 1, CINT_MAX);
      assert CINT_MAX in keep <==> keep[n - 1] == CINT_MAX;
    } else if CINT_MAX in keep {
      assert false;
    }
  }
}
