/** `DirFdIter`: listing the open descriptors through a directory, one buffer of records at a time. */
module DirFdIters {
  import opened Base
  import opened Decimal
  import opened Dirents
  import opened Kernels

  datatype DirNext = Item(fd: CInt) | End | Error

  class DirFdIter {
    const k: Kernel
    const minfd: CInt
    /** Negative only after the listing has been exhausted and closed. */
    var dirfd: CInt
    /** The record at each byte offset of the buffer. */
    var buf: map<nat, Dirent>
    var nbytes: nat
    var offset: nat

    /** The descriptors open when the iterator was created. */
    ghost const origin: set<int>
    /** Numbers below this are dealt with: `minfd` at first, then one past the last item. */
    ghost var seen: int
    /** The directory position after the last refill. */
    ghost var horizon: int

    /** The descriptors named by the records not read yet. */
    ghost var pending: seq<int>
    /** The same for every offset at which a record starts, and for the end. */
    ghost var lists: map<nat, seq<int>>

    /** How many items the buffer still holds: the directory itself is not an item. */
    ghost function Buffered(): nat
      reads this
    {
      if dirfd in pending then |pending| - 1 else |pending|
    }

    /** A record, or the end of the buffer, is at `off`, and `rest` is what is listed from there on. */
    ghost predicate At(off: nat, rest: seq<int>)
      reads this`buf, this`nbytes, this`lists
    {
      nbytes <= DIRENT_BUFFER && Tiling(buf, lists, nbytes) && off <= nbytes && off in lists && lists[off] == rest
    }

    /** The buffer is tiled by records and the offset is at one of them, or at the end. */
    ghost predicate Buffer()
      reads this
    {
      At(offset, pending)
    }

    /** The part of the invariant that holds also between two records of one call. */
    ghost predicate Reading()
      reads this
    {
      && Buffer()
      && 0 <= minfd <= seen <= CINT_MAX && dirfd < CINT_MAX
      && LISTING_START <= horizon <= CINT_MAX && (seen == minfd || seen <= horizon)
      && Ascending(pending)
      && (forall f :: f in pending ==>
                        f < horizon && (f < minfd || seen <= f) && (f == dirfd || f in origin))
    }

    /** Between calls, moreover, every buffered entry is at least `minfd`. */
    ghost predicate Local()
      reads this
    {
      Reading() && forall f :: f in pending ==> seen <= f
    }

    /** No open descriptor from `seen` on is lost: it is buffered, or the directory will still list it. */
    ghost predicate InStep()
      reads this, k
    {
      if dirfd >= 0 then
        && dirfd !in origin && k.table.Keys <= origin + {dirfd}
        && (dirfd in k.table ==> dirfd in k.cursors)
        && (dirfd in k.cursors ==> k.cursors[dirfd] == horizon)
        && (forall f :: f in k.table && seen <= f < horizon && f != dirfd ==> f in pending)
      else
        k.table.Keys <= origin && forall f :: f in k.table ==> f < seen
    }

    ghost predicate Valid()
      reads this, k
    {
      k.Valid() && Local() && InStep()
    }

    constructor (k: Kernel, minfd: CInt, dirfd: CInt, ghost origin: set<int>)
      requires k.Valid() && 0 <= minfd && 0 <= dirfd < CINT_MAX
      requires dirfd !in origin && k.table.Keys == origin + {dirfd}
      requires dirfd in k.cursors && k.cursors[dirfd] == LISTING_START
      ensures Valid() && this.k == k && this.minfd == minfd && this.dirfd == dirfd
      ensures this.origin == origin && seen == minfd && pending == []
    {
      this.k, this.minfd, this.dirfd := k, minfd, dirfd;
      this.buf, this.nbytes, this.offset, this.lists := map[], 0, 0, map[0 := []];
      this.origin, this.seen, this.horizon, this.pending := origin, minfd, LISTING_START, [];
    }

    /** The descriptor named by the record at `off`, if any, and the length of that record. */
    method GetEntryInfo(off: nat, ghost rest: seq<int>) returns (fd: Option<CInt>, reclen: nat)
      requires At(off, rest) && off < nbytes
      ensures 0 < reclen
      ensures fd.Some? ==> 0 <= fd.value && rest != [] && fd.value == rest[0] && At(off + reclen, rest[1..])
      ensures fd.None? ==> At(off + reclen, rest)
    {
      assert Place(buf, lists, nbytes, off);
      var entry := buf[off];
      fd := ParseIntBytes(CName(entry.name));
      reclen := entry.reclen;
    }

    lemma AtEnd(off: nat, rest: seq<int>)
      requires At(off, rest) && off >= nbytes
      ensures rest == [] && off == nbytes
    {
      assert Place(buf, lists, nbytes, off);
    }

    /** Puts what was read into the buffer. */
    method Load(recs: seq<Dirent>)
      requires Tiled(recs) && recs != [] && Bytes(recs) <= DIRENT_BUFFER
      modifies this`buf, this`nbytes, this`offset, this`lists, this`pending
      ensures Buffer() && offset < nbytes && pending == Listed(recs)
    {
      LayoutTiles(recs, 0);
      LayoutFrom(recs, 0);
      buf, nbytes, offset := Layout(recs, 0), Bytes(recs), 0;
      lists, pending := ListedFrom(recs, 0), Listed(recs);
    }

    /** Reads more records once all are consumed. */
    method Refill() returns (r: Option<bool>)
      requires k.Valid() && Reading() && InStep() && dirfd >= 0 && offset >= nbytes
      modifies this, k
      ensures k.Valid() && Reading() && InStep()
      ensures k.table == old(k.table) && k.log == old(k.log)
      ensures dirfd == old(dirfd) && seen == old(seen)
      ensures r == Some(true) ==> offset < nbytes && horizon > old(horizon) && old(dirfd in k.cursors) && dirfd in k.cursors
      ensures r == Some(false) ==> horizon == old(horizon) && forall f :: f in k.table ==> f < horizon
      ensures r != Some(true) ==> pending == [] && nbytes == old(nbytes) && offset == old(offset)
      ensures k.listingReliable && old(dirfd in k.cursors) ==> r.Some?
    {
      AtEnd(offset, pending);
      var got := k.Getdents(dirfd);
      if got.DirFailed? {
        return None;
      } else if got.recs == [] {
        return Some(false);
      }
      Load(got.recs);
      horizon := k.cursors[dirfd];
      return Some(true);
    }

    /** Reads the record at the current offset and moves the offset past it. */
    method TakeRecord() returns (fd: Option<CInt>)
      requires Buffer() && offset < nbytes && Ascending(pending)
      modifies this`offset, this`pending
      ensures Buffer() && offset > old(offset) && Ascending(pending)
      ensures fd.None? ==> pending == old(pending)
      ensures fd.Some? ==>
                && 0 <= fd.value && fd.value in old(pending)
                && (forall f :: f in pending ==> fd.value < f && f in old(pending))
                && (forall f :: f in old(pending) ==> f == fd.value || f in pending)
                && |old(pending)| == |pending| + 1
    {
      var reclen;
      fd, reclen := GetEntryInfo(offset, pending);
      offset := offset + reclen;
      if fd.Some? {
        Behead(pending);
        pending := pending[1..];
      }
    }

    /** Consumes one record; its descriptor is an item if it is in range and not the directory itself. */
    method ReadRecord() returns (r: Option<CInt>)
      requires k.Valid() && Reading() && InStep() && dirfd >= 0 && offset < nbytes
      modifies this
      ensures Reading() && InStep()
      ensures dirfd == old(dirfd) && horizon == old(horizon) && nbytes == old(nbytes) && offset > old(offset)
      ensures r.None? ==>
                && seen == old(seen)
                && (old(Local()) ==> Local() && Buffered() == old(Buffered()))
      ensures r.Some? ==>
                && Local() && old(seen) <= r.value < CINT_MAX && seen == r.value + 1
                && r.value != dirfd && r.value in origin
                && Buffered() == old(Buffered()) - 1
                && forall f :: f in k.table && old(seen) <= f < r.value ==> f == dirfd
    {
      r := None;
      var fd := TakeRecord();
      if fd.Some? && fd.value >= minfd && fd.value != dirfd {
        seen, r := fd.value + 1, fd;
      }
    }

    /** Closes the directory once it has nothing more to list. */
    method Finish()
      requires k.Valid() && Reading() && InStep() && dirfd >= 0 && pending == []
      requires forall f :: f in k.table ==> f < horizon
      modifies this, k
      ensures Valid() && dirfd == -1 && seen == old(seen)
      ensures k.table == old(k.table) - {old(dirfd)} && Within(old(k.log), k.log, {old(dirfd)})
      ensures forall f :: f in k.table ==> f < seen
    {
      k.Close(dirfd);
      dirfd := -1;
    }

    /** One turn of the loop in `next`: refills if there is no record left, then consumes one; None means go on. */
    method Step() returns (r: Option<DirNext>)
      requires k.Valid() && Reading() && InStep() && dirfd >= 0
      modifies this, k
      ensures k.Valid() && Reading() && InStep()
      ensures r != Some(End) ==> dirfd == old(dirfd) && k.table == old(k.table) && k.log == old(k.log)
      ensures r.None? ==>
                && seen == old(seen)
                && (horizon > old(horizon) || (horizon == old(horizon) && old(offset) < offset && nbytes == old(nbytes)))
                && (old(Local()) && old(Buffered()) > 0 ==> Local() && Buffered() == old(Buffered()))
      ensures r.Some? && r.value.Item? ==>
                && Local() && old(seen) <= r.value.fd < CINT_MAX && seen == r.value.fd + 1
                && r.value.fd != dirfd && r.value.fd in origin
                && (forall f :: f in k.table && old(seen) <= f < r.value.fd ==> f == dirfd)
                && (old(Buffered()) > 0 ==> Buffered() == old(Buffered()) - 1)
      ensures r == Some(End) ==>
                && Local() && dirfd == -1 && seen == old(seen) && k.table == old(k.table) - {old(dirfd)}
                && Within(old(k.log), k.log, {old(dirfd)}) && (forall f :: f in k.table ==> f < seen)
                && old(Buffered()) == 0
      ensures r == Some(Error) ==> Local() && seen == old(seen) && offset == nbytes && old(Buffered()) == 0
      ensures old(dirfd in k.cursors) && r != Some(End) ==> dirfd in k.cursors
      ensures k.listingReliable && old(dirfd in k.cursors) ==> r != Some(Error)
    {
      if offset >= nbytes {
        AtEnd(offset, pending);
        var more := Refill();
        if more.None? {
          return Some(Error);
        } else if !more.value {
          Finish();
          return Some(End);
        }
      }
      var fd := ReadRecord();
      return if fd.Some? then Some(Item(fd.value)) else None;
    }

    /**
     The next item: the least descriptor not dealt with yet, past which nothing open is skipped. An error
     leaves no record unread. Once exhausted, it stays exhausted and makes no system call.
     */
    method Next() returns (r: DirNext)
      requires k.Valid() && (dirfd < 0 || Valid())
      modifies this, k
      ensures k.Valid() && (old(Valid()) ==> Valid())
      ensures old(dirfd) < 0 ==> r.End? && unchanged(this) && unchanged(k)
      ensures r.Item? ==>
                && old(seen) <= r.fd < CINT_MAX && seen == r.fd + 1
                && r.fd != dirfd && r.fd in origin
                && forall f :: f in k.table && old(seen) <= f < r.fd ==> f == dirfd
      ensures r.End? ==> dirfd < 0
      ensures r.End? && old(Valid()) ==> forall f :: f in k.table ==> f < old(seen)
      ensures r.Error? ==> seen == old(seen) && offset == nbytes && old(Buffered()) == 0
      ensures !r.End? ==> dirfd == old(dirfd) && k.table == old(k.table) && k.log == old(k.log)
      ensures r.End? && old(dirfd) >= 0 ==>
                && dirfd == -1 && seen == old(seen) && k.table == old(k.table) - {old(dirfd)}
                && Within(old(k.log), k.log, {old(dirfd)})
      ensures old(dirfd) >= 0 && old(Buffered()) > 0 ==> r.Item? && Buffered() == old(Buffered()) - 1
      ensures k.listingReliable && old(dirfd in k.cursors) ==>
                !r.Error? && (r.Item? ==> dirfd in k.cursors)
    {
      if dirfd < 0 {
        return End;
      }
      while true
        invariant k.Valid() && Reading() && InStep()
        invariant dirfd == old(dirfd) && seen == old(seen) && k.table == old(k.table) && k.log == old(k.log)
        invariant old(Buffered()) > 0 ==> Buffered() == old(Buffered()) && Local()
        invariant old(dirfd in k.cursors) ==> dirfd in k.cursors
        decreases CINT_MAX - horizon, nbytes - offset
      {
        var step := Step();
        if step.Some? {
          return step.value;
        }
      }
    }

    /** A lower bound, namely the number of buffered items, and an upper bound on the items to come. */
    method SizeHint() returns (low: nat, high: nat)
      requires Buffer() && Ascending(pending) && forall f :: f in pending ==> minfd <= f
      ensures dirfd < 0 ==> low == 0 && high == 0
      ensures dirfd >= 0 ==> low == Buffered() && high == CINT_MAX
    {
      if dirfd < 0 {
        return 0, 0;
      }
      low := 0;
      var off := offset;
      ghost var rest := pending;
      while off < nbytes
        invariant At(off, rest) && Ascending(rest)
        invariant forall f :: f in rest ==> minfd <= f
        invariant low + |rest| - (if dirfd in rest then 1 else 0) == Buffered()
        decreases nbytes - off
      {
        var fd, reclen := GetEntryInfo(off, rest);
        off := off + reclen;
        if fd.Some? {
          Behead(rest);
          assert fd.value in rest && fd.value >= minfd;
          rest := rest[1..];
          if fd.value != dirfd {
            low := low + 1;
          }
        }
      }
      AtEnd(off, rest);
      return low, CINT_MAX;
    }

    /** Closes the directory, if it is still open. */
    method Drop()
      requires k.Valid()
      modifies k
      ensures k.Valid() && k.table == old(k.table) - {dirfd} && k.cursors == old(k.cursors) - {dirfd}
      ensures Within(old(k.log), k.log, {dirfd})
    {
      if dirfd >= 0 {
        k.Close(dirfd);
      }
    }
  }

  /** `DirFdIter::open`: the directory gets some free number, or cannot be opened. */
  method OpenDirIter(k: Kernel, minfd: CInt) returns (it: DirFdIter?)
    requires k.Valid() && 0 <= minfd
    modifies k
    ensures k.Valid() && k.log == old(k.log)
    ensures it == null ==> k.table == old(k.table)
    ensures it != null ==>
              && fresh(it) && it.k == k && it.Valid() && it.minfd == it.seen == minfd
              && it.origin == old(k.table.Keys) && it.pending == []
              && 0 <= it.dirfd && it.dirfd in k.cursors
              && k.table == old(k.table)[it.dirfd := FD_CLOEXEC]
    ensures !k.hasListing || !old(k.HasRoom()) ==> it == null
    ensures k.hasListing && k.listingReliable && old(k.HasRoom()) ==> it != null
  {
    var r := k.OpenListing();
    if r.None? {
      return null;
    }
    it := new DirFdIter(k, minfd, r.value, old(k.table.Keys));
  }

  /** Taking the head off an ascending sequence. */
  lemma Behead(s: seq<int>)
    requires s != [] && Ascending(s)
    ensures s[0] in s && Ascending(s[1..])
    ensures forall f :: f in s[1..] ==> s[0] < f && f in s
    ensures forall f :: f in s ==> f == s[0] || f in s[1..]
  {
  }
}
