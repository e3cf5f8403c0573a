/** The record view of a buffer filled by `getdents`: records laid end to end, read by byte offset. */
module Dirents {
  import opened Base
  import opened Decimal

  /** `d_name` (NUL-terminated inside a larger array) and `d_reclen`. */
  datatype Dirent = Dirent(name: seq<Byte>, reclen: nat)

  /** The bytes of `d_name` before the first NUL. */
  function CName(name: seq<Byte>): (r: seq<Byte>)
    ensures r <= name && 0 !in r && (|r| < |name| ==> name[|r|] == 0)
  {
    if name == [] || name[0] == 0 then [] else
      assert name == [name[0]] + name[1..];
      [name[0]] + CName(name[1..])
  }

  ghost function EntryFd(d: Dirent): Option<int> {
    Parsed(CName(d.name))
  }

  /** The descriptor a single record adds to a listing. */
  ghost function Entry(d: Dirent): seq<int> {
    if EntryFd(d).Some? then [EntryFd(d).value] else []
  }

  /** The descriptors a run of records names, in order; other names are passed over. */
  ghost function Listed(recs: seq<Dirent>): seq<int> {
    if recs == [] then []
    else Entry(recs[0]) + Listed(recs[1..])
  }

  ghost predicate Tiled(recs: seq<Dirent>) {
    forall i :: 0 <= i < |recs| ==> recs[i].reclen > 0
  }

  function Bytes(recs: seq<Dirent>): nat {
    if recs == [] then 0 else recs[0].reclen + Bytes(recs[1..])
  }

  /** Where the records lie in the buffer: the record at each byte offset, if they start at `at`. */
  function Layout(recs: seq<Dirent>, at: nat): map<nat, Dirent> {
    if recs == [] then map[] else Layout(recs[1..], at + recs[0].reclen)[at := recs[0]]
  }

  /** What is listed from each of these offsets on, and from the end. */
  ghost function ListedFrom(recs: seq<Dirent>, at: nat): map<nat, seq<int>> {
    if recs == [] then map[at := []] else ListedFrom(recs[1..], at + recs[0].reclen)[at := Listed(recs)]
  }

  /** At `o`, which lies within the buffer or at its end `n`, a record leads to the next one, unless `o` is the end. */
  ghost predicate Place(buf: map<nat, Dirent>, lists: map<nat, seq<int>>, n: nat, o: nat)
    requires o in lists
  {
    if o == n then lists[o] == []
    else
      && o < n && o in buf
      && var next := o + buf[o].reclen;
         o < next <= n && next in lists && lists[o] == Entry(buf[o]) + lists[next]
  }

  /** Every place is in order; `lists` says what is listed from each of them on. */
  ghost predicate Tiling(buf: map<nat, Dirent>, lists: map<nat, seq<int>>, n: nat) {
    forall o {:trigger Place(buf, lists, n, o)} :: o in lists ==> Place(buf, lists, n, o)
  }

  lemma {:induction false} LayoutFrom(recs: seq<Dirent>, at: nat)
    ensures at in ListedFrom(recs, at) && ListedFrom(recs, at)[at] == Listed(recs)
    ensures forall o :: o in ListedFrom(recs, at) ==> at <= o
  {
    if recs != [] {
      LayoutFrom(recs[1..], at + recs[0].reclen);
    }
  }

  /** A record put in front of a tiled buffer. */
  lemma PrependPlace(buf: map<nat, Dirent>, lists: map<nat, seq<int>>, n: nat, at: nat, d: Dirent)
    requires Tiling(buf, lists, n) && at !in lists && d.reclen > 0 && at + d.reclen in lists
    ensures Tiling(buf[at := d], lists[at := Entry(d) + lists[at + d.reclen]], n)
  {
    var lists1 := lists[at := Entry(d) + lists[at + d.reclen]];
    assert Place(buf, lists, n, at + d.reclen);
    forall o | o in lists1 ensures Place(buf[at := d], lists1, n, o) {
      assert o != at ==> Place(buf, lists, n, o);
    }
  }

  /** Records of positive length, laid end to end, tile the buffer. */
  lemma {:induction false} LayoutTiles(recs: seq<Dirent>, at: nat)
    requires Tiled(recs)
    ensures Tiling(Layout(recs, at), ListedFrom(recs, at), at + Bytes(recs))
  {
    if recs == [] {
      assert Place(map[], map[at := []], at, at);
    } else {
      var next := at + recs[0].reclen;
      LayoutTiles(recs[1..], next);
      LayoutFrom(recs[1..], next);
      PrependPlace(Layout(recs[1..], next), ListedFrom(recs[1..], next), at + Bytes(recs), at, recs[0]);
    }
  }
}
