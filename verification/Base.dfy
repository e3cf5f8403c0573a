/** C integer widths, options, the supported operating systems, and ascending sequences. */
module Base {
  const CINT_MIN: int := -0x8000_0000
  const CINT_MAX: int := 0x7fff_ffff
  const CUINT_MAX: int := 0xffff_ffff

  /** A C `int`: every assignment to it is checked for overflow. */
  type CInt = x: int | CINT_MIN <= x <= CINT_MAX

  /** A C `unsigned int`. */
  type CUInt = x: int | 0 <= x <= CUINT_MAX

  datatype Option<+T> = None | Some(value: T)

  datatype Platform = Linux | FreeBSD | NetBSD | OpenBSD | DragonFly | MacOS | Solaris | Other
  {
    /** Platforms whose descriptor directory (`/proc/self/fd` or `/dev/fd`) the crate knows how to read. */
    predicate HasListing() {
      Linux? || MacOS? || FreeBSD? || NetBSD? || Solaris?
    }

    predicate HasClosefrom() {
      FreeBSD? || NetBSD? || OpenBSD? || DragonFly?
    }

    /** Platforms that can count the open descriptors. */
    predicate HasNfds() {
      FreeBSD? || OpenBSD?
    }
  }

  predicate Ascending(s: seq<int>) {
    forall i, j :: 0 <= i < j < |s| ==> s[i] < s[j]
  }

  predicate Sorted(s: seq<int>) {
    forall i, j :: 0 <= i < j < |s| ==> s[i] <= s[j]
  }

  /** An ascending sequence is determined by its elements. */
  lemma {:induction false} AscendingUnique(a: seq<int>, b: seq<int>)
    requires Ascending(a) && Ascending(b)
    requires forall x :: x in a <==> x in b
    ensures a == b
    decreases |a|
  {
    if a == [] {
      assert forall i :: 0 <= i < |b| ==> b[i] in b;
    } else {
      assert a[0] in b && b != [];
      assert b[0] in a;
      assert a[0] == b[0];
      forall x ensures x in a[1..] <==> x in b[1..] {
        assert x in a <==> x == a[0] || x in a[1..];
        assert x in b <==> x == b[0] || x in b[1..];
      }
      AscendingUnique(a[1..], b[1..]);
      assert a == [a[0]] + a[1..];
      assert b == [b[0]] + b[1..];
    }
  }

  /** How many elements of `s` are below `n`. */
  ghost function CountBelow(s: set<int>, n: int): nat {
    |set f | f in s && f < n|
  }
}
