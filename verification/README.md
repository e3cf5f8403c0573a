# close_fds, verified

A Dafny model of the crate `close_fds`: closing, or marking close-on-exec, every open file descriptor from `minfd` on
except a keep list. The crate picks among one range call, range calls gap by gap, a loop over a descriptor directory,
a loop up to a guessed maximum, and a bulk call for the tail; any of them may fail halfway and hand over to another.
The model proves that they all come to the same one-line specification on the descriptor table, and exactly where they
do not.

## How the model is built

- `Kernel.dfy` is the environment: the table of open descriptors with their flags, directory streams with positions, and
  the system calls. The contracts are loose on purpose (a failing range call may have dealt with any part of its range,
  opening the directory gives any free number or fails, listing may fail at any point), so what is proved of the callers
  holds for every kernel that meets them. Constants say which calls a kernel supports, and which of them fail only for a
  cause (no support, or no free number). A ghost log records which descriptors each call closed or changed; a claim about
  "every state on the way" is a claim about that log. A second one records the range calls as the kernel receives them, and each iterator keeps one of what it has returned.
- `DirFdIter.dfy` and `FdIter.dfy` are the two iterators as classes; `Iteration.dfy` has whole runs of them.
- `KeepList.dfy` is the keep-list algebra, `Ranges.dfy` the range calls with the cached feature flags, `Close.dfy` and
  `Cloexec.dfy` the two drivers, `Runs.dfy` sequences of calls in one process, including probing.
- C integers are subset types, so the absence of overflow is part of what is verified.

The closure passed to `apply_range` is a value of type `RangeOp`, applied by `RangeCall`. Loop bodies and branches of the
long functions are methods of their own (`NextItem`, `VisitItem`, `CloseTurn`, ...).

What the code relies on, and the model therefore assumes:

- Single-threaded use: the table changes only through the modelled calls.
- The directory lists open descriptors in ascending order, in records of positive length that tile the returned bytes, and
  an empty read means that none is left at or past the position.
- Descriptor numbers are below the largest C `int`; `closefrom`, where it exists, does not fail.
- A list passed as sorted is sorted, and a sorted list does not contain the largest C `int`. `KeepLists.GapsOverflow`
  shows that this is exactly what keeps the last range from being empty; if it is violated, an unchecked build would
  issue an empty range and wrongly give up the feature.
- The maximum-descriptor loop reaches no further than the clamped limit (1023 to 65535), or, on NetBSD with a working
  `F_MAXFD`, everything. The crate's own README says the loop "will always work" and that closing "always succeeds";
  the code does not bear that out. `Closes.CloseFrom` and `Cloexecs.CloexecFrom` state the exact condition, in terms of
  what a caller can know beforehand: for every kernel whose calls fail only for a cause, and also where a call may fail
  without one but only the loop is possible. (If a call may or may not fail, the outcome is not a function of the state
  before; what is then sure is stated.) `Runs.ClosingLeaks`, `Runs.MarkingMisses` and `Runs.LeakPastTheClamp` say for a
  few descriptors on which systems one is missed. Never touching a kept descriptor needs none of this.

## Model

| member | source | states |
|---|---|---|
| `Closes.CloseFrom` | src/closefds/mod.rs:118-124 | For every platform, keep list, `minfd` (negative ones included), flag history and point of failure: in no state on the way has a kept descriptor or one below `minfd` been closed; in the end these are open with their flags, the temporary directory is gone, and any other descriptor left is at least 1024 and at least the limit on open files or 65536, and past the loop's reach. If no call fails without cause, the table is exactly the survivors if and only if no target is that large, or the platform has a means: a table over the eight platforms says which (working range calls, a `closefrom` that applies or that the loop gets to, a directory, NetBSD's exact bound). Whatever may fail: exactly the survivors if a sure means is open; and where only the loop can have any effect, everything past the limit stays |
| `Closes.CloseFds` | src/closefds/close.rs:6-51 | The same as progress on the table, across simplification, shortcut, a shortcut that failed after some gaps, and the iterator loop; with the same sure ways, and the same case in which everything past the limit stays |
| `Closes.CloseFdsShortcut` | src/closefds/close.rs:184-230 | Success means that every target is closed, failure at any point that only targets were; it is sure to succeed where a bulk call applies and works (`closefrom` on FreeBSD, NetBSD, OpenBSD and DragonFly, range calls on Linux and FreeBSD), and fails with the table untouched where none applies, or where the one that applies is not supported or is known to be absent; with nothing kept, Linux gets one range up to the largest C `unsigned int` |
| `Closes.CloseSimplified` | src/closefds/close.rs:19-51 | The hand-over from a failed shortcut to the iterator keeps everything achieved, and targets already closed may be reused as the directory's number; what is sure to be closed, and what is sure to stay, is that of both halves together |
| `Closes.CloseLoop` | src/closefds/close.rs:37-51 | The loop closes every target up to its reach whatever the iterator does, using only the advancing cursor for membership; if the tail call is sure and the last kept descriptor is within reach, every target however large |
| `Closes.CloseItem` | src/closefds/close.rs:46-49 | An item is closed exactly if it is not kept, nothing else is, and the iterator stays usable |
| `Closes.NextItem` | src/closefds/close.rs:40 | Between two items no target stays open behind the loop, and at the end only those past the reach, or none in directory mode |
| `Closes.CloseTurn` | src/closefds/close.rs:40-50 | One turn: a larger item than all kept ones hands everything from it on to the rest, a smaller one is dealt with and the cursor moves on, and the end of the items drops the iterator; each keeps or completes the progress |
| `Closes.CloseRest` | src/closefds/close.rs:53-87 | From an item past all kept ones on: the progress below stays, the directory goes, what target stays is past the reach; none stays if the tail call or the directory is sure, and everything past the limit stays if there is only the loop |
| `Closes.ClosefromTail` | src/closefds/close.rs:61-64 | The iterator is dropped first, and the last call then closes everything open from the item on, the directory no longer being among it |
| `Closes.RangeTail` | src/closefds/close.rs:66-79 | Whatever part of the tail a failing range call has closed, the directory included, the iterator can go on and misses nothing; a call that is not there changes nothing |
| `Closes.CloseTail` | src/closefds/close.rs:80-84 | Closing item by item to the end of the iterator, with the same guarantees |
| `Closes.ClosingDone` | src/closefds/close.rs:6-51 | Completed progress is the set specification, flags included |
| `Ranges.TryCloseRange` | src/closefds/close.rs:93-113 | Full effect on success, partial on failure, only inside a non-empty range; the flag is cleared exactly by failure, which on a kernel that accepts valid ranges means the call is absent |
| `Ranges.CheckHasCloseRange` | src/closefds/close.rs:116-160 | The answer is remembered and never claims a call that is not there, so the process cannot be killed for an unknown call |
| `Ranges.TryCloseRangeFreeBSD` | src/closefds/close.rs:163-180 | The same effects, issued only where the call is known to exist |
| `Runs.ProbeClose` | src/closefds/close.rs:233-252 | Issues one empty range, touches no descriptor, and keeps the flag exactly if the answer is EINVAL; on a kernel that accepts valid ranges that means actual support |
| `Ranges.SetCloexecRange` | src/closefds/cloexec.rs:11-28 | Marks the range, on failure part of it, closes nothing, clears its own flag exactly on failure |
| `Cloexecs.SetCloexecShortcut` | src/closefds/cloexec.rs:32-49 | Success means that every target is marked, failure that only targets were; sure to succeed where supported and applicable, and fails with the table untouched where the call is not tried, does not apply or is not supported |
| `Cloexecs.SetFdsCloexec` | src/closefds/cloexec.rs:51-84 | Marking as progress on the table, across simplification, shortcut and loop; with the sure ways, and the case in which nothing past the limit changes |
| `Cloexecs.MarkLoop` | src/closefds/cloexec.rs:71-84 | The loop marks every target up to its reach, and every target if the tail call is sure and the last kept descriptor is within reach, or if the directory is sure |
| `Cloexecs.MarkRest` | src/closefds/cloexec.rs:86-101 | Everything from an item past all kept ones on is marked, by one call or one by one after a partial failure |
| `Cloexecs.MarkItem` | src/closefds/cloexec.rs:79-82 | An item is marked exactly if it is not kept, and nothing else changes |
| `Cloexecs.CloexecFrom` | src/closefds/mod.rs:87-93 | The open set never changes, kept descriptors and those below `minfd` (negative or not) never lose or gain a flag in any state on the way, and a target is marked and keeps its other flags, or is past the loop's reach and the limit on open files, and keeps all. If no call fails without cause, exactly the targets are marked if and only if those past the limit were marked before, or the platform has a means, again by a table over the eight platforms. Whatever may fail: exactly the targets if a sure means is open; and where only the loop can have any effect, nothing past the limit changes |
| `Cloexecs.MarkingDone` | src/closefds/cloexec.rs:51-84 | Completed progress is the specification |
| `Cloexecs.ExecAgrees` | examples/command-close.rs:38-41 | What survives an `exec` is the same whether the targets were marked or closed |
| `Runs.MarkOrClose` | examples/command-close.rs:38-41 | The two drivers run on equal tables under coverage: one marks exactly the targets, the other leaves exactly the survivors, and what survives `exec` is the same |
| `Cloexecs.SetCloexec` | src/util.rs:165-174 | Sets the close-on-exec bit of an open descriptor, and makes no changing call if it is not open or marked already |
| `Kernels.MarkedKeepsOtherBits` | src/util.rs:168-172 | Marking changes no other flag bit |
| `Runs.ProbeCloexec` | src/closefds/cloexec.rs:104-111 | Touches no descriptor and leaves the flag equal to its old value and actual support |
| `Runs.Probe` | src/closefds/mod.rs:208-211 | After probing, each flag equals actual support |
| `Runs.Session` | src/closefds/close.rs:89-113 | Over any run of closing, marking and probing calls in one process, the table follows the composed specification under coverage, and no feature that is present is ever given up by a kernel that accepts valid ranges |
| `Runs.ClosingLeaks` | src/iterfds/fditer.rs:63-68 | Two descriptors, nothing kept, the first call of a process: platform by platform exactly which systems leave the larger one open, for every limit on open files |
| `Runs.MarkingMisses` | src/iterfds/fditer.rs:63-68 | The same for marking |
| `Runs.LeakPastTheClamp` | src/iterfds/fditer.rs:63-68 | With a kept descriptor between the two and neither range calls nor a directory: where `closefrom` exists the larger one leaks exactly if the kept one is the last number the loop goes through, or larger; elsewhere exactly if it is itself past the limit |
| `KeepLists.EmptyKeep` | src/closefds/mod.rs:143-149 | The empty list satisfies the invariant relating maximum, order and elements |
| `KeepLists.NewKeep` | src/closefds/mod.rs:152-155 | For any list, maximum and sortedness are as recorded |
| `KeepLists.NewKeepSorted` | src/closefds/mod.rs:158-164 | For a sorted list, the last element is the maximum |
| `KeepLists.InspectKeepFds` | src/util.rs:1-22 | The maximum, and sorted if and only if sorted, from one pass that compares only when no new maximum is seen |
| `KeepLists.SimplifyKeepFds` | src/util.rs:24-58 | The targets stay the same, the result is a suffix, and for a sorted list `minfd` becomes the least number not kept, below all that remains; no overflow |
| `KeepLists.RestNonEmpty` | src/closefds/close.rs:218 | If the maximum is not below the raised `minfd`, the simplified sorted list is not empty |
| `KeepLists.CheckShouldKeep` | src/util.rs:60-77 | Exact membership; the cursor moves to the first element not below the query, if there is one, and still answers for every later descriptor |
| `KeepLists.AnswerQueries` | src/util.rs:60-77 | Any nondecreasing run of queries gets the answers of membership in the original list, duplicates included |
| `KeepLists.GapsAreRuns` | src/util.rs:132-163 | The ranges gone through are the maximal runs of targets up to the largest C `int`: non-empty, ascending, disjoint, not extendable, and covering every target |
| `KeepLists.RunsUnique` | src/util.rs:132-163 | There is only one such sequence of ranges |
| `KeepLists.GapsOverflow` | src/util.rs:162 | The ranges are all non-empty if and only if the largest C `int` is not kept |
| `Ranges.ApplyRange` | src/util.rs:132-163 | The range calls the kernel receives are that sequence on success and a non-empty prefix of it on failure; targets are dealt with accordingly, none if the call is not supported, and nothing else is touched in any state on the way |
| `Ranges.RangeStep` | src/util.rs:145-162 | A call on a range of targets is progress, complete up to its end if it succeeds where the last one ended |
| `Decimal.ParseIntBytes` | src/iterfds/dirfd.rs:51-71 | Some(n) exactly for non-empty strings of ASCII digits whose positional value n is at most 2147483647 |
| `Decimal.ValueIsPlaceValue` | src/iterfds/dirfd.rs:57-59 | Multiplying up digit by digit gives the sum of each digit times its power of ten |
| `Decimal.ParseSamples` | src/iterfds/dirfd.rs:352-362 | The strings of the crate's own test, byte by byte, give the results it expects |
| `Decimal.PrefixValue` | src/iterfds/dirfd.rs:57-59 | A prefix never denotes more than the whole, so an overflow on the way is final |
| `Decimal.ParseInvertsPrint` | src/iterfds/dirfd.rs:51-71 | Parsing inverts decimal printing on every C `int`, and refuses every larger number |
| `Decimal.PrintInvertsParse` | src/iterfds/dirfd.rs:51-71 | Printing inverts parsing exactly on the numerals without leading zeros |
| `DirFdIters.OpenDirIter` | src/iterfds/dirfd.rs:183-195 | A fresh number that was not open, or nothing changed |
| `DirFdIters.DirFdIter.GetEntryInfo` | src/iterfds/dirfd.rs:199-212 | The descriptor named by the record at the offset, and a length that leads to the next record within the buffer |
| `DirFdIters.DirFdIter.Next` | src/iterfds/dirfd.rs:215-266 | Terminates; items ascend from `minfd`, are never the directory itself, and nothing open is skipped, across refills and closings; an error leaves no buffered item; the end closes the directory and is final |
| `DirFdIters.DirFdIter.SizeHint` | src/iterfds/dirfd.rs:269-300 | The lower bound is the number of buffered items, all of them at least `minfd` |
| `DirFdIters.DirFdIter.Drop` | src/iterfds/dirfd.rs:303-313 | Closes the directory if it is open and touches nothing else, also after it was closed in bulk |
| `FdIters.NfdsToMaxfd` | src/iterfds/fditer.rs:108-164 | For any count, the result is the count-th open descriptor if below twice the count; for the true count there is a result exactly if it is zero, or below 100 with every descriptor below twice the count, and it is then the largest open descriptor or -1 |
| `FdIters.CountBelowAll` | src/iterfds/fditer.rs:128-139 | Counting below a bound finds all descriptors exactly if all are below it |
| `FdIters.FdIter.GetMaxfdDirect` | src/iterfds/fditer.rs:34-69 | Where NetBSD's `F_MAXFD` does not exist, and counting is not possible, not wanted or cannot help, the bound is one below the limit on open files, within 1023 and 65535; it is the largest open descriptor where NetBSD can tell, or where FreeBSD or OpenBSD count and the descriptors are dense enough; it always is that limit or at least every open descriptor |
| `FdIters.FdIter.NextInRange` | src/iterfds/fditer.rs:223-240 | The least open number from the cursor to the bound, or simply the next number in possible mode; none exactly past the bound |
| `FdIters.FdIter.NextInDir` | src/iterfds/fditer.rs:201-221 | The directory's part: an item with nothing open skipped before it, the end, or an error that drops the directory and leaves the cursor where it was |
| `FdIters.FdIter.Next` | src/iterfds/fditer.rs:191-241 | Only the directory is ever closed; items ascend, are never the directory in use, and skip nothing open; without an item whatever is still open is past the loop bound; after the end it stays ended and makes no call |
| `FdIters.FdIter.SizeHint` | src/iterfds/fditer.rs:243-274 | The number of buffered items, or the distance to the cached bound; `Iteration.HintHolds` says what they are worth |
| `FdIters.FdIter.Drop` | src/iterfds/fditer.rs:217-219 | Closes the directory and nothing else |
| `FdIters.IterFrom` | src/iterfds/mod.rs:143-169 | A valid iterator at `minfd`, or at 0 if that is negative, with every open descriptor still open and the directory, if any, on a number that was free; on Linux, macOS, FreeBSD, NetBSD and Solaris a directory that may be used and can be opened is, elsewhere none |
| `Iteration.IterateWhileClosing` | src/iterfds/mod.rs:30-33 | Every descriptor open at the start, from `minfd` on and within reach, is yielded exactly once in ascending order unless the client closes it first, across refills, an error that switches to the loop, and even if the client closes the directory; in particular if the client only closes what it was given. No descriptor is out of reach if the directory is sure to be listed and the client closes only what it was given, or only what was open at the start; and items never pass the clamped limit where only the loop is possible |
| `Iteration.Drain` | src/iterfds/fditer.rs:191-241 | The same from any iterator state, without a limit if the directory can be read and the client leaves it alone; in the end only the directory and what the client closed are gone |
| `Iteration.HintHolds` | src/iterfds/fditer.rs:243-274 | In every valid iterator state, the hint taken there bounds the number of items that the iterator then returns up to its end, while the client closes what it likes; in possible mode the items are exactly the numbers from the cursor to the bound, and as many as the hint says once the bound is known |
| `Iteration.PollAfterEnd` | src/iterfds/fditer.rs:287 | Fusedness: after the end every call of the iterator returns nothing, however the table changes between the calls |
| `Iteration.Collect` | tests/test_close_fds.rs:412-415 | On a table nobody changes, directory and loop alike give ascending open descriptors from `minfd` on, and all of them if the directory is sure or none is past the reach; where listing fails only for a cause, if and only if |
| `Iteration.ListingUnique` | tests/test_close_fds.rs:412-415 | There is only one such list |
| `Iteration.MinOpen` | src/iterfds/fditer.rs:276-279 | The first item is the least open descriptor from `minfd` on, negative or not; without one, any that is open is past the reach, and there is none if the directory is sure; the table is as before |
| `Iteration.MaxOpenFrom` | src/iterfds/fditer.rs:281-284 | The last item is the largest of those within reach, or of all if the directory is sure |

## Left out

- `Closes.CloseFrom`: requires that a list held to be sorted does not contain the largest C `int`, because the code adds one to its elements.
- `Cloexecs.CloexecFrom`: requires the same, for the same reason.
- The raw system calls and their bindings for each operating system, represented by the contracts in `Kernel.dfy`.
- How the descriptor directory is found and trusted (device check on FreeBSD, WSL 1 detection): opening it succeeds on a free number or fails.
- The byte layout of directory records; the model's buffer maps the byte offset at which a record starts to that record.
- Races with other threads, memory ordering of the atomics, and async-signal-safety, which the crate leaves to its callers.
- The once-only guard of `probe_features`, the builder setters and the convenience wrappers, which only forward.
- The 32-bit wrap-around of an unchecked build when the largest C `int` is kept in a sorted list; only the exact condition for it is stated, by `KeepLists.GapsOverflow`.
- Calls that only read (flags of a descriptor, counting, the version query) leave no trace, so how often they are made is not stated; that counting is skipped where `closefrom` exists is a precondition of `Closes.CloseLoop`.
- Failures of `close` on an open descriptor (such as EINTR or EIO): an open descriptor is always closed.
