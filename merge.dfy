/**
 * The merge engine, `mergeLibraries`: fold the remote library into a copy of
 * the local one. A remote book whose id is new is appended; one equal to the
 * book already there under its id adds nothing; one that differs is appended
 * as a conflict copy under a fresh id. Local books are never removed or
 * changed.
 *
 * The conflict id in the source is 'b_conflict_' followed by a clock reading
 * and a random suffix; here `clock(i)` is that text for the i-th remote book.
 */
module Merge {
  import opened Keyed
  import opened Library

  const ConflictIdPrefix := "b_conflict_"

  const ConflictTitleSuffix := " [云端副本]"

  /** What `mergeLibraries` returns. */
  datatype MergeResult = MergeResult(mergedList: seq<Book>, addedCount: nat, newBooks: nat, conflicts: nat)

  /** The loop's state after some remote books: `merged` and the two counters. */
  datatype Progress = Progress(merged: seq<Book>, newBooks: nat, conflicts: nat)

  /** The copy of a diverging remote book: same chapters and `isOpen`, a new
      id and the conflict marker after its title. Its title is longer, so the
      copy never equals the remote book it was made from. */
  function ConflictCopy(remote: Book, stamp: string): (c: Book)
    ensures c != remote
    ensures c.id == ConflictIdPrefix + stamp && c.chapters == remote.chapters && c.isOpen == remote.isOpen
  {
    var c := remote.(id := ConflictIdPrefix + stamp, title := remote.title + ConflictTitleSuffix);
    assert |c.title| > |remote.title|;
    c
  }

  /** One turn of the `forEach` over the remote books: at most one book is
      appended, and the counters grow by exactly what was appended. */
  function Step(p: Progress, remoteBook: Book, stamp: string): (q: Progress)
    ensures |p.merged| <= |q.merged| <= |p.merged| + 1
    ensures p.newBooks <= q.newBooks && p.conflicts <= q.conflicts
    ensures |q.merged| + p.newBooks + p.conflicts == |p.merged| + q.newBooks + q.conflicts
  {
    match FirstIndex(p.merged, BookId, remoteBook.id)
    case None => Progress(p.merged + [remoteBook], p.newBooks + 1, p.conflicts)
    case Some(k) =>
      if p.merged[k] == remoteBook then p
      else Progress(p.merged + [ConflictCopy(remoteBook, stamp)], p.newBooks, p.conflicts + 1)
  }

  /** The state once the first `n` remote books have been visited; each turn
      added at most one book. */
  function MergePrefix(local: seq<Book>, remote: seq<Book>, clock: nat -> string, n: nat): (p: Progress)
    requires n <= |remote|
    ensures |local| <= |p.merged| <= |local| + n
  {
    if n == 0 then Progress(local, 0, 0)
    else Step(MergePrefix(local, remote, clock, n - 1), remote[n - 1], clock(n - 1))
  }

  /** The result of merging all of `remote` into `local`: the local list is
      an unchanged prefix, followed by `addedCount` books, and every remote
      book's id is present. */
  function Merged(local: seq<Book>, remote: seq<Book>, clock: nat -> string): (r: MergeResult)
    ensures r.addedCount == r.newBooks + r.conflicts <= |remote|
    ensures |r.mergedList| == |local| + r.addedCount && r.mergedList[..|local|] == local
  {
    var p := MergePrefix(local, remote, clock, |remote|);
    MergeGrowth(local, remote, clock, |remote|);
    MergeResult(p.merged, p.newBooks + p.conflicts, p.newBooks, p.conflicts)
  }

  /** `mergeLibraries(localList, remoteList)`. */
  method MergeLibraries(localList: seq<Book>, remoteList: seq<Book>, clock: nat -> string) returns (result: MergeResult)
    ensures result == Merged(localList, remoteList, clock)
    ensures result.addedCount == result.newBooks + result.conflicts
    ensures |result.mergedList| == |localList| + result.addedCount
    ensures result.mergedList[..|localList|] == localList
    ensures result.addedCount <= |remoteList|
  {
    var merged := localList;
    var newBooks, conflicts := 0, 0;
    for i := 0 to |remoteList|
      invariant Progress(merged, newBooks, conflicts) == MergePrefix(localList, remoteList, clock, i)
    {
      var remoteBook := remoteList[i];
      var found := FirstIndex(merged, BookId, remoteBook.id);
      if found.None? {
        merged := merged + [remoteBook];
        newBooks := newBooks + 1;
      } else {
        var localBook := merged[found.value];
        if localBook != remoteBook {
          merged := merged + [ConflictCopy(remoteBook, clock(i))];
          conflicts := conflicts + 1;
        }
      }
    }
    MergeGrowth(localList, remoteList, clock, |remoteList|);
    result := MergeResult(merged, newBooks + conflicts, newBooks, conflicts);
  }

  // ------------------------------------------------------------------ shape

  /** `merged` only ever grows at the end: every earlier state is a prefix of
      every later one. */
  lemma {:induction false} MergeMonotone(local: seq<Book>, remote: seq<Book>, clock: nat -> string, m: nat, n: nat)
    requires m <= n <= |remote|
    ensures var before := MergePrefix(local, remote, clock, m).merged;
            var after := MergePrefix(local, remote, clock, n).merged;
            |before| <= |after| && after[..|before|] == before
  {
    if m < n {
      MergeMonotone(local, remote, clock, m, n - 1);
      var p := MergePrefix(local, remote, clock, n - 1);
      var q := MergePrefix(local, remote, clock, n);
      assert q.merged[..|p.merged|] == p.merged;
    }
  }

  /** The local list is an unchanged prefix of the result, which is longer by
      exactly the number of new books plus conflict copies, one at most per
      remote book. */
  lemma {:induction false} MergeGrowth(local: seq<Book>, remote: seq<Book>, clock: nat -> string, n: nat)
    requires n <= |remote|
    ensures var p := MergePrefix(local, remote, clock, n);
            && |p.merged| == |local| + p.newBooks + p.conflicts
            && p.merged[..|local|] == local
            && p.newBooks + p.conflicts <= n
  {
    if n > 0 {
      MergeGrowth(local, remote, clock, n - 1);
      MergeMonotone(local, remote, clock, n - 1, n);
      var p := MergePrefix(local, remote, clock, n - 1);
      var q := MergePrefix(local, remote, clock, n);
      assert q.merged[..|local|] == p.merged[..|local|];
    }
  }

  // ---------------------------------------------------------- nothing lost

  /** One turn either finds the remote book already there and adds nothing,
      or appends the book itself, or appends its conflict copy. */
  lemma StepCases(p: Progress, r: Book, stamp: string)
    ensures var q := Step(p, r, stamp).merged;
            || (q == p.merged && r in p.merged)
            || q == p.merged + [r]
            || q == p.merged + [ConflictCopy(r, stamp)]
  {
    match FirstIndex(p.merged, BookId, r.id)
    case None =>
    case Some(k) => if p.merged[k] == r { assert r in p.merged; }
  }

  /** The remote book, or its conflict copy, is in `m`. */
  predicate Kept(r: Book, stamp: string, m: seq<Book>) {
    r in m || ConflictCopy(r, stamp) in m
  }

  /** A turn keeps what was kept before and keeps its own remote book. */
  lemma StepKeeps(p: Progress, r: Book, stamp: string, r': Book, stamp': string)
    ensures Kept(r', stamp', p.merged) ==> Kept(r', stamp', Step(p, r, stamp).merged)
    ensures Kept(r, stamp, Step(p, r, stamp).merged)
  {
    var m := Step(p, r, stamp).merged;
    StepCases(p, r, stamp);
    if m != p.merged {
      assert m[|p.merged|] in m;
      assert forall x :: x in p.merged ==> x in m;
    }
  }

  /** No data is lost: every remote book ends up in the result, as itself or
      as its conflict copy. (Every local book stays, by MergeGrowth.) */
  lemma {:induction false} MergeKeepsRemote(local: seq<Book>, remote: seq<Book>, clock: nat -> string, n: nat)
    requires n <= |remote|
    ensures forall i :: 0 <= i < n ==> Kept(remote[i], clock(i), MergePrefix(local, remote, clock, n).merged)
  {
    if n > 0 {
      MergeKeepsRemote(local, remote, clock, n - 1);
      var p := MergePrefix(local, remote, clock, n - 1);
      forall i | 0 <= i < n ensures Kept(remote[i], clock(i), MergePrefix(local, remote, clock, n).merged) {
        StepKeeps(p, remote[n - 1], clock(n - 1), remote[i], clock(i));
      }
    }
  }

  /** `b` is one of the first `n` remote books or the conflict copy of one. */
  predicate FromRemote(b: Book, remote: seq<Book>, clock: nat -> string, n: nat) {
    exists i :: 0 <= i < n && i < |remote| && (b == remote[i] || b == ConflictCopy(remote[i], clock(i)))
  }

  /** Nothing but remote material is added: each book past the local prefix is
      a remote book or the conflict copy of one. */
  lemma {:induction false} MergeAddsOnlyRemote(local: seq<Book>, remote: seq<Book>, clock: nat -> string, n: nat)
    requires n <= |remote|
    ensures var m := MergePrefix(local, remote, clock, n).merged;
            forall j :: |local| <= j < |m| ==> FromRemote(m[j], remote, clock, n)
  {
    if n > 0 {
      MergeAddsOnlyRemote(local, remote, clock, n - 1);
      var pm := MergePrefix(local, remote, clock, n - 1).merged;
      var m := MergePrefix(local, remote, clock, n).merged;
      MergeGrowth(local, remote, clock, n - 1);
      StepCases(MergePrefix(local, remote, clock, n - 1), remote[n - 1], clock(n - 1));
      forall j | |local| <= j < |m| ensures FromRemote(m[j], remote, clock, n) {
        if j < |pm| {
          assert m[j] == pm[j];
          assert FromRemote(pm[j], remote, clock, n - 1);
          var i :| 0 <= i < n - 1 && i < |remote| && (pm[j] == remote[i] || pm[j] == ConflictCopy(remote[i], clock(i)));
        } else {
          assert m[j] == remote[n - 1] || m[j] == ConflictCopy(remote[n - 1], clock(n - 1));
        }
      }
    }
  }

  // ----------------------------------------------------------------- no-ops

  /** A remote library whose every book equals the book `find` returns for
      its id locally adds nothing: the result is the local library. */
  lemma {:induction false} MergeKnownIsNoOp(local: seq<Book>, remote: seq<Book>, clock: nat -> string, n: nat)
    requires n <= |remote|
    requires forall i :: 0 <= i < |remote| ==>
               HasBook(local, remote[i].id) && local[BookIndex(local, remote[i].id)] == remote[i]
    ensures MergePrefix(local, remote, clock, n) == Progress(local, 0, 0)
  {
    if n > 0 {
      MergeKnownIsNoOp(local, remote, clock, n - 1);
    }
  }

  /** Merging a library whose book ids are unique with itself adds nothing. */
  lemma SelfMergeIsNoOp(lib: seq<Book>, clock: nat -> string)
    requires UniqueKeys(lib, BookId)
    ensures Merged(lib, lib, clock) == MergeResult(lib, 0, 0, 0)
  {
    forall i | 0 <= i < |lib|
      ensures HasBook(lib, lib[i].id) && lib[BookIndex(lib, lib[i].id)] == lib[i]
    {
      assert BookId(lib[i]) == lib[i].id;
    }
    MergeKnownIsNoOp(lib, lib, clock, |lib|);
  }

  // ---------------------------------------------------------- single books

  /** Merging one remote book: with an id the local list lacks it is appended
      as a new book; equal to the local book under its id it adds nothing;
      otherwise one copy is appended that has the remote book's chapters and
      `isOpen`, the id 'b_conflict_' + stamp and the remote title followed by
      the conflict marker, and it counts as a conflict. */
  lemma MergeOneBook(local: seq<Book>, r: Book, clock: nat -> string)
    ensures !HasBook(local, r.id) ==> Merged(local, [r], clock) == MergeResult(local + [r], 1, 1, 0)
    ensures HasBook(local, r.id) && local[BookIndex(local, r.id)] == r ==>
              Merged(local, [r], clock) == MergeResult(local, 0, 0, 0)
    ensures HasBook(local, r.id) && local[BookIndex(local, r.id)] != r ==>
              var res := Merged(local, [r], clock);
              && res.addedCount == 1 && res.newBooks == 0 && res.conflicts == 1
              && |res.mergedList| == |local| + 1 && res.mergedList[..|local|] == local
              && res.mergedList[|local|].id == ConflictIdPrefix + clock(0)
              && res.mergedList[|local|].title == r.title + ConflictTitleSuffix
              && res.mergedList[|local|].chapters == r.chapters
              && res.mergedList[|local|].isOpen == r.isOpen
  {
    assert [r][0] == r;
    assert MergePrefix(local, [r], clock, 1) == Step(Progress(local, 0, 0), r, clock(0));
    if HasBook(local, r.id) {
      assert FirstIndex(local, BookId, r.id) == Some(BookIndex(local, r.id));
    }
    if HasBook(local, r.id) && local[BookIndex(local, r.id)] != r {
      assert (local + [ConflictCopy(r, clock(0))])[..|local|] == local;
    }
  }

  /** Lookup runs against the growing list: of two remote books with the
      same new id, the first is appended and the second is compared with it. */
  lemma DuplicateRemoteId(local: seq<Book>, r1: Book, r2: Book, clock: nat -> string)
    requires !HasBook(local, r1.id) && r2.id == r1.id
    ensures Merged(local, [r1, r2], clock) ==
              if r2 == r1 then MergeResult(local + [r1], 1, 1, 0)
              else MergeResult(local + [r1, ConflictCopy(r2, clock(1))], 2, 1, 1)
  {
    assert [r1, r2][0] == r1 && [r1, r2][1] == r2;
    assert FirstIndex(local, BookId, r1.id) == None;
    assert MergePrefix(local, [r1, r2], clock, 0) == Progress(local, 0, 0);
    var p := MergePrefix(local, [r1, r2], clock, 1);
    assert p == Progress(local + [r1], 1, 0);
    var m := local + [r1];
    assert m[|local|] == r1;
    forall j | 0 <= j < |local| ensures m[j].id != r1.id {
      assert m[j] == local[j];
    }
    assert FirstIndex(m, BookId, r2.id) == Some(|local|);
    assert m + [ConflictCopy(r2, clock(1))] == local + [r1, ConflictCopy(r2, clock(1))];
  }

  /** Remote books with unique ids none of which the local list uses are all
      appended, in order, as new books. */
  lemma {:induction false} DisjointMergeAppendsAll(local: seq<Book>, remote: seq<Book>, clock: nat -> string, n: nat)
    requires n <= |remote|
    requires UniqueKeys(remote, BookId)
    requires forall i :: 0 <= i < |remote| ==> !HasBook(local, remote[i].id)
    ensures MergePrefix(local, remote, clock, n) == Progress(local + remote[..n], n, 0)
  {
    if n > 0 {
      DisjointMergeAppendsAll(local, remote, clock, n - 1);
      var m := local + remote[..n - 1];
      var r := remote[n - 1];
      forall j | 0 <= j < |m| ensures BookId(m[j]) != r.id {
        if j >= |local| {
          assert m[j] == remote[j - |local|];
        } else {
          assert m[j] == local[j];
        }
      }
      assert FirstIndex(m, BookId, r.id).None?;
      assert m + [r] == local + remote[..n];
    }
  }

  /** The merge is not idempotent: while a diverging remote book stays on the
      remote side, merging it again (on the next sync, before an upload has
      replaced the remote file) appends another conflict copy. */
  lemma RepeatedMergeCopiesAgain(local: seq<Book>, r: Book, clock1: nat -> string, clock2: nat -> string)
    requires HasBook(local, r.id) && local[BookIndex(local, r.id)] != r
    ensures var once := Merged(local, [r], clock1).mergedList;
            var twice := Merged(once, [r], clock2);
            twice.conflicts == 1 && |twice.mergedList| == |local| + 2
  {
    MergeOneBook(local, r, clock1);
    var once := Merged(local, [r], clock1).mergedList;
    assert once == local + [ConflictCopy(r, clock1(0))];
    FirstIndexAppend(local, [ConflictCopy(r, clock1(0))], BookId, r.id);
    MergeOneBook(once, r, clock2);
  }

  // ------------------------------------------------------------ well formed

  /** Ids in a list of books. */
  function Ids(s: seq<Book>): set<string> {
    set j | 0 <= j < |s| :: s[j].id
  }

  /** Conflict ids the first `n` turns of the loop could have used. */
  function StampIds(clock: nat -> string, n: nat): set<string> {
    set i | 0 <= i < n :: ConflictIdPrefix + clock(i)
  }

  /** The clock and random source give conflict ids that no book on either
      side uses and that differ from each other. */
  predicate FreshStamps(local: seq<Book>, remote: seq<Book>, clock: nat -> string) {
    && (forall i :: 0 <= i < |remote| ==> ConflictIdPrefix + clock(i) !in Ids(local) + Ids(remote))
    && (forall i, j :: 0 <= i < j < |remote| ==> clock(i) != clock(j))
  }

  lemma ConflictIdInjective(a: string, b: string)
    requires ConflictIdPrefix + a == ConflictIdPrefix + b
    ensures a == b
  {
    assert a == (ConflictIdPrefix + a)[|ConflictIdPrefix|..];
    assert b == (ConflictIdPrefix + b)[|ConflictIdPrefix|..];
  }

  lemma IdsAppend(s: seq<Book>, b: Book)
    ensures Ids(s + [b]) == Ids(s) + {b.id}
  {
    var t := s + [b];
    assert t[|s|] == b;
    forall x | x in Ids(s) ensures x in Ids(t) {
      var j :| 0 <= j < |s| && s[j].id == x;
      assert t[j] == s[j];
    }
  }

  lemma NotInIds(s: seq<Book>, id: string)
    requires id !in Ids(s)
    ensures !HasBook(s, id)
  {
    forall j | 0 <= j < |s| ensures BookId(s[j]) != id {
      assert s[j].id in Ids(s);
    }
  }

  /** One turn keeps the library invariant, provided the conflict id it may
      use is not taken, and it adds at most the remote id or the conflict id. */
  lemma StepKeepsWellFormed(p: Progress, r: Book, stamp: string)
    requires WellFormed(p.merged) && UniqueKeys(r.chapters, ChapterId)
    requires ConflictIdPrefix + stamp !in Ids(p.merged)
    ensures WellFormed(Step(p, r, stamp).merged)
    ensures Ids(Step(p, r, stamp).merged) <= Ids(p.merged) + {r.id, ConflictIdPrefix + stamp}
  {
    match FirstIndex(p.merged, BookId, r.id)
    case None =>
      AppendKeepsWellFormed(p.merged, r);
      IdsAppend(p.merged, r);
    case Some(k) =>
      if p.merged[k] != r {
        var c := ConflictCopy(r, stamp);
        NotInIds(p.merged, c.id);
        AppendKeepsWellFormed(p.merged, c);
        IdsAppend(p.merged, c);
      }
  }

  /** With fresh conflict ids, merging keeps the library invariant: book ids
      stay unique, and chapter ids stay unique in each book provided they are
      in each remote book. */
  lemma {:induction false} MergeKeepsWellFormed(local: seq<Book>, remote: seq<Book>, clock: nat -> string, n: nat)
    requires n <= |remote|
    requires WellFormed(local)
    requires forall b :: b in remote ==> UniqueKeys(b.chapters, ChapterId)
    requires FreshStamps(local, remote, clock)
    ensures WellFormed(MergePrefix(local, remote, clock, n).merged)
    ensures Ids(MergePrefix(local, remote, clock, n).merged) <= Ids(local) + Ids(remote) + StampIds(clock, n)
  {
    if n > 0 {
      MergeKeepsWellFormed(local, remote, clock, n - 1);
      var p := MergePrefix(local, remote, clock, n - 1);
      var r := remote[n - 1];
      var cid := ConflictIdPrefix + clock(n - 1);
      assert r in remote && r.id in Ids(remote);
      assert cid in StampIds(clock, n);
      assert StampIds(clock, n - 1) <= StampIds(clock, n);
      assert cid !in StampIds(clock, n - 1) by {
        if cid in StampIds(clock, n - 1) {
          var i :| 0 <= i < n - 1 && cid == ConflictIdPrefix + clock(i);
          ConflictIdInjective(clock(n - 1), clock(i));
        }
      }
      StepKeepsWellFormed(p, r, clock(n - 1));
    }
  }

  /** The same, for the whole remote library. */
  lemma MergedWellFormed(local: seq<Book>, remote: seq<Book>, clock: nat -> string)
    requires WellFormed(local)
    requires forall b :: b in remote ==> UniqueKeys(b.chapters, ChapterId)
    requires FreshStamps(local, remote, clock)
    ensures WellFormed(Merged(local, remote, clock).mergedList)
  {
    MergeKeepsWellFormed(local, remote, clock, |remote|);
  }
}
