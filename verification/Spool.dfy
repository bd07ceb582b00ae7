/** The disk spool of session recordings: one directory per session, one chunk
    file per batch, and a quota over all of them. */
module Spool {

  /** A chunk file. */
  datatype Chunk<P> = Chunk(index: int, payload: P, size: nat, modTime: nat)

  /** A session directory, in the order of its chunk names. */
  type Directory<P> = seq<Chunk<P>>

  predicate Ascending<P>(d: Directory<P>) {
    forall i, j :: 0 <= i < j < |d| ==> d[i].index < d[j].index
  }

  /** Writing a chunk replaces one with the same name. */
  function Insert<P>(d: Directory<P>, c: Chunk<P>): Directory<P> {
    if d == [] then [c]
    else if c.index < d[0].index then [c] + d
    else if c.index == d[0].index then [c] + d[1..]
    else [d[0]] + Insert(d[1..], c)
  }

  predicate AllAbove<P>(d: Directory<P>, k: int) {
    forall i :: 0 <= i < |d| ==> d[i].index > k
  }

  lemma Tail<P>(d: Directory<P>)
    requires Ascending(d) && d != []
    ensures Ascending(d[1..]) && AllAbove(d[1..], d[0].index)
  {}

  lemma Prepend<P>(h: Chunk<P>, d: Directory<P>)
    requires Ascending(d) && AllAbove(d, h.index)
    ensures Ascending([h] + d)
    ensures forall k: int :: k < h.index ==> AllAbove([h] + d, k)
  {}

  lemma {:induction false} InsertAscends<P>(d: Directory<P>, c: Chunk<P>)
    requires Ascending(d)
    ensures Ascending(Insert(d, c))
    ensures forall k: int :: k < c.index && AllAbove(d, k) ==> AllAbove(Insert(d, c), k)
  {
    hide Ascending, AllAbove;
    if d == [] {
      NothingAbove<P>(0);
      Prepend(c, []);
      assert [c] == [c] + d;
    } else {
      Tail(d);
      assert d == [d[0]] + d[1..];
      if c.index < d[0].index {
        Prepend(d[0], d[1..]);
        Prepend(c, d);
      } else if c.index == d[0].index {
        Prepend(c, d[1..]);
      } else {
        InsertAscends(d[1..], c);
        Prepend(d[0], Insert(d[1..], c));
        HeadAbove(d);
      }
    }
  }

  lemma NothingAbove<P>(k: int)
    ensures Ascending<P>([]) && forall k: int :: AllAbove<P>([], k)
  {}

  lemma HeadAbove<P>(d: Directory<P>)
    requires d != []
    ensures forall k: int :: AllAbove(d, k) ==> k < d[0].index
  {}

  lemma AboveIsNotIn<P>(d: Directory<P>, x: Chunk<P>, k: int)
    requires AllAbove(d, k) && x in d
    ensures x.index > k
  {}

  lemma {:induction false} InsertMember<P>(d: Directory<P>, c: Chunk<P>, x: Chunk<P>)
    requires Ascending(d)
    ensures x in Insert(d, c) <==> x == c || (x in d && x.index != c.index)
  {
    if d != [] {
      Tail(d);
      hide Ascending, AllAbove;
      assert d == [d[0]] + d[1..];
      if x in d[1..] {
        AboveIsNotIn(d[1..], x, d[0].index);
      }
      if c.index > d[0].index {
        InsertMember(d[1..], c, x);
      }
    }
  }

  lemma InsertKeeps<P>(d: Directory<P>, c: Chunk<P>)
    requires Ascending(d)
    ensures Ascending(Insert(d, c))
    ensures forall x :: x in Insert(d, c) <==> x == c || (x in d && x.index != c.index)
  {
    InsertAscends(d, c);
    hide Ascending, Insert;
    forall x ensures x in Insert(d, c) <==> x == c || (x in d && x.index != c.index) { InsertMember(d, c, x); }
  }

  function Without<P>(d: Directory<P>, index: int): Directory<P> {
    if d == [] then []
    else if d[0].index == index then Without(d[1..], index)
    else [d[0]] + Without(d[1..], index)
  }

  lemma {:induction false} WithoutAscends<P>(d: Directory<P>, index: int)
    requires Ascending(d)
    ensures Ascending(Without(d, index))
    ensures forall k: int :: AllAbove(d, k) ==> AllAbove(Without(d, index), k)
  {
    hide Ascending, AllAbove;
    if d != [] {
      Tail(d);
      WithoutAscends(d[1..], index);
      HeadAbove(d);
      DropHead(d);
      Prepend(d[0], Without(d[1..], index));
    }
  }

  lemma DropHead<P>(d: Directory<P>)
    requires d != []
    ensures forall k: int :: AllAbove(d, k) ==> AllAbove(d[1..], k)
  {}

  lemma {:induction false} WithoutMember<P>(d: Directory<P>, index: int, x: Chunk<P>)
    ensures x in Without(d, index) <==> x in d && x.index != index
  {
    if d != [] {
      assert d == [d[0]] + d[1..];
      WithoutMember(d[1..], index, x);
    }
  }

  lemma WithoutKeeps<P>(d: Directory<P>, index: int)
    requires Ascending(d)
    ensures Ascending(Without(d, index))
    ensures forall x :: x in Without(d, index) <==> x in d && x.index != index
  {
    WithoutAscends(d, index);
    hide Ascending, Without;
    forall x ensures x in Without(d, index) <==> x in d && x.index != index { WithoutMember(d, index, x); }
  }

  function DirSize<P>(d: Directory<P>): nat {
    if d == [] then 0 else DirSize(d[..|d| - 1]) + d[|d| - 1].size
  }

  /** The modification time of the oldest chunk; 0 if there is none. */
  function Oldest<P>(d: Directory<P>): nat {
    if d == [] then 0
    else
      var t := Oldest(d[..|d| - 1]);
      if t == 0 || d[|d| - 1].modTime < t then d[|d| - 1].modTime else t
  }

  lemma {:induction false} OldestIsLeast<P>(d: Directory<P>)
    requires d != [] && forall c :: c in d ==> c.modTime > 0
    ensures Oldest(d) > 0 && (forall c :: c in d ==> Oldest(d) <= c.modTime)
    ensures exists c :: c in d && c.modTime == Oldest(d)
  {
    var init, last := d[..|d| - 1], d[|d| - 1];
    assert d == init + [last];
    if init == [] {
      assert Oldest(init) == 0;
      assert last in d;
    } else {
      OldestIsLeast(init);
      var c :| c in init && c.modTime == Oldest(init);
      assert c in d && last in d;
    }
  }

  /** The size of a directory is that of its chunks, each counted once. */
  lemma {:induction false} DirSizeAdds<P>(a: Directory<P>, b: Directory<P>)
    ensures DirSize(a + b) == DirSize(a) + DirSize(b) && (|b| == 1 ==> DirSize(b) == b[0].size)
  {
    if b == [] {
      assert a + b == a;
    } else {
      var init := b[..|b| - 1];
      DirSizeAdds(a, init);
      assert (a + b)[..|a + b| - 1] == a + init;
    }
  }

  /** The size of all directories together. */
  ghost function Total<P>(dirs: map<string, Directory<P>>): nat {
    if dirs == map[] then 0
    else
      var id :| id in dirs;
      DirSize(dirs[id]) + Total(dirs - {id})
  }

  lemma NothingTotals<P>()
    ensures Total<P>(map[]) == 0
  {}

  /** Whichever directory is taken first. */
  lemma {:induction false} TotalWithout<P>(dirs: map<string, Directory<P>>, id: string)
    requires id in dirs
    ensures Total(dirs) == DirSize(dirs[id]) + Total(dirs - {id})
    decreases |dirs|
  {
    hide DirSize;
    var first :| first in dirs && Total(dirs) == DirSize(dirs[first]) + Total(dirs - {first});
    if first != id {
      TotalWithout(dirs - {first}, id);
      TotalWithout(dirs - {id}, first);
      assert dirs - {first} - {id} == dirs - {id} - {first};
    }
  }

  // ---- Listing ----------------------------------------------------------------------

  ghost predicate OldestFirst<P>(dirs: map<string, Directory<P>>, order: seq<string>)
    requires forall k :: 0 <= k < |order| ==> order[k] in dirs
  {
    forall i, j :: 0 <= i < j < |order| ==> Oldest(dirs[order[i]]) <= Oldest(dirs[order[j]])
  }

  ghost predicate Distinct(order: seq<string>) {
    forall i, j :: 0 <= i < j < |order| ==> order[i] != order[j]
  }

  /** Puts a directory into an ordered listing. */
  method InsertByAge<P>(dirs: map<string, Directory<P>>, order: seq<string>, id: string) returns (r: seq<string>)
    requires id in dirs && id !in order && Distinct(order)
    requires (forall k :: 0 <= k < |order| ==> order[k] in dirs) && OldestFirst(dirs, order)
    ensures Distinct(r) && (forall k :: 0 <= k < |r| ==> r[k] in dirs) && OldestFirst(dirs, r)
    ensures forall x :: x in r <==> x in order || x == id
  {
    hide Oldest, Distinct;
    var i := 0;
    while i < |order| && Oldest(dirs[order[i]]) <= Oldest(dirs[id])
      invariant 0 <= i <= |order|
      invariant forall k :: 0 <= k < i ==> Oldest(dirs[order[k]]) <= Oldest(dirs[id])
    {
      i := i + 1;
    }
    r := order[..i] + [id] + order[i..];
    InsertedOrder(dirs, order, i, id);
    InsertedMembers(order, i, id);
  }

  lemma InsertedMembers(order: seq<string>, i: nat, id: string)
    requires i <= |order| && id !in order && Distinct(order)
    ensures Distinct(order[..i] + [id] + order[i..])
    ensures forall x :: x in order[..i] + [id] + order[i..] <==> x in order || x == id
  {
    assert order == order[..i] + order[i..];
  }

  lemma InsertedOrder<P>(dirs: map<string, Directory<P>>, order: seq<string>, i: nat, id: string)
    requires id in dirs && i <= |order| && (forall k :: 0 <= k < |order| ==> order[k] in dirs) && OldestFirst(dirs, order)
    requires forall k :: 0 <= k < i ==> Oldest(dirs[order[k]]) <= Oldest(dirs[id])
    requires i < |order| ==> Oldest(dirs[order[i]]) > Oldest(dirs[id])
    ensures var r := order[..i] + [id] + order[i..];
      (forall k :: 0 <= k < |r| ==> r[k] in dirs) && OldestFirst(dirs, r)
  {
    hide Oldest;
  }

  /** All directories, oldest first. */
  method ListOldestFirst<P>(dirs: map<string, Directory<P>>) returns (order: seq<string>)
    ensures Distinct(order) && (forall k :: 0 <= k < |order| ==> order[k] in dirs) && OldestFirst(dirs, order)
    ensures forall x :: x in order <==> x in dirs
  {
    hide Oldest;
    order := [];
    var rest := dirs.Keys;
    while rest != {}
      invariant rest <= dirs.Keys && Distinct(order)
      invariant (forall k :: 0 <= k < |order| ==> order[k] in dirs) && OldestFirst(dirs, order)
      invariant forall x :: x in order <==> x in dirs && x !in rest
      decreases |rest|
    {
      var id :| id in rest;
      order := InsertByAge(dirs, order, id);
      rest := rest - {id};
    }
  }

  /** What is left after the directories of a list are deleted. */
  ghost function After<P>(dirs: map<string, Directory<P>>, deleted: seq<string>): map<string, Directory<P>> {
    dirs - (set x | x in deleted)
  }

  /** Every directory of the list was deleted while the rest was still over the
      limit, and none of them is the protected one. */
  ghost predicate Needed<P>(dirs: map<string, Directory<P>>, deleted: seq<string>, protect: string, limit: nat) {
    forall i :: 0 <= i < |deleted| ==>
      deleted[i] in After(dirs, deleted[..i]) && deleted[i] != protect && Total(After(dirs, deleted[..i])) > limit
  }

  lemma NoneNeeded<P>(dirs: map<string, Directory<P>>, protect: string, limit: nat)
    ensures Needed(dirs, [], protect, limit)
  {}

  lemma AfterNext<P>(dirs: map<string, Directory<P>>, deleted: seq<string>, id: string, protect: string, limit: nat)
    requires Needed(dirs, deleted, protect, limit)
    requires id in After(dirs, deleted) && id != protect && Total(After(dirs, deleted)) > limit
    ensures Needed(dirs, deleted + [id], protect, limit)
    ensures After(dirs, deleted + [id]) == After(dirs, deleted) - {id}
    ensures Total(After(dirs, deleted + [id])) == Total(After(dirs, deleted)) - DirSize(dirs[id])
  {
    hide Total, DirSize;
    var more := deleted + [id];
    assert forall i :: 0 <= i <= |deleted| ==> more[..i] == deleted[..i];
    assert more[..|deleted|] == deleted;
    assert forall x :: x in more <==> x in deleted || x == id;
    assert After(dirs, more) == After(dirs, deleted) - {id};
    TotalWithout(After(dirs, deleted), id);
  }

  lemma NotYetPassed(order: seq<string>, k: nat)
    requires Distinct(order) && k < |order|
    ensures order[k] !in order[..k]
  {}

  /** Deleting along an ordered listing deletes the oldest. */
  lemma OldestGo<P>(all: map<string, Directory<P>>, dirs: map<string, Directory<P>>, order: seq<string>, k: nat,
                    protect: string)
    requires (forall i :: 0 <= i < |order| ==> order[i] in all) && OldestFirst(all, order) && k <= |order|
    requires forall x :: x in order <==> x in all
    requires forall x :: x in dirs <==> x in all && (x !in order[..k] || x == protect)
    requires forall x :: x in dirs ==> dirs[x] == all[x]
    ensures forall a, b :: a in all && a !in dirs && b in dirs && b != protect ==> Oldest(all[a]) <= Oldest(dirs[b])
  {
    hide Oldest;
    forall a, b | a in all && a !in dirs && b in dirs && b != protect ensures Oldest(all[a]) <= Oldest(dirs[b]) {
      var i :| 0 <= i < k && order[i] == a;
      var j :| 0 <= j < |order| && order[j] == b;
      assert j >= k;
    }
  }

  /** A write that failed, with what it should have written. */
  datatype FailedWrite<P> = FailedWrite(session: string, index: int, payload: P)

  /** A directory deleted by another session's write, with what was in it. */
  datatype Eviction<P> = Eviction(victim: string, writer: string, chunks: Directory<P>)

  ghost function Evictions<P>(dirs: map<string, Directory<P>>, deleted: seq<string>, writer: string): (e: seq<Eviction<P>>)
    requires forall i :: 0 <= i < |deleted| ==> deleted[i] in dirs
    ensures |e| == |deleted|
  {
    seq(|deleted|, i requires 0 <= i < |deleted| => Eviction(deleted[i], writer, dirs[deleted[i]]))
  }

  /** Those chunks of a directory that can be read. */
  function Readable<P>(d: Directory<P>, canRead: int -> bool): Directory<P> {
    if d == [] then []
    else Readable(d[..|d| - 1], canRead) + if canRead(d[|d| - 1].index) then [d[|d| - 1]] else []
  }

  lemma {:induction false} ReadableMember<P>(d: Directory<P>, canRead: int -> bool, c: Chunk<P>)
    ensures c in Readable(d, canRead) <==> c in d && canRead(c.index)
  {
    if d != [] {
      ReadableMember(d[..|d| - 1], canRead, c);
      assert d == d[..|d| - 1] + [d[|d| - 1]];
    }
  }

  lemma {:induction false} ReadableAscends<P>(d: Directory<P>, canRead: int -> bool)
    requires Ascending(d)
    ensures Ascending(Readable(d, canRead))
  {
    if d != [] {
      var init := d[..|d| - 1];
      ReadableAscends(init, canRead);
      var r := Readable(init, canRead);
      forall i | 0 <= i < |r| ensures r[i].index < d[|d| - 1].index {
        ReadableMember(init, canRead, r[i]);
        BelowLast(d, r[i]);
      }
    }
  }

  lemma BelowLast<P>(d: Directory<P>, c: Chunk<P>)
    requires Ascending(d) && d != [] && c in d[..|d| - 1]
    ensures c.index < d[|d| - 1].index
  {}

  /** Each deleted directory was the oldest that might be deleted. */
  ghost predicate EachOldest<P>(dirs: map<string, Directory<P>>, deleted: seq<string>, protect: string) {
    forall i :: 0 <= i < |deleted| ==> deleted[i] in dirs && OldestOf(dirs, After(dirs, deleted[..i]), deleted[i], protect)
  }

  ghost predicate OldestOf<P>(dirs: map<string, Directory<P>>, left: map<string, Directory<P>>, id: string, protect: string)
    requires id in dirs
  {
    forall b :: b in left && b != protect ==> Oldest(dirs[id]) <= Oldest(left[b])
  }

  lemma NextOldest<P>(dirs: map<string, Directory<P>>, deleted: seq<string>, id: string, protect: string)
    requires EachOldest(dirs, deleted, protect) && id in dirs && OldestOf(dirs, After(dirs, deleted), id, protect)
    ensures EachOldest(dirs, deleted + [id], protect)
  {
    hide OldestOf, After;
    var more := deleted + [id];
    assert forall i :: 0 <= i < |deleted| ==> more[..i] == deleted[..i];
    assert more[..|deleted|] == deleted;
  }

  lemma NoneOldest<P>(dirs: map<string, Directory<P>>, protect: string)
    ensures EachOldest(dirs, [], protect)
  {}

  /** What an ordered listing has not passed yet is no older. */
  lemma ListedOldest<P>(all: map<string, Directory<P>>, left: map<string, Directory<P>>, order: seq<string>, k: nat,
                        protect: string)
    requires (forall i :: 0 <= i < |order| ==> order[i] in all) && OldestFirst(all, order) && k < |order|
    requires forall x :: x in left ==> x in all && left[x] == all[x] && x in order
    requires forall x :: x in left && x != protect ==> x !in order[..k]
    ensures OldestOf(all, left, order[k], protect)
  {
    hide Oldest;
    forall b | b in left && b != protect ensures Oldest(all[order[k]]) <= Oldest(left[b]) {
      var j :| 0 <= j < |order| && order[j] == b;
      assert j >= k;
    }
  }

  class DiskSpooler<P(!new)> {
    const maxBytes: nat
    var dirs: map<string, Directory<P>>
    // what has happened so far
    ghost var failedWrites: seq<FailedWrite<P>>
    ghost var evictions: seq<Eviction<P>>

    ghost predicate Valid()
      reads `dirs
    {
      forall id :: id in dirs ==> Ascending(dirs[id])
    }

    constructor (limit: int)
      ensures Valid() && dirs == map[] && maxBytes == if limit <= 0 then 5 * 1024 * 1024 * 1024 else limit
    {
      maxBytes := if limit <= 0 then 5 * 1024 * 1024 * 1024 else limit;
      dirs, failedWrites, evictions := map[], [], [];
    }

    /** Adds up the directories of a listing. */
    method AddSizes(order: seq<string>) returns (total: nat)
      requires Distinct(order) && forall x :: x in order <==> x in dirs
      ensures total == Total(dirs)
    {
      hide DirSize, Total, Distinct;
      total := 0;
      ghost var rest := dirs;
      for k := 0 to |order|
        invariant total + Total(rest) == Total(dirs)
        invariant forall x :: x in rest <==> x in dirs && x !in order[..k]
        invariant forall x :: x in rest ==> rest[x] == dirs[x]
      {
        NotYetPassed(order, k);
        TotalWithout(rest, order[k]);
        total := total + DirSize(dirs[order[k]]);
        rest := rest - {order[k]};
        assert order[..k + 1] == order[..k] + [order[k]];
      }
      assert order[..|order|] == order;
      assert rest == map[];
      NothingTotals<P>();
    }

    /** Deletes the oldest sessions until the spool is within its quota, but
        never the protected one. */
    method EnforceQuota(protect: string) returns (ghost deleted: seq<string>)
      requires Valid()
      modifies `dirs
      ensures Valid() && dirs == After(old(dirs), deleted) && protect !in deleted
      ensures forall i :: 0 <= i < |deleted| ==> deleted[i] in old(dirs)
      ensures Needed(old(dirs), deleted, protect, maxBytes) && EachOldest(old(dirs), deleted, protect)
      ensures Total(dirs) <= maxBytes || dirs.Keys <= {protect}
      ensures forall a, b :: a in old(dirs) && a !in dirs && b in dirs && b != protect ==>
        Oldest(old(dirs)[a]) <= Oldest(dirs[b])
    {
      hide Oldest, DirSize, Total, Ascending, Needed, OldestFirst, Distinct, EachOldest, OldestOf;
      deleted := [];
      NoneNeeded(dirs, protect, maxBytes);
      NoneOldest(dirs, protect);
      ghost var all := dirs;
      assert After(all, []) == all;
      var order := ListOldestFirst(dirs);
      var totalBytes := AddSizes(order);
      if totalBytes <= maxBytes {
        return;
      }
      var k := 0;
      while k < |order| && totalBytes > maxBytes
        invariant 0 <= k <= |order|
        invariant Valid() && dirs == After(all, deleted) && totalBytes == Total(dirs)
        invariant Needed(all, deleted, protect, maxBytes) && EachOldest(all, deleted, protect)
        invariant forall x :: x in deleted <==> x in order[..k] && x != protect
        invariant forall i :: 0 <= i < |deleted| ==> deleted[i] in all
      {
        var d := order[k];
        assert order[..k + 1] == order[..k] + [d];
        if d != protect {
          NotYetPassed(order, k);
          assert d in dirs;
          ListedOldest(all, dirs, order, k, protect);
          NextOldest(all, deleted, d, protect);
          AfterNext(all, deleted, d, protect, maxBytes);
          totalBytes := totalBytes - DirSize(dirs[d]);
          dirs := dirs - {d};
          deleted := deleted + [d];
        }
        k := k + 1;
      }
      OldestGo(all, dirs, order, k, protect);
    }

    /** Writes one batch, if its directory can be made and its file be written.
        Then enforces the quota, whoever's directories that may cost. */
    method WriteBatch(session: string, index: int, payload: P, size: nat, now: nat, canMake: bool, canWrite: bool)
      returns (ok: bool, ghost deleted: seq<string>)
      requires Valid()
      modifies this
      ensures Valid()
      ensures session !in deleted && forall i :: 0 <= i < |deleted| ==> deleted[i] in old(dirs)
      ensures forall id :: id in dirs && id != session ==> id in old(dirs) && dirs[id] == old(dirs)[id]
      ensures forall id :: id in old(dirs) && id !in dirs ==> id in deleted
      ensures ok <==> canMake && canWrite
      ensures ok ==>
        && session in dirs
        && dirs[session] == Insert(if session in old(dirs) then old(dirs)[session] else [], Chunk(index, payload, size, now))
      ensures !ok ==> deleted == []
      ensures !ok ==> dirs == if canMake && session !in old(dirs) then old(dirs)[session := []] else old(dirs)
      ensures failedWrites == old(failedWrites) + if ok then [] else [FailedWrite(session, index, payload)]
      ensures evictions == old(evictions) + Evictions(old(dirs), deleted, session)
      ensures ok ==> Total(dirs) <= maxBytes || dirs.Keys <= {session}
    {
      hide Insert, Total, Oldest, DirSize, Needed, Ascending, EachOldest;
      NothingAbove<P>(0);
      deleted := [];
      ok := canMake;
      if !ok {
        failedWrites := failedWrites + [FailedWrite(session, index, payload)];
        return;
      }
      if session !in dirs {
        dirs := dirs[session := []];
      }
      ok := canWrite;
      if !ok {
        failedWrites := failedWrites + [FailedWrite(session, index, payload)];
        return;
      }
      InsertKeeps(dirs[session], Chunk(index, payload, size, now));
      dirs := dirs[session := Insert(dirs[session], Chunk(index, payload, size, now))];
      deleted := EnforceQuota(session);
      assert forall i :: 0 <= i < |deleted| ==> deleted[i] in deleted && deleted[i] in old(dirs);
      evictions := evictions + Evictions(old(dirs), deleted, session);
    }

    /** The readable chunks of a session, by ascending index; nothing for a
        session without a directory, and a failure if it cannot be listed. */
    method ReadPendingBatches(session: string, canList: bool, canRead: int -> bool)
      returns (ok: bool, batches: Directory<P>)
      requires Valid()
      ensures ok <==> session !in dirs || canList
      ensures batches == if session in dirs && canList then Readable(dirs[session], canRead) else []
    {
      batches := [];
      if session !in dirs {
        return true, [];
      }
      if !canList {
        return false, [];
      }
      var d := dirs[session];
      assert d[..0] == [];
      for i := 0 to |d|
        invariant batches == Readable(d[..i], canRead)
      {
        assert d[..i + 1][..i] == d[..i];
        if canRead(d[i].index) {
          batches := batches + [d[i]];
        }
      }
      assert d[..|d|] == d;
      return true, batches;
    }

    /** Deletes one chunk, unless that fails or it is gone already. */
    method RemoveBatch(session: string, index: int, canRemove: bool)
      requires Valid()
      modifies `dirs
      ensures Valid()
      ensures dirs == if canRemove && session in old(dirs)
                      then old(dirs)[session := Without(old(dirs)[session], index)] else old(dirs)
    {
      if canRemove && session in dirs {
        WithoutKeeps(dirs[session], index);
        dirs := dirs[session := Without(dirs[session], index)];
      }
    }
  }
}
