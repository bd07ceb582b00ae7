/** The queue of injected input events: bounded, with mouse moves coalesced and,
    when it is full, old events evicted in two passes that never drop the
    release of a key or button. */
module InputQueue {
  import opened Binary

  datatype Kind = Unicode | Vk | Mouse | Sas

  datatype Task = Task(kind: Kind, ch: nat, vk: nat, isDown: bool, normVx: int, normVy: int,
                       mouseFlags: nat, mouseData: nat)

  /** MOUSEEVENTF_MOVE | MOUSEEVENTF_ABSOLUTE | MOUSEEVENTF_VIRTUALDESK */
  const MOVE_FLAGS: nat := 0xC001

  const CAPACITY := 512

  predicate IsMove(t: Task) {
    t.kind == Mouse && t.mouseFlags == MOVE_FLAGS
  }

  predicate IsKeyUp(t: Task) {
    (t.kind == Vk || t.kind == Unicode) && !t.isDown
  }

  /** LEFTUP, RIGHTUP, MIDDLEUP and XUP are bits 2, 4, 6 and 8. */
  predicate IsMouseUp(t: Task) {
    t.kind == Mouse && (Bit(t.mouseFlags, 2) || Bit(t.mouseFlags, 4) || Bit(t.mouseFlags, 6) || Bit(t.mouseFlags, 8))
  }

  predicate IsRelease(t: Task) {
    IsKeyUp(t) || IsMouseUp(t)
  }

  lemma ShrStep(x: nat, i: nat)
    ensures Shr(x, 0) == x && Shr(x, i + 1) == Shr(x, i) / 2
  {}

  lemma MovesAreNotReleases(t: Task)
    requires IsMove(t)
    ensures !IsRelease(t)
  {
    ShrStep(0xC001, 0);
    ShrStep(0xC001, 1);
    ShrStep(0xC001, 2);
    ShrStep(0xC001, 3);
    ShrStep(0xC001, 4);
    ShrStep(0xC001, 5);
    ShrStep(0xC001, 6);
    ShrStep(0xC001, 7);
    hide Shr;
  }

  /** The test of the mouse flags against MOUSEEVENTF_LEFTUP | MOUSEEVENTF_RIGHTUP |
      MOUSEEVENTF_MIDDLEUP | MOUSEEVENTF_XUP. */
  lemma MouseUpIsMasked(flags: nat)
    ensures And(flags, 0x4 + 0x10 + 0x40 + 0x100) != 0 <==> Bit(flags, 2) || Bit(flags, 4) || Bit(flags, 6) || Bit(flags, 8)
  {
    ShrStep(flags, 0);
    ShrStep(flags, 1);
    ShrStep(flags, 2);
    ShrStep(flags, 3);
    ShrStep(flags, 4);
    ShrStep(flags, 5);
    ShrStep(flags, 6);
    ShrStep(flags, 7);
    var b2, b4, b6, b8 := Shr(flags, 2), Shr(flags, 4), Shr(flags, 6), Shr(flags, 8);
    assert b4 == b2 / 2 / 2 && b6 == b4 / 2 / 2 && b8 == b6 / 2 / 2 && b2 == flags / 2 / 2;
    hide Shr, Bit;
    AndTwo(flags, 0x55, 0);
    AndTwo(b2, 0x15, 1);
    AndTwo(b4, 0x5, 1);
    AndTwo(b6, 0x1, 1);
    AndTwo(b8, 0x0, 1);
    AndNothing(b8 / 2 / 2);
    assert Bit(flags, 2) <==> b2 % 2 == 1 by { BitOf(flags, 2); }
    assert Bit(flags, 4) <==> b4 % 2 == 1 by { BitOf(flags, 4); }
    assert Bit(flags, 6) <==> b6 % 2 == 1 by { BitOf(flags, 6); }
    assert Bit(flags, 8) <==> b8 % 2 == 1 by { BitOf(flags, 8); }
    hide And;
  }

  lemma BitOf(x: nat, i: nat)
    ensures Bit(x, i) <==> Shr(x, i) % 2 == 1
  {}

  /** Two digits of a mask, the lower one p and the upper one 0. */
  lemma AndTwo(a: nat, h: nat, p: nat)
    requires p < 2
    ensures And(a, 4 * h + p) == 4 * And(a / 2 / 2, h) + (if p == 1 then a % 2 else 0)
  {
    var b := 4 * h + p;
    assert b / 2 == 2 * h && b % 2 == p && 2 * h / 2 == h && 2 * h % 2 == 0;
    if a != 0 && b != 0 {
      assert And(a, b) == 2 * And(a / 2, 2 * h) + (a % 2) * p;
      assert And(a / 2, 2 * h) == 2 * And(a / 2 / 2, h);
    }
  }

  lemma AndNothing(a: nat)
    ensures And(a, 0) == 0
  {}

  // ---- Eviction -----------------------------------------------------------------

  /** What each pass may evict. */
  datatype Pass = Moves | AllButReleases {
    predicate Evicts(t: Task) {
      match this
      case Moves => IsMove(t)
      case AllButReleases => !IsRelease(t)
    }
  }

  /** The queue without the first n events that a pass may evict. */
  function EraseFirst(p: Pass, q: seq<Task>, n: int): seq<Task> {
    if q == [] || n <= 0 then q
    else if p.Evicts(q[0]) then EraseFirst(p, q[1..], n - 1)
    else [q[0]] + EraseFirst(p, q[1..], n)
  }

  /** The queue after both passes. */
  function Evicted(q: seq<Task>): seq<Task> {
    var first := EraseFirst(Moves, q, |q| - CAPACITY + 1);
    EraseFirst(AllButReleases, first, |first| - CAPACITY + 1)
  }

  /** What is left has too few evictable events to go on, or the right length. */
  lemma {:induction false} EraseFirstEnds(p: Pass, q: seq<Task>, n: int)
    ensures |EraseFirst(p, q, n)| >= |q| - (if n < 0 then 0 else n)
    ensures var r := EraseFirst(p, q, n);
      |r| <= |q| - n || forall i :: 0 <= i < |r| ==> !p.Evicts(r[i])
  {
    hide Pass.Evicts;
    if q != [] && n > 0 {
      EraseFirstEnds(p, q[1..], if p.Evicts(q[0]) then n - 1 else n);
    }
  }

  /** After eviction there is room for one more event, or only releases are
      left; and no more was evicted than necessary. */
  lemma EvictedIsSmall(q: seq<Task>)
    ensures |Evicted(q)| < CAPACITY || forall i :: 0 <= i < |Evicted(q)| ==> IsRelease(Evicted(q)[i])
    ensures |q| >= CAPACITY ==> |Evicted(q)| >= CAPACITY - 1
  {
    hide EraseFirst, IsRelease;
    var first := EraseFirst(Moves, q, |q| - CAPACITY + 1);
    EraseFirstEnds(Moves, q, |q| - CAPACITY + 1);
    EraseFirstEnds(AllButReleases, first, |first| - CAPACITY + 1);
  }

  // ---- Subsequences ----------------------------------------------------------------

  /** s is the stream e with only events dropped that release nothing. */
  ghost predicate Keeps(e: seq<Task>, s: seq<Task>) {
    if e == [] then s == []
    else
      || (s != [] && s[|s| - 1] == e[|e| - 1] && Keeps(e[..|e| - 1], s[..|s| - 1]))
      || (!IsRelease(e[|e| - 1]) && Keeps(e[..|e| - 1], s))
  }

  lemma KeepsBoth(e: seq<Task>, s: seq<Task>, t: Task)
    requires Keeps(e, s)
    ensures Keeps(e + [t], s + [t])
  {
    assert (e + [t])[..|e|] == e && (s + [t])[..|s|] == s;
  }

  lemma {:induction false} DropOne(e: seq<Task>, s: seq<Task>, i: nat)
    requires Keeps(e, s) && i < |s| && !IsRelease(s[i])
    ensures Keeps(e, s[..i] + s[i + 1..])
  {
    hide IsRelease;
    if e != [] {
      var init, without := e[..|e| - 1], s[..i] + s[i + 1..];
      if s[|s| - 1] == e[|e| - 1] && Keeps(init, s[..|s| - 1]) {
        if i == |s| - 1 {
          assert without == s[..|s| - 1];
        } else {
          DropOne(init, s[..|s| - 1], i);
          assert without[..|without| - 1] == s[..|s| - 1][..i] + s[..|s| - 1][i + 1..];
        }
      } else {
        DropOne(init, s, i);
      }
    }
  }

  lemma {:induction false} EraseKeeps(p: Pass, e: seq<Task>, head: seq<Task>, q: seq<Task>, n: int)
    requires Keeps(e, head + q)
    ensures Keeps(e, head + EraseFirst(p, q, n))
    decreases |q|
  {
    hide Keeps;
    if q != [] && n > 0 {
      if p.Evicts(q[0]) {
        if p == Moves {
          MovesAreNotReleases(q[0]);
        }
        DropOne(e, head + q, |head|);
        assert (head + q)[..|head|] + (head + q)[|head| + 1..] == head + q[1..];
        EraseKeeps(p, e, head, q[1..], n - 1);
      } else {
        assert head + q == (head + [q[0]]) + q[1..];
        EraseKeeps(p, e, head + [q[0]], q[1..], n);
        assert head + EraseFirst(p, q, n) == (head + [q[0]]) + EraseFirst(p, q[1..], n);
      }
    }
  }

  lemma EvictedKeeps(e: seq<Task>, head: seq<Task>, q: seq<Task>)
    requires Keeps(e, head + q)
    ensures Keeps(e, head + Evicted(q))
  {
    hide Keeps, EraseFirst;
    var first := EraseFirst(Moves, q, |q| - CAPACITY + 1);
    EraseKeeps(Moves, e, head, q, |q| - CAPACITY + 1);
    EraseKeeps(AllButReleases, e, head, first, |first| - CAPACITY + 1);
  }

  /** A move in place of a move. */
  lemma ReplaceLast(e: seq<Task>, head: seq<Task>, q: seq<Task>, t: Task)
    requires Keeps(e, head + q) && q != [] && IsMove(q[|q| - 1])
    ensures Keeps(e + [t], head + (q[..|q| - 1] + [t]))
  {
    hide Keeps, IsMove, IsRelease;
    var all := head + q;
    MovesAreNotReleases(q[|q| - 1]);
    DropOne(e, all, |all| - 1);
    assert all[..|all| - 1] + all[|all|..] == head + q[..|q| - 1];
    KeepsBoth(e, head + q[..|q| - 1], t);
    assert head + q[..|q| - 1] + [t] == head + (q[..|q| - 1] + [t]);
  }

  /** One step of a pass. */
  lemma EraseStep(p: Pass, q: seq<Task>, it: nat, n: int)
    requires it < |q| && n > 0
    ensures var after := q[..it] + q[it + 1..]; p.Evicts(q[it]) ==>
      q[..it] + EraseFirst(p, q[it..], n) == after[..it] + EraseFirst(p, after[it..], n - 1)
    ensures !p.Evicts(q[it]) ==>
      q[..it] + EraseFirst(p, q[it..], n) == q[..it + 1] + EraseFirst(p, q[it + 1..], n)
  {
    hide Pass.Evicts;
    var after := q[..it] + q[it + 1..];
    assert q[it..][1..] == q[it + 1..] && after[..it] == q[..it] && after[it..] == q[it + 1..];
    assert q[..it + 1] == q[..it] + [q[it]];
  }

  lemma EraseStops(p: Pass, q: seq<Task>, n: int)
    requires q == [] || n <= 0
    ensures EraseFirst(p, q, n) == q
  {}

  /** Without need the second pass does nothing. */
  lemma BothPasses(q: seq<Task>)
    ensures var first := EraseFirst(Moves, q, |q| - CAPACITY + 1);
      Evicted(q) == if |first| < CAPACITY then first else EraseFirst(AllButReleases, first, |first| - CAPACITY + 1)
  {}

  /** What is left of a queue when everything else is taken out. */
  function Only(keep: Task -> bool, q: seq<Task>): seq<Task> {
    if q == [] then [] else (if keep(q[0]) then [q[0]] else []) + Only(keep, q[1..])
  }

  lemma {:induction false} EraseFirstIs(p: Pass, keep: Task -> bool, q: seq<Task>, n: nat) returns (i: nat)
    requires forall t :: keep(t) <==> !p.Evicts(t)
    ensures i <= |q| && EraseFirst(p, q, n) == Only(keep, q[..i]) + q[i..]
    ensures i == |q| || |EraseFirst(p, q, n)| == |q| - n
  {
    hide Pass.Evicts;
    if q == [] || n == 0 {
      i := 0;
      assert q[..0] == [] && q[0..] == q;
    } else {
      var k := EraseFirstIs(p, keep, q[1..], if p.Evicts(q[0]) then n - 1 else n);
      i := k + 1;
      OnlyNext(keep, q, k);
      hide Only;
      assert q[i..] == q[1..][k..];
    }
  }

  lemma OnlyNext(keep: Task -> bool, q: seq<Task>, k: nat)
    requires k < |q|
    ensures Only(keep, q[..k + 1]) == (if keep(q[0]) then [q[0]] else []) + Only(keep, q[1..][..k])
  {
    assert q[..k + 1][1..] == q[1..][..k];
  }

  predicate Stays(t: Task) {
    !(t.kind == Mouse && t.mouseFlags == 0x0001 + 0x8000 + 0x4000)
  }

  lemma MovesGo(t: Task)
    ensures IsMove(t) <==> !Stays(t)
  {}

  /** What eviction makes of a full queue: just enough of the oldest moves go;
      or all moves go, and just enough of the oldest other events that release
      nothing, or all of them. */
  ghost predicate Trimmed(q: seq<Task>, r: seq<Task>) {
    || (exists i :: 0 <= i <= |q| && r == Only(t => Stays(t), q[..i]) + q[i..] && |r| == 511)
    || (var m := Only(t => Stays(t), q);
        && |m| >= 512
        && exists i :: 0 <= i <= |m| && r == Only(t => IsRelease(t), m[..i]) + m[i..] && (i == |m| || |r| == 511))
  }

  lemma EvictedIsTrimmed(q: seq<Task>)
    requires |q| >= CAPACITY
    ensures Trimmed(q, Evicted(q))
  {
    hide EraseFirst, IsRelease;
    var first := EraseFirst(Moves, q, |q| - CAPACITY + 1);
    var i := EraseFirstIs(Moves, t => Stays(t), q, |q| - CAPACITY + 1);
    if |first| < CAPACITY {
      EraseFirstEnds(Moves, q, |q| - CAPACITY + 1);
      EraseStops(AllButReleases, first, |first| - CAPACITY + 1);
    } else {
      assert q[..i] == q && first == Only(t => Stays(t), q);
      var k := EraseFirstIs(AllButReleases, t => IsRelease(t), first, |first| - CAPACITY + 1);
    }
  }

  /** The queue after a new event, which replaces the last one if both only
      move the mouse. */
  function Added(q: seq<Task>, t: Task): seq<Task> {
    if IsMove(t) && q != [] && IsMove(q[|q| - 1]) then q[..|q| - 1] + [t]
    else (if |q| >= CAPACITY then Evicted(q) else q) + [t]
  }

  /** A queue is short, or all of it but its last event are releases. */
  ghost predicate Bounded(q: seq<Task>) {
    |q| <= 512 || forall i :: 0 <= i < |q| - 1 ==> IsRelease(q[i])
  }

  lemma AddedKeeps(e: seq<Task>, head: seq<Task>, q: seq<Task>, t: Task)
    requires Keeps(e, head + q) && Bounded(q)
    ensures Keeps(e + [t], head + Added(q, t)) && Bounded(Added(q, t))
  {
    hide Keeps, IsRelease, IsMove, Evicted;
    if IsMove(t) && q != [] && IsMove(q[|q| - 1]) {
      ReplaceLast(e, head, q, t);
    } else {
      var room := if |q| >= CAPACITY then Evicted(q) else q;
      if |q| >= CAPACITY {
        EvictedKeeps(e, head, q);
        EvictedIsSmall(q);
      }
      KeepsBoth(e, head + room, t);
      assert head + room + [t] == head + (room + [t]);
    }
  }

  // ---- What is lost --------------------------------------------------------------------

  /** s is the stream e without some pure moves that are directly followed by
      another one; next tells whether a pure move follows e. */
  ghost predicate Thins(e: seq<Task>, s: seq<Task>, next: bool) {
    if e == [] then s == []
    else
      || (s != [] && s[|s| - 1] == e[|e| - 1] && Thins(e[..|e| - 1], s[..|s| - 1], !Stays(e[|e| - 1])))
      || (next && !Stays(e[|e| - 1]) && Thins(e[..|e| - 1], s, true))
  }

  lemma ThinsBoth(e: seq<Task>, s: seq<Task>, t: Task)
    requires Thins(e, s, false)
    ensures Thins(e + [t], s + [t], false)
  {
    assert (e + [t])[..|e|] == e && (s + [t])[..|s|] == s;
  }

  lemma ThinsReplaced(e: seq<Task>, s: seq<Task>, t: Task)
    requires Thins(e, s, false) && s != [] && !Stays(s[|s| - 1]) && !Stays(t)
    ensures Thins(e + [t], s[..|s| - 1] + [t], false)
  {
    assert (e + [t])[..|e|] == e && (s[..|s| - 1] + [t])[..|s| - 1] == s[..|s| - 1];
    assert Thins(e, s[..|s| - 1], true);
  }

  /** No two pure moves stand next to each other. */
  ghost predicate Coalesced(q: seq<Task>) {
    forall i :: 0 <= i < |q| - 1 ==> Stays(q[i]) || Stays(q[i + 1])
  }

  lemma {:induction false} OnlyStays(q: seq<Task>)
    ensures forall t :: t in Only(t => Stays(t), q) ==> Stays(t)
  {
    if q != [] {
      OnlyStays(q[1..]);
    }
  }

  lemma {:induction false} OnlyFrom(keep: Task -> bool, q: seq<Task>)
    ensures forall t :: t in Only(keep, q) ==> t in q
  {
    if q != [] {
      OnlyFrom(keep, q[1..]);
    }
  }

  lemma TrimmedIsCoalesced(q: seq<Task>, r: seq<Task>)
    requires Coalesced(q) && Trimmed(q, r)
    ensures Coalesced(r)
  {
    hide Stays, IsRelease, Only;
    OnlyStays(q);
    var m := Only(t => Stays(t), q);
    if i :| 0 <= i <= |q| && r == Only(t => Stays(t), q[..i]) + q[i..] && |r| == 511 {
      var head := Only(t => Stays(t), q[..i]);
      OnlyStays(q[..i]);
      forall k | 0 <= k < |r| - 1 ensures Stays(r[k]) || Stays(r[k + 1]) {
        if k < |head| {
          assert r[k] == head[k];
        } else {
          assert r[k] == q[i + k - |head|] && r[k + 1] == q[i + k + 1 - |head|];
        }
      }
    } else {
      OnlyReleasesGo(m, r);
    }
  }

  lemma AddedIsCoalesced(q: seq<Task>, t: Task)
    requires Coalesced(q)
    ensures Coalesced(Added(q, t))
  {
    hide Stays, IsMove, Evicted, Trimmed, Coalesced;
    MovesGo(t);
    if q != [] {
      MovesGo(q[|q| - 1]);
    }
    if IsMove(t) && q != [] && IsMove(q[|q| - 1]) {
      StillCoalesced(q, t);
    } else if |q| >= CAPACITY {
      EvictedIsTrimmed(q);
      TrimmedIsCoalesced(q, Evicted(q));
      if Evicted(q) != [] && !Stays(Evicted(q)[|Evicted(q)| - 1]) {
        LastOfTrimmed(q, Evicted(q));
      }
      StillCoalesced(Evicted(q), t);
    } else {
      StillCoalesced(q, t);
    }
  }

  /** A new event behind another one, or in its place. */
  lemma StillCoalesced(q: seq<Task>, t: Task)
    requires Coalesced(q)
    ensures q == [] || Stays(q[|q| - 1]) || Stays(t) ==> Coalesced(q + [t])
    ensures q != [] && !Stays(q[|q| - 1]) ==> Coalesced(q[..|q| - 1] + [t])
  {
    hide Stays;
  }

  /** Eviction never leaves a move at the end that was not there. */
  lemma LastOfTrimmed(q: seq<Task>, r: seq<Task>)
    requires Trimmed(q, r) && r != [] && !Stays(r[|r| - 1])
    ensures q != [] && q[|q| - 1] == r[|r| - 1]
  {
    hide Stays, IsRelease, Only;
    OnlyStays(q);
    var m := Only(t => Stays(t), q);
    if i :| 0 <= i <= |q| && r == Only(t => Stays(t), q[..i]) + q[i..] && |r| == 511 {
      OnlyStays(q[..i]);
    } else {
      OnlyReleasesGo(m, r);
    }
  }

  lemma OnlyReleasesGo(m: seq<Task>, r: seq<Task>)
    requires exists i :: 0 <= i <= |m| && r == Only(t => IsRelease(t), m[..i]) + m[i..] && (i == |m| || |r| == 511)
    ensures forall k :: 0 <= k < |r| ==> r[k] in m
  {
    hide IsRelease, Only;
    var i :| 0 <= i <= |m| && r == Only(t => IsRelease(t), m[..i]) + m[i..] && (i == |m| || |r| == 511);
    OnlyFrom(t => IsRelease(t), m[..i]);
    assert forall t :: t in m[..i] || t in m[i..] ==> t in m;
    assert forall k :: 0 <= k < |r| ==> r[k] in r;
  }

  // ---- The queue ----------------------------------------------------------------------

  class Queue {
    var tasks: seq<Task>
    ghost var enqueued: seq<Task>
    ghost var popped: seq<Task>

    /** Everything taken out, followed by the queue, is what was put in except
        for events that release nothing; and the queue is bounded. */
    ghost predicate Valid()
      reads this
    {
      && Keeps(enqueued, popped + tasks)
      && Bounded(tasks) && Coalesced(tasks)
    }

    constructor ()
      ensures Valid() && tasks == [] && enqueued == [] && popped == []
    {
      tasks, enqueued, popped := [], [], [];
    }

    /** One pass over the queue, erasing in place until there is room. */
    method Erase(p: Pass)
      modifies `tasks
      ensures tasks == EraseFirst(p, old(tasks), |old(tasks)| - CAPACITY + 1)
    {
      hide Pass.Evicts, EraseFirst;
      var it := 0;
      assert tasks[..0] == [] && tasks[0..] == tasks;
      while it < |tasks| && |tasks| >= CAPACITY
        invariant 0 <= it <= |tasks|
        invariant EraseFirst(p, old(tasks), |old(tasks)| - CAPACITY + 1)
               == tasks[..it] + EraseFirst(p, tasks[it..], |tasks| - CAPACITY + 1)
        decreases |tasks| - it
      {
        EraseStep(p, tasks, it, |tasks| - CAPACITY + 1);
        if p.Evicts(tasks[it]) {
          tasks := tasks[..it] + tasks[it + 1..];
        } else {
          it := it + 1;
        }
      }
      EraseStops(p, tasks[it..], |tasks| - CAPACITY + 1);
      assert tasks[..it] + tasks[it..] == tasks;
    }

    /** Makes room for one more event in a full queue. */
    method MakeRoom()
      requires |tasks| >= CAPACITY
      modifies `tasks
      ensures tasks == Evicted(old(tasks))
      ensures |tasks| < CAPACITY || forall i :: 0 <= i < |tasks| ==> IsRelease(tasks[i])
    {
      hide IsRelease, EraseFirst, Evicted;
      EvictedIsSmall(tasks);
      BothPasses(tasks);
      Erase(Moves);
      if |tasks| >= CAPACITY {
        Erase(AllButReleases);
      }
    }

    method Enqueue(task: Task)
      requires Valid()
      modifies this
      ensures Valid() && enqueued == old(enqueued) + [task] && popped == old(popped)
      ensures tasks == Added(old(tasks), task)
      ensures tasks != [] && tasks[|tasks| - 1] == task
      ensures !Stays(task) && old(tasks) != [] && !Stays(old(tasks)[|old(tasks)| - 1]) ==>
        tasks[..|tasks| - 1] == old(tasks)[..|old(tasks)| - 1]
      ensures Stays(task) || old(tasks) == [] || Stays(old(tasks)[|old(tasks)| - 1]) ==>
        if |old(tasks)| < 512 then tasks[..|tasks| - 1] == old(tasks) else Trimmed(old(tasks), tasks[..|tasks| - 1])
    {
      hide Keeps, IsRelease, IsMove, Evicted, Bounded, Trimmed, Stays, Coalesced;
      MovesGo(task);
      if tasks != [] {
        MovesGo(tasks[|tasks| - 1]);
      }
      if |tasks| >= CAPACITY {
        EvictedIsTrimmed(tasks);
      }
      AddedKeeps(enqueued, popped, tasks, task);
      AddedIsCoalesced(tasks, task);
      if IsMove(task) && tasks != [] && IsMove(tasks[|tasks| - 1]) {
        tasks := tasks[..|tasks| - 1] + [task];
      } else {
        if |tasks| >= CAPACITY {
          MakeRoom();
        }
        tasks := tasks + [task];
      }
      enqueued := enqueued + [task];
    }

    method PopFront() returns (hasTask: bool, task: Task)
      requires Valid()
      modifies this
      ensures Valid() && enqueued == old(enqueued) && hasTask == (old(tasks) != [])
      ensures if hasTask then old(tasks) == [task] + tasks && popped == old(popped) + [task]
              else tasks == old(tasks) && popped == old(popped)
    {
      hide Keeps, IsRelease, Stays;
      task := Task(Sas, 0, 0, false, 0, 0, 0, 0);
      hasTask := tasks != [];
      if hasTask {
        task := tasks[0];
        assert popped + tasks == (popped + [task]) + tasks[1..];
        tasks := tasks[1..];
        popped := popped + [task];
      }
    }
  }

  // ---- What follows for the keys ------------------------------------------------------------

  /** A key that goes up, or a mouse event whose flags meet the mask of the
      button releases. */
  predicate GoesUp(t: Task) {
    match t.kind
    case Sas => false
    case Mouse => And(t.mouseFlags, 0x4 + 0x10 + 0x40 + 0x100) != 0
    case _ => !t.isDown
  }

  lemma GoesUpIsRelease(t: Task)
    ensures GoesUp(t) <==> IsRelease(t)
  {
    MouseUpIsMasked(t.mouseFlags);
    hide Bit, And;
  }

  function Releases(s: seq<Task>): seq<Task> {
    if s == [] then []
    else Releases(s[..|s| - 1]) + if GoesUp(s[|s| - 1]) then [s[|s| - 1]] else []
  }

  /** Every key-up and mouse-up comes out, in order. */
  lemma {:induction false} AllReleasesKept(e: seq<Task>, s: seq<Task>)
    requires Keeps(e, s)
    ensures Releases(s) == Releases(e)
  {
    hide IsRelease, GoesUp;
    if e != [] {
      GoesUpIsRelease(e[|e| - 1]);
      if s != [] && s[|s| - 1] == e[|e| - 1] && Keeps(e[..|e| - 1], s[..|s| - 1]) {
        AllReleasesKept(e[..|e| - 1], s[..|s| - 1]);
      } else {
        AllReleasesKept(e[..|e| - 1], s);
      }
    }
  }

  /** The events of one key or button, as a caller tells them apart. */
  function Last(ofKey: Task -> bool, s: seq<Task>): seq<Task> {
    if s == [] then []
    else if ofKey(s[|s| - 1]) then [s[|s| - 1]]
    else Last(ofKey, s[..|s| - 1])
  }

  /** If the last event put in for a key is its release, then that is also the
      last event that comes out for it. */
  lemma {:induction false} LastReleaseComesOut(ofKey: Task -> bool, e: seq<Task>, s: seq<Task>)
    requires Keeps(e, s) && Last(ofKey, e) != [] && IsRelease(Last(ofKey, e)[0])
    ensures Last(ofKey, s) == Last(ofKey, e)
  {
    hide IsRelease;
    if s != [] && s[|s| - 1] == e[|e| - 1] && Keeps(e[..|e| - 1], s[..|s| - 1]) {
      if !ofKey(e[|e| - 1]) {
        LastReleaseComesOut(ofKey, e[..|e| - 1], s[..|s| - 1]);
      }
    } else {
      LastReleaseComesOut(ofKey, e[..|e| - 1], s);
    }
  }

  // ---- Whole runs -----------------------------------------------------------------------------

  datatype Operation = Put(task: Task) | Take

  function PutTasks(operations: seq<Operation>): seq<Task> {
    if operations == [] then []
    else PutTasks(operations[..|operations| - 1]) + Puts(operations[|operations| - 1])
  }

  function Puts(o: Operation): seq<Task> {
    match o
    case Put(task) => [task]
    case Take => []
  }

  /** What is in the queue after some operations. */
  function Contents(operations: seq<Operation>): seq<Task> {
    if operations == [] then []
    else
      var q, o := Contents(operations[..|operations| - 1]), operations[|operations| - 1];
      match o
      case Put(task) => Added(q, task)
      case Take => if q == [] then [] else q[1..]
  }

  /** What they have taken out. */
  function TakenOut(operations: seq<Operation>): seq<Task> {
    if operations == [] then []
    else
      var before := operations[..|operations| - 1];
      TakenOut(before) + if operations[|operations| - 1].Take? && Contents(before) != [] then [Contents(before)[0]] else []
  }

  lemma NothingQueued()
    ensures PutTasks([]) == TakenOut([]) == Contents([]) == []
  {}

  lemma OneMorePut(before: seq<Operation>, task: Task)
    ensures var all := before + [Put(task)];
      PutTasks(all) == PutTasks(before) + [task] && TakenOut(all) == TakenOut(before)
      && Contents(all) == Added(Contents(before), task)
  {
    hide Added;
    assert (before + [Put(task)])[..|before|] == before;
  }

  lemma OneMoreTake(before: seq<Operation>)
    ensures PutTasks(before + [Take]) == PutTasks(before)
    ensures TakenOut(before + [Take]) + Contents(before + [Take]) == TakenOut(before) + Contents(before)
    ensures TakenOut(before + [Take]) == TakenOut(before) + if Contents(before) != [] then [Contents(before)[0]] else []
    ensures Contents(before + [Take]) == if Contents(before) == [] then [] else Contents(before)[1..]
  {
    TakeStep(before);
    hide TakenOut, Contents, PutTasks;
    var out, q := TakenOut(before), Contents(before);
    if q != [] {
      assert (out + [q[0]]) + q[1..] == out + q;
    }
  }

  lemma TakeStep(before: seq<Operation>)
    ensures PutTasks(before + [Take]) == PutTasks(before) + []
    ensures TakenOut(before + [Take]) == TakenOut(before) + if Contents(before) != [] then [Contents(before)[0]] else []
    ensures Contents(before + [Take]) == if Contents(before) == [] then [] else Contents(before)[1..]
  {
    hide Added;
    assert (before + [Take])[..|before|] == before;
  }

  /** The last events are the same, if there are any. */
  predicate EndsAlike(e: seq<Task>, s: seq<Task>) {
    e == [] || (s != [] && s[|s| - 1] == e[|e| - 1])
  }

  lemma LastOfAdded(q: seq<Task>, t: Task)
    ensures Added(q, t) != [] && Added(q, t)[|Added(q, t)| - 1] == t
  {
    hide IsMove, Evicted;
  }

  lemma ShorterIsBounded(q: seq<Task>)
    requires Bounded(q) && Coalesced(q) && q != []
    ensures Bounded(q[1..]) && Coalesced(q[1..])
  {
    hide IsRelease, Stays;
  }

  /** After any operations, what has come out followed by what is still queued
      is what was put in except for events that release nothing, the last event
      put in is there, the queue is bounded, and no two moves stand next to each
      other in it. */
  lemma {:induction false} EveryQueueKeeps(operations: seq<Operation>)
    ensures Keeps(PutTasks(operations), TakenOut(operations) + Contents(operations))
    ensures Bounded(Contents(operations)) && Coalesced(Contents(operations))
    ensures EndsAlike(PutTasks(operations), TakenOut(operations) + Contents(operations))
  {
    if operations == [] {
    } else {
      hide Keeps, Bounded, Coalesced, PutTasks, TakenOut, Contents;
      var before, o := operations[..|operations| - 1], operations[|operations| - 1];
      assert operations == before + [o];
      EveryQueueKeeps(before);
      match o {
        case Put(task) =>
          OneMorePut(before, task);
          AddedKeeps(PutTasks(before), TakenOut(before), Contents(before), task);
          AddedIsCoalesced(Contents(before), task);
          LastOfAdded(Contents(before), task);
          hide Added;
        case Take =>
          OneMoreTake(before);
          if Contents(before) != [] {
            ShorterIsBounded(Contents(before));
          }
      }
    }
  }

  /** No event, unless it replaces a move, meets a full queue. */
  ghost predicate NeverFull(operations: seq<Operation>) {
    forall k :: 0 <= k < |operations| && operations[k].Put? ==> |Contents(operations[..k])| < 512
  }

  lemma StillNeverFull(before: seq<Operation>, o: Operation)
    requires NeverFull(before + [o])
    ensures NeverFull(before) && (o.Put? ==> |Contents(before)| < 512)
  {
    hide Contents;
    var all := before + [o];
    assert all[..|before|] == before;
    assert forall k :: 0 <= k < |before| ==> all[k] == before[k] && all[..k] == before[..k];
  }

  lemma AddedThins(e: seq<Task>, out: seq<Task>, q: seq<Task>, t: Task)
    requires Thins(e, out + q, false) && |q| < 512
    ensures Thins(e + [t], out + Added(q, t), false)
  {
    hide Thins, IsMove, Stays, Evicted;
    MovesGo(t);
    if q != [] {
      MovesGo(q[|q| - 1]);
    }
    if IsMove(t) && q != [] && IsMove(q[|q| - 1]) {
      ThinsReplaced(e, out + q, t);
      assert (out + q)[..|out + q| - 1] + [t] == out + (q[..|q| - 1] + [t]);
    } else {
      assert Added(q, t) == q + [t];
      hide Added;
      ThinsBoth(e, out + q, t);
      assert out + q + [t] == out + (q + [t]);
    }
  }

  /** Then only moves are lost that are directly followed by a move. */
  lemma {:induction false} OnlyMovesAreLost(operations: seq<Operation>)
    requires NeverFull(operations)
    ensures Thins(PutTasks(operations), TakenOut(operations) + Contents(operations), false)
  {
    if operations == [] {
    } else {
      var before, o := operations[..|operations| - 1], operations[|operations| - 1];
      assert operations == before + [o];
      hide Thins, PutTasks, TakenOut, Contents, NeverFull, Added;
      StillNeverFull(before, o);
      OnlyMovesAreLost(before);
      match o {
        case Put(task) =>
          OneMorePut(before, task);
          AddedThins(PutTasks(before), TakenOut(before), Contents(before), task);
        case Take => OneMoreTake(before);
      }
    }
  }

  lemma WholeRun(operations: seq<Operation>, ofKey: Task -> bool, out: seq<Task>)
    requires out == TakenOut(operations) + Contents(operations)
    ensures Keeps(PutTasks(operations), out) && Releases(out) == Releases(PutTasks(operations))
    ensures var put := PutTasks(operations);
      Last(ofKey, put) != [] && GoesUp(Last(ofKey, put)[0]) ==> Last(ofKey, out) == Last(ofKey, put)
    ensures EndsAlike(PutTasks(operations), out)
    ensures NeverFull(operations) ==> Thins(PutTasks(operations), out, false)
  {
    hide NeverFull, Thins, Bounded, Coalesced, EndsAlike, Keeps, IsRelease, GoesUp, Releases, Last, PutTasks, TakenOut,
         Contents;
    var put := PutTasks(operations);
    EveryQueueKeeps(operations);
    AllReleasesKept(put, out);
    if NeverFull(operations) {
      OnlyMovesAreLost(operations);
    }
    if Last(ofKey, put) != [] && GoesUp(Last(ofKey, put)[0]) {
      GoesUpIsRelease(Last(ofKey, put)[0]);
      LastReleaseComesOut(ofKey, put, out);
    }
  }

  /** Any interleaving of enqueues and pops, and then the queue drained: what
      comes out is what went in except for events that release nothing, so every
      release comes out, and no key whose last event was its release ends on
      anything else. The queue was bounded all the time. */
  method RunQueue(operations: seq<Operation>, ofKey: Task -> bool)
    returns (out: seq<Task>, ghost queues: seq<seq<Task>>)
    ensures out == TakenOut(operations) + Contents(operations)
    ensures Keeps(PutTasks(operations), out) && Releases(out) == Releases(PutTasks(operations))
    ensures var put := PutTasks(operations);
      Last(ofKey, put) != [] && GoesUp(Last(ofKey, put)[0]) ==> Last(ofKey, out) == Last(ofKey, put)
    ensures EndsAlike(PutTasks(operations), out)
    ensures NeverFull(operations) ==> Thins(PutTasks(operations), out, false)
    ensures |queues| == |operations|
    ensures forall k :: 0 <= k < |queues| ==>
      queues[k] == Contents(operations[..k + 1]) && Bounded(queues[k]) && Coalesced(queues[k])
  {
    hide NeverFull, Thins, Coalesced, EndsAlike, Keeps, IsRelease, GoesUp, Releases, Last, Added, Bounded, PutTasks,
         TakenOut, Contents;
    var q := new Queue();
    out, queues := [], [];
    NothingQueued();
    assert operations[..0] == [];
    for k := 0 to |operations|
      invariant fresh(q) && q.Valid() && q.popped == out && q.enqueued == PutTasks(operations[..k])
      invariant out == TakenOut(operations[..k]) && q.tasks == Contents(operations[..k]) && |queues| == k
      invariant forall i :: 0 <= i < k ==>
        queues[i] == Contents(operations[..i + 1]) && Bounded(queues[i]) && Coalesced(queues[i])
    {
      assert operations[..k + 1] == operations[..k] + [operations[k]];
      match operations[k] {
        case Put(task) =>
          OneMorePut(operations[..k], task);
          q.Enqueue(task);
        case Take =>
          OneMoreTake(operations[..k]);
          var hasTask, task := q.PopFront();
          if hasTask {
            out := out + [task];
          }
      }
      queues := queues + [q.tasks];
    }
    assert operations[..|operations|] == operations;
    while q.tasks != []
      invariant fresh(q) && q.Valid() && q.popped == out && q.enqueued == PutTasks(operations)
      invariant out + q.tasks == TakenOut(operations) + Contents(operations)
      decreases |q.tasks|
    {
      var hasTask, task := q.PopFront();
      out := out + [task];
    }
    assert out + q.tasks == out;
    WholeRun(operations, ofKey, out);
  }
}
