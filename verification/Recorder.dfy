/** The recorder client: items queued in memory, cut into batches, sent, or
    spilled to the disk spool and sent later. The capture threads may queue more
    items, and other sessions may use the spool, whenever no lock is held. */
module Recorder {
  import opened Spool

  datatype FrameKind = Periodic | Activity | Keyframe | GapMarker

  datatype Frame = Frame(number: int, kind: FrameKind, monitorId: string, payload: string, capturedAt: string,
                         windowTitle: string, processName: string)

  datatype Event = Event(number: int, eventType: string, occurredAt: string)

  datatype Batch = Batch(frames: seq<Frame>, events: seq<Event>)

  /** Where a posted body comes from: the n-th batch that was built, or a chunk
      of the spool. */
  datatype Source = Live(n: nat) | FromSpool(index: int) | KeepAlive

  /** A POST and whether it got a 2xx response. */
  datatype Post = Post(source: Source, body: Batch, ok: bool)

  /** Why a batch is lost. */
  datatype Loss = NoSpooler | WriteFailed(index: int) | Evicted(index: int, writer: string)

  /** What has become of a batch. */
  datatype Fate = InFlight | Delivered(source: Source) | Spooled(index: int) | Dropped(why: Loss) {
    /** The number under which the batch went to the spool, 0 if it did not. */
    function Index(): int {
      match this
      case InFlight => 0
      case Delivered(source) => if source.FromSpool? then source.index else 0
      case Spooled(i) => i
      case Dropped(why) => if why.NoSpooler? then 0 else why.index
    }
  }

  function FrameSize(f: Frame): nat {
    |f.payload| + 128
  }

  /** What a frame counts for in the queue. */
  function QueuedSize(f: Frame): nat {
    |f.payload| + |f.windowTitle| + |f.processName| + 128
  }

  function FramesSize(frames: seq<Frame>): nat {
    if frames == [] then 0 else FramesSize(frames[..|frames| - 1]) + FrameSize(frames[|frames| - 1])
  }

  function FramesOf(batches: seq<Batch>): seq<Frame> {
    if batches == [] then [] else FramesOf(batches[..|batches| - 1]) + batches[|batches| - 1].frames
  }

  function EventsOf(batches: seq<Batch>): seq<Event> {
    if batches == [] then [] else EventsOf(batches[..|batches| - 1]) + batches[|batches| - 1].events
  }

  lemma {:induction false} FramesSizePrefix(frames: seq<Frame>, n: nat)
    requires n <= |frames|
    ensures FramesSize(frames[..n]) + 128 * (|frames| - n) <= FramesSize(frames)
    decreases |frames|
  {
    if n < |frames| {
      assert frames[..|frames| - 1][..n] == frames[..n];
      FramesSizePrefix(frames[..|frames| - 1], n);
    } else {
      assert frames[..n] == frames;
    }
  }

  lemma NextFrame(frames: seq<Frame>, n: nat)
    requires n < |frames|
    ensures FramesSize(frames[..n + 1]) == FramesSize(frames[..n]) + FrameSize(frames[n])
  {
    assert frames[..n + 1][..n] == frames[..n];
  }

  /** The estimate of a batch. */
  function Estimate(b: Batch): nat {
    128 + FramesSize(b.frames) + 256 * |b.events|
  }

  /** The longest prefix that a batch has room for, but at least one frame. */
  ghost predicate LongestFrames(frames: seq<Frame>, n: nat, limit: int) {
    && n <= |frames| && (frames != [] ==> n > 0)
    && (n > 1 ==> 128 + FramesSize(frames[..n]) <= limit)
    && (n < |frames| ==> 128 + FramesSize(frames[..n + 1]) > limit)
  }

  /** The same for events, beside frames of a given size. */
  ghost predicate LongestEvents(count: nat, n: nat, size: nat, limit: int) {
    && n <= count && (count > 0 ==> n > 0)
    && (n > 1 ==> 128 + size + 256 * n <= limit)
    && (n < count ==> 128 + size + 256 * (n + 1) > limit)
  }

  /** A single batch has room for everything. */
  predicate FitsOneBatch(b: Batch, limit: int) {
    && (|b.frames| <= 1 || 128 + FramesSize(b.frames) <= limit)
    && (|b.events| <= 1 || Estimate(b) <= limit)
  }

  lemma NothingFits(limit: int)
    ensures FitsOneBatch(Batch([], []), limit)
  {}

  lemma LongestIsAll(frames: seq<Frame>, n: nat, limit: int)
    requires LongestFrames(frames, n, limit)
    ensures n == |frames| <==> |frames| <= 1 || 128 + FramesSize(frames) <= limit
  {
    assert frames[..|frames|] == frames;
    if n < |frames| {
      FramesSizePrefix(frames, n + 1);
    }
  }

  /** The estimate of a batch exceeds the limit by at most one event, unless
      its first frame alone does. */
  lemma EstimateBound(frames: seq<Frame>, n: nat, count: nat, m: nat, limit: int)
    requires LongestFrames(frames, n, limit) && LongestEvents(count, m, FramesSize(frames[..n]), limit)
    ensures var first := if frames == [] then 128 else 128 + FrameSize(frames[0]);
      128 + FramesSize(frames[..n]) + 256 * m <= (if limit < first then first else limit) + 256
  {
    if n == 1 {
      NextFrame(frames, 0);
    }
  }

  // ---- Fates ------------------------------------------------------------------------

  /** The fates after another session's write has evicted the directory. */
  function EvictAll(fate: seq<Fate>, writer: string): (r: seq<Fate>)
    ensures |r| == |fate|
  {
    seq(|fate|, i requires 0 <= i < |fate| =>
      if fate[i].Spooled? then Dropped(Evicted(fate[i].index, writer)) else fate[i])
  }

  /** The fates after the chunk with a given index has been delivered. */
  function DeliverIndex(fate: seq<Fate>, index: int): (r: seq<Fate>)
    ensures |r| == |fate|
  {
    seq(|fate|, i requires 0 <= i < |fate| => if fate[i] == Spooled(index) then Delivered(FromSpool(index)) else fate[i])
  }

  /** Every batch has its own number in the spool, up to a given one. */
  ghost predicate OwnIndices(fate: seq<Fate>, top: int) {
    && (forall n :: 0 <= n < |fate| ==> 0 <= fate[n].Index() <= top)
    && (forall m, n :: 0 <= m < n < |fate| && fate[m].Index() == fate[n].Index() ==> fate[m].Index() == 0)
  }

  lemma SameIndices(before: seq<Fate>, after: seq<Fate>, top: int)
    requires OwnIndices(before, top) && |before| == |after|
    requires forall n :: 0 <= n < |after| ==> after[n].Index() == before[n].Index()
    ensures OwnIndices(after, top)
  {
    hide Fate.Index;
  }

  lemma NewIndex(fate: seq<Fate>, n: nat, f: Fate, top: int)
    requires OwnIndices(fate, top) && n < |fate| && (f.Index() == 0 || f.Index() == top + 1) && top >= 0
    ensures OwnIndices(fate[n := f], top + 1)
    ensures f.Index() == 0 ==> OwnIndices(fate[n := f], top)
  {
    hide Fate.Index;
  }

  /** The live POST of batch n has failed. */
  ghost predicate Tried(n: nat, b: Batch, posts: seq<Post>) {
    Post(Live(n), b, false) in posts
  }

  /** A write of another session has deleted the chunk of a batch. */
  ghost predicate EvictedBy(evictions: seq<Eviction<Batch>>, session: string, writer: string, index: int, b: Batch) {
    exists k :: 0 <= k < |evictions| && evictions[k].victim == session && evictions[k].writer == writer
      && HasChunk(evictions[k].chunks, index, b)
  }

  predicate HasChunk(d: Directory<Batch>, index: int, b: Batch) {
    exists c :: c in d && c.index == index && c.payload == b
  }

  /** What the fate of batch n says has happened to this very batch. */
  ghost predicate Backed(session: string, n: nat, b: Batch, f: Fate, posts: seq<Post>,
                         failed: seq<FailedWrite<Batch>>, evictions: seq<Eviction<Batch>>)
  {
    match f
    case InFlight => true
    case Delivered(source) =>
      Post(source, b, true) in posts && (source == Live(n) || (source.FromSpool? && Tried(n, b, posts)))
    case Spooled(i) => i > 0 && Tried(n, b, posts)
    case Dropped(why) =>
      Tried(n, b, posts) &&
      match why
      case NoSpooler => true
      case WriteFailed(i) => i > 0 && FailedWrite(session, i, b) in failed
      case Evicted(i, writer) => i > 0 && writer != session && EvictedBy(evictions, session, writer, i, b)
  }

  /** More events back it all the more. */
  lemma StillBacked(session: string, n: nat, b: Batch, f: Fate, posts: seq<Post>, failed: seq<FailedWrite<Batch>>,
                    evictions: seq<Eviction<Batch>>, posts': seq<Post>, failed': seq<FailedWrite<Batch>>,
                    evictions': seq<Eviction<Batch>>)
    requires Backed(session, n, b, f, posts, failed, evictions)
    requires posts <= posts' && failed <= failed' && evictions <= evictions'
    ensures Backed(session, n, b, f, posts', failed', evictions')
  {
    if f.Dropped? && f.why.Evicted? {
      MoreEvictions(session, f.why.writer, f.why.index, b, evictions, evictions');
    }
  }

  lemma MoreEvictions(session: string, writer: string, index: int, b: Batch, evictions: seq<Eviction<Batch>>,
                      evictions': seq<Eviction<Batch>>)
    requires EvictedBy(evictions, session, writer, index, b)
    requires forall e :: e in evictions ==> e in evictions'
    ensures EvictedBy(evictions', session, writer, index, b)
  {
    hide HasChunk;
    var k :| 0 <= k < |evictions| && evictions[k].victim == session && evictions[k].writer == writer
      && HasChunk(evictions[k].chunks, index, b);
    assert evictions[k] in evictions';
  }

  /** How the fate of a batch may go on, by events that happen meanwhile. */
  ghost predicate Becomes(session: string, b: Batch, before: Fate, after: Fate, posts: seq<Post>,
                          evictions: seq<Eviction<Batch>>)
  {
    || after == before
    || (before.Spooled? && after == Delivered(FromSpool(before.index)) && Post(FromSpool(before.index), b, true) in posts)
    || (before.Spooled? && after.Dropped? && after.why.Evicted? && after.why.index == before.index
        && after.why.writer != session && EvictedBy(evictions, session, after.why.writer, before.index, b))
  }

  /** The history of a client at one time. */
  datatype History = History(fate: seq<Fate>, posts: seq<Post>, evictions: seq<Eviction<Batch>>)

  /** From one time to a later one every batch keeps its fate, or a spooled one
      is delivered by a POST of its chunk or deleted by another session's write
      in between. */
  ghost predicate Evolves(session: string, built: seq<Batch>, h: History, h': History) {
    && h.posts <= h'.posts && h.evictions <= h'.evictions && |h.fate| <= |h'.fate| && |h.fate| <= |built|
    && forall n :: 0 <= n < |h.fate| ==>
      Becomes(session, built[n], h.fate[n], h'.fate[n], h'.posts[|h.posts|..], h'.evictions[|h.evictions|..])
  }

  lemma NothingHappens(session: string, built: seq<Batch>, h: History)
    requires |h.fate| <= |built|
    ensures Evolves(session, built, h, h)
  {}

  lemma BecomesLater(session: string, b: Batch, x: Fate, y: Fate, z: Fate, p: seq<Post>, e: seq<Eviction<Batch>>,
                     q: seq<Post>, f: seq<Eviction<Batch>>)
    requires Becomes(session, b, x, y, p, e) && Becomes(session, b, y, z, q, f)
    ensures Becomes(session, b, x, z, p + q, e + f)
  {
    hide EvictedBy;
    if y == x {
      if z != y && z.Dropped? {
        MoreEvictions(session, z.why.writer, y.index, b, f, e + f);
      }
    } else if y.Dropped? {
      MoreEvictions(session, y.why.writer, x.index, b, e, e + f);
    }
  }

  lemma EvolvesLater(session: string, built: seq<Batch>, h: History, h': History, h'': History)
    requires Evolves(session, built, h, h') && |h'.fate| <= |built| && Evolves(session, built, h', h'')
    ensures Evolves(session, built, h, h'')
  {
    hide Becomes;
    var p, q := h'.posts[|h.posts|..], h''.posts[|h'.posts|..];
    var e, f := h'.evictions[|h.evictions|..], h''.evictions[|h'.evictions|..];
    assert h''.posts[|h.posts|..] == p + q && h''.evictions[|h.evictions|..] == e + f;
    forall n | 0 <= n < |h.fate|
      ensures Becomes(session, built[n], h.fate[n], h''.fate[n], h''.posts[|h.posts|..], h''.evictions[|h.evictions|..])
    {
      BecomesLater(session, built[n], h.fate[n], h'.fate[n], h''.fate[n], p, e, q, f);
    }
  }

  /** One more batch, as yet without a fate. */
  lemma EvolvesWithNew(session: string, built: seq<Batch>, b: Batch, h: History)
    requires |h.fate| <= |built|
    ensures Evolves(session, built + [b], h, h.(fate := h.fate + [InFlight]))
  {}

  /** Between two times this session's directory has not been evicted. */
  ghost predicate NotEvicted(session: string, before: seq<Eviction<Batch>>, after: seq<Eviction<Batch>>)
    requires |before| <= |after|
  {
    forall k :: |before| <= k < |after| ==> after[k].victim != session
  }

  /** The chunk with a given index is in the spool and holds a given batch. */
  predicate InSpool(dirs: map<string, Directory<Batch>>, session: string, index: int, b: Batch) {
    session in dirs && HasChunk(dirs[session], index, b)
  }

  ghost predicate KeepsDirectory(session: string, before: map<string, Directory<Batch>>,
                                 after: map<string, Directory<Batch>>)
  {
    session in before ==> session in after && after[session] == before[session]
  }

  /** A directory has lost chunks at most. */
  ghost predicate ShrinksTo(session: string, before: map<string, Directory<Batch>>, after: map<string, Directory<Batch>>) {
    session in after ==> session in before && forall x :: x in after[session] ==> x in before[session]
  }

  lemma ShrinksFurther(session: string, a: map<string, Directory<Batch>>, b: map<string, Directory<Batch>>,
                       c: map<string, Directory<Batch>>)
    requires ShrinksTo(session, a, b) && ShrinksTo(session, b, c)
    ensures ShrinksTo(session, a, c)
  {}

  lemma StaysRemoved(session: string, before: map<string, Directory<Batch>>, after: map<string, Directory<Batch>>,
                     index: int)
    requires ShrinksTo(session, before, after) && session in after && !HasIndex(before[session], index)
    ensures !HasIndex(after[session], index)
  {
    forall k | 0 <= k < |after[session]| ensures after[session][k].index != index {
      var c := after[session][k];
      assert c in before[session];
      var i :| 0 <= i < |before[session]| && before[session][i] == c;
    }
  }

  lemma HadDirectory(session: string, before: map<string, Directory<Batch>>, after: map<string, Directory<Batch>>)
    requires ShrinksTo(session, before, after) && session in after
    ensures session in before
  {}

  lemma SameShrinks(session: string, before: map<string, Directory<Batch>>, after: map<string, Directory<Batch>>)
    requires KeepsDirectory(session, after, before)
    ensures ShrinksTo(session, before, after)
  {}

  /** How the server answers a POST: whether with a 2xx, and up to which number
      it acknowledges. */
  datatype Answer = Answer(ok: bool, acked: int)

  /** What a flush meets outside: what can be done in the spool, after how many
      chunks the context is cancelled, how the server answers each POST, and
      whether the last answer is so long ago that a sign of life is due. */
  datatype Outside = Outside(
    canList: bool, canRead: int -> bool, canRemove: int -> bool, canMake: bool, canWrite: bool,
    checks: nat, live: Answer, chunk: int -> Answer, keepAlive: Answer, due: bool)

  /** The chunks that a drain has to send. */
  ghost function Listing(dirs: map<string, Directory<Batch>>, session: string, a: Outside): Directory<Batch> {
    if session in dirs && a.canList then Readable(dirs[session], a.canRead) else []
  }

  /** The first n chunks are delivered, and no more: the next one is not
      reached or not taken. */
  ghost predicate Stops(listing: Directory<Batch>, n: nat, a: Outside) {
    && n <= |listing| && n <= a.checks
    && (forall i :: 0 <= i < n ==> a.chunk(listing[i].index).ok)
    && (n < |listing| && n < a.checks ==> !a.chunk(listing[n].index).ok)
  }

  function Max(a: int, b: int): int {
    if a < b then b else a
  }

  /** The number acknowledged after that. */
  function Acked(start: int, listing: Directory<Batch>, n: nat, a: Outside): int
    requires n <= |listing|
  {
    if n == 0 then start
    else
      var k := Acked(start, listing, n - 1, a);
      var acked := a.chunk(listing[n - 1].index).acked;
      if acked > k then acked else k
  }

  /** The POSTs of a drain that delivers the first n chunks of a listing: it
      stops at a chunk that cannot be delivered or is not reached. */
  ghost function DrainPosts(listing: Directory<Batch>, n: nat, a: Outside): seq<Post>
    requires n <= |listing|
  {
    Deliveries(listing, n) + if n < |listing| && n < a.checks then [Failure(listing[n])] else []
  }

  predicate HasIndex(d: Directory<Batch>, index: int) {
    exists k :: 0 <= k < |d| && d[k].index == index
  }

  /** Every spooled batch that can be read is listed. */
  ghost predicate ListsAll(fate: seq<Fate>, d: Directory<Batch>, canRead: int -> bool) {
    forall n :: 0 <= n < |fate| && fate[n].Spooled? && canRead(fate[n].index) ==> HasIndex(d, fate[n].index)
  }

  lemma ReadChunkIsListed(dirs: map<string, Directory<Batch>>, session: string, index: int, b: Batch, canRead: int -> bool)
    requires InSpool(dirs, session, index, b) && canRead(index)
    ensures HasIndex(Readable(dirs[session], canRead), index)
  {
    hide Readable;
    var c :| c in dirs[session] && c.index == index && c.payload == b;
    ReadableMember(dirs[session], canRead, c);
    var k :| 0 <= k < |Readable(dirs[session], canRead)| && Readable(dirs[session], canRead)[k] == c;
  }

  lemma SameDirectory(before: map<string, Directory<Batch>>, after: map<string, Directory<Batch>>, session: string,
                      index: int, b: Batch)
    requires InSpool(before, session, index, b) && KeepsDirectory(session, before, after)
    ensures InSpool(after, session, index, b)
  {}

  lemma HasDirectory(dirs: map<string, Directory<Batch>>, session: string, index: int, b: Batch)
    requires InSpool(dirs, session, index, b)
    ensures session in dirs
  {}

  /** Deleting one chunk leaves the others. */
  lemma OtherIndexStays(before: map<string, Directory<Batch>>, after: map<string, Directory<Batch>>, session: string,
                        gone: int, index: int, b: Batch)
    requires InSpool(before, session, index, b) && index != gone
    requires after == before || (session in before && Ascending(before[session])
                                 && after == before[session := Without(before[session], gone)])
    ensures InSpool(after, session, index, b)
  {
    var c :| c in before[session] && c.index == index && c.payload == b;
    if after != before {
      WithoutMember(before[session], gone, c);
    }
  }

  /** A new chunk does not hide those with other indices. */
  lemma OtherIndexKept(before: map<string, Directory<Batch>>, after: map<string, Directory<Batch>>, session: string,
                       new_: Chunk<Batch>, index: int, b: Batch)
    requires InSpool(before, session, index, b) && index != new_.index && Ascending(before[session])
    requires session in after && after[session] == Insert(before[session], new_)
    ensures InSpool(after, session, index, b)
  {
    var c :| c in before[session] && c.index == index && c.payload == b;
    InsertMember(before[session], new_, c);
  }

  lemma NewChunkIsThere(d: Directory<Batch>, after: map<string, Directory<Batch>>, session: string, c: Chunk<Batch>)
    requires Ascending(d) && session in after && after[session] == Insert(d, c)
    ensures InSpool(after, session, c.index, c.payload)
  {
    InsertMember(d, c, c);
  }

  lemma SameIndex(d: Directory<Batch>, x: Chunk<Batch>, y: Chunk<Batch>)
    requires Ascending(d) && x in d && y in d && x.index == y.index
    ensures x == y
  {
    var i :| 0 <= i < |d| && d[i] == x;
    var j :| 0 <= j < |d| && d[j] == y;
  }

  /** The chunks read agree with the batches whose fates name them. */
  ghost predicate Reflects(fate: seq<Fate>, built: seq<Batch>, batches: Directory<Batch>)
    requires |fate| == |built|
  {
    forall n: nat, c :: n < |built| && c in batches && fate[n] == Spooled(c.index) ==> c.payload == built[n]
  }

  /** Fates that name fewer chunks agree all the more. */
  lemma FewerReflect(before: seq<Fate>, after: seq<Fate>, built: seq<Batch>, batches: Directory<Batch>)
    requires |before| == |after| == |built| && Reflects(before, built, batches)
    requires forall n :: 0 <= n < |after| && after[n].Spooled? ==> after[n] == before[n]
    ensures Reflects(after, built, batches)
  {}

  /** What is gone from a directory has been posted. */
  ghost predicate RemovedOnly(before: Directory<Batch>, after: Directory<Batch>, batches: Directory<Batch>, posted: nat)
    requires posted <= |batches|
  {
    forall c :: c in before && c !in after ==> exists i :: 0 <= i < posted && batches[i].index == c.index
  }

  lemma RemovedOneMore(before: Directory<Batch>, now: Directory<Batch>, after: Directory<Batch>,
                       batches: Directory<Batch>, k: nat)
    requires k < |batches| && RemovedOnly(before, now, batches, k)
    requires forall c :: c in now && c !in after ==> c.index == batches[k].index
    ensures RemovedOnly(before, after, batches, k + 1)
  {
    forall c | c in before && c !in after ensures exists i :: 0 <= i < k + 1 && batches[i].index == c.index {
      if c in now {
        assert batches[k].index == c.index;
      } else {
        var i :| 0 <= i < k && batches[i].index == c.index;
      }
    }
  }

  lemma RemovedNext(before: Directory<Batch>, now: Directory<Batch>, after: Directory<Batch>,
                    batches: Directory<Batch>, k: nat, sent: bool)
    requires k < |batches| && RemovedOnly(before, now, batches, k)
    requires forall c :: c in now && c !in after ==> sent && c.index == batches[k].index
    ensures RemovedOnly(before, after, batches, if sent then k + 1 else k)
  {
    if sent {
      RemovedOneMore(before, now, after, batches, k);
    }
  }

  lemma NoFrames()
    ensures FramesSize([]) == 0
  {}

  lemma OneMoreBatch(built: seq<Batch>, b: Batch)
    ensures FramesOf(built + [b]) == FramesOf(built) + b.frames
    ensures EventsOf(built + [b]) == EventsOf(built) + b.events
  {
    assert (built + [b])[..|built|] == built;
  }

  class RecorderClient {
    const session: string
    const maxBatchBytes: int
    const maxQueueBytes: int
    const strict: bool
    const hasSpooler: bool
    const spooler: DiskSpooler<Batch>
    var seqCounter: int
    var spoolIndex: int
    var ackedSeq: int
    var pendingFrames: seq<Frame>
    var pendingEvents: seq<Event>
    var queuedBytes: int
    var closed: bool
    // what has happened so far
    ghost var acceptedFrames: seq<Frame>
    ghost var acceptedEvents: seq<Event>
    ghost var built: seq<Batch>
    ghost var fate: seq<Fate>
    ghost var posts: seq<Post>

    /** No item is lost or doubled between the queue and the batches. */
    ghost predicate Conserved()
      reads `built, `pendingFrames, `pendingEvents, `acceptedFrames, `acceptedEvents, `queuedBytes
    {
      && FramesOf(built) + pendingFrames == acceptedFrames
      && EventsOf(built) + pendingEvents == acceptedEvents
      && queuedBytes >= 0
    }

    /** Every batch is where its fate says, and has come there as it says. */
    ghost predicate Accounted(n: nat)
      requires n < |built| && |fate| == |built|
      reads `built, `fate, `posts, spooler
    {
      && Backed(session, n, built[n], fate[n], posts, spooler.failedWrites, spooler.evictions)
      && (fate[n].Index() > 0 ==> hasSpooler)
      && (fate[n] == Dropped(NoSpooler) ==> !hasSpooler)
      && (fate[n].Spooled? ==> InSpool(spooler.dirs, session, fate[n].index, built[n]))
    }

    ghost predicate Valid()
      reads `built, `fate, `pendingFrames, `pendingEvents, `acceptedFrames, `acceptedEvents, `queuedBytes,
            `posts, `spoolIndex, spooler
    {
      && Conserved() && spooler.Valid() && |fate| == |built| && spoolIndex >= 0
      && OwnIndices(fate, spoolIndex)
      && (forall k :: 0 <= k < |posts| && posts[k].source.Live? ==> posts[k].source.n < |built|)
      && forall n: nat :: n < |built| ==> Accounted(n)
    }

    ghost predicate Settled()
      reads `fate
    {
      forall n :: 0 <= n < |fate| ==> fate[n] != InFlight
    }

    ghost function Now(): History
      reads `fate, `posts, spooler`evictions
    {
      History(fate, posts, spooler.evictions)
    }

    constructor (id: string, batchBytes: int, queueBytes: int, strictPolicy: bool, withSpooler: bool,
                 disk: DiskSpooler<Batch>)
      requires disk.Valid()
      ensures Valid() && Settled() && spooler == disk && session == id && acceptedFrames == [] && acceptedEvents == []
      ensures strict == strictPolicy && hasSpooler == withSpooler && !closed && pendingFrames == [] && pendingEvents == []
      ensures maxBatchBytes == (if batchBytes <= 0 then 2_097_152 else batchBytes)
      ensures maxQueueBytes == (if queueBytes <= 0 then 67_108_864 else queueBytes)
      ensures seqCounter == spoolIndex == ackedSeq == queuedBytes == 0
    {
      session := id;
      maxBatchBytes := if batchBytes <= 0 then 2 * 1024 * 1024 else batchBytes;
      maxQueueBytes := if queueBytes <= 0 then 64 * 1024 * 1024 else queueBytes;
      strict, hasSpooler, spooler := strictPolicy, withSpooler, disk;
      seqCounter, spoolIndex, ackedSeq, queuedBytes, closed := 0, 0, 0, 0, false;
      pendingFrames, pendingEvents := [], [];
      acceptedFrames, acceptedEvents, built, fate, posts := [], [], [], [], [];
    }

    // ---- Queueing ------------------------------------------------------------------

    /** Full queues refuse periodic frames only. */
    method EnqueueFrame(frame: Frame, clock: string) returns (accepted: bool)
      requires Valid()
      modifies `seqCounter, `pendingFrames, `queuedBytes, `acceptedFrames
      ensures Valid()
      ensures accepted <==> !closed && (frame.kind != Periodic || old(queuedBytes) + QueuedSize(frame) <= maxQueueBytes)
      ensures seqCounter == old(seqCounter) + if old(closed) || frame.number > 0 then 0 else 1
      ensures queuedBytes == old(queuedBytes) + if accepted then QueuedSize(frame) else 0
      ensures !accepted ==> acceptedFrames == old(acceptedFrames) && pendingFrames == old(pendingFrames)
      ensures accepted ==> acceptedFrames == old(acceptedFrames) + [frame.(
        number := if frame.number <= 0 then old(seqCounter) + 1 else frame.number,
        monitorId := if frame.monitorId == "" then "primary" else frame.monitorId,
        capturedAt := if frame.capturedAt == "" then clock else frame.capturedAt)]
    {
      hide FramesOf, EventsOf, InSpool;
      if closed {
        return false;
      }
      var f := frame;
      if f.number <= 0 {
        seqCounter := seqCounter + 1;
        f := f.(number := seqCounter);
      }
      if f.monitorId == "" {
        f := f.(monitorId := "primary");
      }
      if f.capturedAt == "" {
        f := f.(capturedAt := clock);
      }
      var approxSize := |f.payload| + |f.windowTitle| + |f.processName| + 128;
      if queuedBytes + approxSize > maxQueueBytes {
        if f.kind == Periodic {
          return false;
        }
      }
      pendingFrames := pendingFrames + [f];
      queuedBytes := queuedBytes + approxSize;
      acceptedFrames := acceptedFrames + [f];
      return true;
    }

    method EnqueueEvent(event: Event, clock: string)
      requires Valid()
      modifies `seqCounter, `pendingEvents, `queuedBytes, `acceptedEvents
      ensures Valid()
      ensures seqCounter == old(seqCounter) + if closed || event.number > 0 then 0 else 1
      ensures queuedBytes == old(queuedBytes) + if closed then 0 else 256
      ensures closed ==> acceptedEvents == old(acceptedEvents) && pendingEvents == old(pendingEvents)
      ensures !closed ==> acceptedEvents == old(acceptedEvents) + [event.(
        number := if event.number <= 0 then old(seqCounter) + 1 else event.number,
        occurredAt := if event.occurredAt == "" then clock else event.occurredAt)]
    {
      hide FramesOf, EventsOf, InSpool;
      if closed {
        return;
      }
      var e := event;
      if e.number <= 0 {
        seqCounter := seqCounter + 1;
        e := e.(number := seqCounter);
      }
      if e.occurredAt == "" {
        e := e.(occurredAt := clock);
      }
      pendingEvents := pendingEvents + [e];
      queuedBytes := queuedBytes + 256;
      acceptedEvents := acceptedEvents + [e];
    }

    // ---- Batches -------------------------------------------------------------------

    method CountFrames() returns (n: nat, size: nat)
      ensures LongestFrames(pendingFrames, n, maxBatchBytes) && size == FramesSize(pendingFrames[..n])
    {
      hide FramesSize;
      NoFrames();
      n, size := 0, 0;
      assert pendingFrames[..0] == [];
      while n < |pendingFrames|
        invariant n <= |pendingFrames| && size == FramesSize(pendingFrames[..n])
        invariant n > 1 ==> 128 + size <= maxBatchBytes
        decreases |pendingFrames| - n
      {
        var fSize := |pendingFrames[n].payload| + 128;
        NextFrame(pendingFrames, n);
        if n > 0 && 128 + size + fSize > maxBatchBytes {
          break;
        }
        n, size := n + 1, size + fSize;
      }
    }

    method CountEvents(size: nat) returns (m: nat)
      ensures LongestEvents(|pendingEvents|, m, size, maxBatchBytes)
    {
      m := 0;
      while m < |pendingEvents|
        invariant m <= |pendingEvents|
        invariant m > 1 ==> 128 + size + 256 * m <= maxBatchBytes
        decreases |pendingEvents| - m
      {
        if m > 0 && 128 + size + 256 * m + 256 > maxBatchBytes {
          break;
        }
        m := m + 1;
      }
    }

    /** Chooses the next batch. */
    method ChooseBatch() returns (n: nat, m: nat, size: nat)
      requires pendingFrames != [] || pendingEvents != []
      ensures n <= |pendingFrames| && m <= |pendingEvents| && n + m > 0
      ensures size == Estimate(Batch(pendingFrames[..n], pendingEvents[..m]))
      ensures size <= LargestBatch(pendingFrames)
      ensures n == |pendingFrames| && m == |pendingEvents|
        <==> FitsOneBatch(Batch(pendingFrames, pendingEvents), maxBatchBytes)
    {
      hide FramesSize;
      var framesSize;
      n, framesSize := CountFrames();
      m := CountEvents(framesSize);
      EstimateBound(pendingFrames, n, |pendingEvents|, m, maxBatchBytes);
      LongestIsAll(pendingFrames, n, maxBatchBytes);
      assert n == |pendingFrames| ==> pendingFrames[..n] == pendingFrames;
      size := 128 + framesSize + 256 * m;
    }

    /** The largest estimate a batch can have. */
    function LargestBatch(frames: seq<Frame>): int {
      var first := if frames == [] then 128 else 128 + FrameSize(frames[0]);
      (if maxBatchBytes < first then first else maxBatchBytes) + 256
    }

    /** Cuts the next batch off the queue, under the lock. */
    method BuildBatch() returns (b: Batch)
      requires Valid() && (pendingFrames != [] || pendingEvents != [])
      modifies `pendingFrames, `pendingEvents, `queuedBytes, `built, `fate
      ensures Valid() && built == old(built) + [b] && fate == old(fate) + [InFlight]
      ensures b.frames + pendingFrames == old(pendingFrames) && b.events + pendingEvents == old(pendingEvents)
      ensures b.frames != [] || b.events != []
      ensures Estimate(b) <= LargestBatch(old(pendingFrames))
      ensures queuedBytes == if old(queuedBytes) < Estimate(b) then 0 else old(queuedBytes) - Estimate(b)
      ensures pendingFrames == [] && pendingEvents == []
        <==> FitsOneBatch(Batch(old(pendingFrames), old(pendingEvents)), maxBatchBytes)
    {
      hide FramesOf, EventsOf, InSpool, Estimate, LargestBatch, FitsOneBatch;
      var n, m, size := ChooseBatch();
      b := Batch(pendingFrames[..n], pendingEvents[..m]);
      assert pendingFrames == pendingFrames[..n] + pendingFrames[n..];
      assert pendingEvents == pendingEvents[..m] + pendingEvents[m..];
      pendingFrames, pendingEvents := pendingFrames[n..], pendingEvents[m..];
      queuedBytes := queuedBytes - size;
      if queuedBytes < 0 {
        queuedBytes := 0;
      }
      RecordBatch(b, old(pendingFrames), old(pendingEvents));
    }

    /** Notes a batch that has just been cut off. */
    ghost method RecordBatch(b: Batch, frames: seq<Frame>, events: seq<Event>)
      requires spooler.Valid() && |fate| == |built| && spoolIndex >= 0 && queuedBytes >= 0
      requires OwnIndices(fate, spoolIndex)
      requires forall k :: 0 <= k < |posts| && posts[k].source.Live? ==> posts[k].source.n < |built|
      requires forall n: nat :: n < |built| ==> Accounted(n)
      requires b.frames + pendingFrames == frames && b.events + pendingEvents == events
      requires FramesOf(built) + frames == acceptedFrames && EventsOf(built) + events == acceptedEvents
      modifies `built, `fate
      ensures Valid() && built == old(built) + [b] && fate == old(fate) + [InFlight]
    {
      hide FramesOf, EventsOf, InSpool, Tried, EvictedBy;
      OneMoreBatch(built, b);
      built, fate := built + [b], fate + [InFlight];
      forall k: nat | k < |built| ensures Accounted(k) {
        assert k < |built| - 1 ==> old(Accounted(k));
      }
    }

    // ---- What happens meanwhile -------------------------------------------------------

    /** Capture threads queue more items, and other sessions write to the spool,
        which may evict this session's directory. */
    method Interfere()
      requires Valid()
      modifies this`seqCounter, this`pendingFrames, this`pendingEvents, this`queuedBytes,
               this`acceptedFrames, this`acceptedEvents, this`fate, spooler
      ensures Valid() && |fate| == |old(fate)| && Evolves(session, built, old(Now()), Now())
      ensures NotEvicted(session, old(spooler.evictions), spooler.evictions) ==>
        KeepsDirectory(session, old(spooler.dirs), spooler.dirs)
      ensures KeepsDirectory(session, spooler.dirs, old(spooler.dirs))
      ensures forall n :: 0 <= n < |fate| && (fate[n].InFlight? || fate[n].Spooled?) ==> fate[n] == old(fate)[n]
      ensures old(spooler.failedWrites) <= spooler.failedWrites
      ensures old(closed) ==> pendingFrames == old(pendingFrames) && pendingEvents == old(pendingEvents)
    {
      hide Valid, Evolves, InSpool, Accounted;
      ValidParts();
      NothingHappens(session, built, Now());
      var steps: nat := *;
      while steps > 0
        invariant Valid() && |fate| == |old(fate)| == |built| && Evolves(session, built, old(Now()), Now())
        invariant |old(spooler.evictions)| <= |spooler.evictions|
        invariant NotEvicted(session, old(spooler.evictions), spooler.evictions) ==>
          KeepsDirectory(session, old(spooler.dirs), spooler.dirs)
        invariant KeepsDirectory(session, spooler.dirs, old(spooler.dirs))
        invariant forall n :: 0 <= n < |fate| && (fate[n].InFlight? || fate[n].Spooled?) ==> fate[n] == old(fate)[n]
        invariant old(spooler.failedWrites) <= spooler.failedWrites
        invariant old(closed) ==> pendingFrames == old(pendingFrames) && pendingEvents == old(pendingEvents)
        decreases steps
      {
        steps := steps - 1;
        var what: nat := *;
        if what == 0 {
          var f: Frame := *;
          var clock: string := *;
          var accepted := EnqueueFrame(f, clock);
        } else if what == 1 {
          var e: Event := *;
          var clock: string := *;
          EnqueueEvent(e, clock);
        } else {
          var other: string := *;
          if other != session {
            ghost var before := Now();
            OtherWrites(other);
            EvolvesLater(session, built, old(Now()), before, Now());
          }
        }
      }
    }

    /** Another session spools a batch. */
    method OtherWrites(other: string)
      requires Valid() && other != session
      modifies this`fate, spooler
      ensures Valid() && |fate| == |old(fate)| && Evolves(session, built, old(Now()), Now())
      ensures NotEvicted(session, old(spooler.evictions), spooler.evictions) ==>
        KeepsDirectory(session, old(spooler.dirs), spooler.dirs)
      ensures KeepsDirectory(session, spooler.dirs, old(spooler.dirs))
      ensures forall n :: 0 <= n < |fate| && (fate[n].InFlight? || fate[n].Spooled?) ==> fate[n] == old(fate)[n]
      ensures old(spooler.failedWrites) <= spooler.failedWrites && old(spooler.evictions) <= spooler.evictions
    {
      hide Conserved, InSpool, Total, Insert, Oldest, DirSize, Backed, OwnIndices, Becomes;
      var index: int := *;
      var b: Batch := *;
      var size: nat := *;
      var now: nat := *;
      ghost var before, evictions := spooler.dirs, spooler.evictions;
      var canMake: bool := *;
      var canWrite: bool := *;
      var ok, deleted := spooler.WriteBatch(other, index, b, size, now, canMake, canWrite);
      ghost var evicted := session in before && session !in spooler.dirs;
      ghost var more := Evictions(before, deleted, other);
      if evicted {
        fate := EvictAll(fate, other);
      }
      SameIndices(old(fate), fate, spoolIndex);
      assert spooler.evictions[|evictions|..] == more;
      forall n: nat | n < |built|
        ensures Accounted(n) && Becomes(session, built[n], old(fate)[n], fate[n], posts[|old(posts)|..], more)
      {
        assert old(Accounted(n));
        OtherWriteOnBatch(n, old(fate)[n], before, old(spooler.failedWrites), evictions, deleted, other, evicted);
      }
      if !evicted && session in before {
        assert KeepsDirectory(session, before, spooler.dirs);
      }
      if evicted {
        var i :| 0 <= i < |deleted| && deleted[i] == session;
        assert spooler.evictions[|evictions| + i].victim == session;
      }
    }

    /** What another session's write does to one batch. */
    lemma OtherWriteOnBatch(n: nat, f: Fate, before: map<string, Directory<Batch>>, failed: seq<FailedWrite<Batch>>,
                            evictions: seq<Eviction<Batch>>, deleted: seq<string>, other: string, evicted: bool)
      requires n < |built| && |fate| == |built| && other != session
      requires Backed(session, n, built[n], f, posts, failed, evictions)
      requires f.Index() > 0 ==> hasSpooler
      requires f == Dropped(NoSpooler) ==> !hasSpooler
      requires f.Spooled? ==> InSpool(before, session, f.index, built[n])
      requires forall i :: 0 <= i < |deleted| ==> deleted[i] in before
      requires evicted ==> session in deleted
      requires !evicted ==> KeepsDirectory(session, before, spooler.dirs)
      requires failed <= spooler.failedWrites && spooler.evictions == evictions + Evictions(before, deleted, other)
      requires fate[n] == if evicted && f.Spooled? then Dropped(Evicted(f.index, other)) else f
      ensures Accounted(n)
      ensures Becomes(session, built[n], f, fate[n], posts[|posts|..], Evictions(before, deleted, other))
    {
      hide InSpool, HasChunk;
      StillBacked(session, n, built[n], f, posts, failed, evictions, posts, spooler.failedWrites, spooler.evictions);
      if f.Spooled? {
        if evicted {
          var more := Evictions(before, deleted, other);
          var i :| 0 <= i < |deleted| && deleted[i] == session;
          ChunkInDirectory(before, session, f.index, built[n]);
          assert more[i].victim == session && more[i].writer == other && HasChunk(more[i].chunks, f.index, built[n]);
          MoreEvictions(session, other, f.index, built[n], more, spooler.evictions);
        } else {
          SameDirectory(before, spooler.dirs, session, f.index, built[n]);
        }
      }
    }

    lemma ValidParts()
      requires Valid()
      ensures |fate| == |built| && spooler.Valid() && spoolIndex >= 0
    {}

    // ---- Sending ---------------------------------------------------------------------

    /** Posts a body. */
    method PostBatch(ghost source: Source, b: Batch, answer: Answer) returns (ok: bool, ackedUpTo: int)
      requires Valid() && (source.Live? ==> source.n < |built|)
      modifies `posts
      ensures Valid() && posts == old(posts) + [Post(source, b, ok)] && ok == answer.ok && ackedUpTo == answer.acked
      ensures Evolves(session, built, old(Now()), Now())
    {
      hide Conserved, InSpool, Backed, OwnIndices;
      ok, ackedUpTo := answer.ok, answer.acked;
      posts := posts + [Post(source, b, ok)];
      forall n: nat | n < |built| ensures Accounted(n) {
        assert old(Accounted(n));
        StillBacked(session, n, built[n], fate[n], old(posts), spooler.failedWrites, spooler.evictions,
                    posts, spooler.failedWrites, spooler.evictions);
      }
    }

    lemma Snapshot(batches: Directory<Batch>)
      requires Valid() && forall c :: c in batches ==> session in spooler.dirs && c in spooler.dirs[session]
      ensures Reflects(fate, built, batches)
    {
      hide OwnIndices, Backed;
      forall n: nat, c | n < |built| && c in batches && fate[n] == Spooled(c.index) ensures c.payload == built[n] {
        assert Accounted(n);
        var d := spooler.dirs[session];
        var x :| x in d && x.index == c.index && x.payload == built[n];
        SameIndex(d, x, c);
      }
    }

    /** Takes note of a delivered chunk and deletes it. */
    method RemoveSent(c: Chunk<Batch>, canRemove: bool, ghost batches: Directory<Batch>, ghost sent: nat)
      requires Valid() && |fate| == |built| && c in batches && Reflects(fate, built, batches)
      requires sent < |posts| && posts[sent] == Post(FromSpool(c.index), c.payload, true)
      modifies this`fate, spooler`dirs
      ensures Valid() && Reflects(fate, built, batches) && |fate| == |old(fate)|
      ensures fate == DeliverIndex(old(fate), c.index)
      ensures session in old(spooler.dirs) ==>
        && session in spooler.dirs
        && forall x :: x in old(spooler.dirs)[session] && x !in spooler.dirs[session] ==> x.index == c.index
      ensures ShrinksTo(session, old(spooler.dirs), spooler.dirs)
      ensures canRemove && session in spooler.dirs ==> !HasIndex(spooler.dirs[session], c.index)
    {
      hide Conserved, InSpool, Without, Ascending, OwnIndices;
      ghost var before := spooler.dirs;
      spooler.RemoveBatch(session, c.index, canRemove);
      fate := DeliverIndex(fate, c.index);
      FewerReflect(old(fate), fate, built, batches);
      SameIndices(old(fate), fate, spoolIndex);
      forall n: nat | n < |built| ensures Accounted(n) {
        assert old(Accounted(n));
        if fate[n].Spooled? {
          OtherIndexStays(before, spooler.dirs, session, c.index, fate[n].index, built[n]);
        }
      }
      if session in before {
        WithoutKeeps(before[session], c.index);
      }
    }

    lemma DeliveryEvolves(before: History, now: History, c: Chunk<Batch>, batches: Directory<Batch>)
      requires |before.fate| == |built| && Reflects(before.fate, built, batches) && c in batches
      requires now.posts == before.posts + [Post(FromSpool(c.index), c.payload, true)]
      requires now.evictions == before.evictions && now.fate == DeliverIndex(before.fate, c.index)
      ensures Evolves(session, built, before, now)
    {
      assert now.posts[|before.posts|..] == [Post(FromSpool(c.index), c.payload, true)];
    }

    /** Sends one spooled batch and, once it is delivered, deletes it. */
    method SendChunk(c: Chunk<Batch>, cancelled: bool, a: Outside, ghost batches: Directory<Batch>) returns (sent: bool)
      requires Valid() && |fate| == |built| && c in batches && Reflects(fate, built, batches)
      modifies this`seqCounter, this`pendingFrames, this`pendingEvents, this`queuedBytes, this`acceptedFrames,
               this`acceptedEvents, this`fate, this`posts, this`ackedSeq, spooler
      ensures Valid() && |fate| == |old(fate)| && Reflects(fate, built, batches)
      ensures Evolves(session, built, old(Now()), Now()) && (sent <==> !cancelled && a.chunk(c.index).ok)
      ensures posts == old(posts) + if cancelled then [] else [Post(FromSpool(c.index), c.payload, sent)]
      ensures forall n :: 0 <= n < |fate| && (fate[n].InFlight? || fate[n].Spooled?) ==> fate[n] == old(fate)[n]
      ensures sent ==> forall n :: 0 <= n < |fate| ==> fate[n] != Spooled(c.index)
      ensures ackedSeq == if sent && a.chunk(c.index).acked > old(ackedSeq) then a.chunk(c.index).acked else old(ackedSeq)
      ensures old(spooler.failedWrites) <= spooler.failedWrites
      ensures ShrinksTo(session, old(spooler.dirs), spooler.dirs)
      ensures sent && a.canRemove(c.index) && session in spooler.dirs ==> !HasIndex(spooler.dirs[session], c.index)
      ensures NotEvicted(session, old(spooler.evictions), spooler.evictions) && session in old(spooler.dirs) ==>
        && session in spooler.dirs
        && forall x :: x in old(spooler.dirs)[session] && x !in spooler.dirs[session] ==> sent && x.index == c.index
      ensures old(closed) ==> pendingFrames == old(pendingFrames) && pendingEvents == old(pendingEvents)
    {
      hide Valid, Conserved, InSpool, Without, Insert, Accounted, Reflects, Ascending, Evolves;
      Interfere();
      FewerReflect(old(fate), fate, built, batches);
      SameShrinks(session, old(spooler.dirs), spooler.dirs);
      ghost var dirs := spooler.dirs;
      sent := false;
      if cancelled {
        return;
      }
      ghost var before := Now();
      var ok, ackedUpTo := PostBatch(FromSpool(c.index), c.payload, a.chunk(c.index));
      if !ok {
        EvolvesLater(session, built, old(Now()), before, Now());
        return;
      }
      if ackedUpTo > ackedSeq {
        ackedSeq := ackedUpTo;
      }
      RemoveSent(c, a.canRemove(c.index), batches, |posts| - 1);
      ShrinksFurther(session, old(spooler.dirs), dirs, spooler.dirs);
      DeliveryEvolves(before, Now(), c, batches);
      EvolvesLater(session, built, old(Now()), before, Now());
      sent := true;
    }

    /** Sends the spooled batches that can be read in ascending order, until one
        fails or the context is cancelled, and deletes those sent. Where it ends
        well no batch that can be read is left in the spool. */
    method DrainSpool(a: Outside) returns (ok: bool, ghost pending: Directory<Batch>, ghost posted: nat)
      requires Valid()
      modifies this`seqCounter, this`pendingFrames, this`pendingEvents, this`queuedBytes, this`acceptedFrames,
               this`acceptedEvents, this`fate, this`posts, this`ackedSeq, spooler
      ensures Valid() && |fate| == |old(fate)| && Evolves(session, built, old(Now()), Now())
      ensures Ascending(pending) && Stops(pending, posted, a)
      ensures pending == if hasSpooler then Listing(old(spooler.dirs), session, a) else []
      ensures ok <==> posted == |pending| && (!hasSpooler || session !in old(spooler.dirs) || a.canList)
      ensures posts == old(posts) + DrainPosts(pending, posted, a)
      ensures forall n :: 0 <= n < |fate| && (fate[n].InFlight? || fate[n].Spooled?) ==> fate[n] == old(fate)[n]
      ensures ok ==> forall n :: 0 <= n < |fate| && fate[n].Spooled? ==> !a.canRead(fate[n].index)
      ensures Removed(spooler.dirs, session, pending, posted, a)
      ensures NotEvicted(session, old(spooler.evictions), spooler.evictions) && session in old(spooler.dirs) ==>
        session in spooler.dirs && RemovedOnly(old(spooler.dirs)[session], spooler.dirs[session], pending, posted)
      ensures ackedSeq == Acked(old(ackedSeq), pending, posted, a) && old(spooler.failedWrites) <= spooler.failedWrites
      ensures old(closed) ==> pendingFrames == old(pendingFrames) && pendingEvents == old(pendingEvents)
    {
      hide Valid, Conserved, InSpool, Without, Insert, Accounted, HasIndex, ShrinksTo, NoneSpooled, AllTaken, Removed,
           Stops, RemovedOnly, Reflects, Ascending, Evolves, Readable,
           ListsAll, Deliveries;
      ValidParts();
      NothingAbove<Batch>(0);
      NothingHappens(session, built, Now());
      ok, pending, posted := true, [], 0;
      NothingRemoved(spooler.dirs, session, []);
      NothingDelivered([]);
      SpooledAreThere(a.canRead);
      NothingTaken(fate, spooler.dirs, session, [], a);
      if !hasSpooler {
        return;
      }
      var listed, batches := spooler.ReadPendingBatches(session, a.canList, a.canRead);
      pending := batches;
      if !listed || batches == [] {
        NothingIsLeft(fate, batches, a.canRead);
        return listed, [], 0;
      }
      ReadFacts(a.canRead, batches);
      NothingRemoved(spooler.dirs, session, batches);
      NothingDelivered(batches);
      NothingTaken(fate, spooler.dirs, session, batches, a);
      for k := 0 to |batches|
        invariant Valid() && |fate| == |old(fate)| == |built| && posted == k <= a.checks
        invariant Evolves(session, built, old(Now()), Now()) && old(spooler.evictions) <= spooler.evictions
        invariant Reflects(fate, built, batches)
        invariant posts == old(posts) + Deliveries(batches, k)
        invariant forall n :: 0 <= n < |fate| && (fate[n].InFlight? || fate[n].Spooled?) ==> fate[n] == old(fate)[n]
        invariant NoneSpooled(fate, batches, k)
        invariant NotEvicted(session, old(spooler.evictions), spooler.evictions) && session in old(spooler.dirs) ==>
          session in spooler.dirs && RemovedOnly(old(spooler.dirs)[session], spooler.dirs[session], batches, k)
        invariant ackedSeq == Acked(old(ackedSeq), batches, k, a) && old(spooler.failedWrites) <= spooler.failedWrites
        invariant AllTaken(batches, k, a) && Removed(spooler.dirs, session, batches, k, a)
        invariant old(closed) ==> pendingFrames == old(pendingFrames) && pendingEvents == old(pendingEvents)
      {
        ghost var dirs, before := spooler.dirs, Now();
        var sent := SendChunk(batches[k], k >= a.checks, a, batches);
        EvolvesLater(session, built, old(Now()), before, Now());
        EvictionsGrow(session, built, before, Now());
        if NotEvicted(session, old(spooler.evictions), spooler.evictions) && session in old(spooler.dirs) {
          RemovedNext(old(spooler.dirs)[session], dirs[session], spooler.dirs[session], batches, k, sent);
        }
        NextDelivery(batches, k);
        if !sent {
          StopsHere(dirs, spooler.dirs, session, batches, k, a);
          return false, pending, posted;
        }
        OneMoreSent(before.fate, fate, batches, k);
        OneMoreTaken(dirs, spooler.dirs, session, batches, k, a);
        posted := k + 1;
      }
      StopsAtEnd(batches, a);
      AllAreSent(old(fate), fate, batches, a.canRead);
    }

    lemma SpooledAreThere(canRead: int -> bool)
      requires Valid()
      ensures forall n :: 0 <= n < |fate| && fate[n].Spooled? ==> hasSpooler && session in spooler.dirs
      ensures session in spooler.dirs ==> ListsAll(fate, Readable(spooler.dirs[session], canRead), canRead)
    {
      hide OwnIndices, Tried, EvictedBy, HasChunk, Readable, HasIndex;
      forall n | 0 <= n < |fate| && fate[n].Spooled?
        ensures hasSpooler && session in spooler.dirs
        ensures canRead(fate[n].index) ==> HasIndex(Readable(spooler.dirs[session], canRead), fate[n].index)
      {
        assert Accounted(n);
        assert fate[n].Index() > 0;
        if canRead(fate[n].index) {
          ReadChunkIsListed(spooler.dirs, session, fate[n].index, built[n], canRead);
        }
      }
    }

    lemma ReadFacts(canRead: int -> bool, batches: Directory<Batch>)
      requires Valid() && session in spooler.dirs && batches == Readable(spooler.dirs[session], canRead)
      ensures Ascending(batches) && Reflects(fate, built, batches)
      ensures forall c :: c in batches ==> c in spooler.dirs[session]
    {
      hide OwnIndices, Backed, Reflects, Readable;
      var d := spooler.dirs[session];
      ReadableAscends(d, canRead);
      forall c | c in batches ensures c in d {
        ReadableMember(d, canRead, c);
      }
      Snapshot(batches);
    }

    /** Spills the newest batch to disk, or loses it. */
    method Spill(ghost n: nat, b: Batch, a: Outside) returns (spilled: bool)
      requires Valid() && |fate| == |built| && n < |built| && b == built[n] && fate[n] == InFlight
      requires Tried(n, b, posts)
      modifies this`fate, this`spoolIndex, spooler
      ensures Valid() && |fate| == |old(fate)| && (spilled <==> fate[n].Spooled?) && fate == old(fate)[n := fate[n]]
      ensures spilled <==> hasSpooler && a.canMake && a.canWrite
      ensures !hasSpooler ==> fate[n] == Dropped(NoSpooler) && spoolIndex == old(spoolIndex)
      ensures hasSpooler ==>
        && spoolIndex == old(spoolIndex) + 1
        && fate[n] == (if spilled then Spooled(spoolIndex) else Dropped(WriteFailed(spoolIndex)))
        && spooler.failedWrites == old(spooler.failedWrites)
                                   + (if spilled then [] else [FailedWrite(session, spoolIndex, b)])
      ensures old(spooler.evictions) <= spooler.evictions && old(spooler.failedWrites) <= spooler.failedWrites
    {
      hide Conserved, InSpool, Insert, Total, Oldest, DirSize, OwnIndices, Tried;
      ghost var before, failed, evictions := spooler.dirs, spooler.failedWrites, spooler.evictions;
      spilled := false;
      if !hasSpooler {
        fate := fate[n := Dropped(NoSpooler)];
        NewIndex(old(fate), n, fate[n], spoolIndex);
        forall m: nat | m < |built| ensures Accounted(m) {
          assert old(Accounted(m));
        }
        return;
      }
      spoolIndex := spoolIndex + 1;
      var size: nat := *;
      var now: nat := *;
      var ok, deleted := spooler.WriteBatch(session, spoolIndex, b, size, now, a.canMake, a.canWrite);
      spilled := ok;
      fate := fate[n := if ok then Spooled(spoolIndex) else Dropped(WriteFailed(spoolIndex))];
      NewIndex(old(fate), n, fate[n], spoolIndex - 1);
      forall m: nat | m < |built| ensures Accounted(m) {
        assert old(Accounted(m));
        if m == n {
          if ok {
            NewChunkIsThere(if session in before then before[session] else [], spooler.dirs, session,
                            Chunk(spoolIndex, b, size, now));
          }
        } else {
          IndexBelow(old(fate), m, spoolIndex - 1);
          OwnWriteOnBatch(m, before, failed, evictions, Chunk(spoolIndex, b, size, now), ok);
        }
      }
    }

    /** What the client's own write does to another of its batches. */
    lemma OwnWriteOnBatch(m: nat, before: map<string, Directory<Batch>>, failed: seq<FailedWrite<Batch>>,
                          evictions: seq<Eviction<Batch>>, c: Chunk<Batch>, ok: bool)
      requires m < |built| && |fate| == |built|
      requires Backed(session, m, built[m], fate[m], posts, failed, evictions)
      requires failed <= spooler.failedWrites && evictions <= spooler.evictions
      requires fate[m].Index() < c.index && (session in before ==> Ascending(before[session]))
      requires fate[m].Index() > 0 ==> hasSpooler
      requires fate[m] == Dropped(NoSpooler) ==> !hasSpooler
      requires fate[m].Spooled? ==> InSpool(before, session, fate[m].index, built[m])
      requires ok ==>
        && session in spooler.dirs
        && spooler.dirs[session] == Insert(if session in before then before[session] else [], c)
      requires !ok ==> KeepsDirectory(session, before, spooler.dirs)
      ensures Accounted(m)
    {
      hide InSpool, HasChunk, Insert, Ascending, Backed;
      StillBacked(session, m, built[m], fate[m], posts, failed, evictions, posts, spooler.failedWrites, spooler.evictions);
      if fate[m].Spooled? {
        HasDirectory(before, session, fate[m].index, built[m]);
        if ok {
          OtherIndexKept(before, spooler.dirs, session, c, fate[m].index, built[m]);
        } else {
          SameDirectory(before, spooler.dirs, session, fate[m].index, built[m]);
        }
      }
    }

    /** Takes note that the live POST of batch n was answered. */
    ghost method DeliverLive(n: nat)
      requires Valid() && |fate| == |built| && n < |built| && fate[n] == InFlight && Post(Live(n), built[n], true) in posts
      modifies `fate
      ensures Valid() && fate == old(fate)[n := Delivered(Live(n))]
    {
      hide Conserved, InSpool, OwnIndices;
      fate := fate[n := Delivered(Live(n))];
      NewIndex(old(fate), n, fate[n], spoolIndex);
      forall m: nat | m < |built| ensures Accounted(m) {
        assert old(Accounted(m));
      }
    }

    /** What a flush has done with a batch it has cut off the queue. */
    ghost predicate Done(n: nat, index: int, failures: nat)
      requires n < |fate| == |built|
      reads `fate, `built, `posts, `spoolIndex, spooler
    {
      match fate[n]
      case InFlight => false
      case Delivered(source) => source == Live(n)
      case Spooled(i) => i == index + 1 == spoolIndex
      case Dropped(why) =>
        match why
        case NoSpooler => !hasSpooler
        case WriteFailed(i) =>
          && i == index + 1 == spoolIndex && failures <= |spooler.failedWrites|
          && FailedWrite(session, i, built[n]) in spooler.failedWrites[failures..]
        case Evicted(_, _) => false
    }

    /** What has been posted for a batch that was cut off: the batch itself and,
        if that went well, the spool as it had been listed. */
    ghost predicate Sent(n: nat, before: seq<Post>, dirs: map<string, Directory<Batch>>, kept: bool, a: Outside,
                         pending: Directory<Batch>, posted: nat)
      requires n < |fate| == |built|
      reads `fate, `built, `posts
    {
      && (fate[n].Delivered? <==> a.live.ok)
      && (fate[n].Spooled? <==> !a.live.ok && hasSpooler && a.canMake && a.canWrite)
      && Stops(pending, posted, a)
      && posts == before + [Post(Live(n), built[n], fate[n].Delivered?)]
                  + (if fate[n].Delivered? then DrainPosts(pending, posted, a) else [])
      && (fate[n].Delivered? && kept ==> pending == if hasSpooler then Listing(dirs, session, a) else [])
      && (fate[n].Delivered? && posted == |pending| && a.canList ==>
            forall m :: 0 <= m < |fate| && fate[m].Spooled? ==> !a.canRead(fate[m].index))
    }

    /** Sends the next batch, or drains the spool if nothing is queued. The new
        batch is delivered, spooled, or lost because there is no spooler or its
        write has failed; the others go on only as events of this call say. */
    method Flush(a: Outside) returns (ok: bool, ghost pending: Directory<Batch>, ghost posted: nat)
      requires Valid()
      modifies this`seqCounter, this`pendingFrames, this`pendingEvents, this`queuedBytes, this`acceptedFrames,
               this`acceptedEvents, this`built, this`fate, this`posts, this`ackedSeq, this`spoolIndex, spooler
      ensures Valid() && old(built) <= built && |fate| == |built|
      ensures Evolves(session, built, old(Now()), Now())
      ensures old(pendingFrames) == [] && old(pendingEvents) == [] ==> built == old(built)
      ensures old(pendingFrames) != [] || old(pendingEvents) != [] ==>
        && |built| == |old(built)| + 1
        && (built[|old(built)|].frames != [] || built[|old(built)|].events != [])
        && Done(|old(built)|, old(spoolIndex), |old(spooler.failedWrites)|)
        && (ok <==> fate[|old(built)|].Delivered? || fate[|old(built)|].Spooled? || !strict)
      ensures old(pendingFrames) != [] || old(pendingEvents) != [] ==>
        && Sent(|old(built)|, old(posts), old(spooler.dirs),
                NotEvicted(session, old(spooler.evictions), spooler.evictions), a, pending, posted)
        && ackedSeq == (if a.live.ok then Acked(Max(old(ackedSeq), a.live.acked), pending, posted, a) else old(ackedSeq))
      ensures old(pendingFrames) == [] && old(pendingEvents) == [] ==>
        && pending == (if hasSpooler then Listing(old(spooler.dirs), session, a) else []) && Stops(pending, posted, a)
        && (ok <==> posted == |pending| && (!hasSpooler || session !in old(spooler.dirs) || a.canList))
        && posts == old(posts) + DrainPosts(pending, posted, a) + SignOfLife(ok && !old(closed), a)
        && ackedSeq == Acked(old(ackedSeq), pending, posted, a)
        && (ok ==> forall n :: 0 <= n < |fate| && fate[n].Spooled? ==> !a.canRead(fate[n].index))
      ensures old(Settled()) ==> Settled()
      ensures old(closed) ==> (pendingFrames == [] && pendingEvents == []
        <==> FitsOneBatch(Batch(old(pendingFrames), old(pendingEvents)), maxBatchBytes))
    {
      hide Valid, Conserved, InSpool, Accounted, FramesSize, FitsOneBatch, Ascending, RemovedOnly, LargestBatch, Evolves,
           DrainPosts, Listing;
      ValidParts();
      if pendingFrames == [] && pendingEvents == [] {
        NothingFits(maxBatchBytes);
        ok, pending, posted := DrainAndKeepAlive(a);
        return;
      }
      var b := BuildBatch();
      ok, pending, posted := SendNewest(b, a, old(Now()));
    }

    /** An empty flush: drains the spool, and posts a body without items if the
        last answer is long ago. */
    method DrainAndKeepAlive(a: Outside) returns (ok: bool, ghost pending: Directory<Batch>, ghost posted: nat)
      requires Valid()
      modifies this`seqCounter, this`pendingFrames, this`pendingEvents, this`queuedBytes, this`acceptedFrames,
               this`acceptedEvents, this`fate, this`posts, this`ackedSeq, spooler
      ensures Valid() && |fate| == |old(fate)| == |built|
      ensures Evolves(session, built, old(Now()), Now()) && (old(Settled()) ==> Settled())
      ensures pending == (if hasSpooler then Listing(old(spooler.dirs), session, a) else []) && Stops(pending, posted, a)
      ensures ackedSeq == Acked(old(ackedSeq), pending, posted, a)
      ensures ok <==> posted == |pending| && (!hasSpooler || session !in old(spooler.dirs) || a.canList)
      ensures posts == old(posts) + DrainPosts(pending, posted, a) + SignOfLife(ok && !old(closed), a)
      ensures ok ==> forall n :: 0 <= n < |fate| && fate[n].Spooled? ==> !a.canRead(fate[n].index)
      ensures old(closed) ==> pendingFrames == old(pendingFrames) && pendingEvents == old(pendingEvents)
    {
      hide Valid, Evolves, Ascending, RemovedOnly, DrainPosts, Listing;
      ValidParts();
      ok, pending, posted := DrainSpool(a);
      if ok && !closed && a.due {
        ghost var before := Now();
        var sent, ackedUpTo := PostBatch(KeepAlive, Batch([], []), a.keepAlive);
        EvolvesLater(session, built, old(Now()), before, Now());
      }
    }

    /** Posts the batch that was just cut off. */
    method PostNewest(b: Batch, a: Outside, ghost start: History) returns (sent: bool, ackedUpTo: int)
      requires Valid() && |fate| == |built| > 0 && b == built[|built| - 1]
      requires |start.fate| == |built| - 1 && fate == start.fate + [InFlight]
      requires start == History(start.fate, posts, spooler.evictions)
      modifies this`seqCounter, this`pendingFrames, this`pendingEvents, this`queuedBytes, this`acceptedFrames,
               this`acceptedEvents, this`fate, this`posts, spooler
      ensures Valid() && |fate| == |built| && Evolves(session, built, start, Now())
      ensures sent == a.live.ok && ackedUpTo == a.live.acked
      ensures fate[|built| - 1] == InFlight && posts == old(posts) + [Post(Live(|built| - 1), b, sent)]
      ensures old(spooler.evictions) <= spooler.evictions
      ensures NotEvicted(session, start.evictions, spooler.evictions) ==>
        KeepsDirectory(session, old(spooler.dirs), spooler.dirs)
      ensures KeepsDirectory(session, spooler.dirs, old(spooler.dirs))
      ensures forall n :: 0 <= n < |built| - 1 && fate[n].InFlight? ==> start.fate[n].InFlight?
      ensures old(spooler.failedWrites) <= spooler.failedWrites
      ensures old(closed) ==> pendingFrames == old(pendingFrames) && pendingEvents == old(pendingEvents)
    {
      hide Valid, Conserved, InSpool, Accounted, Ascending, RemovedOnly, Evolves;
      ghost var n := |built| - 1;
      assert built == built[..n] + [b];
      EvolvesWithNew(session, built[..n], b, start);
      ghost var cut := Now();
      Interfere();
      StillInFlight(session, built, cut, Now(), n);
      EvictionsGrow(session, built, cut, Now());
      ghost var before := Now();
      sent, ackedUpTo := PostBatch(Live(n), b, a.live);
      EvolvesLater(session, built, cut, before, Now());
      EvolvesLater(session, built, start, cut, Now());
    }

    /** Drains the spool after batch n was delivered; what comes of it does not
        matter. */
    method DrainAfter(ghost n: nat, a: Outside, ghost start: History, ghost before: seq<Post>,
                      ghost dirs: map<string, Directory<Batch>>)
      returns (ghost pending: Directory<Batch>, ghost posted: nat)
      requires Valid() && n < |fate| == |built| && fate[n] == Delivered(Live(n)) && |start.fate| == |built| - 1
      requires Evolves(session, built, start, Now())
      requires a.live.ok && posts == before + [Post(Live(n), built[n], true)]
      requires start.evictions <= spooler.evictions && KeepsDirectory(session, spooler.dirs, dirs)
      requires NotEvicted(session, start.evictions, spooler.evictions) ==> KeepsDirectory(session, dirs, spooler.dirs)
      modifies this`seqCounter, this`pendingFrames, this`pendingEvents, this`queuedBytes, this`acceptedFrames,
               this`acceptedEvents, this`fate, this`posts, this`ackedSeq, spooler
      ensures Valid() && |fate| == |built| && Evolves(session, built, start, Now())
      ensures fate[n] == Delivered(Live(n)) && Stops(pending, posted, a)
      ensures ackedSeq == Acked(old(ackedSeq), pending, posted, a)
      ensures start.evictions <= spooler.evictions
      ensures Sent(n, before, dirs, NotEvicted(session, start.evictions, spooler.evictions), a, pending, posted)
      ensures forall m :: 0 <= m < |fate| && fate[m].InFlight? ==> old(fate)[m].InFlight?
      ensures old(spooler.failedWrites) <= spooler.failedWrites
      ensures old(closed) ==> pendingFrames == old(pendingFrames) && pendingEvents == old(pendingEvents)
    {
      hide Valid, Ascending, RemovedOnly, Evolves, DrainPosts, Readable, NotEvicted, Listing, KeepsDirectory;
      ValidParts();
      ghost var live, found := Now(), spooler.dirs;
      var ok;
      ok, pending, posted := DrainSpool(a);
      EvolvesLater(session, built, start, live, Now());
      EvictionsGrow(session, built, live, Now());
      DeliveredStays(session, built, live, Now(), n);
      if NotEvicted(session, start.evictions, spooler.evictions) {
        NotEvictedEarlier(session, start.evictions, live.evictions, spooler.evictions);
        SameListing(session, dirs, found, a);
      }
    }

    /** Posts the batch that was just cut off, or spills it. */
    method SendNewest(b: Batch, a: Outside, ghost start: History)
      returns (ok: bool, ghost pending: Directory<Batch>, ghost posted: nat)
      requires Valid() && |fate| == |built| > 0 && b == built[|built| - 1]
      requires |start.fate| == |built| - 1 && fate == start.fate + [InFlight]
      requires start == History(start.fate, posts, spooler.evictions)
      modifies this`seqCounter, this`pendingFrames, this`pendingEvents, this`queuedBytes, this`acceptedFrames,
               this`acceptedEvents, this`fate, this`posts, this`ackedSeq, this`spoolIndex, spooler
      ensures Valid() && |fate| == |built|
      ensures Evolves(session, built, start, Now())
      ensures Done(|built| - 1, old(spoolIndex), |old(spooler.failedWrites)|)
      ensures ok <==> fate[|built| - 1].Delivered? || fate[|built| - 1].Spooled? || !strict
      ensures Sent(|built| - 1, old(posts), old(spooler.dirs),
                   NotEvicted(session, start.evictions, spooler.evictions), a, pending, posted)
      ensures ackedSeq == if a.live.ok then Acked(Max(old(ackedSeq), a.live.acked), pending, posted, a) else old(ackedSeq)
      ensures forall n :: 0 <= n < |fate| && fate[n].InFlight? ==> n < |built| - 1 && start.fate[n].InFlight?
      ensures old(closed) ==> pendingFrames == old(pendingFrames) && pendingEvents == old(pendingEvents)
    {
      hide Valid, Conserved, InSpool, Accounted, Ascending, RemovedOnly, Evolves, Tried, DrainPosts, Readable, NotEvicted,
           Listing, KeepsDirectory, Sent, Done, Stops, Acked;
      ghost var n := |built| - 1;
      pending, posted := [], 0;
      var sent, ackedUpTo := PostNewest(b, a, start);
      ghost var after := Now();
      if sent {
        if ackedUpTo > ackedSeq {
          ackedSeq := ackedUpTo;
        }
        DeliverLive(n);
        OnlyNewest(session, built, start, after, Now());
        pending, posted := DrainAfter(n, a, start, old(posts), old(spooler.dirs));
        DeliveredIsDone(n, old(spoolIndex), |old(spooler.failedWrites)|);
        ok := true;
        return;
      }
      WasTried(n, b, posts);
      var spilled := SpillNewest(n, b, a, |old(spooler.failedWrites)|);
      OnlyNewest(session, built, start, after, Now());
      SentAlone(n, old(posts), old(spooler.dirs), NotEvicted(session, start.evictions, spooler.evictions), a);
      ok := spilled || !strict;
    }

    lemma DeliveredIsDone(n: nat, index: int, failures: nat)
      requires n < |fate| == |built| && fate[n] == Delivered(Live(n))
      ensures Done(n, index, failures)
    {}

    /** Without an answer nothing else is posted. */
    lemma SentAlone(n: nat, before: seq<Post>, dirs: map<string, Directory<Batch>>, kept: bool, a: Outside)
      requires n < |fate| == |built| && !fate[n].Delivered? && !a.live.ok
      requires fate[n].Spooled? <==> hasSpooler && a.canMake && a.canWrite
      requires posts == before + [Post(Live(n), built[n], false)]
      ensures Sent(n, before, dirs, kept, a, [], 0)
    {}

    method SpillNewest(ghost n: nat, b: Batch, a: Outside, ghost failures: nat) returns (spilled: bool)
      requires Valid() && |fate| == |built| && n < |built| && b == built[n] && fate[n] == InFlight
      requires Tried(n, b, posts) && failures <= |spooler.failedWrites|
      modifies this`fate, this`spoolIndex, spooler
      ensures Valid() && |fate| == |old(fate)| && (spilled <==> fate[n].Spooled?) && fate == old(fate)[n := fate[n]]
      ensures Done(n, old(spoolIndex), failures) && !fate[n].Delivered? && !fate[n].InFlight?
      ensures spilled <==> hasSpooler && a.canMake && a.canWrite
      ensures old(spooler.evictions) <= spooler.evictions && |spooler.failedWrites| >= failures
    {
      hide Valid, Tried;
      ghost var before := spooler.failedWrites;
      spilled := Spill(n, b, a);
      if hasSpooler && !spilled {
        LastIsNew(before, FailedWrite(session, spoolIndex, b), failures);
      }
    }

    /** Flushes what is left. One flush cuts one batch: the queue is empty
        afterwards exactly if everything fits one. */
    method CompleteFlush(a: Outside, b: Outside) returns (ghost pending: Directory<Batch>, ghost posted: nat)
      requires Valid()
      modifies this`seqCounter, this`pendingFrames, this`pendingEvents, this`queuedBytes, this`acceptedFrames,
               this`acceptedEvents, this`built, this`fate, this`posts, this`ackedSeq, this`spoolIndex,
               this`closed, spooler
      ensures Valid() && closed && old(built) <= built && |fate| == |built|
      ensures Evolves(session, built, old(Now()), Now()) && (old(Settled()) ==> Settled())
      ensures pendingFrames == [] && pendingEvents == []
        <==> FitsOneBatch(Batch(old(pendingFrames), old(pendingEvents)), maxBatchBytes)
      ensures Stops(pending, posted, b) && EndsWith(posts, DrainPosts(pending, posted, b))
      ensures posted == |pending| && b.canList ==>
        forall n :: 0 <= n < |fate| && fate[n].Spooled? ==> !b.canRead(fate[n].index)
    {
      hide Valid, InSpool, Accounted, FramesSize, FitsOneBatch, Ascending, RemovedOnly, Evolves, DrainPosts, Listing;
      closed := true;
      var ok, first, sent := Flush(a);
      ghost var before := Now();
      var drained;
      drained, pending, posted := DrainSpool(b);
      EvolvesLater(session, built, old(Now()), before, Now());
    }
  }

  /** A POST without items, if it is due. */
  function SignOfLife(open: bool, a: Outside): seq<Post> {
    if open && a.due then [Post(KeepAlive, Batch([], []), a.keepAlive.ok)] else []
  }

  ghost predicate EndsWith(posts: seq<Post>, last: seq<Post>) {
    |last| <= |posts| && posts[|posts| - |last|..] == last
  }

  lemma NotEvictedEarlier(session: string, e: seq<Eviction<Batch>>, e': seq<Eviction<Batch>>, e'': seq<Eviction<Batch>>)
    requires e <= e' <= e'' && NotEvicted(session, e, e'')
    ensures NotEvicted(session, e, e')
  {
    forall k | |e| <= k < |e'| ensures e'[k].victim != session {
      assert e'[k] == e''[k];
    }
  }

  lemma SameListing(session: string, before: map<string, Directory<Batch>>, after: map<string, Directory<Batch>>, a: Outside)
    requires KeepsDirectory(session, before, after) && KeepsDirectory(session, after, before)
    ensures Listing(after, session, a) == Listing(before, session, a)
  {}

  ghost predicate NoneSpooled(fate: seq<Fate>, d: Directory<Batch>, k: nat)
    requires k <= |d|
  {
    forall n, i :: 0 <= n < |fate| && 0 <= i < k ==> fate[n] != Spooled(d[i].index)
  }

  ghost predicate AllTaken(d: Directory<Batch>, k: nat, a: Outside)
    requires k <= |d|
  {
    forall i :: 0 <= i < k ==> a.chunk(d[i].index).ok
  }

  /** The first k chunks of a listing are gone, where they could be removed. */
  ghost predicate Removed(dirs: map<string, Directory<Batch>>, session: string, d: Directory<Batch>, k: nat, a: Outside)
    requires k <= |d|
  {
    forall i :: 0 <= i < k && a.canRemove(d[i].index) && session in dirs ==> !HasIndex(dirs[session], d[i].index)
  }

  lemma NothingTaken(fate: seq<Fate>, dirs: map<string, Directory<Batch>>, session: string, d: Directory<Batch>, a: Outside)
    ensures NoneSpooled(fate, d, 0) && AllTaken(d, 0, a) && Removed(dirs, session, d, 0, a) && Stops([], 0, a)
  {}

  lemma OneMoreSent(before: seq<Fate>, after: seq<Fate>, d: Directory<Batch>, k: nat)
    requires k < |d| && |before| == |after| && NoneSpooled(before, d, k)
    requires forall n :: 0 <= n < |after| && after[n].Spooled? ==> after[n] == before[n]
    requires forall n :: 0 <= n < |after| ==> after[n] != Spooled(d[k].index)
    ensures NoneSpooled(after, d, k + 1)
  {}

  lemma StillRemoved(before: map<string, Directory<Batch>>, after: map<string, Directory<Batch>>, session: string,
                     d: Directory<Batch>, k: nat, a: Outside)
    requires k <= |d| && Removed(before, session, d, k, a) && ShrinksTo(session, before, after)
    ensures Removed(after, session, d, k, a)
  {
    hide HasIndex, ShrinksTo;
    forall i | 0 <= i < k && a.canRemove(d[i].index) && session in after ensures !HasIndex(after[session], d[i].index) {
      HadDirectory(session, before, after);
      StaysRemoved(session, before, after, d[i].index);
    }
  }

  lemma OneMoreTaken(before: map<string, Directory<Batch>>, after: map<string, Directory<Batch>>, session: string,
                     d: Directory<Batch>, k: nat, a: Outside)
    requires k < |d| && Removed(before, session, d, k, a) && ShrinksTo(session, before, after)
    requires AllTaken(d, k, a) && a.chunk(d[k].index).ok
    requires a.canRemove(d[k].index) && session in after ==> !HasIndex(after[session], d[k].index)
    ensures Removed(after, session, d, k + 1, a) && AllTaken(d, k + 1, a)
  {
    hide HasIndex, ShrinksTo;
    StillRemoved(before, after, session, d, k, a);
  }

  lemma StopsHere(before: map<string, Directory<Batch>>, after: map<string, Directory<Batch>>, session: string,
                  d: Directory<Batch>, k: nat, a: Outside)
    requires k < |d| && k <= a.checks && AllTaken(d, k, a) && (k < a.checks ==> !a.chunk(d[k].index).ok)
    requires Removed(before, session, d, k, a) && ShrinksTo(session, before, after)
    ensures Stops(d, k, a) && Removed(after, session, d, k, a)
  {
    hide HasIndex, ShrinksTo, Removed;
    StillRemoved(before, after, session, d, k, a);
  }

  lemma StopsAtEnd(d: Directory<Batch>, a: Outside)
    requires |d| <= a.checks && AllTaken(d, |d|, a)
    ensures Stops(d, |d|, a)
  {}

  lemma NothingIsLeft(fate: seq<Fate>, d: Directory<Batch>, canRead: int -> bool)
    requires d == []
    ensures ListsAll(fate, d, canRead) ==> forall n :: 0 <= n < |fate| && fate[n].Spooled? ==> !canRead(fate[n].index)
  {}

  lemma AllAreSent(before: seq<Fate>, after: seq<Fate>, d: Directory<Batch>, canRead: int -> bool)
    requires |before| == |after| && ListsAll(before, d, canRead)
    requires forall n :: 0 <= n < |after| && after[n].Spooled? ==> after[n] == before[n]
    requires NoneSpooled(after, d, |d|)
    ensures forall n :: 0 <= n < |after| && after[n].Spooled? ==> !canRead(after[n].index)
  {}

  /** The POSTs that delivered the first n chunks of a listing. */
  ghost function Deliveries(d: Directory<Batch>, n: nat): (p: seq<Post>)
    requires n <= |d|
    ensures |p| == n
  {
    seq(n, k requires 0 <= k < n => Post(FromSpool(d[k].index), d[k].payload, true))
  }

  ghost function Failure(c: Chunk<Batch>): Post {
    Post(FromSpool(c.index), c.payload, false)
  }

  lemma NothingDelivered(d: Directory<Batch>)
    ensures Deliveries(d, 0) == []
  {}

  lemma NextDelivery(d: Directory<Batch>, k: nat)
    requires k < |d|
    ensures Deliveries(d, k + 1) == Deliveries(d, k) + [Post(FromSpool(d[k].index), d[k].payload, true)]
  {}

  lemma IndexBelow(fate: seq<Fate>, n: nat, top: int)
    requires OwnIndices(fate, top) && n < |fate|
    ensures 0 <= fate[n].Index() <= top
  {}

  lemma EvictionsGrow(session: string, built: seq<Batch>, h: History, h': History)
    requires Evolves(session, built, h, h')
    ensures h.evictions <= h'.evictions
  {}

  lemma StillInFlight(session: string, built: seq<Batch>, h: History, h': History, n: nat)
    requires Evolves(session, built, h, h') && n < |h.fate| && h.fate[n].InFlight?
    ensures h'.fate[n].InFlight?
  {}

  lemma DeliveredStays(session: string, built: seq<Batch>, h: History, h': History, n: nat)
    requires Evolves(session, built, h, h') && n < |h.fate| && h.fate[n].Delivered?
    ensures h'.fate[n] == h.fate[n]
  {}

  /** A step that decides the newest batch only. */
  lemma OnlyNewest(session: string, built: seq<Batch>, start: History, h: History, h': History)
    requires Evolves(session, built, start, h) && |h.fate| == |h'.fate| == |built| == |start.fate| + 1
    requires h'.posts == h.posts && h.evictions <= h'.evictions
    requires forall n :: 0 <= n < |start.fate| ==> h'.fate[n] == h.fate[n]
    ensures Evolves(session, built, start, h')
  {
    hide EvictedBy;
    var e, e' := h.evictions[|start.evictions|..], h'.evictions[|start.evictions|..];
    assert forall x :: x in e ==> x in e' by {
      assert e == h'.evictions[|start.evictions|..|h.evictions|];
    }
    forall n | 0 <= n < |start.fate|
      ensures Becomes(session, built[n], start.fate[n], h'.fate[n], h'.posts[|start.posts|..], e')
    {
      var x, y := start.fate[n], h.fate[n];
      if y != x && y.Dropped? {
        MoreEvictions(session, y.why.writer, x.index, built[n], e, e');
      }
    }
  }

  lemma WasTried(n: nat, b: Batch, posts: seq<Post>)
    requires Post(Live(n), b, false) in posts
    ensures Tried(n, b, posts)
  {}

  lemma LastIsNew(failures: seq<FailedWrite<Batch>>, f: FailedWrite<Batch>, n: nat)
    requires n <= |failures|
    ensures f in (failures + [f])[n..]
  {
    assert (failures + [f])[n..][|failures| - n] == f;
  }

  lemma NothingRemoved(dirs: map<string, Directory<Batch>>, session: string, batches: Directory<Batch>)
    ensures session in dirs ==> RemovedOnly(dirs[session], dirs[session], batches, 0)
  {}

  lemma ChunkInDirectory(dirs: map<string, Directory<Batch>>, session: string, index: int, b: Batch)
    requires InSpool(dirs, session, index, b)
    ensures session in dirs && HasChunk(dirs[session], index, b)
  {}

  /** Two small frames that one batch of 300 bytes has no room for: the flush
      at the end of a session leaves the second one behind. */
  lemma TwoFramesLeftBehind(f: Frame)
    requires f.payload == ""
    ensures !FitsOneBatch(Batch([f, f], []), 300)
  {
    NoFrames();
    NextFrame([f, f], 0);
    NextFrame([f, f], 1);
    assert [f, f][..2] == [f, f] && [f, f][..0] == [];
  }
}
