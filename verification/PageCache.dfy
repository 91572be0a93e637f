/** The global page cache: per-file page maps, least-recently-used eviction and
    byte accounting, against a plain map of the latest inserts. */
module PageCache {
  import opened Storage
  import opened Wrappers
  import opened Words

  const PAGE_SIZE: nat := 4096

  datatype Page = Page(data: seq<byte>, lastAccess: nat, pinCount: nat, dirty: bool) {
    /** Nobody holds the page and it has nothing to write back. */
    predicate Idle() { pinCount == 0 && !dirty }
  }

  /** Cached pages of each file that has been looked at. */
  type Files = map<nat, map<nat, Page>>

  predicate Has(files: Files, ino: nat, page: nat) { ino in files && page in files[ino] }

  function Get(files: Files, ino: nat, page: nat): Page
    requires Has(files, ino, page)
  {
    files[ino][page]
  }

  /** A page that eviction can pick; one stamped with the clock's last value never is. */
  predicate CanEvict(files: Files, ino: nat, page: nat) {
    Has(files, ino, page) && Get(files, ino, page).Idle() && Get(files, ino, page).lastAccess < U64_MAX
  }

  function PutPage(files: Files, ino: nat, page: nat, value: Page): Files
    requires ino in files
  {
    var pages: map<nat, Page> := files[ino][page := value];
    files[ino := pages]
  }

  function DropPage(files: Files, ino: nat, page: nat): Files
    requires ino in files
  {
    files[ino := files[ino] - {page}]
  }

  function Opened(files: Files, ino: nat): Files { if ino in files then files else files[ino := map[]] }

  ghost function Keys(files: Files): set<(nat, nat)> {
    set i, p | i in files && p in files[i] :: (i, p)
  }

  lemma KeysAre(files: Files, ino: nat, page: nat)
    ensures (ino, page) in Keys(files) <==> Has(files, ino, page)
  {
  }

  // --------------------------------------------------------- bookkeeping

  /** The 64-bit clock wraps around. */
  function Tick(time: nat): nat { if time == U64_MAX then 0 else time + 1 }

  lemma TickIs(time: nat)
    requires time <= U64_MAX
    ensures Tick(time) == (time + 1) % 0x1_0000_0000_0000_0000
  {
  }

  /** Access times are distinct and in the past. */
  ghost predicate Clocked(files: Files, time: nat) {
    && (forall i, p :: Has(files, i, p) ==> Get(files, i, p).lastAccess < time)
    && (forall i, p, j, q :: Has(files, i, p) && Has(files, j, q) && (i, p) != (j, q) ==>
          Get(files, i, p).lastAccess != Get(files, j, q).lastAccess)
  }

  /** Every cached page holds the bytes last inserted for it. */
  ghost predicate Agrees(files: Files, latest: map<(nat, nat), seq<byte>>) {
    forall i: nat, p: nat :: Has(files, i, p) ==> (i, p) in latest && latest[(i, p)] == Get(files, i, p).data
  }

  /** `now` is `was` with some pages gone. */
  ghost predicate Shrunk(was: Files, now: Files) {
    forall i, p :: Has(now, i, p) ==> Has(was, i, p) && Get(now, i, p) == Get(was, i, p)
  }

  /** No page that may be evicted is older than this one. */
  ghost predicate Oldest(files: Files, ino: nat, page: nat) {
    && CanEvict(files, ino, page)
    && forall j, q :: CanEvict(files, j, q) ==> Get(files, ino, page).lastAccess <= Get(files, j, q).lastAccess
  }

  lemma PutKeys(files: Files, ino: nat, page: nat, value: Page)
    requires ino in files
    ensures Keys(PutPage(files, ino, page, value)) == Keys(files) + {(ino, page)}
  {
    forall i: nat, p: nat
      ensures (i, p) in Keys(PutPage(files, ino, page, value)) <==> (i, p) in Keys(files) + {(ino, page)}
    {
      KeysAre(files, i, p);
      KeysAre(PutPage(files, ino, page, value), i, p);
    }
  }

  lemma DropKeys(files: Files, ino: nat, page: nat)
    requires ino in files
    ensures Keys(DropPage(files, ino, page)) == Keys(files) - {(ino, page)}
  {
    forall i: nat, p: nat
      ensures (i, p) in Keys(DropPage(files, ino, page)) <==> (i, p) in Keys(files) - {(ino, page)}
    {
      KeysAre(files, i, p);
      KeysAre(DropPage(files, ino, page), i, p);
    }
  }

  lemma OpenKeys(files: Files, ino: nat)
    ensures Keys(Opened(files, ino)) == Keys(files)
    ensures forall i, p :: Has(Opened(files, ino), i, p) <==> Has(files, i, p)
    ensures forall i, p :: Has(files, i, p) ==> Get(Opened(files, ino), i, p) == Get(files, i, p)
    ensures Pinned(Opened(files, ino)) <==> Pinned(files)
  {
    assert forall i, p :: CanEvict(Opened(files, ino), i, p) <==> CanEvict(files, i, p);
    forall i: nat, p: nat
      ensures (i, p) in Keys(Opened(files, ino)) <==> (i, p) in Keys(files)
    {
      KeysAre(files, i, p);
      KeysAre(Opened(files, ino), i, p);
    }
  }

  ghost function KeysOf(ino: nat, pages: set<nat>): set<(nat, nat)> { set p | p in pages :: (ino, p) }

  lemma {:induction false} KeysOfSize(ino: nat, pages: set<nat>)
    ensures |KeysOf(ino, pages)| == |pages|
    decreases |pages|
  {
    if pages != {} {
      var p :| p in pages;
      KeysOfSize(ino, pages - {p});
      assert KeysOf(ino, pages) == KeysOf(ino, pages - {p}) + {(ino, p)};
    }
  }

  /** Dropping a file loses as many keys as it had pages. */
  lemma InvalidateKeys(files: Files, ino: nat)
    requires ino in files
    ensures |Keys(files - {ino})| == |Keys(files)| - |files[ino]|
  {
    var gone := KeysOf(ino, files[ino].Keys);
    KeysOfSize(ino, files[ino].Keys);
    forall i: nat, p: nat
      ensures (i, p) in Keys(files) <==> (i, p) in Keys(files - {ino}) + gone
    {
      KeysAre(files, i, p);
      KeysAre(files - {ino}, i, p);
    }
    assert Keys(files) == Keys(files - {ino}) + gone;
    assert Keys(files - {ino}) !! gone;
  }

  // ------------------------------------------------- least recently used

  /** The evictable page of one file with the smallest access time. */
  method FindLruPage(pages: map<nat, Page>) returns (best: Option<nat>)
    ensures best.None? ==> forall p :: p in pages ==> pages[p].dirty || pages[p].pinCount > 0
    ensures best.Some? ==>
              && best.value in pages && !pages[best.value].dirty && pages[best.value].pinCount == 0
              && forall p :: p in pages && pages[p].Idle() ==> pages[best.value].lastAccess <= pages[p].lastAccess
  {
    best := None;
    var todo := pages.Keys;
    while todo != {}
      invariant todo <= pages.Keys
      invariant best.None? ==> forall p :: p in pages && p !in todo ==> !pages[p].Idle()
      invariant best.Some? ==>
                  && best.value in pages && pages[best.value].Idle()
                  && forall p :: p in pages && p !in todo && pages[p].Idle() ==>
                       pages[best.value].lastAccess <= pages[p].lastAccess
      decreases |todo|
    {
      var k :| k in todo;
      todo := todo - {k};
      if pages[k].Idle() && (best.None? || pages[k].lastAccess < pages[best.value].lastAccess) {
        best := Some(k);
      }
    }
  }

  /** The least recently used evictable page over all files. */
  method FindVictim(files: Files) returns (best: Option<(nat, nat)>)
    ensures best.None? ==> forall i, p :: !CanEvict(files, i, p)
    ensures best.Some? ==> Oldest(files, best.value.0, best.value.1)
  {
    best := None;
    var bestAccessTime := U64_MAX;
    var todo := files.Keys;
    while todo != {}
      invariant todo <= files.Keys
      invariant best.None? ==> bestAccessTime == U64_MAX && forall i, p :: CanEvict(files, i, p) ==> i in todo
      invariant best.Some? ==>
                  && CanEvict(files, best.value.0, best.value.1)
                  && bestAccessTime == Get(files, best.value.0, best.value.1).lastAccess
                  && forall i, p :: CanEvict(files, i, p) && i !in todo ==>
                       bestAccessTime <= Get(files, i, p).lastAccess
      decreases |todo|
    {
      var ino :| ino in todo;
      todo := todo - {ino};
      var lru := FindLruPage(files[ino]);
      if lru.Some? {
        var accessTime := files[ino][lru.value].lastAccess;
        if accessTime < bestAccessTime {
          bestAccessTime := accessTime;
          best := Some((ino, lru.value));
        }
      }
      assert forall p :: CanEvict(files, ino, p) ==>
          lru.Some? && Get(files, ino, lru.value).lastAccess <= Get(files, ino, p).lastAccess;
    }
  }

  /** What eviction of `count` pages means: pages that may go and are no younger than
      any evictable page that stays. */
  ghost predicate Evicted(was: Files, now: Files, count: nat) {
    && Shrunk(was, now) && was.Keys == now.Keys
    && |Keys(was)| == |Keys(now)| + count
    && (forall i, p :: Has(was, i, p) && !Has(now, i, p) ==> CanEvict(was, i, p))
    && (forall i, p, j, q :: Has(was, i, p) && !Has(now, i, p) && CanEvict(now, j, q) ==>
          Get(was, i, p).lastAccess <= Get(was, j, q).lastAccess)
  }

  /** Nothing dirty and nothing pinned is ever evicted. */
  lemma RemovedWereIdle(was: Files, now: Files, count: nat)
    requires Evicted(was, now, count)
    ensures forall i, p :: Has(was, i, p) && !Has(now, i, p) ==>
              !Get(was, i, p).dirty && Get(was, i, p).pinCount == 0
  {
    assert forall i, p :: CanEvict(was, i, p) ==> !Get(was, i, p).dirty && Get(was, i, p).pinCount == 0;
  }

  /** Pages gone were strictly older than every evictable page that stays. */
  ghost predicate OlderGone(was: Files, now: Files)
    requires Shrunk(was, now)
  {
    forall i, p, j, q :: Has(was, i, p) && !Has(now, i, p) && CanEvict(now, j, q) ==>
      Get(was, i, p).lastAccess < Get(was, j, q).lastAccess
  }

  /** As long as the clock has not wrapped, evicted pages are strictly older. */
  lemma EvictedAreOlder(was: Files, now: Files, count: nat, time: nat)
    requires Evicted(was, now, count) && Clocked(was, time)
    ensures OlderGone(was, now)
  {
    forall i, p, j, q | Has(was, i, p) && !Has(now, i, p) && CanEvict(now, j, q)
      ensures Get(was, i, p).lastAccess < Get(was, j, q).lastAccess
    {
      assert (i, p) != (j, q) && Has(was, j, q);
    }
  }

  /** No page can be evicted. */
  ghost predicate Pinned(files: Files) {
    forall i, p :: !CanEvict(files, i, p)
  }

  /** Until the clock has wrapped, only dirty and pinned pages cannot be evicted. */
  lemma ClockedPagesCanGo(files: Files, time: nat)
    requires Clocked(files, time) && time <= U64_MAX
    ensures Pinned(files) <==>
            forall i, p :: Has(files, i, p) ==> Get(files, i, p).dirty || Get(files, i, p).pinCount > 0
  {
    if Pinned(files) {
      forall i, p | Has(files, i, p)
        ensures Get(files, i, p).dirty || Get(files, i, p).pinCount > 0
      {
        assert !CanEvict(files, i, p);
      }
    }
  }

  /** A clean page nobody holds, stamped with the clock's last value, is never evicted. */
  lemma LastTickStays(data: seq<byte>)
    ensures var files: Files := map[1 := map[0 := Page(data, U64_MAX, 0, false)]];
            !Get(files, 1, 0).dirty && Get(files, 1, 0).pinCount == 0 && Pinned(files)
  {
  }

  lemma NoneEvicted(files: Files)
    ensures Evicted(files, files, 0)
  {
  }

  /** Asked for one page, eviction takes one exactly if there is one to take. */
  lemma VictimExists(was: Files, now: Files, count: nat)
    requires Evicted(was, now, count) && (count == 0 ==> now == was)
    requires PAGE_SIZE * count >= PAGE_SIZE || Pinned(now)
    requires count > 0 ==> PAGE_SIZE * (count - 1) < PAGE_SIZE
    ensures count == if Pinned(was) then 0 else 1
  {
    if count > 0 {
      EvictedSome(was, now, count);
    }
  }

  lemma EvictedSome(was: Files, now: Files, count: nat)
    requires Evicted(was, now, count) && count > 0
    ensures !Pinned(was)
  {
    if Keys(was) <= Keys(now) {
      SubsetSize(Keys(was), Keys(now));
    }
    var k :| k in Keys(was) && k !in Keys(now);
    KeysAre(was, k.0, k.1);
    KeysAre(now, k.0, k.1);
  }

  lemma {:induction false} SubsetSize<T>(a: set<T>, b: set<T>)
    requires a <= b
    ensures |a| <= |b|
  {
    if a != {} {
      var x :| x in a;
      SubsetSize(a - {x}, b - {x});
    }
  }

  lemma EvictOneMore(was: Files, now: Files, count: nat, ino: nat, page: nat)
    requires Evicted(was, now, count) && Oldest(now, ino, page)
    ensures Evicted(was, DropPage(now, ino, page), count + 1)
  {
    var next := DropPage(now, ino, page);
    DropKeys(now, ino, page);
    KeysAre(now, ino, page);
    assert forall i: nat, p: nat :: Has(next, i, p) <==> Has(now, i, p) && (i, p) != (ino, page);
    assert forall j, q :: CanEvict(next, j, q) ==> CanEvict(now, j, q);
  }

  lemma ShrunkKeeps(was: Files, now: Files, time: nat, latest: map<(nat, nat), seq<byte>>)
    requires Shrunk(was, now) && Agrees(was, latest)
    ensures Agrees(now, latest) && (Clocked(was, time) ==> Clocked(now, time))
  {
  }

  /** `now` is `was` with its first `n` bytes taken from `data` at `o`, as many as
      there are and fit. */
  ghost predicate CopiedFrom(data: seq<byte>, o: nat, was: seq<byte>, now: seq<byte>, n: nat) {
    var available := if o < |data| then |data| - o else 0;
    && n == (if |was| < available then |was| else available)
    && |now| == |was| && now[n..] == was[n..]
    && (n > 0 ==> now[..n] == data[o..o + n])
  }

  /** Byte for byte: the page's, as far as it goes, and what was there before. */
  lemma CopiedBytes(data: seq<byte>, o: nat, was: seq<byte>, now: seq<byte>, n: nat)
    requires CopiedFrom(data, o, was, now, n)
    ensures forall i :: 0 <= i < |now| ==> now[i] == if o + i < |data| then data[o + i] else was[i]
  {
    forall i | 0 <= i < |now|
      ensures now[i] == if o + i < |data| then data[o + i] else was[i]
    {
      if i < n {
        assert now[i] == now[..n][i] == data[o..o + n][i];
      } else {
        assert now[i] == now[n..][i - n] == was[n..][i - n];
      }
    }
  }

  method ReadPage(data: seq<byte>, offset: nat, buf: array<byte>) returns (n: nat)
    modifies buf
    ensures CopiedFrom(data, offset, old(buf[..]), buf[..], n)
  {
    var available := if offset < |data| then |data| - offset else 0;
    n := if buf.Length < available then buf.Length else available;
    forall i | 0 <= i < n {
      buf[i] := data[offset + i];
    }
  }

  // ------------------------------------------------------------ whole runs

  datatype Op =
    | Read(ino: nat, page: nat)
    | Insert(ino: nat, page: nat, data: seq<byte>)
    | MarkDirty(ino: nat, page: nat)
    | SetPins(ino: nat, page: nat, pins: nat)
    | Invalidate(ino: nat)

  /** What one call does to the cached pages. */
  ghost predicate Next(s: Files, op: Op, t: Files) {
    match op
    case Read(ino, page) => exists now :: t == Touched(s, ino, page, now)
    case Insert(ino, page, data) =>
      exists kept: Files, evicted: nat, now: nat ::
        && Evicted(Opened(s, ino), kept, evicted) && ino in kept
        && t == PutPage(kept, ino, page, Page(data, now, 0, false))
    case MarkDirty(ino, page) =>
      t == if Has(s, ino, page) then PutPage(s, ino, page, Get(s, ino, page).(dirty := true)) else s
    case SetPins(ino, page, pins) =>
      Has(s, ino, page) && t == PutPage(s, ino, page, Get(s, ino, page).(pinCount := pins))
    case Invalidate(ino) => t == s - {ino}
  }

  lemma InsertIsNext(s: Files, ino: nat, page: nat, data: seq<byte>, kept: Files, evicted: nat, now: nat, t: Files)
    requires Evicted(Opened(s, ino), kept, evicted) && ino in kept
    requires t == PutPage(kept, ino, page, Page(data, now, 0, false))
    ensures Next(s, Op.Insert(ino, page, data), t)
  {
  }

  /** A page looked up at time `now`. */
  function Touched(s: Files, ino: nat, page: nat, now: nat): Files {
    if Has(s, ino, page) then PutPage(s, ino, page, Get(s, ino, page).(lastAccess := now)) else Opened(s, ino)
  }

  /** A cached page that is dirty or pinned, with these bytes. */
  ghost predicate Held(s: Files, ino: nat, page: nat, data: seq<byte>) {
    Has(s, ino, page) && Get(s, ino, page).data == data && (Get(s, ino, page).dirty || Get(s, ino, page).pinCount > 0)
  }

  /** The calls that end a hold: inserting over the page, dropping its file, and the
      last unpinning of a page that is not dirty. */
  ghost predicate LetsGo(s: Files, op: Op, ino: nat, page: nat) {
    || (op.Insert? && op.ino == ino && op.page == page)
    || (op.Invalidate? && op.ino == ino)
    || (op.SetPins? && op.ino == ino && op.page == page && op.pins == 0
        && Has(s, ino, page) && !Get(s, ino, page).dirty)
  }

  /** A dirty or pinned page stays, with its bytes, exactly until it is let go. */
  lemma StepKeepsHeld(s: Files, op: Op, t: Files, ino: nat, page: nat, data: seq<byte>)
    requires Next(s, op, t) && Held(s, ino, page, data)
    ensures Held(t, ino, page, data) <==> !LetsGo(s, op, ino, page)
  {
    match op {
      case Insert(_, _, _) => InsertKeepsHeld(s, op, t, ino, page, data);
      case Read(_, _) =>
      case MarkDirty(_, _) =>
      case SetPins(_, _, _) =>
      case Invalidate(_) =>
    }
  }

  lemma InsertKeepsHeld(s: Files, op: Op, t: Files, ino: nat, page: nat, data: seq<byte>)
    requires op.Insert? && Next(s, op, t) && Held(s, ino, page, data)
    ensures Held(t, ino, page, data) <==> !(op.ino == ino && op.page == page)
  {
    var kept: Files, evicted: nat, now: nat :|
      && Evicted(Opened(s, op.ino), kept, evicted) && op.ino in kept
      && t == PutPage(kept, op.ino, op.page, Page(op.data, now, 0, false));
    EvictionKeepsHeld(s, op.ino, kept, evicted, ino, page, data);
    PutApart(kept, op.ino, op.page, Page(op.data, now, 0, false), ino, page);
  }

  lemma PutApart(files: Files, ino: nat, page: nat, value: Page, i: nat, p: nat)
    requires ino in files && Has(files, i, p)
    ensures Has(PutPage(files, ino, page, value), i, p)
    ensures Get(PutPage(files, ino, page, value), i, p) == if (i, p) == (ino, page) then value else Get(files, i, p)
  {
  }

  lemma EvictionKeepsHeld(s: Files, touched: nat, kept: Files, evicted: nat, ino: nat, page: nat, data: seq<byte>)
    requires Evicted(Opened(s, touched), kept, evicted) && Held(s, ino, page, data)
    ensures Held(kept, ino, page, data)
  {
    OpenKeys(s, touched);
    RemovedWereIdle(Opened(s, touched), kept, evicted);
    assert Has(Opened(s, touched), ino, page);
  }

  ghost predicate Run(trace: seq<Files>, ops: seq<Op>) {
    |trace| == |ops| + 1 && forall i :: 0 <= i < |ops| ==> Next(trace[i], ops[i], trace[i + 1])
  }

  /** In every run, whatever is evicted meanwhile, a dirty or pinned page is still
      cached with its bytes if no call between let it go. */
  lemma {:induction false} HeldUntilLetGo(trace: seq<Files>, ops: seq<Op>, m: nat, n: nat, ino: nat, page: nat,
      data: seq<byte>)
    requires Run(trace, ops) && m <= n < |trace| && Held(trace[m], ino, page, data)
    requires forall i :: m <= i < n ==> !LetsGo(trace[i], ops[i], ino, page)
    ensures Held(trace[n], ino, page, data)
    decreases n
  {
    if m < n {
      HeldUntilLetGo(trace, ops, m, n - 1, ino, page, data);
      StepKeepsHeld(trace[n - 1], ops[n - 1], trace[n], ino, page, data);
    }
  }

  class PageCache {
    const limit: nat
    var files: Files
    var currentSize: nat
    var time: nat
    /** Inserts that replaced a page still cached. */
    ghost var replaced: nat
    /** Bytes of the latest insert of each page not since invalidated. */
    ghost var latest: map<(nat, nat), seq<byte>>

    ghost predicate Valid()
      reads this
    {
      && time <= U64_MAX && Agrees(files, latest)
      && currentSize == PAGE_SIZE * (|Keys(files)| + replaced)
    }

    /** The clock has not wrapped under the cached pages: access times tell their order. */
    ghost predicate InOrder()
      reads this
    {
      Clocked(files, time)
    }

    /** The accounted size is that of the cached pages. */
    ghost predicate SizeExact()
      reads this
    {
      currentSize == PAGE_SIZE * |Keys(files)|
    }

    lemma SizeExactIff()
      requires Valid()
      ensures SizeExact() <==> replaced == 0
    {
    }

    constructor (limit: nat)
      ensures Valid() && InOrder() && this.limit == limit && files == map[] && replaced == 0 && latest == map[]
      ensures currentSize == 0 && time == 0
    {
      this.limit := limit;
      files, currentSize, time := map[], 0, 0;
      replaced, latest := 0, map[];
    }

    /** Removes least recently used pages until `needed` bytes are freed. */
    method EvictPages(needed: nat) returns (ghost count: nat)
      requires Valid()
      modifies this`files, this`currentSize
      ensures Valid() && Evicted(old(files), files, count) && (count == 0 ==> files == old(files))
      ensures old(InOrder()) ==> InOrder() && OlderGone(old(files), files)
      ensures currentSize == old(currentSize) - PAGE_SIZE * count
      ensures forall i, p :: Has(old(files), i, p) && !Has(files, i, p) ==>
                !Get(old(files), i, p).dirty && Get(old(files), i, p).pinCount == 0
      ensures PAGE_SIZE * count >= needed || Pinned(files)
      ensures old(InOrder()) && PAGE_SIZE * count < needed ==>
                forall i, p :: Has(files, i, p) ==> Get(files, i, p).dirty || Get(files, i, p).pinCount > 0
      ensures count > 0 ==> PAGE_SIZE * (count - 1) < needed
    {
      var freed := 0;
      count := 0;
      while freed < needed
        invariant Valid() && Evicted(old(files), files, count) && (count == 0 ==> files == old(files))
        invariant old(InOrder()) ==> InOrder()
        invariant freed == PAGE_SIZE * count && currentSize == old(currentSize) - freed
        invariant count > 0 ==> PAGE_SIZE * (count - 1) < needed
        decreases |Keys(files)|
      {
        var best := FindVictim(files);
        if best.None? {
          break;
        }
        var (ino, page) := best.value;
        EvictOneMore(old(files), files, count, ino, page);
        DropKeys(files, ino, page);
        KeysAre(files, ino, page);
        files := DropPage(files, ino, page);
        ShrunkKeeps(old(files), files, time, latest);
        freed, currentSize := freed + PAGE_SIZE, currentSize - PAGE_SIZE;
        count := count + 1;
      }
      RemovedWereIdle(old(files), files, count);
      if old(InOrder()) {
        EvictedAreOlder(old(files), files, count, time);
        ClockedPagesCanGo(files, time);
      }
    }

    /** Looks a page up, marking it used now; a hit copies the wanted bytes. */
    method Read(ino: nat, offset: nat, buf: array<byte>) returns (r: Option<nat>)
      requires Valid()
      modifies this`files, this`time, buf
      ensures Valid() && time == Tick(old(time))
      ensures old(InOrder()) && (r.Some? || old(time) < U64_MAX) ==> (InOrder() <==> old(time) < U64_MAX)
      ensures Next(old(files), Op.Read(ino, offset / 4096), files)
      ensures r.Some? <==> Has(old(files), ino, offset / 4096)
      ensures r.None? ==> files == Opened(old(files), ino) && buf[..] == old(buf[..])
      ensures r.Some? ==>
                var page, o := offset / 4096, offset % 4096;
                && (ino, page) in latest
                && CopiedFrom(latest[(ino, page)], o, old(buf[..]), buf[..], r.value)
                && (forall i: nat :: i < buf.Length ==>
                      buf[i] == if o + i < |latest[(ino, page)]| then latest[(ino, page)][o + i] else old(buf[i]))
                && files == PutPage(old(files), ino, page, Get(old(files), ino, page).(lastAccess := old(time)))
    {
      OpenKeys(files, ino);
      files := Opened(files, ino);
      var page, pageOffset := offset / PAGE_SIZE, offset % PAGE_SIZE;
      var now := time;
      time := Tick(time);
      assert Touched(old(files), ino, page, now) == Touched(files, ino, page, now);
      if page !in files[ino] {
        return None;
      }
      var cached := files[ino][page];
      TouchKeeps(files, ino, page, now, latest);
      PutKeys(files, ino, page, cached.(lastAccess := now));
      KeysAre(files, ino, page);
      assert Keys(files) + {(ino, page)} == Keys(files);
      files := PutPage(files, ino, page, cached.(lastAccess := now));
      var n := ReadPage(cached.data, pageOffset, buf);
      CopiedBytes(cached.data, pageOffset, old(buf[..]), buf[..], n);
      return Some(n);
    }

    /** Stores a page, evicting first if one more page would exceed the limit.
        `kept` is the cache between the two. */
    method Insert(ino: nat, page: nat, data: seq<byte>) returns (ghost kept: Files, ghost evicted: nat)
      requires Valid()
      modifies this
      ensures Valid() && time == Tick(old(time))
      ensures old(InOrder()) ==> (InOrder() <==> old(time) < U64_MAX)
      ensures Next(old(files), Op.Insert(ino, page, data), files)
      ensures ino in kept && Evicted(Opened(old(files), ino), kept, evicted)
      ensures old(InOrder()) ==> OlderGone(Opened(old(files), ino), kept)
      ensures evicted == if old(currentSize) + PAGE_SIZE <= limit || Pinned(old(files)) then 0 else 1
      ensures evicted == 0 ==> kept == Opened(old(files), ino)
      ensures files == PutPage(kept, ino, page, Page(data, old(time), 0, false))
      ensures latest == old(latest)[(ino, page) := data]
      ensures currentSize == old(currentSize) + PAGE_SIZE - PAGE_SIZE * evicted
      ensures currentSize <= limit || currentSize <= old(currentSize) || Pinned(old(files))
      ensures replaced == old(replaced) + if Has(kept, ino, page) then 1 else 0
      ensures old(SizeExact()) ==> (SizeExact() <==> !Has(kept, ino, page))
    {
      OpenKeys(files, ino);
      files := Opened(files, ino);
      evicted := 0;
      if currentSize + PAGE_SIZE > limit {
        evicted := EvictPages(PAGE_SIZE);
        VictimExists(Opened(old(files), ino), files, evicted);
      } else {
        NoneEvicted(files);
      }
      kept := files;
      StorePage(ino, page, data);
      InsertIsNext(old(files), ino, page, data, kept, evicted, old(time), files);
    }

    /** The part of `insert` after eviction. */
    method StorePage(ino: nat, page: nat, data: seq<byte>)
      requires Valid() && ino in files
      modifies this
      ensures Valid() && time == Tick(old(time))
      ensures old(InOrder()) ==> (InOrder() <==> old(time) < U64_MAX)
      ensures files == PutPage(old(files), ino, page, Page(data, old(time), 0, false))
      ensures latest == old(latest)[(ino, page) := data]
      ensures currentSize == old(currentSize) + PAGE_SIZE
      ensures replaced == old(replaced) + if Has(old(files), ino, page) then 1 else 0
    {
      var added := Page(data, time, 0, false);
      InsertKeeps(files, ino, page, added, time, latest);
      PutKeys(files, ino, page, added);
      KeysAre(files, ino, page);
      if Has(files, ino, page) {
        assert Keys(files) + {(ino, page)} == Keys(files);
        replaced := replaced + 1;
      }
      files := PutPage(files, ino, page, added);
      time := Tick(time);
      currentSize := currentSize + PAGE_SIZE;
      latest := latest[(ino, page) := data];
    }

    method MarkDirty(ino: nat, page: nat) returns (found: bool)
      requires Valid()
      modifies this`files
      ensures Valid() && (old(InOrder()) ==> InOrder()) && found == Has(old(files), ino, page)
      ensures Next(old(files), Op.MarkDirty(ino, page), files)
      ensures files == if !found then old(files)
                       else PutPage(old(files), ino, page, Get(old(files), ino, page).(dirty := true))
    {
      if ino in files && page in files[ino] {
        var cached := files[ino][page];
        SameTimeKeeps(files, ino, page, cached.(dirty := true), time, latest);
        PutKeys(files, ino, page, cached.(dirty := true));
        KeysAre(files, ino, page);
        assert Keys(files) + {(ino, page)} == Keys(files);
        files := PutPage(files, ino, page, cached.(dirty := true));
        return true;
      }
      return false;
    }

    /** Another holder of a page pins or unpins it. */
    method SetPins(ino: nat, page: nat, pins: nat)
      requires Valid() && Has(files, ino, page)
      modifies this`files
      ensures Valid() && (old(InOrder()) ==> InOrder())
      ensures Next(old(files), Op.SetPins(ino, page, pins), files)
      ensures files == PutPage(old(files), ino, page, Get(old(files), ino, page).(pinCount := pins))
    {
      var cached := files[ino][page];
      SameTimeKeeps(files, ino, page, cached.(pinCount := pins), time, latest);
      PutKeys(files, ino, page, cached.(pinCount := pins));
      KeysAre(files, ino, page);
      assert Keys(files) + {(ino, page)} == Keys(files);
      files := PutPage(files, ino, page, cached.(pinCount := pins));
    }

    /** Forgets every page of a file. */
    method Invalidate(ino: nat)
      requires Valid()
      modifies this`files, this`currentSize, this`latest
      ensures Valid() && (old(InOrder()) ==> InOrder()) && files == old(files) - {ino}
      ensures Next(old(files), Op.Invalidate(ino), files)
      ensures ino in old(files) ==> currentSize == old(currentSize) - PAGE_SIZE * |old(files)[ino]|
      ensures latest == map k | k in old(latest) && k.0 != ino :: old(latest)[k]
    {
      if ino in files {
        InvalidateKeys(files, ino);
        InvalidateKeeps(files, ino, time, latest);
        var pages := |files[ino]|;
        files := files - {ino};
        currentSize := currentSize - pages * PAGE_SIZE;
      } else {
        assert files - {ino} == files;
        InvalidateKeeps(files, ino, time, latest);
      }
      latest := map k | k in latest && k.0 != ino :: latest[k];
    }
  }

  /** Inserting a page twice under the limit accounts for it twice. */
  method InsertTwice(limit: nat, data: seq<byte>) returns (cache: PageCache)
    requires limit >= 2 * PAGE_SIZE
    ensures fresh(cache) && cache.Valid()
    ensures cache.currentSize == 2 * PAGE_SIZE && |Keys(cache.files)| == 1 && !cache.SizeExact()
  {
    cache := new PageCache(limit);
    ghost var kept, evicted := cache.Insert(1, 0, data);
    kept, evicted := cache.Insert(1, 0, data);
  }

  function OnePage(data: seq<byte>): Files { map[1 := map[0 := Page(data, 0, 0, true)]] }

  /** A cache with room for one page, which is dirty. */
  method FullOfDirt(data: seq<byte>) returns (cache: PageCache)
    ensures fresh(cache) && cache.Valid() && cache.limit == PAGE_SIZE == cache.currentSize
    ensures cache.files == OnePage(data)
  {
    cache := new PageCache(PAGE_SIZE);
    ghost var kept, evicted := cache.Insert(1, 0, data);
    assert kept == Opened(map[], 1);
    assert cache.files[1] == map[0 := Page(data, 0, 0, false)];
    var found := cache.MarkDirty(1, 0);
    assert cache.files[1] == map[0 := Page(data, 0, 0, true)];
    assert cache.files == OnePage(data);
  }

  /** In a cache with room for one page, a dirty page outlives the insert of another,
      and the cache grows over its limit. */
  method DirtyPageStays(data: seq<byte>, other: seq<byte>) returns (cache: PageCache)
    ensures fresh(cache) && cache.Valid() && cache.limit == PAGE_SIZE
    ensures Held(cache.files, 1, 0, data) && cache.currentSize == 2 * PAGE_SIZE
  {
    cache := FullOfDirt(data);
    DirtIsHeld(data);
    ghost var kept, evicted := cache.Insert(2, 0, other);
    StepKeepsHeld(OnePage(data), Op.Insert(2, 0, other), cache.files, 1, 0, data);
  }

  lemma DirtIsHeld(data: seq<byte>)
    ensures Held(OnePage(data), 1, 0, data) && Pinned(OnePage(data))
  {
  }

  lemma TouchKeeps(files: Files, ino: nat, page: nat, now: nat, latest: map<(nat, nat), seq<byte>>)
    requires Has(files, ino, page) && Agrees(files, latest) && now <= U64_MAX
    ensures Clocked(files, now) ==>
              (Clocked(PutPage(files, ino, page, Get(files, ino, page).(lastAccess := now)), Tick(now)) <==>
               now < U64_MAX)
    ensures Agrees(PutPage(files, ino, page, Get(files, ino, page).(lastAccess := now)), latest)
  {
    InsertKeeps(files, ino, page, Get(files, ino, page).(lastAccess := now), now, latest);
    assert latest[(ino, page) := Get(files, ino, page).data] == latest;
  }

  /** A page stamped with the current time keeps the times distinct and in the past,
      unless the clock wraps. */
  lemma InsertKeeps(files: Files, ino: nat, page: nat, value: Page, now: nat, latest: map<(nat, nat), seq<byte>>)
    requires ino in files && Agrees(files, latest) && value.lastAccess == now <= U64_MAX
    ensures Clocked(files, now) ==> (Clocked(PutPage(files, ino, page, value), Tick(now)) <==> now < U64_MAX)
    ensures Agrees(PutPage(files, ino, page, value), latest[(ino, page) := value.data])
  {
    var g := PutPage(files, ino, page, value);
    assert Has(g, ino, page) && Get(g, ino, page).lastAccess == now;
    forall i: nat, p: nat | Has(g, i, p)
      ensures (i, p) == (ino, page) || (Has(files, i, p) && Get(g, i, p) == Get(files, i, p))
    {
    }
  }

  /** Changing flags alone disturbs neither clock nor content. */
  lemma SameTimeKeeps(files: Files, ino: nat, page: nat, value: Page, time: nat, latest: map<(nat, nat), seq<byte>>)
    requires Has(files, ino, page) && Agrees(files, latest)
    requires value.lastAccess == Get(files, ino, page).lastAccess && value.data == Get(files, ino, page).data
    ensures Clocked(files, time) ==> Clocked(PutPage(files, ino, page, value), time)
    ensures Agrees(PutPage(files, ino, page, value), latest)
  {
    var g := PutPage(files, ino, page, value);
    forall i: nat, p: nat | Has(g, i, p)
      ensures Has(files, i, p) && Get(g, i, p).lastAccess == Get(files, i, p).lastAccess
      ensures Get(g, i, p).data == Get(files, i, p).data
    {
    }
  }

  lemma InvalidateKeeps(files: Files, ino: nat, time: nat, latest: map<(nat, nat), seq<byte>>)
    requires Agrees(files, latest)
    ensures Clocked(files, time) ==> Clocked(files - {ino}, time)
    ensures Agrees(files - {ino}, map k | k in latest && k.0 != ino :: latest[k])
  {
    var g := files - {ino};
    assert forall i: nat, p: nat :: Has(g, i, p) ==> i != ino && Has(files, i, p) && Get(g, i, p) == Get(files, i, p);
  }
}
