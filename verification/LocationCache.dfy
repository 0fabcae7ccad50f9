/** The cache of announcements telling which peers hold which files, bounded at two levels. */
module LocationCache {
  import opened Wrappers

  type PeerId = nat
  type TxId = nat

  datatype Announcement = Announcement(txId: TxId, peer: PeerId, timestamp: nat)

  /** A key with the oldest timestamp, which is what the priority queues hand out first. */
  ghost predicate IsOldest(priorities: map<nat, nat>, key: nat) {
    key in priorities && forall k :: k in priorities ==> priorities[key] <= priorities[k]
  }

  lemma {:induction false} OldestExists(priorities: map<nat, nat>) returns (key: nat)
    requires priorities != map[]
    ensures IsOldest(priorities, key)
    decreases |priorities|
  {
    var some :| some in priorities;
    var rest := priorities - {some};
    if rest == map[] {
      key := some;
      assert forall k :: k in priorities ==> k == some || k in rest;
    } else {
      assert rest.Keys == priorities.Keys - {some};
      var next := OldestExists(rest);
      key := if priorities[some] <= priorities[next] then some else next;
      assert forall k :: k in priorities ==> k == some || (k in rest && rest[k] == priorities[k]);
    }
  }

  /** Looking at the top of a priority queue; among equally old keys any may be on top. */
  method Peek(priorities: map<nat, nat>) returns (top: Option<nat>)
    ensures top.None? <==> priorities == map[]
    ensures top.Some? ==> IsOldest(priorities, top.value)
  {
    if priorities == map[] {
      return None;
    }
    ghost var oldest := OldestExists(priorities);
    var key :| key in priorities && forall k :: k in priorities ==> priorities[key] <= priorities[k];
    return Some(key);
  }

  /** The announcements of one file, the latest of each peer. */
  class AnnouncementCache {
    const capacity: nat
    const timeout: nat
    var items: map<PeerId, Announcement>
    var priorities: map<PeerId, nat>

    ghost predicate Valid()
      reads this
    {
      && capacity > 0 && |items| <= capacity
      && Agree()
    }

    /** Both collections hold the same peers, under the same timestamps. */
    ghost predicate Agree()
      reads this
    {
      items.Keys == priorities.Keys && forall p :: p in items ==> priorities[p] == items[p].timestamp
    }

    constructor (maxEntries: nat, expiration: nat)
      requires maxEntries > 0
      ensures Valid() && capacity == maxEntries && timeout == expiration && items == map[]
    {
      capacity, timeout := maxEntries, expiration;
      items, priorities := map[], map[];
    }

    /** The timestamp of the oldest announcement. */
    method PeekPriority() returns (r: Option<nat>)
      requires Agree()
      ensures r.None? <==> items == map[]
      ensures r.Some? ==> (exists p :: p in items && items[p].timestamp == r.value) && NoneOlder(items, r.value)
    {
      assert items == map[] <==> items.Keys == {};
      assert priorities == map[] <==> priorities.Keys == {};
      var top := Peek(priorities);
      r := if top.None? then None else Some(priorities[top.value]);
    }

    /** An oldest announcement leaves both collections. */
    method Pop() returns (r: Option<Announcement>, ghost peer: PeerId)
      requires Agree()
      modifies this
      ensures Agree()
      ensures r.None? <==> old(items) == map[]
      ensures r.None? ==> items == old(items)
      ensures r.Some? ==>
        && peer in old(items) && r.value == old(items)[peer] && NoneOlder(old(items), r.value.timestamp)
        && items == old(items) - {peer} && |items| == |old(items)| - 1
    {
      assert items == map[] <==> items.Keys == {};
      assert priorities == map[] <==> priorities.Keys == {};
      var top := Peek(priorities);
      if top.None? {
        return None, 0;
      }
      peer := top.value;
      OneLess(items, peer);
      r := Some(items[top.value]);
      priorities := priorities - {top.value};
      items := items - {top.value};
    }

    /** Exactly the announcements that have not expired remain. */
    method GarbageCollect(now: nat) returns (collected: nat)
      requires Agree()
      modifies this
      ensures Agree()
      ensures forall p :: p in items <==> p in old(items) && old(items)[p].timestamp + timeout > now
      ensures forall p :: p in items ==> items[p] == old(items)[p]
      ensures items == Alive(old(items), timeout, now)
      ensures collected == |old(items)| - |items|
    {
      collected := 0;
      while true
        invariant Agree()
        invariant items.Keys <= old(items).Keys && forall p :: p in items ==> items[p] == old(items)[p]
        invariant forall p :: p in old(items) && p !in items ==> old(items)[p].timestamp + timeout <= now
        invariant collected == |old(items)| - |items|
        decreases |items|
      {
        var oldest := PeekPriority();
        if oldest.None? || oldest.value + timeout > now {
          assert items == Alive(old(items), timeout, now);
          return;
        }
        var r, _ := Pop();
        assert r.value.timestamp <= oldest.value;
        collected := collected + 1;
      }
    }

    method Insert(announcement: Announcement, now: nat)
      requires Valid()
      modifies this
      ensures Valid() && items != map[]
      ensures |items| <= |old(items)| + 1
      ensures var alive := Alive(old(items), timeout, now);
        var all := alive[announcement.peer := announcement];
        if announcement.peer in alive && announcement.timestamp <= alive[announcement.peer].timestamp then
          items == alive
        else if |all| <= capacity then
          items == all
        else
          exists p :: p in all && NoneOlder(all, all[p].timestamp) && items == all - {p}
      ensures Inserted(old(items), announcement, timeout, now, capacity, items)
    {
      var _ := GarbageCollect(now);
      AliveSize(old(items), timeout, now);
      var peer := announcement.peer;
      if peer in items && announcement.timestamp <= items[peer].timestamp {
        assert peer in items;
        return;
      }
      ghost var before := items;
      priorities := priorities[peer := announcement.timestamp];
      items := items[peer := announcement];
      OneMore(before, peer, announcement);
      if |items| > capacity {
        var r, p := Pop();
        assert |items| == capacity;
      } else {
        assert peer in items;
      }
    }

    /** Some announcement that has not expired, if there is one. */
    method Random(now: nat) returns (r: Option<Announcement>, collected: nat)
      requires Agree()
      modifies this
      ensures Agree()
      ensures items == Alive(old(items), timeout, now) && collected == |old(items)| - |items|
      ensures r.None? <==> items == map[]
      ensures r.Some? ==> r.value in items.Values
    {
      collected := GarbageCollect(now);
      if items == map[] {
        return None, collected;
      }
      assert items.Keys != {};
      var p :| p in items;
      r := Some(items[p]);
    }

    /** All announcements that have not expired. */
    method All(now: nat) returns (r: set<Announcement>, collected: nat)
      requires Agree()
      modifies this
      ensures Agree()
      ensures items == Alive(old(items), timeout, now) && collected == |old(items)| - |items|
      ensures r == items.Values
    {
      collected := GarbageCollect(now);
      r := items.Values;
    }
  }

  /** Expired announcements go, the latest of the peer stays, and of too many an oldest goes. */
  ghost predicate Inserted(before: map<PeerId, Announcement>, a: Announcement, timeout: nat, now: nat, capacity: nat,
                           after: map<PeerId, Announcement>)
  {
    var base := Alive(before, timeout, now);
    var full := base[a.peer := a];
    if a.peer in base && a.timestamp <= base[a.peer].timestamp then after == base
    else if |full| <= capacity then after == full
    else exists p :: p in full && after == full - {p} && NoneOlder(full, full[p].timestamp)
  }

  ghost predicate NoneOlder(items: map<PeerId, Announcement>, timestamp: nat) {
    forall p :: p in items ==> timestamp <= items[p].timestamp
  }

  lemma FewerOlder(items: map<PeerId, Announcement>, fewer: map<PeerId, Announcement>, timestamp: nat)
    requires NoneOlder(items, timestamp) && fewer.Keys <= items.Keys
    requires forall p :: p in fewer ==> fewer[p] == items[p]
    ensures NoneOlder(fewer, timestamp)
  {
  }

  function Alive(items: map<PeerId, Announcement>, timeout: nat, now: nat): map<PeerId, Announcement> {
    map p | p in items && items[p].timestamp + timeout > now :: items[p]
  }

  lemma AliveSize(items: map<PeerId, Announcement>, timeout: nat, now: nat)
    ensures |Alive(items, timeout, now)| <= |items|
  {
    Subset(Alive(items, timeout, now).Keys, items.Keys);
  }

  lemma {:induction false} Subset<T>(a: set<T>, b: set<T>)
    requires a <= b
    ensures |a| <= |b|
  {
    assert b == a + (b - a);
  }

  lemma OneLess(items: map<PeerId, Announcement>, p: PeerId)
    requires p in items
    ensures |items - {p}| == |items| - 1
  {
    assert (items - {p}).Keys == items.Keys - {p};
  }

  lemma OneMore(items: map<PeerId, Announcement>, p: PeerId, a: Announcement)
    ensures |items[p := a]| <= |items| + 1
  {
    assert items[p := a].Keys == items.Keys + {p};
  }

  // ---- All files

  datatype Entry = Entry(txId: TxId, peer: PeerId)

  type Contents = map<TxId, map<PeerId, Announcement>>

  ghost function Cached(view: Contents): set<Entry> {
    set t, p | t in view && p in view[t] :: Entry(t, p)
  }

  function Of(view: Contents, t: TxId): map<PeerId, Announcement> {
    if t in view then view[t] else map[]
  }

  /** The announcements of one file are replaced; a file without announcements goes. */
  function Settled(view: Contents, t: TxId, items: map<PeerId, Announcement>): Contents {
    if items == map[] then view - {t} else view[t := items]
  }

  function Ranked(priorities: map<TxId, nat>, t: TxId, items: map<PeerId, Announcement>, p: nat): map<TxId, nat> {
    if items == map[] then priorities - {t} else priorities[t := p]
  }

  ghost function Entries(txId: TxId, peers: set<PeerId>): set<Entry> {
    set p | p in peers :: Entry(txId, p)
  }

  lemma {:induction false} EntriesSize(txId: TxId, peers: set<PeerId>)
    ensures |Entries(txId, peers)| == |peers|
  {
    if peers != {} {
      var p :| p in peers;
      EntriesSize(txId, peers - {p});
      assert Entries(txId, peers) == Entries(txId, peers - {p}) + {Entry(txId, p)};
    }
  }

  /** Exchanging the announcements of one file changes the number of entries accordingly. */
  lemma SettledSize(view: Contents, t: TxId, items: map<PeerId, Announcement>)
    ensures Cached(Settled(view, t, items)) == Cached(view) - Entries(t, Of(view, t).Keys) + Entries(t, items.Keys)
    ensures |Of(view, t)| <= |Cached(view)|
    ensures |Cached(Settled(view, t, items))| == |Cached(view)| - |Of(view, t)| + |items|
  {
    var (all, a, b) := (Cached(view), Entries(t, Of(view, t).Keys), Entries(t, items.Keys));
    SettledCached(view, t, items);
    EntriesSize(t, Of(view, t).Keys);
    EntriesSize(t, items.Keys);
    hide Cached, Entries, Of;
    assert all == (all - a) + a;
    assert |(all - a) + b| == |all - a| + |b|;
  }

  lemma SettledCached(view: Contents, t: TxId, items: map<PeerId, Announcement>)
    ensures Cached(Settled(view, t, items)) == Cached(view) - Entries(t, Of(view, t).Keys) + Entries(t, items.Keys)
    ensures Entries(t, Of(view, t).Keys) <= Cached(view)
    ensures Entries(t, items.Keys) !! (Cached(view) - Entries(t, Of(view, t).Keys))
  {
    forall e: Entry ensures e in Cached(view) && e.txId == t <==> e in Entries(t, Of(view, t).Keys) { }
    forall e: Entry ensures e in Cached(Settled(view, t, items)) <==>
      e in Cached(view) - Entries(t, Of(view, t).Keys) + Entries(t, items.Keys) { }
  }

  /**
   * Files and priorities agree, no file is empty, a priority is at most the timestamp of each
   * announcement, and the counter is at least the number of announcements.
   */
  ghost predicate Books(view: Contents, priorities: map<TxId, nat>, total: nat) {
    Ordered(view, priorities) && |Cached(view)| <= total
  }

  ghost predicate Ordered(view: Contents, priorities: map<TxId, nat>) {
    && view.Keys == priorities.Keys
    && forall t :: t in view ==> view[t] != map[] && NoneOlder(view[t], priorities[t])
  }

  lemma OrderedDrop(view: Contents, priorities: map<TxId, nat>, t: TxId)
    requires Ordered(view, priorities)
    ensures Ordered(view - {t}, priorities - {t})
  {
    hide NoneOlder;
  }

  lemma OrderedPut(view: Contents, priorities: map<TxId, nat>, t: TxId, items: map<PeerId, Announcement>, p: nat)
    requires Ordered(view, priorities) && items != map[] && NoneOlder(items, p)
    ensures Ordered(view[t := items], priorities[t := p])
  {
    hide NoneOlder;
  }

  lemma SettledBooks(view: Contents, priorities: map<TxId, nat>, total: nat, t: TxId, items: map<PeerId, Announcement>, p: nat, more: nat)
    requires Books(view, priorities, total) && NoneOlder(items, p) && |items| <= |Of(view, t)| + more
    ensures Books(Settled(view, t, items), Ranked(priorities, t, items, p), total + more)
  {
    hide NoneOlder, Cached, Entries, Ordered, Of;
    SettledSize(view, t, items);
    if items == map[] {
      OrderedDrop(view, priorities, t);
    } else {
      OrderedPut(view, priorities, t, items, p);
    }
  }

  lemma NoneCached(view: Contents, priorities: map<TxId, nat>, total: nat)
    requires Books(view, priorities, total)
    ensures priorities == map[] <==> Cached(view) == {}
  {
    assert priorities == map[] <==> priorities.Keys == {};
    if t :| t in view {
      assert view[t].Keys != {} by { assert view[t] != map[]; }
      var p :| p in view[t];
      assert Entry(t, p) in Cached(view);
    }
  }

  /** An oldest announcement of a file in front goes, and the file keeps its priority. */
  ghost predicate Evicts(view: Contents, priorities: map<TxId, nat>, e: Entry, after: Contents, ranks: map<TxId, nat>) {
    && IsOldest(priorities, e.txId) && e.txId in view && e.peer in view[e.txId]
    && NoneOlder(view[e.txId], view[e.txId][e.peer].timestamp)
    && after == Settled(view, e.txId, view[e.txId] - {e.peer})
    && ranks == Ranked(priorities, e.txId, view[e.txId] - {e.peer}, priorities[e.txId])
  }

  /** The oldest timestamp of a file. */
  ghost predicate OldestTime(items: map<PeerId, Announcement>, time: nat) {
    NoneOlder(items, time) && exists p :: p in items && items[p].timestamp == time
  }

  /**
   * The priorities after announcements of file `t` have expired: it is gone with the last of them,
   * has the oldest timestamp that is left if some went, and is as it was if none did.
   */
  ghost predicate Refreshed(before: map<TxId, nat>, after: map<TxId, nat>, t: TxId,
                            had: map<PeerId, Announcement>, left: map<PeerId, Announcement>)
  {
    && (forall u :: u != t ==> (u in after <==> u in before) && (u in after ==> after[u] == before[u]))
    && (t in after <==> left != map[])
    && (left == had ==> after == before)
    && (left != had && left != map[] ==> OldestTime(left, after[t]))
  }

  lemma RankedRefreshes(before: map<TxId, nat>, t: TxId, had: map<PeerId, Announcement>, left: map<PeerId, Announcement>, time: nat)
    requires left != map[] ==> OldestTime(left, time)
    requires left != had
    ensures Refreshed(before, Ranked(before, t, left, time), t, had, left)
  {
    hide OldestTime;
  }

  lemma NothingGone(had: map<PeerId, Announcement>, left: map<PeerId, Announcement>)
    requires Fewer(had, left) && |had| == |left|
    ensures left == had
  {
    Subset(had.Keys - left.Keys, had.Keys);
    assert had.Keys == left.Keys + (had.Keys - left.Keys);
    assert |had.Keys - left.Keys| == 0;
    assert left.Keys == had.Keys;
  }

  lemma NothingRefreshed(view: Contents, priorities: map<TxId, nat>, total: nat, t: TxId)
    requires Books(view, priorities, total) && t in view
    ensures Refreshed(priorities, priorities, t, view[t], view[t])
  {
  }

  /** No announcement of any file is older. */
  ghost predicate OldestOfAll(view: Contents, time: nat) {
    forall u :: u in view ==> NoneOlder(view[u], time)
  }

  /** The priorities of the other files are not below `time`. */
  ghost predicate Ahead(priorities: map<TxId, nat>, t: TxId, time: nat) {
    forall u :: u in priorities && u != t ==> time <= priorities[u]
  }

  /** The least that the priorities allow: one announcement in each other file, as old as its priority. */
  ghost function Oldest(view: Contents, priorities: map<TxId, nat>, t: TxId): Contents
    requires t in view
  {
    map u | u in priorities :: if u == t then view[t] else map[0 := Announcement(u, 0, priorities[u])]
  }

  lemma OldestOrdered(view: Contents, priorities: map<TxId, nat>, t: TxId)
    requires Ordered(view, priorities) && t in view
    ensures Ordered(Oldest(view, priorities, t), priorities) && Oldest(view, priorities, t)[t] == view[t]
  {
    var other := Oldest(view, priorities, t);
    forall u | u in other ensures other[u] != map[] && NoneOlder(other[u], priorities[u]) {
      if u != t { assert 0 in other[u]; }
    }
  }

  /**
   * An announcement that is the oldest of its file is the oldest of all, in every cache with these
   * priorities and this file, if and only if no other file has a priority below its timestamp.
   */
  lemma OldestExactly(view: Contents, priorities: map<TxId, nat>, t: TxId, time: nat)
    requires Ordered(view, priorities) && t in view && OldestTime(view[t], time)
    ensures Ahead(priorities, t, time) <==>
      forall other: Contents :: Ordered(other, priorities) && other[t] == view[t] ==> OldestOfAll(other, time)
  {
    if Ahead(priorities, t, time) {
      forall other: Contents | Ordered(other, priorities) && other[t] == view[t] ensures OldestOfAll(other, time) {
        forall u | u in other ensures NoneOlder(other[u], time) {
          assert NoneOlder(other[u], priorities[u]);
        }
      }
    } else {
      var u :| u in priorities && u != t && time > priorities[u];
      var other := Oldest(view, priorities, t);
      OldestOrdered(view, priorities, t);
      assert 0 in other[u] && !NoneOlder(other[u], time);
    }
  }

  /** So it is with the announcement that goes: its file is in front, but may hide how old others are. */
  lemma EvictsOldest(view: Contents, priorities: map<TxId, nat>, total: nat, e: Entry, after: Contents, ranks: map<TxId, nat>)
    requires Books(view, priorities, total) && Evicts(view, priorities, e, after, ranks)
    ensures var time := view[e.txId][e.peer].timestamp;
      && (Ahead(priorities, e.txId, time) ==> OldestOfAll(view, time))
      && (priorities[e.txId] == time ==> Ahead(priorities, e.txId, time))
      && (Ahead(priorities, e.txId, time) <==>
            forall other: Contents :: Ordered(other, priorities) && other[e.txId] == view[e.txId] ==> OldestOfAll(other, time))
  {
    hide Ordered, OldestOfAll;
    OldestExactly(view, priorities, e.txId, view[e.txId][e.peer].timestamp);
  }

  class FileCache {
    const maxPerFile: nat
    const maxTotal: nat
    const expiration: nat
    var totalAnnouncements: nat
    var files: map<TxId, AnnouncementCache>
    var priorities: map<TxId, nat>
    ghost var view: Contents

    ghost function Caches(): set<AnnouncementCache>
      reads this`files
    {
      set t | t in files :: files[t]
    }

    ghost predicate FileOk(t: TxId)
      requires t in files
      reads this`files, this`view, Caches()
    {
      && t in view && files[t].items == view[t]
      && files[t].Valid() && files[t].capacity == maxPerFile && files[t].timeout == expiration
    }

    ghost predicate Linked()
      reads this`files, this`view, Caches()
    {
      && maxPerFile > 0
      && files.Keys == view.Keys
      && (forall t, u :: t in files && u in files && t != u ==> files[t] != files[u])
      && (forall t :: t in files ==> FileOk(t))
    }

    ghost predicate Valid()
      reads this, Caches()
    {
      Linked() && Books(view, priorities, totalAnnouncements) && |Cached(view)| <= maxTotal
    }

    constructor (perFile: nat, total: nat, timeout: nat)
      requires perFile > 0
      ensures Valid() && view == map[] && files == map[] && priorities == map[] && totalAnnouncements == 0
      ensures maxPerFile == perFile && maxTotal == total && expiration == timeout
    {
      maxPerFile, maxTotal, expiration := perFile, total, timeout;
      totalAnnouncements, files, priorities := 0, map[], map[];
      view := map[];
    }

    /** All files are in order except perhaps one, for which another cache may be meant. */
    ghost predicate LinkedBut(t: TxId, item: AnnouncementCache)
      reads this`files, this`view, Caches()
    {
      && maxPerFile > 0
      && files.Keys == view.Keys
      && (forall u, v :: u in files && v in files && u != v ==> files[u] != files[v])
      && (forall u :: u in files && u != t ==> FileOk(u) && files[u] != item)
    }

    method Drop(t: TxId, item: AnnouncementCache)
      requires LinkedBut(t, item)
      modifies this
      ensures Linked() && view == old(view) - {t} && files == old(files) - {t}
      ensures priorities == old(priorities) - {t} && totalAnnouncements == old(totalAnnouncements)
    {
      hide AnnouncementCache.Valid;
      ghost var before := files;
      view := view - {t};
      files := files - {t};
      priorities := priorities - {t};
      forall u | u in files ensures FileOk(u) {
        assert files[u] == before[u] && old(FileOk(u));
      }
    }

    method Put(t: TxId, item: AnnouncementCache, priority: nat, added: nat)
      requires LinkedBut(t, item)
      requires item.Valid() && item.capacity == maxPerFile && item.timeout == expiration
      modifies this
      ensures Linked() && view == old(view)[t := item.items] && files == old(files)[t := item]
      ensures priorities == old(priorities)[t := priority] && totalAnnouncements == old(totalAnnouncements) + added
    {
      hide AnnouncementCache.Valid;
      ghost var before := files;
      view := view[t := item.items];
      files := files[t := item];
      priorities := priorities[t := priority];
      totalAnnouncements := totalAnnouncements + added;
      forall u | u in files ensures FileOk(u) {
        if u != t {
          assert files[u] == before[u] && old(FileOk(u));
        }
      }
    }

    /** The announcements of a file have changed: its entry is kept or, if nothing is left, removed. */
    method Settle(t: TxId, item: AnnouncementCache, priority: nat)
      requires LinkedBut(t, item)
      requires item.Valid() && item.capacity == maxPerFile && item.timeout == expiration
      modifies this
      ensures Linked() && view == Settled(old(view), t, item.items)
      ensures priorities == Ranked(old(priorities), t, item.items, priority)
      ensures totalAnnouncements == old(totalAnnouncements)
      ensures Caches() <= old(Caches()) + {item}
    {
      hide LinkedBut, Linked, AnnouncementCache.Valid;
      if item.items == map[] {
        Drop(t, item);
      } else {
        Put(t, item, priority, 0);
      }
    }

    lemma LinkedAt(t: TxId)
      requires Linked() && t in view
      ensures t in files && FileOk(t)
    {
    }

    /** An oldest announcement leaves the cache of its file. */
    method PopItem(t: TxId) returns (r: Option<Announcement>, ghost p: PeerId)
      requires Linked() && t in files && view[t] != map[]
      modifies files[t]
      ensures LinkedBut(t, files[t])
      ensures files[t].Valid() && files[t].capacity == maxPerFile && files[t].timeout == expiration
      ensures r.Some? && p in view[t] && r.value == view[t][p] && NoneOlder(view[t], r.value.timestamp)
      ensures files[t].items == view[t] - {p} && |files[t].items| == |view[t]| - 1
    {
      LinkedAt(t);
      r, p := files[t].Pop();
      hide AnnouncementCache.Valid;
      forall u | u in files && u != t ensures FileOk(u) && files[u] != files[t] {
        assert old(FileOk(u));
      }
    }

    /**
     * An oldest announcement of the file in front goes.  It is an oldest of all files if no other
     * file has a priority below its timestamp, as is so when the priority of its file is up to date.
     */
    method Pop() returns (r: Option<Announcement>, ghost gone: Entry)
      requires Linked() && Books(view, priorities, totalAnnouncements)
      modifies this, Caches()
      ensures Linked() && Books(view, priorities, totalAnnouncements)
      ensures totalAnnouncements == old(totalAnnouncements) && Caches() <= old(Caches())
      ensures r.None? <==> Cached(old(view)) == {}
      ensures r.None? ==> view == old(view)
      ensures r.None? ==> priorities == old(priorities)
      ensures r.Some? ==> Evicts(old(view), old(priorities), gone, view, priorities)
      ensures r.Some? ==> r.value == old(view)[gone.txId][gone.peer]
      ensures r.Some? && Ahead(old(priorities), gone.txId, r.value.timestamp) ==> OldestOfAll(old(view), r.value.timestamp)
    {
      hide LinkedBut, Books, NoneOlder, AnnouncementCache.Valid, Settled, Ranked, Cached, IsOldest;
      gone := Entry(0, 0);
      NoneCached(view, priorities, totalAnnouncements);
      var top := Peek(priorities);
      if top.None? {
        return None, gone;
      }
      var t := top.value;
      OldestIn(view, priorities, totalAnnouncements, t);
      ghost var p;
      r, p := PopItem(t);
      gone := Entry(t, p);
      PopBooks(view, priorities, totalAnnouncements, t, p);
      ghost var full, ranks := view, priorities;
      Settle(t, files[t], priorities[t]);
      EvictsOldest(full, ranks, totalAnnouncements, gone, view, priorities);
    }

    lemma InView(t: TxId)
      requires t in files && LinkedBut(t, files[t])
      ensures t in view && maxPerFile > 0
    {
    }

    lemma Relink(t: TxId)
      requires t in files && t in view && LinkedBut(t, files[t]) && FileOk(t)
      ensures Linked()
    {
    }

    /** The books are brought up to date after announcements of a file may have expired. */
    method UpdateAfterGc(t: TxId, collected: nat)
      requires t in files && t in view && LinkedBut(t, files[t]) && Books(view, priorities, totalAnnouncements)
      requires files[t].Valid() && files[t].capacity == maxPerFile && files[t].timeout == expiration
      requires Fewer(view[t], files[t].items) && collected == |view[t]| - |files[t].items|
      modifies this
      ensures Linked() && Books(view, priorities, totalAnnouncements)
      ensures view == Settled(old(view), t, old(files[t].items))
      ensures Refreshed(old(priorities), priorities, t, old(view[t]), old(files[t].items))
      ensures totalAnnouncements == old(totalAnnouncements) && Caches() <= old(Caches())
    {
      hide AnnouncementCache.Agree, Books, NoneOlder, Ranked, Settled, Linked, Fewer, Refreshed;
      InView(t);
      FewerSize(view, priorities, totalAnnouncements, t, files[t].items);
      if collected == 0 {
        NothingGone(view[t], files[t].items);
        NothingRefreshed(view, priorities, totalAnnouncements, t);
        Relink(t);
        return;
      }
      assert collected <= totalAnnouncements;
      var item := files[t];
      var priority := item.PeekPriority();
      var p := if priority.Some? then priority.value else 0;
      NoneOlderEmpty(item.items, p);
      RankedRefreshes(priorities, t, view[t], item.items, p);
      SettledBooks(view, priorities, totalAnnouncements, t, item.items, p, 0);
      Settle(t, item, p);
    }

    /** Some announcement of the file that has not expired. */
    method Random(t: TxId, now: nat) returns (r: Option<Announcement>)
      requires Valid()
      modifies this, Caches()
      ensures Valid() && Caches() <= old(Caches())
      ensures totalAnnouncements == old(totalAnnouncements)
      ensures t !in old(view) ==> r.None? && view == old(view) && priorities == old(priorities)
      ensures t in old(view) ==>
        && view == Settled(old(view), t, Alive(old(view)[t], expiration, now))
        && Refreshed(old(priorities), priorities, t, old(view)[t], Alive(old(view)[t], expiration, now))
        && (r.None? <==> Alive(old(view)[t], expiration, now) == map[])
        && (r.Some? ==> r.value in Alive(old(view)[t], expiration, now).Values)
    {
      hide Books, Settled, NoneOlder, Cached, Refreshed;
      if t !in files {
        return None;
      }
      LinkedAt(t);
      AliveFewer(view[t], expiration, now);
      var collected;
      r, collected := RandomItem(t, now);
      UpdateAfterGc(t, collected);
      AtMost(old(view), t, Alive(old(view)[t], expiration, now));
    }

    method RandomItem(t: TxId, now: nat) returns (r: Option<Announcement>, collected: nat)
      requires Linked() && t in files
      modifies files[t]
      ensures LinkedBut(t, files[t])
      ensures files[t].Valid() && files[t].capacity == maxPerFile && files[t].timeout == expiration
      ensures files[t].items == Alive(view[t], expiration, now) && collected == |view[t]| - |files[t].items|
      ensures (r.None? <==> files[t].items == map[]) && (r.Some? ==> r.value in files[t].items.Values)
    {
      LinkedAt(t);
      AliveSize(view[t], expiration, now);
      r, collected := files[t].Random(now);
      hide AnnouncementCache.Valid;
      forall u | u in files && u != t ensures FileOk(u) && files[u] != files[t] {
        assert old(FileOk(u));
      }
    }

    /** All announcements of the file that have not expired. */
    method All(t: TxId, now: nat) returns (r: Option<set<Announcement>>)
      requires Valid()
      modifies this, Caches()
      ensures Valid() && Caches() <= old(Caches())
      ensures totalAnnouncements == old(totalAnnouncements)
      ensures t !in old(view) ==> r.None? && view == old(view) && priorities == old(priorities)
      ensures t in old(view) ==>
        && view == Settled(old(view), t, Alive(old(view)[t], expiration, now))
        && Refreshed(old(priorities), priorities, t, old(view)[t], Alive(old(view)[t], expiration, now))
        && r == Some(Alive(old(view)[t], expiration, now).Values)
    {
      hide Books, Settled, NoneOlder, Cached, Refreshed;
      if t !in files {
        return None;
      }
      LinkedAt(t);
      AliveFewer(view[t], expiration, now);
      var all, collected := AllItem(t, now);
      r := Some(all);
      UpdateAfterGc(t, collected);
      AtMost(old(view), t, Alive(old(view)[t], expiration, now));
    }

    method AllItem(t: TxId, now: nat) returns (r: set<Announcement>, collected: nat)
      requires Linked() && t in files
      modifies files[t]
      ensures LinkedBut(t, files[t])
      ensures files[t].Valid() && files[t].capacity == maxPerFile && files[t].timeout == expiration
      ensures files[t].items == Alive(view[t], expiration, now) && collected == |view[t]| - |files[t].items|
      ensures r == files[t].items.Values
    {
      LinkedAt(t);
      AliveSize(view[t], expiration, now);
      r, collected := files[t].All(now);
      hide AnnouncementCache.Valid;
      forall u | u in files && u != t ensures FileOk(u) && files[u] != files[t] {
        assert old(FileOk(u));
      }
    }

    /** The cache of the announced file, made if there was none, takes the announcement. */
    method InsertItem(a: Announcement, now: nat) returns (item: AnnouncementCache)
      requires Linked() && Books(view, priorities, totalAnnouncements)
      modifies Caches()
      ensures LinkedBut(a.txId, item) && (fresh(item) || item in Caches())
      ensures item.Valid() && item.capacity == maxPerFile && item.timeout == expiration && item.items != map[]
      ensures Inserted(Of(view, a.txId), a, expiration, now, maxPerFile, item.items)
      ensures |item.items| <= |Of(view, a.txId)| + 1
    {
      hide Inserted, Books;
      CountFile(view, priorities, totalAnnouncements, a.txId);
      if a.txId in files {
        LinkedAt(a.txId);
        item := files[a.txId];
        assert |item.items| <= totalAnnouncements;
        item.Insert(a, now);
        hide AnnouncementCache.Valid;
        forall u | u in files && u != a.txId ensures FileOk(u) && files[u] != item {
          assert old(FileOk(u));
        }
      } else {
        item := NewItem(a, now);
      }
    }

    method NewItem(a: Announcement, now: nat) returns (item: AnnouncementCache)
      requires Linked() && a.txId !in files
      ensures LinkedBut(a.txId, item) && fresh(item)
      ensures item.Valid() && item.capacity == maxPerFile && item.timeout == expiration && item.items != map[]
      ensures Inserted(map[], a, expiration, now, maxPerFile, item.items)
      ensures |item.items| <= 1
    {
      hide Inserted;
      item := new AnnouncementCache(maxPerFile, expiration);
      item.Insert(a, now);
      hide AnnouncementCache.Valid;
      forall u | u in files && u != a.txId ensures FileOk(u) && files[u] != item {
        assert old(FileOk(u));
      }
    }

    /**
     * The counter only ever grows, so it is at least the number of announcements; when it passes
     * the limit one announcement goes, and so the number stays within the limit.
     */
    method Insert(a: Announcement, now: nat)
      returns (ghost items: map<PeerId, Announcement>, ghost oldest: nat, ghost gone: Option<Entry>)
      requires Valid()
      modifies this, Caches()
      ensures Valid() && fresh(Caches() - old(Caches()))
      ensures Inserted(Of(old(view), a.txId), a, expiration, now, maxPerFile, items) && OldestTime(items, oldest)
      ensures totalAnnouncements == old(totalAnnouncements) + |items|
      ensures gone.Some? <==> totalAnnouncements > maxTotal
      ensures var full := old(view)[a.txId := items];
        var ranks := old(priorities)[a.txId := oldest];
        && (gone.None? ==> view == full && priorities == ranks)
        && (gone.Some? ==> Evicts(full, ranks, gone.value, view, priorities))
        && (gone.Some? && Ahead(ranks, gone.value.txId, full[gone.value.txId][gone.value.peer].timestamp) ==>
              OldestOfAll(full, full[gone.value.txId][gone.value.peer].timestamp))
    {
      hide Books, Inserted, NoneOlder, Cached, AnnouncementCache.Agree, Linked, LinkedBut, Evicts, Settled;
      var item := InsertItem(a, now);
      items := item.items;
      var priority := item.PeekPriority();
      oldest := priority.value;
      InsertBooks(view, priorities, totalAnnouncements, a.txId, items, priority.value);
      Put(a.txId, item, priority.value, |item.items|);
      gone := None;
      if totalAnnouncements > maxTotal {
        ghost var full, ranks := view, priorities;
        var popped, e := Pop();
        gone := Some(e);
        EvictedSize(full, ranks, e, view, priorities);
      }
    }
  }

  lemma EvictedSize(view: Contents, priorities: map<TxId, nat>, e: Entry, after: Contents, ranks: map<TxId, nat>)
    requires Evicts(view, priorities, e, after, ranks)
    ensures e.txId in view && e.txId in priorities && e.peer in view[e.txId]
    ensures |Cached(after)| == |Cached(view)| - 1
  {
    PopSize(view, e);
  }

  // ---- A run

  /**
   * A limit of two and three announcements: the first eviction leaves the priority of file 1 out of
   * date, and the second takes an announcement of time 5 although one of time 3 is there, and
   * although there were only two.
   */
  method StalePriorityRun() returns (c: FileCache, ghost before: Contents, ghost gone: Option<Entry>)
    ensures fresh(c) && c.Valid() && c.maxTotal == 2
    ensures before == map[1 := map[7 := Announcement(1, 7, 5)], 2 := map[8 := Announcement(2, 8, 3)]]
    ensures |Cached(before)| == 2
    ensures gone == Some(Entry(1, 7)) && c.view == map[2 := map[8 := Announcement(2, 8, 3)]]
  {
    hide Books, Cached, FileCache.Valid, Evicts, Inserted, OldestTime, NoneOlder;
    c := StaleStart();
    var (b, d) := (Announcement(1, 7, 5), Announcement(2, 8, 3));
    var three, oldest, evicted := c.Insert(d, 0);
    FirstItem(d, three, oldest);
    before := map[1 := map[7 := b], 2 := map[8 := d]];
    assert map[1 := map[7 := b]][2 := three] == before;
    assert map[1 := 1][2 := oldest] == map[1 := 1, 2 := 3];
    SecondEviction(b, d, evicted.value, c.view, c.priorities);
    TwoCached(before, b, d);
    gone := evicted;
  }

  method StaleStart() returns (c: FileCache)
    ensures fresh(c) && fresh(c.Caches()) && c.Valid() && c.maxTotal == 2 && c.maxPerFile == 10 && c.expiration == 10
    ensures c.view == map[1 := map[7 := Announcement(1, 7, 5)]] && c.priorities == map[1 := 1] && c.totalAnnouncements == 3
  {
    hide Books, Cached, FileCache.Valid, Evicts, Inserted, OldestTime, NoneOlder;
    c := new FileCache(10, 2, 10);
    assert c.Caches() == {};
    var (a, b) := (Announcement(1, 6, 1), Announcement(1, 7, 5));
    var one, oldest1, gone1 := c.Insert(a, 0);
    FirstItem(a, one, oldest1);
    assert c.view == map[1 := map[6 := a]] && c.priorities == map[1 := 1];
    var two, oldest2, gone2 := c.Insert(b, 0);
    SecondItem(a, b, two, oldest2);
    assert map[1 := map[6 := a]][1 := two] == map[1 := map[6 := a, 7 := b]];
    assert map[1 := 1][1 := oldest2] == map[1 := 1];
    FirstEviction(a, b, gone2.value, c.view, c.priorities);
  }

  lemma FirstItem(a: Announcement, items: map<PeerId, Announcement>, oldest: nat)
    requires Inserted(map[], a, 10, 0, 10, items) && OldestTime(items, oldest)
    ensures items == map[a.peer := a] && |items| == 1 && oldest == a.timestamp
  {
    var full: map<PeerId, Announcement> := map[a.peer := a];
    assert Alive(map[], 10, 0) == map[];
    assert |full| == 1;
    assert items == full;
    assert a.peer in items;
  }

  lemma SecondItem(a: Announcement, b: Announcement, items: map<PeerId, Announcement>, oldest: nat)
    requires Inserted(map[a.peer := a], b, 10, 0, 10, items) && OldestTime(items, oldest)
    requires a.peer != b.peer && a.timestamp <= b.timestamp
    ensures items == map[a.peer := a, b.peer := b] && |items| == 2 && oldest == a.timestamp
  {
    var base: map<PeerId, Announcement> := map[a.peer := a];
    assert Alive(base, 10, 0) == base;
    var full := base[b.peer := b];
    assert full.Keys == {a.peer, b.peer};
    assert |full| == |full.Keys| == 2;
    assert items == full;
    assert a.peer in items;
  }

  lemma FirstEviction(a: Announcement, b: Announcement, e: Entry, after: Contents, ranks: map<TxId, nat>)
    requires a.peer != b.peer && a.timestamp < b.timestamp
    requires Evicts(map[1 := map[a.peer := a, b.peer := b]], map[1 := a.timestamp], e, after, ranks)
    ensures after == map[1 := map[b.peer := b]] && ranks == map[1 := a.timestamp]
  {
    var items: map<PeerId, Announcement> := map[a.peer := a, b.peer := b];
    assert e.txId == 1;
    assert a.peer in items;
    assert e.peer == a.peer;
    assert items - {a.peer} == map[b.peer := b];
    assert b.peer in items - {a.peer};
  }

  lemma SecondEviction(b: Announcement, d: Announcement, e: Entry, after: Contents, ranks: map<TxId, nat>)
    requires Evicts(map[1 := map[b.peer := b], 2 := map[d.peer := d]], map[1 := 1, 2 := 3], e, after, ranks)
    ensures e == Entry(1, b.peer) && after == map[2 := map[d.peer := d]]
  {
    var ranked: map<TxId, nat> := map[1 := 1, 2 := 3];
    assert 1 in ranked && 2 in ranked;
    assert e.txId == 1;
    assert map[b.peer := b] - {b.peer} == map[];
  }

  lemma TwoCached(view: Contents, b: Announcement, d: Announcement)
    requires view == map[1 := map[b.peer := b], 2 := map[d.peer := d]]
    ensures |Cached(view)| == 2
  {
    assert Cached(view) == {Entry(1, b.peer), Entry(2, d.peer)};
  }

  lemma OldestIn(view: Contents, priorities: map<TxId, nat>, total: nat, t: TxId)
    requires Books(view, priorities, total) && IsOldest(priorities, t)
    ensures t in view && t in priorities && view[t] != map[]
  {
  }

  lemma PopBooks(view: Contents, priorities: map<TxId, nat>, total: nat, t: TxId, p: PeerId)
    requires Books(view, priorities, total) && t in view && t in priorities && p in view[t]
    ensures Books(Settled(view, t, view[t] - {p}), Ranked(priorities, t, view[t] - {p}, priorities[t]), total)
  {
    OneLess(view[t], p);
    FewerOlder(view[t], view[t] - {p}, priorities[t]);
    SettledBooks(view, priorities, total, t, view[t] - {p}, priorities[t], 0);
  }

  ghost predicate Fewer(items: map<PeerId, Announcement>, fewer: map<PeerId, Announcement>) {
    fewer.Keys <= items.Keys && forall p :: p in fewer ==> fewer[p] == items[p]
  }

  lemma FewerCount(items: map<PeerId, Announcement>, fewer: map<PeerId, Announcement>)
    requires Fewer(items, fewer)
    ensures |fewer| <= |items|
    ensures |fewer| == |items| ==> fewer == items
  {
    var lost := items.Keys - fewer.Keys;
    assert items.Keys == fewer.Keys + lost;
    assert |items.Keys| == |fewer.Keys| + |lost|;
    if |fewer| == |items| {
      assert lost == {};
    }
  }

  lemma FewerSize(view: Contents, priorities: map<TxId, nat>, total: nat, t: TxId, items: map<PeerId, Announcement>)
    requires Books(view, priorities, total) && t in view && Fewer(view[t], items)
    ensures |items| <= |view[t]| <= total
    ensures |items| == |view[t]| ==> items == view[t] && view == Settled(view, t, items)
  {
    hide Fewer, Cached, NoneOlder;
    FewerCount(view[t], items);
    CountFile(view, priorities, total, t);
  }

  lemma NoneOlderEmpty(items: map<PeerId, Announcement>, p: nat)
    ensures items == map[] ==> NoneOlder(items, p)
  {
  }

  lemma AliveFewer(items: map<PeerId, Announcement>, timeout: nat, now: nat)
    ensures Fewer(items, Alive(items, timeout, now))
  {
  }

  lemma AtMost(view: Contents, t: TxId, fewer: map<PeerId, Announcement>)
    requires t in view && Fewer(view[t], fewer)
    ensures |Cached(Settled(view, t, fewer))| <= |Cached(view)|
  {
    SettledSize(view, t, fewer);
    Subset(fewer.Keys, view[t].Keys);
  }

  lemma CountFile(view: Contents, priorities: map<TxId, nat>, total: nat, t: TxId)
    requires Books(view, priorities, total)
    ensures |Of(view, t)| <= total
  {
    SettledSize(view, t, map[]);
  }

  lemma PopSize(view: Contents, e: Entry)
    requires e.txId in view && e.peer in view[e.txId]
    ensures |Cached(Settled(view, e.txId, view[e.txId] - {e.peer}))| == |Cached(view)| - 1
  {
    OneLess(view[e.txId], e.peer);
    SettledSize(view, e.txId, view[e.txId] - {e.peer});
  }

  lemma InsertBooks(view: Contents, priorities: map<TxId, nat>, total: nat, t: TxId, items: map<PeerId, Announcement>, p: nat)
    requires Books(view, priorities, total) && items != map[] && NoneOlder(items, p) && |items| <= |Of(view, t)| + 1
    ensures Books(view[t := items], priorities[t := p], total + |items|)
    ensures |Cached(view[t := items])| <= |Cached(view)| + 1 && Cached(view[t := items]) != {}
    ensures |Cached(view[t := items])| <= total + |items|
  {
    SettledSize(view, t, items);
    SettledBooks(view, priorities, total, t, items, p, |items|);
  }
}
