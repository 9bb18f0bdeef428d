/** The proxy's use of its cache (threadPool.c): looking a request up, storing what a forwarded
    response left, and refilling an entry that had to be revalidated. */
module Proxy {
  import opened CStrings
  import opened CacheControl
  import opened Calendar
  import opened HashCache
  import opened Freshness

  ghost function Infos(view: map<string, Entry>): set<Info> {
    set k | k in view :: view[k].info
  }

  /** What the table holds, infos included. */
  ghost function Snap(view: map<string, Entry>): Store
    reads Infos(view)
  {
    map k | k in view :: Cached(view[k].val, view[k].host, view[k].info.data)
  }

  /** gmtime breaks down exactly the seconds whose year fits the field of struct tm. */
  lemma DatableExactly(s: int)
    ensures Datable(s) <==> -0x8000_0000 <= GmTime(s).year - 1900 < 0x8000_0000
  {
    var day, first, last := s / 86400, -0x8000_0000 + 1900, 0x7FFF_FFFF + 1900;
    var y := YearOf(day);
    assert YearStart(first) == -784352321872 && YearStart(last + 1) == 784352270737;
    if y < first { YearsGrow(y, first); }
    if first < y { YearsGrow(first, y); }
    if y <= last { YearsGrow(y, last + 1); }
    if last + 1 < y { YearsGrow(last + 1, y); }
  }

  /** timeAgtB on the broken-down times of two seconds. */
  method TimeTest(s: int, u: int, ghost offset: int) returns (r: int)
    ensures GmTime(s).mon >= 0 && GmTime(u).mon >= 0 && r == TimeAgtB(GmTime(s), GmTime(u), offset)
    ensures r >= 0 <==> s >= u
  {
    ComparesSeconds(s, u, offset);
    r := if s == u then 0 else if s > u then 1 else -1;
  }

  /** The cache after its set-up. */
  ghost predicate Usable(cache: Cache)
    reads cache, cache.buckets, cache.Nodes()
  {
    cache.Valid() && cache.hash == Index
  }

  /** cacheable: whether a request can be answered from the cache. */
  method Cacheable(cache: Cache, uri: string, now: int, ghost offset: int) returns (a: Answer)
    requires Usable(cache) && Indexable(uri)
    ensures a == Look(Snap(View(cache.slots)), uri, now)
  {
    var node := cache.Get(uri);
    if node == null { return Miss; }
    var info := node.info.data;
    if info.expiry.Some? {
      var r := TimeTest(now, info.expiry.value, offset);
      if r >= 0 { return Expired; }
    }
    if info.needsRevalidation { return Revalidate(node.val.text); }
    a := Hit(node.val.text);
  }

  ghost method Malloc(cache: Cache, things: set<object>)
    requires Usable(cache)
    modifies cache`live
    ensures cache.live == old(cache.live) + things && Usable(cache)
  {
    MoreLive(cache.slots, cache.live, cache.live + things);
    cache.live := cache.live + things;
  }

  lemma MoreLive(slots: Slots, live: set<object>, more: set<object>)
    requires Owned(slots, live) && live <= more
    ensures Owned(slots, more)
  {
  }

  lemma SnapUpdated(view: map<string, Entry>, view': map<string, Entry>, uri: string, value: string, host: string,
                    info: Info, snap: Store)
    requires Snap(view) == snap && view' == Updated(view, uri, value, host, info)
    ensures Snap(view') == AfterFill(snap, uri, value, host, info.data)
  {
  }

  twostate lemma SnapKept(view: map<string, Entry>)
    requires forall i | i in Infos(view) :: old(allocated(i)) && i.data == old(i.data)
    ensures Snap(view) == old(Snap(view))
  {
  }

  /** What forwardRequest allocates for an entry. */
  method Allocate(cache: Cache, uri: string, value: string, host: string, info: CacheInfo)
    returns (k: Text, v: Text, h: Text, i: Info)
    requires Usable(cache)
    modifies cache`live
    ensures Usable(cache) && New(k, v, h, i, cache.slots, cache.live)
    ensures fresh(i) && k.text == uri && v.text == value && h.text == host && i.data == info
  {
    k := new Text(uri);
    v := new Text(value);
    h := new Text(host);
    i := new Info(info);
    Malloc(cache, {k, v, h, i});
  }

  /** `put` leaves the infos alone. */
  method PutKeeping(cache: Cache, k: Text, v: Text, h: Text, i: Info, ghost view: map<string, Entry>, ghost snap: Store)
    requires Usable(cache) && Indexable(k.text) && View(cache.slots) == view && Snap(view) == snap
    requires New(k, v, h, i, cache.slots, cache.live) || Aliased(k, v, h, i, cache.slots, cache.live)
    modifies cache`slots, cache`live, cache.buckets, cache.Nodes()
    ensures Usable(cache) && Snap(view) == snap
    ensures View(cache.slots) == Updated(view, k.text, v.text, h.text, i)
  {
    label before:
    cache.Put(k, v, h, i);
    SnapKept@before(view);
  }

  /** `put`, seen with the infos. */
  method PutEntry(cache: Cache, k: Text, v: Text, h: Text, i: Info, ghost snap: Store)
    requires Usable(cache) && Indexable(k.text) && Snap(View(cache.slots)) == snap
    requires New(k, v, h, i, cache.slots, cache.live) || Aliased(k, v, h, i, cache.slots, cache.live)
    modifies cache`slots, cache`live, cache.buckets, cache.Nodes()
    ensures Usable(cache) && Snap(View(cache.slots)) == AfterFill(snap, k.text, v.text, h.text, i.data)
  {
    ghost var view := View(cache.slots);
    PutKeeping(cache, k, v, h, i, view, snap);
    SnapUpdated(view, View(cache.slots), k.text, v.text, h.text, i, snap);
  }

  /** The put that forwardRequest does, with everything it passes newly allocated. */
  method StoreNew(cache: Cache, uri: string, value: string, host: string, info: CacheInfo)
    requires Usable(cache) && Indexable(uri)
    modifies cache`slots, cache`live, cache.buckets, cache.Nodes()
    ensures Usable(cache)
    ensures Snap(View(cache.slots)) == AfterFill(old(Snap(View(cache.slots))), uri, value, host, info)
  {
    ghost var snap := Snap(View(cache.slots));
    var k, v, h, i := Allocate(cache, uri, value, host, info);
    assert Snap(View(cache.slots)) == snap;
    PutEntry(cache, k, v, h, i, snap);
  }

  // ----- Refilling an entry -----

  function Tagged(info: CacheInfo, tag: Option<string>): CacheInfo {
    if tag.Some? then info.(eTag := tag) else info
  }

  lemma OneInfoPerKey(slots: Slots, live: set<object>, uri: string)
    requires Owned(slots, live) && uri in slots
    ensures forall k | k in View(slots) && k != uri :: View(slots)[k].info != View(slots)[uri].info
  {
    assert forall k | k in slots && k != uri :: Apart(slots[k], slots[uri]);
  }

  lemma RefillIsFill(m: Store, uri: string, before: string, value: string, host: string, tag: Option<string>)
    requires uri in m
    ensures var n := AfterRefill(m, uri, before, tag);
            AfterFill(n, uri, value, host, n[uri].info) == AfterRefill(m, uri, value, tag)
  {
  }

  ghost predicate NodeOf(cache: Cache, node: Node)
    reads cache
  {
    Indexable(node.key.text) && node.key.text in cache.slots && cache.slots[node.key.text].node == node
  }

  /** getRevalidation's last step: a new text, passed to `put` with the node's own key, host and
      info, whose entity tag it has set before. */
  method RefillEntry(cache: Cache, node: Node, value: string, tag: Option<string>)
    requires Usable(cache) && NodeOf(cache, node)
    modifies cache`slots, cache`live, cache.buckets, cache.Nodes(), node.info
    ensures Usable(cache)
    ensures Snap(View(cache.slots)) == AfterRefill(old(Snap(View(cache.slots))), node.key.text, value, tag)
  {
    ghost var uri, slots, snap := node.key.text, cache.slots, Snap(View(cache.slots));
    var info := node.info;
    SetTag(cache, node, info, tag, uri);
    PutValue(cache, node, info, value, Snap(View(slots)));
    RefillIsFill(snap, uri, slots[uri].val.text, value, node.host.text, tag);
  }

  /** Setting one info's entity tag changes the entry of its key only. */
  method SetTag(cache: Cache, node: Node, info: Info, tag: Option<string>, ghost uri: string)
    requires Usable(cache) && NodeOf(cache, node) && uri == node.key.text && info == node.info
    modifies info
    ensures Usable(cache) && info == node.info && info == cache.slots[uri].info
    ensures Snap(View(cache.slots)) == AfterRefill(old(Snap(View(cache.slots))), uri, cache.slots[uri].val.text, tag)
  {
    ghost var view := View(cache.slots);
    assert cache.slots[uri] == Slot(node, node.val, info);
    assert view[uri].info == info;
    OneInfoPerKey(cache.slots, cache.live, uri);
    SetInfoTag(info, tag);
  }

  method SetInfoTag(info: Info, tag: Option<string>)
    modifies info
    ensures info.data == Tagged(old(info.data), tag)
  {
    if tag.Some? {
      info.data := info.data.(eTag := tag);
    }
  }

  method AllocateValue(cache: Cache, node: Node, info: Info, value: string) returns (v: Text)
    requires Usable(cache) && NodeOf(cache, node) && info == cache.slots[node.key.text].info
    modifies cache`live
    ensures Usable(cache) && v.text == value && Aliased(node.key, v, node.host, info, cache.slots, cache.live)
  {
    v := new Text(value);
    Malloc(cache, {v});
  }

  method PutValue(cache: Cache, node: Node, info: Info, value: string, ghost snap: Store)
    requires Usable(cache) && NodeOf(cache, node) && info == cache.slots[node.key.text].info
             && Snap(View(cache.slots)) == snap
    modifies cache`slots, cache`live, cache.buckets, cache.Nodes()
    ensures Usable(cache) && Snap(View(cache.slots)) == AfterFill(snap, node.key.text, value, node.host.text, info.data)
  {
    var v := AllocateValue(cache, node, info, value);
    PutEntry(cache, node.key, v, node.host, info, snap);
  }
}
