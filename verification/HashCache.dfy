/** The response cache (cache.c): a hash table of linked lists, which owns the strings put into
    it. It refines a finite map, and frees nothing twice and nothing that it still holds. */
module HashCache {
  import opened CacheControl

  const NUM_BUCKETS := 100

  /** A heap-allocated string. */
  class Text {
    const text: string
    constructor (text: string)
      ensures this.text == text
    {
      this.text := text;
    }
  }

  /** A heap-allocated `CacheInfo`. */
  class Info {
    var data: CacheInfo
    constructor (data: CacheInfo)
      ensures this.data == data
    {
      this.data := data;
    }
  }

  /** `putKey` sets `next` once, before it links the node in; only `val` and `info` change later. */
  class Node {
    const key: Text
    var val: Text
    const host: Text
    var info: Info
    const next: Node?
    /** The nodes that follow in the list. */
    ghost const behind: set<Node>

    constructor (key: Text, val: Text, host: Text, info: Info, next: Node?)
      ensures this.key == key && this.val == val && this.host == host && this.info == info && this.next == next
      ensures this.behind == From(next)
    {
      this.key, this.val, this.host, this.info, this.next := key, val, host, info, next;
      this.behind := From(next);
    }
  }

  /** The nodes of the list that starts at `n`. */
  ghost function From(n: Node?): set<Node> {
    if n == null then {} else {n} + n.behind
  }

  /** What a key maps to. */
  datatype Entry = Entry(val: string, host: string, info: Info)

  // ----- The hash function -----

  /** A character as the signed C char that is summed up. */
  function Signed(c: char): int {
    if c as int < 128 then c as int else c as int - 256
  }

  function Sum(key: string): int {
    if key == "" then 0 else Sum(key[..|key| - 1]) + Signed(key[|key| - 1])
  }

  /** C's remainder, which takes the sign of its first operand. */
  function Rem(x: int, m: nat): int
    requires m > 0
  {
    if x >= 0 then x % m else 0 - (0 - x) % m
  }

  function Index(key: string): int { Rem(Sum(key), NUM_BUCKETS) }

  /** A negative index would be outside the table. */
  predicate Indexable(key: string) { Index(key) >= 0 }

  /** A key has a bucket exactly if its characters sum up to no negative number, or to a multiple
      of the number of buckets. */
  lemma IndexableExactly(key: string)
    ensures Indexable(key) <==> Sum(key) >= 0 || Sum(key) % NUM_BUCKETS == 0
  {
    RemSign(Sum(key));
  }

  lemma RemSign(x: int)
    ensures Rem(x, 100) >= 0 <==> x >= 0 || x % 100 == 0
  {
    if x < 0 {
      var y := 0 - x;
      assert y == 100 * (y / 100) + y % 100;
      assert x % 100 == 0 <==> y % 100 == 0;
    }
  }

  lemma {:induction false} AsciiIsIndexable(key: string)
    requires forall i | 0 <= i < |key| :: key[i] < 128 as char
    ensures Sum(key) >= 0 && Indexable(key)
  {
    if key != "" { AsciiIsIndexable(key[..|key| - 1]); }
  }

  method IndexOf(key: string) returns (index: int)
    ensures index == Index(key)
  {
    var hashVal := 0;
    var i := 0;
    while i < |key|
      invariant i <= |key| && hashVal == Sum(key[..i])
    {
      assert key[..i + 1][..i] == key[..i];
      hashVal := hashVal + Signed(key[i]);
      i := i + 1;
    }
    assert key[..i] == key;
    index := Rem(hashVal, NUM_BUCKETS);
  }

  /** What the table keeps for one key: its node, and what that points to. */
  datatype Slot = Slot(node: Node, val: Text, info: Info)

  type Slots = map<string, Slot>

  /** The finite map that a table stands for. */
  ghost function View(slots: Slots): map<string, Entry> {
    map k | k in slots :: Entry(slots[k].val.text, slots[k].node.host.text, slots[k].info)
  }

  ghost predicate Points(s: Slot, o: object) {
    o == s.node.key || o == s.val || o == s.node.host || o == s.info
  }

  /** What the slot of `k` points to is live, and its three strings are different ones. */
  ghost predicate Sound(s: Slot, k: string, live: set<object>) {
    && s.node.key.text == k && s.node.key in live && s.val in live && s.node.host in live && s.info in live
    && s.node.key != s.val && s.node.key != s.node.host && s.val != s.node.host
  }

  ghost predicate Apart(s: Slot, u: Slot) {
    !Points(s, u.node.key) && !Points(s, u.val) && !Points(s, u.node.host) && !Points(s, u.info)
  }

  /** Everything in the table is live and belongs to one node alone. */
  ghost predicate Owned(slots: Slots, live: set<object>) {
    && (forall k | k in slots :: Sound(slots[k], k, live))
    && (forall k, l | k in slots && l in slots && k != l :: Apart(slots[k], slots[l]))
  }

  /** Nothing in the table points to `o`. */
  ghost predicate Unowned(o: object, slots: Slots) {
    forall k | k in slots :: !Points(slots[k], o)
  }

  lemma OwnedAdd(slots: Slots, live: set<object>, k: string, s: Slot)
    requires Owned(slots, live) && k !in slots && Sound(s, k, live)
    requires Unowned(s.node.key, slots) && Unowned(s.val, slots) && Unowned(s.node.host, slots)
             && Unowned(s.info, slots)
    ensures Owned(slots[k := s], live)
  {
  }

  /** A slot gets a new value, or value and info, and what it pointed to before is freed. */
  lemma OwnedUpdate(slots: Slots, live: set<object>, k: string, val: Text, info: Info, freed: set<object>)
    requires Owned(slots, live) && k in slots && val in live && info in live && Unowned(val, slots)
    requires info == slots[k].info || Unowned(info, slots)
    requires forall o | o in freed ::
               o != val && o != info && (o == slots[k].val || o == slots[k].info || Unowned(o, slots))
    ensures Owned(slots[k := slots[k].(val := val, info := info)], live - freed)
  {
  }

  /** Arguments of a put that no node points to yet. */
  ghost predicate New(key: Text, value: Text, host: Text, info: Info, slots: Slots, live: set<object>) {
    && key in live && value in live && host in live && info in live
    && Unowned(key, slots) && Unowned(value, slots) && Unowned(host, slots) && Unowned(info, slots)
    && key != value && key != host && value != host
  }

  /** A new value for a node, passed with the node's own key, host and info. */
  ghost predicate Aliased(key: Text, value: Text, host: Text, info: Info, slots: Slots, live: set<object>) {
    && value in live && Unowned(value, slots) && key.text in slots
    && var s := slots[key.text]; s.node.key == key && s.node.host == host && s.info == info
  }

  type Hash = string -> int

  ghost predicate InTable(n: Node, b: int, slots: Slots, hash: Hash) {
    n.key.text in slots && slots[n.key.text].node == n && hash(n.key.text) == b
  }

  ghost predicate Chained(n: Node, k: string, slots: Slots, hash: Hash) {
    && n.key.text == k && 0 <= hash(k) < NUM_BUCKETS && n !in n.behind && n.behind == From(n.next)
    && (n.next != null ==> InTable(n.next, hash(k), slots, hash))
  }

  /** The node of `k` is in the list of its bucket, which is finite. */
  ghost predicate Listed(k: string, heads: seq<Node?>, slots: Slots, hash: Hash)
    requires |heads| == NUM_BUCKETS
  {
    k in slots && Chained(slots[k].node, k, slots, hash) && slots[k].node in From(heads[hash(k)])
  }

  /** Every list is finite, and every node of the table is in the list of its bucket. */
  ghost predicate Linked(heads: seq<Node?>, slots: Slots, hash: Hash) {
    && |heads| == NUM_BUCKETS
    && (forall b | 0 <= b < NUM_BUCKETS && heads[b] != null :: InTable(heads[b], b, slots, hash))
    && (forall k {:trigger Listed(k, heads, slots, hash)} | k in slots :: Listed(k, heads, slots, hash))
  }

  lemma LinkedAdd(heads: seq<Node?>, slots: Slots, hash: Hash, b: nat, k: string, s: Slot)
    requires Linked(heads, slots, hash) && k !in slots && b < NUM_BUCKETS && hash(k) == b && s.node.key.text == k
    requires s.node.next == heads[b] && s.node.behind == From(heads[b]) && s.node !in s.node.behind
    ensures Linked(heads[b := s.node], slots[k := s], hash)
  {
    var heads', slots' := heads[b := s.node], slots[k := s];
    assert forall n, c | InTable(n, c, slots, hash) :: InTable(n, c, slots', hash);
    forall l | l in slots' ensures Listed(l, heads', slots', hash) {
      if l != k { assert Listed(l, heads, slots, hash); }
    }
  }

  lemma LinkedUpdate(heads: seq<Node?>, slots: Slots, hash: Hash, k: string, s: Slot)
    requires Linked(heads, slots, hash) && k in slots && s.node == slots[k].node
    ensures Linked(heads, slots[k := s], hash)
  {
    var slots' := slots[k := s];
    forall l | l in slots' ensures Listed(l, heads, slots', hash) {
      assert Listed(l, heads, slots, hash);
    }
  }

  lemma NextListed(n: Node, b: nat, heads: seq<Node?>, slots: Slots, hash: Hash)
    requires Linked(heads, slots, hash) && InTable(n, b, slots, hash)
    ensures n !in n.behind && n.behind == From(n.next) && (n.next != null ==> InTable(n.next, b, slots, hash))
  {
    assert Listed(n.key.text, heads, slots, hash);
  }

  lemma ViewPut(slots: Slots, k: string, s: Slot)
    requires k in slots ==> s.node == slots[k].node
    ensures View(slots[k := s]) == View(slots)[k := Entry(s.val.text, s.node.host.text, s.info)]
  {
  }

  class Cache {
    const buckets: array<Node?>
    ghost const hash: Hash
    ghost var slots: Slots
    /** What has been allocated and not freed. */
    ghost var live: set<object>

    ghost function Nodes(): set<Node>
      reads this
    {
      set k | k in slots :: slots[k].node
    }

    /** The fields of the nodes are those of their slots. */
    ghost predicate Filled()
      reads this, Nodes()
    {
      forall k | k in slots :: slots[k].node.val == slots[k].val && slots[k].node.info == slots[k].info
    }

    ghost predicate Valid()
      reads this, buckets, Nodes()
    {
      Linked(buckets[..], slots, hash) && Filled() && Owned(slots, live)
    }

    constructor ()
      ensures Valid() && hash == Index && slots == map[] && live == {} && fresh(buckets)
    {
      buckets := new Node?[NUM_BUCKETS](_ => null);
      hash := Index;
      slots, live := map[], {};
    }

    /** Walks the list of a bucket. */
    method GetNode(bucket: nat, key: string) returns (n: Node?)
      requires Linked(buckets[..], slots, hash) && hash(key) == bucket < NUM_BUCKETS
      ensures n == null <==> key !in slots
      ensures n != null ==> n == slots[key].node && n.key.text == key
    {
      n := buckets[bucket];
      assert key in slots ==> Listed(key, buckets[..], slots, hash);
      while n != null && n.key.text != key
        invariant n != null ==> InTable(n, bucket, slots, hash)
        invariant key in slots ==> slots[key].node in From(n) && slots[key].node.key.text == key
        decreases From(n)
      {
        NextListed(n, bucket, buckets[..], slots, hash);
        n := n.next;
      }
    }

    method Get(key: string) returns (n: Node?)
      requires Valid() && hash == Index && Indexable(key)
      ensures n == null <==> key !in View(slots)
      ensures n != null ==>
                n == slots[key].node && n.key.text == key && View(slots)[key] == Entry(n.val.text, n.host.text, n.info)
    {
      var index := IndexOf(key);
      n := GetNode(index, key);
    }

    ghost method Free(o: object)
      requires o in live
      modifies this`live
      ensures live == old(live) - {o}
    {
      live := live - {o};
    }

    /** A new first node of its bucket. */
    method AddNode(bucket: nat, key: Text, value: Text, host: Text, info: Info)
      requires Valid() && hash(key.text) == bucket < NUM_BUCKETS && key.text !in slots
               && New(key, value, host, info, slots, live)
      modifies this`slots, buckets
      ensures Valid() && key.text in slots && slots == old(slots)[key.text := Slot(slots[key.text].node, value, info)]
      ensures slots[key.text].node.key == key && slots[key.text].node.host == host
    {
      ghost var heads := buckets[..];
      var node := new Node(key, value, host, info, buckets[bucket]);
      OwnedAdd(slots, live, key.text, Slot(node, value, info));
      Link(bucket, node, heads, Slot(node, value, info));
    }

    /** Puts a node before the list of its bucket. */
    method Link(bucket: nat, node: Node, ghost heads: seq<Node?>, ghost s: Slot)
      requires Valid() && buckets[..] == heads && hash(node.key.text) == bucket < NUM_BUCKETS && node.key.text !in slots
      requires s == Slot(node, node.val, node.info) && node.next == heads[bucket] && node.behind == From(node.next)
               && node !in node.behind
      requires Owned(slots[node.key.text := s], live)
      modifies this`slots, buckets
      ensures Valid() && slots == old(slots)[node.key.text := s]
    {
      LinkedAdd(heads, slots, hash, bucket, node.key.text, s);
      buckets[bucket] := node;
      assert buckets[..] == heads[bucket := node];
      slots := slots[node.key.text := s];
    }

    /** Replaces the value of a node and, if it is another one, its info, and frees what is no
        longer needed: the old ones, and the key and host passed in if they are not the node's. */
    method UpdateNode(node: Node, key: Text, value: Text, host: Text, info: Info)
      requires Valid() && key.text in slots && node == slots[key.text].node
      requires New(key, value, host, info, slots, live) || Aliased(key, value, host, info, slots, live)
      modifies this`slots, this`live, node
      ensures Valid() && slots == old(slots)[key.text := Slot(node, value, info)]
      ensures live == old(live) - {old(node.val)} - if old(node.info) != info then {old(node.info), key, host} else {}
    {
      ghost var k, was, before := key.text, slots, live;
      assert Sound(was[k], k, live) && was[k] == Slot(node, node.val, node.info);
      ReplaceAndFree(node, key, value, host, info, k);
      OwnedUpdate(was, before, k, value, info, before - live);
      assert live == before - (before - live);
      LinkedUpdate(buckets[..], slots, hash, k, Slot(node, value, info));
      slots := slots[k := Slot(node, value, info)];
    }

    method ReplaceAndFree(node: Node, key: Text, value: Text, host: Text, info: Info, ghost k: string)
      requires k in slots && Owned(slots, live) && slots[k] == Slot(node, node.val, node.info)
      requires New(key, value, host, info, slots, live)
               || (Unowned(value, slots) && node.key == key && node.host == host && node.info == info)
      modifies this`live, node
      ensures node.val == value && node.info == info
      ensures live == old(live) - {old(node.val)} - if old(node.info) != info then {old(node.info), key, host} else {}
    {
      assert Sound(slots[k], k, live);
      Free(node.val);
      node.val := value;
      if node.info != info {
        Free(node.info);
        node.info := info;
      }
      if node.key != key { Free(key); }
      if node.host != host { Free(host); }
    }

    /** putKey on the bucket of the key: atomic, under the cache's lock. */
    method PutKey(bucket: nat, key: Text, value: Text, host: Text, info: Info)
      requires Valid() && hash(key.text) == bucket < NUM_BUCKETS
      requires New(key, value, host, info, slots, live) || Aliased(key, value, host, info, slots, live)
      modifies this`slots, this`live, buckets, Nodes()
      ensures Valid() && key.text in slots && slots == old(slots)[key.text := Slot(slots[key.text].node, value, info)]
      ensures key.text in old(slots) ==> slots[key.text].node == old(slots)[key.text].node
      ensures key.text !in old(slots) ==> slots[key.text].node.host == host && live == old(live)
      ensures key.text in old(slots) ==>
                var s := old(slots)[key.text];
                live == old(live) - {s.val} - if s.info != info then {s.info, key, host} else {}
    {
      var node := GetNode(bucket, key.text);
      if node == null {
        AddNode(bucket, key, value, host, info);
      } else {
        UpdateNode(node, key, value, host, info);
      }
    }

    /** Maps the key to the new value and info. The host of a key stays the one first given, and
        what a replaced entry pointed to is freed. */
    method Put(key: Text, value: Text, host: Text, info: Info)
      requires Valid() && hash == Index && Indexable(key.text)
      requires New(key, value, host, info, slots, live) || Aliased(key, value, host, info, slots, live)
      modifies this`slots, this`live, buckets, Nodes()
      ensures Valid()
      ensures View(slots) == Updated(old(View(slots)), key.text, value.text, host.text, info)
      ensures live
              == if key.text in old(slots) then old(live) - Replaced(old(slots)[key.text], key, host, info)
                 else old(live)
    {
      var index := IndexOf(key.text);
      ghost var was := slots;
      PutKey(index, key, value, host, info);
      ViewPut(was, key.text, slots[key.text]);
    }
  }

  /** The entry of a key, given that the host stays. */
  ghost function Updated(view: map<string, Entry>, key: string, value: string, host: string, info: Info)
    : map<string, Entry> {
    view[key := Entry(value, if key in view then view[key].host else host, info)]
  }

  /** What a put on an existing key frees. */
  ghost function Replaced(s: Slot, key: Text, host: Text, info: Info): set<object> {
    {s.val} + if s.info != info then {s.info, key, host} else {}
  }

  // ----- Runs of puts -----

  datatype PutCall = PutCall(key: string, value: string, host: string, info: Info)

  /** The map after a sequence of puts. */
  ghost function After(view: map<string, Entry>, puts: seq<PutCall>): map<string, Entry> {
    if puts == [] then view
    else
      var p := puts[|puts| - 1];
      Updated(After(view, puts[..|puts| - 1]), p.key, p.value, p.host, p.info)
  }

  predicate IsLast(puts: seq<PutCall>, i: nat) {
    i < |puts| && forall j | i < j < |puts| :: puts[j].key != puts[i].key
  }

  predicate IsFirst(puts: seq<PutCall>, i: nat) {
    i < |puts| && forall j | 0 <= j < i :: puts[j].key != puts[i].key
  }

  predicate PutAt(puts: seq<PutCall>, i: nat, k: string) {
    i < |puts| && puts[i].key == k
  }

  ghost predicate RunOf(puts: seq<PutCall>, k: string, view: map<string, Entry>) {
    && (k in view <==> exists i: nat :: PutAt(puts, i, k))
    && (forall i: nat | PutAt(puts, i, k) && IsLast(puts, i) ::
          k in view && view[k].val == puts[i].value && view[k].info == puts[i].info)
    && (forall i: nat | PutAt(puts, i, k) && IsFirst(puts, i) :: k in view && view[k].host == puts[i].host)
  }

  lemma Appended(front: seq<PutCall>, p: PutCall, i: nat, k: string)
    ensures PutAt(front + [p], i, k) <==> PutAt(front, i, k) || (i == |front| && p.key == k)
    ensures i < |front| && IsLast(front + [p], i) ==> IsLast(front, i) && p.key != front[i].key
    ensures i < |front| && IsFirst(front + [p], i) ==> IsFirst(front, i)
    ensures i == |front| && IsFirst(front + [p], i) ==> forall j: nat :: !PutAt(front, j, p.key)
  {
    var puts := front + [p];
    assert puts[|front|] == p && forall j | 0 <= j < |front| :: puts[j] == front[j];
  }

  lemma RunStep(front: seq<PutCall>, p: PutCall, k: string, view: map<string, Entry>)
    requires RunOf(front, k, view)
    ensures RunOf(front + [p], k, Updated(view, p.key, p.value, p.host, p.info))
  {
    var puts := front + [p];
    forall i: nat ensures PutAt(puts, i, k) <==> PutAt(front, i, k) || (i == |front| && p.key == k) {
      Appended(front, p, i, k);
    }
    assert p.key == k ==> PutAt(puts, |front|, k);
    forall i: nat | PutAt(puts, i, k) && IsLast(puts, i)
      ensures i == |front| || (PutAt(front, i, k) && IsLast(front, i) && p.key != k) {
      Appended(front, p, i, k);
    }
    forall i: nat | PutAt(puts, i, k) && IsFirst(puts, i)
      ensures if i == |front| then k !in view else PutAt(front, i, k) && IsFirst(front, i) {
      Appended(front, p, i, k);
    }
  }

  lemma AfterLast(front: seq<PutCall>, p: PutCall, view: map<string, Entry>)
    ensures After(view, front + [p]) == Updated(After(view, front), p.key, p.value, p.host, p.info)
  {
    assert (front + [p])[..|front|] == front;
  }

  /** A run of puts on an empty table maps a key to the value and info put last, and to the host
      put first, and keys that were never put to nothing. */
  lemma {:induction false} RunMeans(puts: seq<PutCall>, k: string)
    ensures RunOf(puts, k, After(map[], puts))
    decreases |puts|
  {
    if puts != [] {
      var front, p := puts[..|puts| - 1], puts[|puts| - 1];
      assert puts == front + [p];
      RunMeans(front, k);
      AfterLast(front, p, map[]);
      RunStep(front, p, k, After(map[], front));
    }
  }

  /** What two keys point to never overlaps, so freeing what a put replaces leaves every other
      entry alone. */
  lemma OtherEntriesLive(slots: Slots, live: set<object>, k: string, l: string, key: Text, value: Text,
                         host: Text, info: Info, o: object)
    requires Owned(slots, live) && key.text == k && k in slots && l in slots && k != l && Points(slots[l], o)
    requires New(key, value, host, info, slots, live) || Aliased(key, value, host, info, slots, live)
    ensures o in live - Replaced(slots[k], key, host, info)
  {
    assert Sound(slots[l], l, live) && Apart(slots[l], slots[k]);
  }

  /** Keys that are not ASCII may have no bucket. */
  lemma NoBucket()
    ensures !Indexable([128 as char])
  {
    var key := [128 as char];
    assert key[..0] == "" && Sum(key) == Sum("") + Signed(key[0]);
  }
}
