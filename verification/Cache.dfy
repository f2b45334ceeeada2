/** The bounded cache: entries that may expire, evicted in the order their keys were first inserted. */
module Cache {
  import opened Options

  datatype Entry<V> = Entry(value: V, expires: Option<int>)

  /** The map and the insertion order of its keys. */
  datatype State<V> = State(items: map<string, Entry<V>>, order: seq<string>)

  predicate Expired<V>(e: Entry<V>, now: int) {
    e.expires.Some? && now > e.expires.value
  }

  function NewEntry<V>(value: V, ttl: int, now: int): Entry<V> {
    Entry(value, if ttl > 0 then Some(now + ttl) else None)
  }

  ghost predicate Distinct(s: seq<string>) {
    forall i, j :: 0 <= i < j < |s| ==> s[i] != s[j]
  }

  /** The order lists the keys without repetition, and a positive limit is respected. */
  ghost predicate Sound<V>(s: State<V>, limit: int) {
    && Distinct(s.order)
    && (forall k :: k in s.order <==> k in s.items)
    && (limit > 0 ==> |s.items| <= limit)
  }

  ghost function Without(order: seq<string>, key: string): seq<string> {
    if order == [] then []
    else
      var rest := Without(order[..|order| - 1], key);
      if order[|order| - 1] == key then rest else rest + [order[|order| - 1]]
  }

  ghost function Deleted<V>(s: State<V>, key: string): State<V> {
    State(s.items - {key}, Without(s.order, key))
  }

  ghost function Got<V>(s: State<V>, key: string, now: int): (State<V>, Option<V>) {
    if key !in s.items then (s, None)
    else if Expired(s.items[key], now) then (Deleted(s, key), None)
    else (s, Some(s.items[key].value))
  }

  /** What Set leaves: an existing key keeps its place; a new one goes last and, in a full cache, pushes out the oldest. */
  ghost function Put<V>(s: State<V>, limit: int, key: string, e: Entry<V>): State<V> {
    if key in s.items then s.(items := s.items[key := e])
    else if limit > 0 && |s.items| == limit && s.order != [] then
      State(s.items[key := e] - {s.order[0]}, s.order[1..] + [key])
    else State(s.items[key := e], s.order + [key])
  }

  // ---- lemmas about maps and orders ----

  lemma RemovedSize<K, V>(m: map<K, V>, k: K)
    ensures |m - {k}| == if k in m then |m| - 1 else |m|
  {
    assert (m - {k}).Keys == m.Keys - {k};
  }

  lemma AddedSize<K, V>(m: map<K, V>, k: K, v: V)
    ensures |m[k := v]| == if k in m then |m| else |m| + 1
  {
    assert m[k := v].Keys == m.Keys + {k};
  }

  lemma {:induction false} WithoutMembers(order: seq<string>, key: string)
    ensures forall k :: k in Without(order, key) <==> k in order && k != key
    ensures Distinct(order) ==> Distinct(Without(order, key))
    ensures key !in order ==> Without(order, key) == order
  {
    if order != [] {
      var before, last := order[..|order| - 1], order[|order| - 1];
      var rest := Without(before, key);
      WithoutMembers(before, key);
      assert order == before + [last];
      if Distinct(order) {
        assert Distinct(before) && last !in before;
        assert forall i :: 0 <= i < |rest| ==> rest[i] in rest;
      }
    }
  }

  lemma {:induction false} WithoutAt(order: seq<string>, i: nat)
    requires i < |order|
    ensures Without(order, order[i]) == Without(order[..i] + order[i + 1..], order[i])
  {
    var last := |order| - 1;
    if i == last {
      assert order[..i] + order[i + 1..] == order[..last];
    } else {
      WithoutAt(order[..last], i);
      var less := order[..i] + order[i + 1..];
      assert less[..|less| - 1] == order[..last][..i] + order[..last][i + 1..];
    }
  }

  lemma DeletedSound<V>(s: State<V>, limit: int, key: string)
    requires Sound(s, limit)
    ensures Sound(Deleted(s, key), limit)
  {
    WithoutMembers(s.order, key);
    RemovedSize(s.items, key);
  }

  lemma DeletedKeeps<V>(s: State<V>, key: string)
    ensures forall k :: k in Deleted(s, key).items <==> k in s.items && k != key
    ensures forall k :: k in Deleted(s, key).items ==> Deleted(s, key).items[k] == s.items[k]
  {
  }

  lemma HasOldest<V>(s: State<V>, limit: int)
    requires Sound(s, limit) && |s.items| > 0
    ensures s.order != []
  {
    assert |s.items.Keys| > 0;
    var k :| k in s.items.Keys;
    assert k in s.order;
  }

  lemma PutSound<V>(s: State<V>, limit: int, key: string, e: Entry<V>)
    requires Sound(s, limit)
    ensures Sound(Put(s, limit, key, e), limit)
    ensures key in Put(s, limit, key, e).items && Put(s, limit, key, e).items[key] == e
  {
    hide Sound;
    if key in s.items {
      ReplaceSound(s, limit, key, e);
    } else if limit > 0 && |s.items| == limit && s.order != [] {
      EvictSound(s, limit, key, e);
    } else {
      AppendSound(s, limit, key, e);
    }
  }

  lemma ReplaceSound<V>(s: State<V>, limit: int, key: string, e: Entry<V>)
    requires Sound(s, limit) && key in s.items
    ensures Sound(s.(items := s.items[key := e]), limit)
  {
    AddedSize(s.items, key, e);
  }

  lemma AppendSound<V>(s: State<V>, limit: int, key: string, e: Entry<V>)
    requires Sound(s, limit) && key !in s.items && (limit > 0 && |s.items| == limit ==> s.order == [])
    ensures Sound(State(s.items[key := e], s.order + [key]), limit)
  {
    AddedSize(s.items, key, e);
    if limit > 0 && |s.items| == limit {
      HasOldest(s, limit);
    }
  }

  lemma TailMembers(order: seq<string>, k: string)
    requires Distinct(order) && order != []
    ensures k in order[1..] <==> k in order && k != order[0]
  {
    if k in order[1..] {
      var i :| 0 <= i < |order| - 1 && order[1..][i] == k;
      assert order[i + 1] == k && order[0] != order[i + 1];
    }
    if k in order && k != order[0] {
      var i :| 0 <= i < |order| && order[i] == k;
      assert order[1..][i - 1] == k;
    }
  }

  /** Dropping the first key and appending a new one. */
  lemma Shifted(order: seq<string>, key: string)
    requires Distinct(order) && order != [] && key !in order
    ensures Distinct(order[1..] + [key])
    ensures forall k :: k in order[1..] + [key] <==> (k in order && k != order[0]) || k == key
  {
    var tail, more := order[1..], order[1..] + [key];
    forall i, j | 0 <= i < j < |more| ensures more[i] != more[j] {
      assert more[i] == order[i + 1] && order[i + 1] in order;
      assert more[j] == if j < |tail| then order[j + 1] else key;
    }
    forall k ensures k in more <==> (k in order && k != order[0]) || k == key {
      TailMembers(order, k);
    }
  }

  lemma EvictSound<V>(s: State<V>, limit: int, key: string, e: Entry<V>)
    requires Sound(s, limit) && key !in s.items && limit > 0 && |s.items| == limit && s.order != []
    ensures key != s.order[0]
    ensures var t := State(s.items[key := e] - {s.order[0]}, s.order[1..] + [key]); Sound(t, limit) && |t.items| == limit
  {
    var oldest := s.order[0];
    assert oldest in s.order && key !in s.order;
    hide Distinct;
    Shifted(s.order, key);
    AddedSize(s.items, key, e);
    RemovedSize(s.items[key := e], oldest);
  }

  /** What remains to be done once the key is in the map. */
  lemma EnforcedState<V>(s: State<V>, limit: int, key: string, e: Entry<V>)
    requires Sound(s, limit) && limit > 0
    ensures |s.items[key := e]| <= limit ==>
      Put(s, limit, key, e) == State(s.items[key := e], if key in s.items then s.order else s.order + [key])
    ensures |s.items[key := e]| > limit ==>
      && key !in s.items && |s.items| == limit && s.order != []
      && Put(s, limit, key, e) == State(s.items[key := e] - {s.order[0]}, s.order[1..] + [key])
      && |Put(s, limit, key, e).items| == limit
  {
    AddedSize(s.items, key, e);
    if key !in s.items && |s.items| == limit {
      HasOldest(s, limit);
      hide Sound;
      EvictSound(s, limit, key, e);
    }
  }

  // ---- the class ----

  class Cache<V> {
    var items: map<string, Entry<V>>
    var order: seq<string>
    const limit: int

    ghost function Value(): State<V>
      reads this
    {
      State(items, order)
    }

    ghost predicate Valid()
      reads this
    {
      Sound(Value(), limit)
    }

    constructor (limit: int)
      ensures Valid() && Value() == State(map[], []) && this.limit == limit
    {
      items, order, this.limit := map[], [], limit;
    }

    method Get(key: string, now: int) returns (found: Option<V>)
      requires Valid()
      modifies this
      ensures Valid() && (Value(), found) == Got(old(Value()), key, now)
    {
      if key !in items {
        return None;
      }
      if Expired(items[key], now) {
        Remove(key);
        return None;
      }
      return Some(items[key].value);
    }

    method Set(key: string, value: V, ttl: int, now: int)
      requires Valid()
      modifies this
      ensures Valid() && Value() == Put(old(Value()), limit, key, NewEntry(value, ttl, now))
    {
      ghost var before := Value();
      var item := NewEntry(value, ttl, now);
      PutSound(before, limit, key, item);
      AddedSize(items, key, item);
      if key !in items {
        order := order + [key];
      }
      items := items[key := item];
      Enforce(before, key, item);
    }

    method Delete(key: string)
      requires Valid()
      modifies this
      ensures Valid() && Value() == Deleted(old(Value()), key)
    {
      Remove(key);
    }

    method Purge()
      modifies this
      ensures Valid() && Value() == State(map[], [])
    {
      items, order := map[], [];
    }

    /** Evicts from the front of the order until the limit is met: at most the oldest key, never the one just set. */
    method Enforce(ghost before: State<V>, ghost key: string, ghost item: Entry<V>)
      requires Sound(before, limit)
      requires items == before.items[key := item]
      requires order == if key in before.items then before.order else before.order + [key]
      modifies this
      ensures Value() == Put(before, limit, key, item)
    {
      hide Sound;
      AddedSize(before.items, key, item);
      if limit <= 0 {
        return;
      }
      EnforcedState(before, limit, key, item);
      ghost var grown := items;
      while |items| > limit && |order| > 0
        invariant |items| <= limit ==> Value() == Put(before, limit, key, item)
        invariant |items| > limit ==>
          && items == grown && order == before.order + [key] && key !in before.items && |before.items| == limit
        decreases |items|
      {
        var oldest := order[0];
        assert oldest == before.order[0];
        assert order[1..] == before.order[1..] + [key];
        order, items := order[1..], items - {oldest};
      }
    }

    method Remove(key: string)
      requires Valid()
      modifies this
      ensures Valid() && Value() == Deleted(old(Value()), key)
    {
      hide Sound, Without;
      DeletedSound(Value(), limit, key);
      items := items - {key};
      order := Drop(order, key);
    }
  }

  /** Scans the order, cutting out the key wherever it stands. */
  method Drop(order: seq<string>, key: string) returns (left: seq<string>)
    ensures left == Without(order, key) && key !in left
  {
    hide Without, Distinct;
    left := order;
    var i := 0;
    while i < |left|
      invariant 0 <= i <= |left| && key !in left[..i]
      invariant Without(left, key) == Without(order, key)
      decreases |left| - i
    {
      if left[i] == key {
        WithoutAt(left, i);
        ghost var kept := left[..i];
        left := left[..i] + left[i + 1..];
        assert left[..i] == kept;
      } else {
        assert left[..i + 1] == left[..i] + [left[i]];
        i := i + 1;
      }
    }
    assert left[..i] == left;
    WithoutMembers(left, key);
  }

  // ---- every sequence of operations ----

  datatype Op<V> =
    | Set(key: string, value: V, ttl: int, now: int)
    | Get(key: string, now: int)
    | Delete(key: string)
    | Purge

  ghost function Apply<V>(s: State<V>, limit: int, op: Op<V>): State<V> {
    match op
    case Set(key, value, ttl, now) => Put(s, limit, key, NewEntry(value, ttl, now))
    case Get(key, now) => Got(s, key, now).0
    case Delete(key) => Deleted(s, key)
    case Purge => State(map[], [])
  }

  ghost function After<V>(limit: int, ops: seq<Op<V>>): State<V> {
    if ops == [] then State(map[], []) else Apply(After(limit, ops[..|ops| - 1]), limit, ops[|ops| - 1])
  }

  /** For each key, the entry of its latest Set that no Delete or Purge has followed. */
  ghost function Latest<V>(ops: seq<Op<V>>): map<string, Entry<V>> {
    if ops == [] then map[] else Later(Latest(ops[..|ops| - 1]), ops[|ops| - 1])
  }

  ghost function Later<V>(latest: map<string, Entry<V>>, op: Op<V>): map<string, Entry<V>> {
    match op
    case Set(key, value, ttl, now) => latest[key := NewEntry(value, ttl, now)]
    case Get(_, _) => latest
    case Delete(key) => latest - {key}
    case Purge => map[]
  }

  /** The key a Set pushes out: in a full cache a new key costs the oldest its place. */
  ghost function PushedOut<V>(s: State<V>, limit: int, key: string): set<string> {
    if key !in s.items && limit > 0 && |s.items| == limit && s.order != [] then {s.order[0]} else {}
  }

  /** The keys pushed out since they were last set. */
  ghost function Evicted<V>(limit: int, ops: seq<Op<V>>): set<string> {
    if ops == [] then {}
    else
      var before, op := ops[..|ops| - 1], ops[|ops| - 1];
      StillEvicted(After(limit, before), limit, Evicted(limit, before), op)
  }

  ghost function StillEvicted<V>(s: State<V>, limit: int, evicted: set<string>, op: Op<V>): set<string> {
    match op
    case Set(key, _, _, _) => evicted - {key} + PushedOut(s, limit, key)
    case Get(_, _) => evicted
    case Delete(key) => evicted - {key}
    case Purge => {}
  }

  /** No read looks at a clock later than `clock`. */
  ghost predicate Before<V>(ops: seq<Op<V>>, clock: int) {
    forall op :: op in ops && op.Get? ==> op.now <= clock
  }

  /** Every cached entry is its key's latest and not of an evicted key. */
  ghost predicate OnlyLatest<V>(s: State<V>, latest: map<string, Entry<V>>, evicted: set<string>) {
    forall k :: k in s.items ==> k in latest && latest[k] == s.items[k] && k !in evicted
  }

  /** Every latest entry that has not expired is cached, or its key was evicted. */
  ghost predicate AllLatest<V>(s: State<V>, latest: map<string, Entry<V>>, evicted: set<string>, clock: int) {
    forall k :: k in latest && !Expired(latest[k], clock) && k !in evicted ==> k in s.items
  }

  ghost predicate Exact<V>(limit: int, s: State<V>, latest: map<string, Entry<V>>, evicted: set<string>, clock: int) {
    Sound(s, limit) && OnlyLatest(s, latest, evicted) && AllLatest(s, latest, evicted, clock)
  }

  /** After any operations the cache is sound, holds nothing but latest entries, and has lost only what had expired or was
      pushed out since. */
  lemma {:induction false} CacheInvariant<V>(limit: int, ops: seq<Op<V>>, clock: int)
    requires Before(ops, clock)
    ensures Exact(limit, After(limit, ops), Latest(ops), Evicted(limit, ops), clock)
  {
    if ops != [] {
      hide Exact, Apply, Later, StillEvicted;
      var before, op := ops[..|ops| - 1], ops[|ops| - 1];
      assert ops == before + [op];
      CacheInvariant(limit, before, clock);
      Keeps(limit, After(limit, before), Latest(before), Evicted(limit, before), op, clock);
    }
  }

  lemma Keeps<V>(limit: int, s: State<V>, latest: map<string, Entry<V>>, evicted: set<string>, op: Op<V>, clock: int)
    requires Exact(limit, s, latest, evicted, clock) && (op.Get? ==> op.now <= clock)
    ensures Exact(limit, Apply(s, limit, op), Later(latest, op), StillEvicted(s, limit, evicted, op), clock)
  {
    hide Exact, Deleted, Put, Got, PushedOut;
    match op
    case Set(key, value, ttl, now) => KeepsSet(limit, s, latest, evicted, key, NewEntry(value, ttl, now), clock);
    case Get(key, now) => KeepsExpired(limit, s, latest, evicted, key, now, clock);
    case Delete(key) => KeepsDeleted(limit, s, latest, evicted, key, clock);
    case Purge => NothingHeld<V>(limit, clock);
  }

  lemma NothingHeld<V>(limit: int, clock: int)
    ensures Exact<V>(limit, State(map[], []), map[], {}, clock)
  {
  }

  lemma KeepsSet<V>(limit: int, s: State<V>, latest: map<string, Entry<V>>, evicted: set<string>,
                    key: string, e: Entry<V>, clock: int)
    requires Exact(limit, s, latest, evicted, clock)
    ensures Exact(limit, Put(s, limit, key, e), latest[key := e], evicted - {key} + PushedOut(s, limit, key), clock)
  {
    hide Sound, Put, PushedOut, Expired;
    PutSound(s, limit, key, e);
    PutLoses(s, limit, key, e);
    var t, out := Put(s, limit, key, e), PushedOut(s, limit, key);
    forall k | k in t.items ensures k in latest[key := e] && latest[key := e][k] == t.items[k] && k !in evicted - {key} + out {
      assert k != key ==> k in s.items;
    }
    forall k | k in latest[key := e] && !Expired(latest[key := e][k], clock) && k !in evicted - {key} + out
      ensures k in t.items
    {
      assert k != key ==> k in s.items;
    }
  }

  /** What a Set leaves of the other keys: all but the one it pushes out. */
  lemma PutLoses<V>(s: State<V>, limit: int, key: string, e: Entry<V>)
    requires Sound(s, limit)
    ensures var t := Put(s, limit, key, e);
      && key in t.items && t.items[key] == e && key !in PushedOut(s, limit, key)
      && (forall k :: k != key ==> (k in t.items <==> k in s.items && k !in PushedOut(s, limit, key)))
      && (forall k :: k != key && k in t.items ==> t.items[k] == s.items[k])
  {
    if s.order != [] {
      assert s.order[0] in s.order;
    }
  }

  lemma KeepsDeleted<V>(limit: int, s: State<V>, latest: map<string, Entry<V>>, evicted: set<string>, key: string,
                        clock: int)
    requires Exact(limit, s, latest, evicted, clock)
    ensures Exact(limit, Deleted(s, key), latest - {key}, evicted - {key}, clock)
  {
    hide Sound, Deleted, Expired;
    DeletedSound(s, limit, key);
    DeletedKeeps(s, key);
    var t := Deleted(s, key);
    forall k | k in t.items ensures k in latest - {key} && (latest - {key})[k] == t.items[k] && k !in evicted - {key} {
      assert k in s.items;
    }
  }

  lemma KeepsExpired<V>(limit: int, s: State<V>, latest: map<string, Entry<V>>, evicted: set<string>, key: string,
                        now: int, clock: int)
    requires Exact(limit, s, latest, evicted, clock) && now <= clock
    ensures Exact(limit, Got(s, key, now).0, latest, evicted, clock)
  {
    hide Sound, Without;
    DeletedSound(s, limit, key);
  }

  /** Get returns exactly the latest value set for the key, unless that has expired or the key was pushed out since. */
  lemma GetReturnsLatest<V>(limit: int, ops: seq<Op<V>>, key: string, now: int)
    requires Before(ops, now)
    ensures var found, latest := Got(After(limit, ops), key, now).1, Latest(ops);
      && (found.Some? <==> key in latest && !Expired(latest[key], now) && key !in Evicted(limit, ops))
      && (found.Some? ==> found.value == latest[key].value)
  {
    CacheInvariant(limit, ops, now);
  }

  /** The i-th operation is the latest Set of the key, and no Delete of it nor a Purge has followed. */
  ghost predicate LastSet<V>(ops: seq<Op<V>>, key: string, i: int) {
    && 0 <= i < |ops| && ops[i].Set? && ops[i].key == key
    && forall j :: i < j < |ops| ==> !ops[j].Purge? && ((ops[j].Set? || ops[j].Delete?) ==> ops[j].key != key)
  }

  /** The value has a time to live that has run out. */
  ghost predicate RanOut<V>(op: Op<V>, now: int)
    requires op.Set?
  {
    op.ttl > 0 && now > op.now + op.ttl
  }

  lemma {:induction false} LatestIsLastSet<V>(ops: seq<Op<V>>, key: string)
    ensures key in Latest(ops) <==> exists i :: LastSet(ops, key, i)
    ensures forall i :: LastSet(ops, key, i) ==>
      && key in Latest(ops) && Latest(ops)[key].value == ops[i].value
      && forall now :: Expired(Latest(ops)[key], now) <==> RanOut(ops[i], now)
  {
    if ops != [] {
      var n := |ops| - 1;
      var before, op := ops[..n], ops[n];
      LatestIsLastSet(before, key);
      assert ops == before + [op];
      if op.Set? && op.key == key {
        assert LastSet(ops, key, n);
        forall i | LastSet(ops, key, i) ensures i == n {
        }
      } else if op.Purge? || (op.Delete? && op.key == key) {
        forall i ensures !LastSet(ops, key, i) {
          assert LastSet(ops, key, i) ==> i < n;
        }
      } else {
        forall i ensures LastSet(ops, key, i) <==> LastSet(before, key, i) {
          if LastSet(before, key, i) {
            assert forall j :: i < j < n ==> ops[j] == before[j];
          }
          if LastSet(ops, key, i) {
            assert forall j :: i < j < n ==> before[j] == ops[j];
          }
        }
        assert key in Latest(ops) <==> key in Latest(before);
      }
    }
  }

  /** Told by the operations alone: Get finds the value of the key's latest Set, unless it was deleted or purged since, its
      time to live has run out, or the key was pushed out. */
  lemma GetFindsLastSet<V>(limit: int, ops: seq<Op<V>>, key: string, now: int, value: V)
    requires Before(ops, now)
    ensures Got(After(limit, ops), key, now).1 == Some(value) <==>
      && key !in Evicted(limit, ops)
      && exists i :: LastSet(ops, key, i) && !RanOut(ops[i], now) && ops[i].value == value
  {
    GetReturnsLatest(limit, ops, key, now);
    LatestIsLastSet(ops, key);
    hide After, Evicted, Latest, LastSet, RanOut, Expired;
  }

  // ---- what is pushed out ----

  /** The keys ever set. */
  ghost function KeysSet<V>(ops: seq<Op<V>>): set<string> {
    if ops == [] then {} else KeysWith(KeysSet(ops[..|ops| - 1]), ops[|ops| - 1])
  }

  ghost function KeysWith<V>(keys: set<string>, op: Op<V>): set<string> {
    if op.Set? then keys + {op.key} else keys
  }

  lemma Subset(a: set<string>, b: set<string>)
    requires a <= b
    ensures |a| <= |b|
  {
    assert b == a + (b - a);
  }

  lemma RoomLeft(keys: set<string>, key: string, all: set<string>)
    requires key !in keys && keys <= all && key in all
    ensures |keys| < |all|
  {
    Subset(keys + {key}, all);
  }

  /** While every key ever set fits, nothing is pushed out. */
  lemma {:induction false} NothingEvicted<V>(limit: int, ops: seq<Op<V>>)
    ensures After(limit, ops).items.Keys <= KeysSet(ops)
    ensures limit <= 0 || |KeysSet(ops)| <= limit ==> Evicted(limit, ops) == {}
  {
    if ops != [] {
      var before, op := ops[..|ops| - 1], ops[|ops| - 1];
      var s := After(limit, before);
      NothingEvicted(limit, before);
      Subset(KeysSet(before), KeysSet(ops));
      if op.Set? && op.key !in s.items {
        RoomLeft(s.items.Keys, op.key, KeysSet(ops));
      }
    }
  }

  /** The i-th operation is the Set that inserted the key, which has been cached ever since. */
  ghost predicate InsertedBy<V>(limit: int, ops: seq<Op<V>>, key: string, i: int) {
    && 0 <= i < |ops| && ops[i].Set? && ops[i].key == key && key !in After(limit, ops[..i]).items
    && forall j :: i < j <= |ops| ==> key in After(limit, ops[..j]).items
  }

  /** The positions name, for each key in order, the Set that inserted it, earliest first. */
  ghost predicate Inserts<V>(limit: int, ops: seq<Op<V>>, order: seq<string>, at: seq<int>) {
    && |at| == |order| && (forall n :: 0 <= n < |order| ==> InsertedBy(limit, ops, order[n], at[n]))
    && forall m, n :: 0 <= m < n < |at| ==> at[m] < at[n]
  }

  lemma InsertedStays<V>(limit: int, ops: seq<Op<V>>, key: string, i: int)
    requires ops != [] && InsertedBy(limit, ops[..|ops| - 1], key, i) && key in After(limit, ops).items
    ensures InsertedBy(limit, ops, key, i)
  {
    var before := ops[..|ops| - 1];
    assert before[..i] == ops[..i];
    forall j | i < j <= |ops| ensures key in After(limit, ops[..j]).items {
      if j == |ops| {
        assert ops[..j] == ops;
      } else {
        assert before[..j] == ops[..j];
      }
    }
  }

  /** Some of the keys keep their places when the rest go. */
  ghost predicate Within(small: seq<string>, large: seq<string>, at: seq<int>) {
    && |at| == |small| && (forall n :: 0 <= n < |small| ==> 0 <= at[n] < |large| && large[at[n]] == small[n])
    && forall m, n :: 0 <= m < n < |at| ==> at[m] < at[n]
  }

  lemma {:induction false} WithoutWithin(order: seq<string>, key: string) returns (at: seq<int>)
    ensures Within(Without(order, key), order, at)
  {
    at := [];
    if order != [] {
      hide Within;
      var n := |order| - 1;
      at := WithoutWithin(order[..n], key);
      WithinMore(Without(order[..n], key), order, at);
      if order[n] != key {
        at := at + [n];
      }
    } else {
      assert Within([], [], at);
    }
  }

  lemma WithinMore(small: seq<string>, order: seq<string>, at: seq<int>)
    requires order != [] && Within(small, order[..|order| - 1], at)
    ensures Within(small, order, at) && Within(small + [order[|order| - 1]], order, at + [|order| - 1])
  {
    forall n | 0 <= n < |small| ensures 0 <= at[n] < |order| - 1 && order[at[n]] == small[n] {
      assert order[..|order| - 1][at[n]] == small[n];
    }
  }

  lemma InsertsWithin<V>(limit: int, ops: seq<Op<V>>, order: seq<string>, places: seq<int>, small: seq<string>, at: seq<int>)
      returns (less: seq<int>)
    requires ops != [] && Inserts(limit, ops[..|ops| - 1], order, places) && Within(small, order, at)
    requires forall n :: 0 <= n < |small| ==> small[n] in After(limit, ops).items
    ensures Inserts(limit, ops, small, less) && forall n :: 0 <= n < |less| ==> less[n] < |ops| - 1
  {
    hide InsertedBy;
    less := seq(|small|, n requires 0 <= n < |small| => places[at[n]]);
    forall n | 0 <= n < |small| ensures InsertedBy(limit, ops, small[n], less[n]) && less[n] < |ops| - 1 {
      assert InsertedBy(limit, ops[..|ops| - 1], order[at[n]], places[at[n]]);
      InsertedStays(limit, ops, small[n], less[n]);
      InsertedBound(limit, ops[..|ops| - 1], small[n], less[n]);
    }
  }

  lemma InsertedBound<V>(limit: int, ops: seq<Op<V>>, key: string, i: int)
    requires InsertedBy(limit, ops, key, i)
    ensures 0 <= i < |ops|
  {
  }

  lemma InsertedNow<V>(limit: int, ops: seq<Op<V>>)
    requires ops != [] && ops[|ops| - 1].Set? && ops[|ops| - 1].key !in After(limit, ops[..|ops| - 1]).items
    requires ops[|ops| - 1].key in After(limit, ops).items
    ensures InsertedBy(limit, ops, ops[|ops| - 1].key, |ops| - 1)
  {
    assert ops[..|ops|] == ops;
  }

  /** Which part of the old order is left, and whether a new key follows it. */
  lemma OrderSteps<V>(s: State<V>, limit: int, op: Op<V>) returns (small: seq<string>, at: seq<int>)
    requires Sound(s, limit)
    ensures Within(small, s.order, at)
    ensures Apply(s, limit, op).order == if op.Set? && op.key !in s.items then small + [op.key] else small
  {
    small, at := s.order, seq(|s.order|, n => n);
    match op
    case Set(key, value, ttl, now) =>
      if key !in s.items && limit > 0 && |s.items| == limit && s.order != [] {
        small, at := s.order[1..], seq(|s.order| - 1, n => n + 1);
      }
    case Get(key, now) =>
      if key in s.items && Expired(s.items[key], now) {
        small := Without(s.order, key);
        at := WithoutWithin(s.order, key);
      }
    case Delete(key) =>
      small := Without(s.order, key);
      at := WithoutWithin(s.order, key);
    case Purge => small, at := [], [];
  }

  lemma {:induction false} AlwaysSound<V>(limit: int, ops: seq<Op<V>>)
    ensures Sound(After(limit, ops), limit)
  {
    if ops != [] {
      var before, op := After(limit, ops[..|ops| - 1]), ops[|ops| - 1];
      AlwaysSound(limit, ops[..|ops| - 1]);
      hide Sound, Put, Deleted;
      match op
      case Set(key, value, ttl, now) => PutSound(before, limit, key, NewEntry(value, ttl, now));
      case Get(key, _) => DeletedSound(before, limit, key);
      case Delete(key) => DeletedSound(before, limit, key);
      case Purge => NothingSound<V>(limit);
    }
  }

  lemma NothingSound<V>(limit: int)
    ensures Sound<V>(State(map[], []), limit)
  {
  }

  lemma OrderedAreCached<V>(s: State<V>, limit: int)
    requires Sound(s, limit)
    ensures forall n :: 0 <= n < |s.order| ==> s.order[n] in s.items
  {
  }

  lemma InsertsMore<V>(limit: int, ops: seq<Op<V>>, order: seq<string>, at: seq<int>, key: string, i: int)
    requires Inserts(limit, ops, order, at) && InsertedBy(limit, ops, key, i)
    requires forall n :: 0 <= n < |at| ==> at[n] < i
    ensures Inserts(limit, ops, order + [key], at + [i])
  {
    hide InsertedBy;
  }

  /** The order lists the cached keys by the Set that inserted each, so what is pushed out is the key inserted first. */
  lemma {:induction false} OrderIsInsertionOrder<V>(limit: int, ops: seq<Op<V>>) returns (at: seq<int>)
    ensures Inserts(limit, ops, After(limit, ops).order, at)
  {
    if ops == [] {
      at := [];
    } else {
      hide Inserts, After, Sound;
      var places := OrderIsInsertionOrder(limit, ops[..|ops| - 1]);
      at := InsertStep(limit, ops, places);
    }
  }

  lemma InsertStep<V>(limit: int, ops: seq<Op<V>>, places: seq<int>) returns (at: seq<int>)
    requires ops != [] && Inserts(limit, ops[..|ops| - 1], After(limit, ops[..|ops| - 1]).order, places)
    ensures Inserts(limit, ops, After(limit, ops).order, at)
  {
    var before, op := ops[..|ops| - 1], ops[|ops| - 1];
    var s, t := After(limit, before), After(limit, ops);
    assert t == Apply(s, limit, op);
    hide After, Apply, InsertedBy, Sound, Inserts, Within;
    AlwaysSound(limit, before);
    AlwaysSound(limit, ops);
    OrderedAreCached(t, limit);
    var small, within := OrderSteps(s, limit, op);
    assert forall n :: 0 <= n < |small| ==> small[n] == t.order[n];
    at := InsertsWithin(limit, ops, s.order, places, small, within);
    if op.Set? && op.key !in s.items {
      assert t.order[|small|] == op.key;
      InsertedNow(limit, ops);
      InsertsMore(limit, ops, small, at, op.key, |ops| - 1);
      at := at + [|ops| - 1];
    }
  }
}
