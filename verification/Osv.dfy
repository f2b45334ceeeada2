/** Vulnerability lookups over two caches: recent answers, and malicious answers kept longer so that an outage
    cannot let a package known to be malicious through. */
module Osv {
  import opened Options
  import opened Cache
  import Intel
  import Text

  type Findings = seq<Intel.Finding>

  const RETENTION := 604_800_000_000_000  // seven days in nanoseconds
  const LIMIT := 4096

  datatype Provider = Provider(results: State<Findings>, known: State<Findings>)

  /** What a query does to both caches and what it returns; None is an error. `fetched` is what OSV would answer. */
  ghost function Asked(p: Provider, ttl: int, key: string, now: int, fetched: Option<Findings>): (Provider, Option<Findings>) {
    var (results, hit) := Got(p.results, key, now);
    if hit.Some? then (p.(results := results), hit)
    else if fetched.None? then
      var (known, kept) := Got(p.known, key, now);
      (Provider(results, known), kept)
    else
      (Provider(Put(results, LIMIT, key, NewEntry(fetched.value, ttl, now)), Remember(p.known, key, now, fetched.value)),
       fetched)
  }

  ghost function Remember(known: State<Findings>, key: string, now: int, findings: Findings): State<Findings> {
    if Intel.HasMalware(findings) then Put(known, LIMIT, key, NewEntry(findings, RETENTION, now)) else Deleted(known, key)
  }

  // ---- packages ----

  datatype Package = Package(ecosystem: string, name: string, version: string)

  /** OSV's name for an ecosystem it covers. */
  function OsvEcosystem(ecosystem: string): Option<string> {
    if ecosystem == "npm" then Some("npm")
    else if ecosystem == "pypi" then Some("PyPI")
    else if ecosystem == "maven" then Some("Maven")
    else if ecosystem == "go" then Some("Go")
    else None
  }

  /** The key a package is cached under; none when OSV does not cover it or it is not fully named. */
  function KeyOf(pkg: Package): Option<string> {
    var ecosystem := OsvEcosystem(pkg.ecosystem);
    if ecosystem.None? || pkg.name == "" || pkg.version == "" then None
    else Some(ecosystem.value + "|" + pkg.name + "|" + pkg.version)
  }

  /** Exactly the npm, PyPI, Maven and Go packages with a name and a version are looked up, under OSV's names for these
      ecosystems. */
  lemma LookedUp(pkg: Package)
    ensures KeyOf(pkg).Some? <==> pkg.ecosystem in {"npm", "pypi", "maven", "go"} && pkg.name != "" && pkg.version != ""
    ensures KeyOf(pkg).Some? ==>
      && (pkg.ecosystem == "npm" ==> KeyOf(pkg) == Some("npm|" + Tail(pkg)))
      && (pkg.ecosystem == "pypi" ==> KeyOf(pkg) == Some("PyPI|" + Tail(pkg)))
      && (pkg.ecosystem == "maven" ==> KeyOf(pkg) == Some("Maven|" + Tail(pkg)))
      && (pkg.ecosystem == "go" ==> KeyOf(pkg) == Some("Go|" + Tail(pkg)))
  {
    assert "npm" + "|" + pkg.name + "|" + pkg.version == "npm|" + Tail(pkg);
    assert "PyPI" + "|" + pkg.name + "|" + pkg.version == "PyPI|" + Tail(pkg);
    assert "Maven" + "|" + pkg.name + "|" + pkg.version == "Maven|" + Tail(pkg);
    assert "Go" + "|" + pkg.name + "|" + pkg.version == "Go|" + Tail(pkg);
  }

  /** Name and version as they stand in the key. */
  function Tail(pkg: Package): string {
    pkg.name + "|" + pkg.version
  }

  /** Another package is cached under the same key. */
  ghost predicate Shared(p: Package) {
    exists q :: q != p && KeyOf(q) == KeyOf(p)
  }

  /** A bar that could part name and version elsewhere. */
  predicate SecondBar(p: Package) {
    exists i :: 0 < i < |Tail(p)| - 1 && i != |p.name| && Tail(p)[i] == '|'
  }

  /** A package shares its key, and so its findings, exactly when its name or version holds a bar that could part them. */
  lemma KeyIsSharedIff(p: Package)
    requires KeyOf(p).Some?
    ensures Shared(p) <==> SecondBar(p)
  {
    if SecondBar(p) {
      var q := PartedElsewhere(p);
    }
    if Shared(p) {
      var q :| q != p && KeyOf(q) == KeyOf(p);
      OtherBar(p, q);
    }
  }

  lemma PartedElsewhere(p: Package) returns (q: Package)
    requires KeyOf(p).Some? && SecondBar(p)
    ensures q != p && KeyOf(q) == KeyOf(p)
  {
    KeyIs(p);
    hide KeyOf;
    var i :| 0 < i < |Tail(p)| - 1 && i != |p.name| && Tail(p)[i] == '|';
    q := Package(p.ecosystem, Tail(p)[..i], Tail(p)[i + 1..]);
    assert Tail(q) == Tail(p);
    KeyIs(q);
    assert |q.name| != |p.name|;
  }

  lemma OtherBar(p: Package, q: Package)
    requires KeyOf(p).Some? && q != p && KeyOf(q) == KeyOf(p)
    ensures SecondBar(p)
  {
    SameParts(p, q);
    assert q.name != "" && q.version != "";
    hide KeyOf;
    var i := |q.name|;
    assert Tail(p)[i] == '|';
    assert q.name == Tail(p)[..i] && q.version == Tail(p)[i + 1..];
    assert p.name == Tail(p)[..|p.name|] && p.version == Tail(p)[|p.name| + 1..];
  }

  lemma KeyIs(p: Package)
    requires OsvEcosystem(p.ecosystem).Some? && p.name != "" && p.version != ""
    ensures KeyOf(p) == Some(OsvEcosystem(p.ecosystem).value + ['|'] + Tail(p))
  {
    var ecosystem := OsvEcosystem(p.ecosystem).value;
    assert ecosystem + "|" + p.name + "|" + p.version == ecosystem + ['|'] + Tail(p);
  }

  lemma SameParts(p: Package, q: Package)
    requires KeyOf(p).Some? && KeyOf(q) == KeyOf(p)
    ensures q.ecosystem == p.ecosystem && Tail(q) == Tail(p)
  {
    hide Text.Split, Tail;
    KeyIs(p);
    KeyIs(q);
    var e, f := OsvEcosystem(p.ecosystem).value, OsvEcosystem(q.ecosystem).value;
    Text.SplitFirst(e, Tail(p), '|');
    Text.SplitFirst(f, Tail(q), '|');
    assert Text.Split(KeyOf(p).value, '|')[0] == e == f;
    assert Tail(p) == (e + ['|'] + Tail(p))[|e| + 1..];
    assert Tail(q) == (e + ['|'] + Tail(q))[|e| + 1..];
  }

  lemma BarsCollide()
    ensures var p, q := Package("npm", "a|b", "1"), Package("npm", "a", "b|1");
      p != q && KeyOf(p) == KeyOf(q) && KeyOf(p).Some?
  {
    assert "npm" + "|" + "a|b" + "|" + "1" == "npm" + "|" + "a" + "|" + "b|1";
  }

  class OSVProvider {
    const cache: Cache<Findings>
    const malicious: Cache<Findings>
    const ttl: int

    ghost predicate Valid()
      reads this, cache, malicious
    {
      cache != malicious && cache.limit == malicious.limit == LIMIT && cache.Valid() && malicious.Valid()
    }

    ghost function Value(): Provider
      reads this, cache, malicious
    {
      Provider(cache.Value(), malicious.Value())
    }

    constructor (ttl: int)
      ensures Valid() && fresh(cache) && fresh(malicious) && this.ttl == ttl
      ensures Value() == Provider(State(map[], []), State(map[], []))
    {
      this.ttl := ttl;
      cache := new Cache(LIMIT);
      malicious := new Cache(LIMIT);
    }

    /** A package without a key gets no findings and no lookup. */
    method Query(pkg: Package, now: int, fetched: Option<Findings>) returns (answer: Option<Findings>)
      requires Valid()
      modifies cache, malicious
      ensures Valid()
      ensures KeyOf(pkg).None? ==> Value() == old(Value()) && answer == Some([])
      ensures KeyOf(pkg).Some? ==> (Value(), answer) == Asked(old(Value()), ttl, KeyOf(pkg).value, now, fetched)
    {
      var named := KeyOf(pkg);
      if named.None? {
        return Some([]);
      }
      var key := named.value;
      answer := cache.Get(key, now);
      if answer.Some? {
        return;
      }
      if fetched.None? {
        answer := malicious.Get(key, now);
        return;
      }
      cache.Set(key, fetched.value, ttl, now);
      var malware, _ := Intel.MalwareDecision(fetched.value);
      if malware {
        malicious.Set(key, fetched.value, RETENTION, now);
      } else {
        malicious.Delete(key);
      }
      answer := fetched;
    }
  }

  // ---- every sequential run ----

  datatype Event = Event(key: string, now: int, fetched: Option<Findings>)

  datatype Fetch = Fetch(findings: Findings, at: int)

  /** last: the most recent successful fetch made for each key; pushed: the keys pushed out of the malicious cache since
      their last fetch; culprits: the keys ever fetched malicious. */
  datatype World = World(p: Provider, last: map<string, Fetch>, pushed: set<string>, culprits: set<string>)

  const START := World(Provider(State(map[], []), State(map[], [])), map[], {}, {})

  ghost predicate Fetches(w: World, e: Event) {
    Got(w.p.results, e.key, e.now).1.None? && e.fetched.Some?
  }

  ghost function Next(w: World, ttl: int, e: Event): World {
    var p := Asked(w.p, ttl, e.key, e.now, e.fetched).0;
    if Fetches(w, e) then
      World(p, w.last[e.key := Fetch(e.fetched.value, e.now)], StillPushed(w, e.key, e.fetched.value),
            if Intel.HasMalware(e.fetched.value) then w.culprits + {e.key} else w.culprits)
    else w.(p := p)
  }

  /** A fetch brings its key back; a malicious one may push another out. */
  ghost function StillPushed(w: World, key: string, findings: Findings): set<string> {
    w.pushed - {key} + if Intel.HasMalware(findings) then PushedOut(w.p.known, LIMIT, key) else {}
  }

  ghost function After(ttl: int, events: seq<Event>): World {
    if events == [] then START else Next(After(ttl, events[..|events| - 1]), ttl, events[|events| - 1])
  }

  /** A run goes on query by query. */
  lemma AfterMore(ttl: int, events: seq<Event>, e: Event)
    ensures After(ttl, []) == START && After(ttl, events + [e]) == Next(After(ttl, events), ttl, e)
  {
    assert (events + [e])[..|events|] == events;
  }

  /** Recent answers are last fetches. */
  ghost predicate RecentIsLast(results: State<Findings>, last: map<string, Fetch>) {
    forall k :: k in results.items ==> k in last && results.items[k].value == last[k].findings
  }

  /** Kept malicious answers are last fetches, malicious, and not pushed out. */
  ghost predicate KnownIsLast(known: State<Findings>, last: map<string, Fetch>, pushed: set<string>) {
    forall k :: k in known.items ==>
      && k in last && Intel.HasMalware(last[k].findings) && k !in pushed
      && known.items[k] == Entry(last[k].findings, Some(last[k].at + RETENTION))
  }

  /** Every malicious last fetch within its retention is kept, or was pushed out. */
  ghost predicate LastIsKnown(known: State<Findings>, last: map<string, Fetch>, pushed: set<string>, clock: int) {
    forall k :: k in last && Intel.HasMalware(last[k].findings) && clock <= last[k].at + RETENTION && k !in pushed ==>
      k in known.items
  }

  ghost predicate Inv(w: World, clock: int) {
    && Sound(w.p.results, LIMIT) && RecentIsLast(w.p.results, w.last)
    && KnownInv(w.p.known, w.last, w.pushed, clock)
  }

  ghost predicate KnownInv(known: State<Findings>, last: map<string, Fetch>, pushed: set<string>, clock: int) {
    Sound(known, LIMIT) && KnownIsLast(known, last, pushed) && LastIsKnown(known, last, pushed, clock)
  }

  lemma PutItems(s: State<Findings>, key: string, e: Entry<Findings>)
    requires Sound(s, LIMIT)
    ensures var t := Put(s, LIMIT, key, e);
      && Sound(t, LIMIT) && key in t.items && t.items[key] == e
      && (forall k :: k in t.items && k != key ==> k in s.items && t.items[k] == s.items[k])
      && (key in s.items || |s.items| < LIMIT ==> forall k :: k in s.items ==> k in t.items)
  {
    PutSound(s, LIMIT, key, e);
  }

  lemma GotItems(s: State<Findings>, key: string, now: int)
    requires Sound(s, LIMIT)
    ensures var (t, found) := Got(s, key, now);
      && Sound(t, LIMIT)
      && (forall k :: k in t.items ==> k in s.items && t.items[k] == s.items[k])
      && (forall k :: k in s.items && !Expired(s.items[k], now) ==> k in t.items)
      && (found.Some? <==> key in s.items && !Expired(s.items[key], now))
      && (found.Some? ==> found.value == s.items[key].value)
  {
    DeletedSound(s, LIMIT, key);
  }

  lemma MalwareRemembered(known: State<Findings>, last: map<string, Fetch>, pushed: set<string>,
                          key: string, now: int, findings: Findings, clock: int)
    requires KnownInv(known, last, pushed, clock) && Intel.HasMalware(findings)
    ensures KnownInv(Remember(known, key, now, findings), last[key := Fetch(findings, now)],
                     pushed - {key} + PushedOut(known, LIMIT, key), clock)
  {
    hide Sound, Put, PushedOut, Intel.HasMalware;
    var e := NewEntry(findings, RETENTION, now);
    PutSound(known, LIMIT, key, e);
    PutLoses(known, LIMIT, key, e);
    var t, after, out := Put(known, LIMIT, key, e), last[key := Fetch(findings, now)], PushedOut(known, LIMIT, key);
    forall k | k in after && Intel.HasMalware(after[k].findings) && clock <= after[k].at + RETENTION
      && k !in pushed - {key} + out
      ensures k in t.items
    {
      assert k != key ==> k in known.items;
    }
  }

  lemma CleanRemembered(known: State<Findings>, last: map<string, Fetch>, pushed: set<string>,
                        key: string, now: int, findings: Findings, clock: int)
    requires KnownInv(known, last, pushed, clock) && !Intel.HasMalware(findings)
    ensures KnownInv(Remember(known, key, now, findings), last[key := Fetch(findings, now)], pushed - {key}, clock)
  {
    hide Sound, Deleted, Intel.HasMalware;
    DeletedSound(known, LIMIT, key);
    DeletedKeeps(known, key);
    var t, after := Deleted(known, key), last[key := Fetch(findings, now)];
    forall k | k in t.items
      ensures k in after && Intel.HasMalware(after[k].findings) && k !in pushed - {key}
      ensures t.items[k] == Entry(after[k].findings, Some(after[k].at + RETENTION))
    {
      assert k in known.items && after[k] == last[k];
    }
    forall k | k in after && Intel.HasMalware(after[k].findings) && clock <= after[k].at + RETENTION && k !in pushed - {key}
      ensures k in t.items
    {
      assert k != key && k in known.items;
    }
  }

  lemma InvStep(w: World, ttl: int, e: Event, clock: int)
    requires Inv(w, clock) && e.now <= clock
    ensures Inv(Next(w, ttl, e), clock)
  {
    hide Inv, Next, Fetches;
    if Fetches(w, e) {
      InvFetch(w, ttl, e, clock);
    } else {
      InvCached(w, ttl, e, clock);
    }
  }

  /** A query answered from a cache, or not at all, at most drops expired entries. */
  lemma InvCached(w: World, ttl: int, e: Event, clock: int)
    requires Inv(w, clock) && e.now <= clock && !Fetches(w, e)
    ensures Inv(Next(w, ttl, e), clock)
  {
    hide Sound, Put, Got, Remember, Intel.HasMalware;
    GotItems(w.p.results, e.key, e.now);
    GotItems(w.p.known, e.key, e.now);
  }

  lemma RecentKept(results: State<Findings>, last: map<string, Fetch>, ttl: int, key: string, now: int, findings: Findings)
    requires Sound(results, LIMIT) && RecentIsLast(results, last)
    ensures var t := Put(Got(results, key, now).0, LIMIT, key, NewEntry(findings, ttl, now));
      Sound(t, LIMIT) && RecentIsLast(t, last[key := Fetch(findings, now)])
  {
    hide Sound, Put, Got;
    GotItems(results, key, now);
    PutItems(Got(results, key, now).0, key, NewEntry(findings, ttl, now));
  }

  lemma InvFetch(w: World, ttl: int, e: Event, clock: int)
    requires Inv(w, clock) && e.now <= clock && Fetches(w, e)
    ensures Inv(Next(w, ttl, e), clock)
  {
    hide Sound, Put, Got, Remember, Intel.HasMalware, KnownInv, RecentIsLast, PushedOut;
    var findings := e.fetched.value;
    RecentKept(w.p.results, w.last, ttl, e.key, e.now, findings);
    if Intel.HasMalware(findings) {
      MalwareRemembered(w.p.known, w.last, w.pushed, e.key, e.now, findings, clock);
    } else {
      CleanRemembered(w.p.known, w.last, w.pushed, e.key, e.now, findings, clock);
      assert w.pushed - {e.key} + {} == w.pushed - {e.key};
    }
  }

  lemma {:induction false} Invariant(ttl: int, events: seq<Event>, clock: int)
    requires forall e :: e in events ==> e.now <= clock
    ensures Inv(After(ttl, events), clock)
  {
    if events != [] {
      hide Inv, Next;
      var before := events[..|events| - 1];
      assert forall e :: e in before ==> e in events;
      Invariant(ttl, before, clock);
      InvStep(After(ttl, before), ttl, events[|events| - 1], clock);
    }
  }

  /** Whichever cache serves it, an answer is the most recent successful fetch for its key. */
  lemma AnswerIsLastFetch(ttl: int, events: seq<Event>, e: Event)
    requires forall q :: q in events ==> q.now <= e.now
    ensures var w := After(ttl, events);
      var (p, answer) := Asked(w.p, ttl, e.key, e.now, e.fetched);
      answer.Some? ==> var last := Next(w, ttl, e).last; e.key in last && last[e.key].findings == answer.value
  {
    hide After, Put, Remember, Intel.HasMalware, Sound;
    Invariant(ttl, events, e.now);
    var w := After(ttl, events);
    GotItems(w.p.results, e.key, e.now);
    GotItems(w.p.known, e.key, e.now);
  }

  /** For seven days after a malicious fetch, a query whose own fetch fails still returns that fetch's findings, exactly
      unless the key was pushed out of the malicious cache since and the recent answer is gone too. */
  lemma MalwareOutlivesOutage(ttl: int, events: seq<Event>, key: string, now: int)
    requires forall q :: q in events ==> q.now <= now
    requires var w := After(ttl, events);
      && key in w.last && Intel.HasMalware(w.last[key].findings)
      && now <= w.last[key].at + 7 * 24 * 60 * 60 * 1_000_000_000
    ensures var w := After(ttl, events);
      Asked(w.p, ttl, key, now, None).1 == Some(w.last[key].findings) <==>
        key !in w.pushed || Got(w.p.results, key, now).1.Some?
  {
    hide After, Put, Got, Remember, Sound, Intel.HasMalware;
    Invariant(ttl, events, now);
    var w := After(ttl, events);
    GotItems(w.p.results, key, now);
    GotItems(w.p.known, key, now);
  }

  /** Whatever is pushed out was once fetched malicious, and nothing is while those keys fit in the cache. */
  ghost predicate PushInv(w: World) {
    && Sound(w.p.known, LIMIT) && w.p.known.items.Keys <= w.culprits && w.pushed <= w.culprits
    && (|w.culprits| <= 4096 ==> w.pushed == {})
  }

  /** A key is pushed out only by a malicious fetch of another key: ordinary queries, however many, push out nothing. */
  lemma OnlyMalwarePushes(w: World, ttl: int, e: Event)
    requires PushInv(w)
    ensures PushInv(Next(w, ttl, e))
    ensures forall k :: k in Next(w, ttl, e).pushed && k !in w.pushed ==>
      Fetches(w, e) && Intel.HasMalware(e.fetched.value) && k != e.key
  {
    hide Sound, Put, Got, Deleted, Intel.HasMalware;
    if !Fetches(w, e) {
      GotItems(w.p.known, e.key, e.now);
    } else if Intel.HasMalware(e.fetched.value) {
      PutSound(w.p.known, LIMIT, e.key, NewEntry(e.fetched.value, RETENTION, e.now));
      PutLoses(w.p.known, LIMIT, e.key, NewEntry(e.fetched.value, RETENTION, e.now));
      Subset(w.culprits, w.culprits + {e.key});
      PushedIsCached(w.p.known, e.key);
      if e.key !in w.p.known.items {
        RoomLeft(w.p.known.items.Keys, e.key, w.culprits + {e.key});
      }
    } else {
      DeletedSound(w.p.known, LIMIT, e.key);
      DeletedKeeps(w.p.known, e.key);
    }
  }

  /** In every run nothing is pushed out while at most 4096 keys have been fetched malicious. */
  lemma {:induction false} NothingPushed(ttl: int, events: seq<Event>)
    ensures PushInv(After(ttl, events))
  {
    if events != [] {
      hide PushInv, Next;
      var n := |events| - 1;
      NothingPushed(ttl, events[..n]);
      OnlyMalwarePushes(After(ttl, events[..n]), ttl, events[n]);
    }
  }

  lemma PushedIsCached(s: State<Findings>, key: string)
    requires Sound(s, LIMIT)
    ensures PushedOut(s, LIMIT, key) <= s.items.Keys
  {
    if s.order != [] {
      assert s.order[0] in s.order;
    }
  }

  /** A clean fetch forgets an earlier malicious one: after it, an outage brings back no malicious answer. */
  lemma CleanFetchForgets(ttl: int, events: seq<Event>, key: string, now: int)
    requires forall q :: q in events ==> q.now <= now
    requires var w := After(ttl, events); key in w.last && !Intel.HasMalware(w.last[key].findings)
    ensures var answer := Asked(After(ttl, events).p, ttl, key, now, None).1;
      answer.Some? ==> !Intel.HasMalware(answer.value)
  {
    Invariant(ttl, events, now);
    var w := After(ttl, events);
    GotItems(w.p.results, key, now);
    GotItems(w.p.known, key, now);
  }
}
