/** The pool of the ClickHouse connections (src/ch_client_pool.cpp), as atomic steps: each method is one region under
    the mutex, or one action on a connection between two of them, so any sequence of calls is an interleaving. */
module ClientPool {
  import opened Common

  /** The address and the timeouts; a receive timeout of 0 is unbounded. */
  datatype Key = Key(uri: string, connect: nat, receive: nat, send: nat)

  /** A connection has a number. */
  datatype Idle = Idle(conn: nat, returnedAt: int, bounded: bool)

  /** Who holds a lease: an acquire in progress, perhaps with a connection from the pool in its hand, or a caller. */
  datatype Holder = Opening(key: Key, hand: Option<nat>, mustPing: bool) | Lent(key: Key, conn: nat)

  function ConnOf(h: Holder): Option<nat> {
    if h.Lent? then Some(h.conn) else h.hand
  }

  // ---- the leases ----

  ghost function Members(holders: map<nat, Holder>, uri: string): set<nat> {
    set t | t in holders && holders[t].key.uri == uri
  }

  ghost function Count(holders: map<nat, Holder>, uri: string): nat {
    |Members(holders, uri)|
  }

  function LeaseOf(leased: map<string, nat>, uri: string): nat {
    if uri in leased then leased[uri] else 0
  }

  ghost predicate LeaseAt(leased: map<string, nat>, holders: map<nat, Holder>, uri: string) {
    LeaseOf(leased, uri) == Count(holders, uri) && (uri in leased ==> leased[uri] > 0)
  }

  /** The lease count of an address is the number of its leases and of its acquires in progress. */
  ghost predicate Leases(leased: map<string, nat>, holders: map<nat, Holder>) {
    forall uri: string :: LeaseAt(leased, holders, uri)
  }

  lemma Added(holders: map<nat, Holder>, t: nat, h: Holder, uri: string)
    requires t !in holders
    ensures Count(holders[t := h], uri) == Count(holders, uri) + (if h.key.uri == uri then 1 else 0)
  {
    assert Members(holders[t := h], uri) == Members(holders, uri) + (if h.key.uri == uri then {t} else {});
  }

  lemma Removed(holders: map<nat, Holder>, t: nat, uri: string)
    requires t in holders
    ensures Count(holders, uri) == Count(holders - {t}, uri) + (if holders[t].key.uri == uri then 1 else 0)
  {
    Added(holders - {t}, t, holders[t], uri);
    assert (holders - {t})[t := holders[t]] == holders;
  }

  lemma LeaseTaken(leased: map<string, nat>, holders: map<nat, Holder>, t: nat, h: Holder)
    requires Leases(leased, holders) && t !in holders
    ensures Leases(leased[h.key.uri := LeaseOf(leased, h.key.uri) + 1], holders[t := h])
  {
    hide Count;
    var after, holding := leased[h.key.uri := LeaseOf(leased, h.key.uri) + 1], holders[t := h];
    forall uri: string ensures LeaseAt(after, holding, uri) {
      assert LeaseAt(leased, holders, uri);
      Added(holders, t, h, uri);
    }
  }

  function Returned(leased: map<string, nat>, uri: string): map<string, nat>
    requires uri in leased && leased[uri] > 0
  {
    if leased[uri] == 1 then leased - {uri} else leased[uri := leased[uri] - 1]
  }

  /** The count of a lease that ends is not 0. */
  lemma LeaseEnded(leased: map<string, nat>, holders: map<nat, Holder>, t: nat)
    requires Leases(leased, holders) && t in holders
    ensures var uri := holders[t].key.uri;
            uri in leased && leased[uri] > 0 && Leases(Returned(leased, uri), holders - {t})
  {
    hide Count;
    var uri := holders[t].key.uri;
    Removed(holders, t, uri);
    assert LeaseAt(leased, holders, uri);
    var after, holding := Returned(leased, uri), holders - {t};
    forall other: string ensures LeaseAt(after, holding, other) {
      assert LeaseAt(leased, holders, other);
      Removed(holders, t, other);
    }
  }

  lemma LeaseKept(leased: map<string, nat>, holders: map<nat, Holder>, t: nat, h: Holder)
    requires Leases(leased, holders) && t in holders && h.key == holders[t].key
    ensures Leases(leased, holders[t := h])
  {
    hide Count;
    var holding := holders[t := h];
    assert holding - {t} == holders - {t};
    forall uri: string ensures LeaseAt(leased, holding, uri) {
      assert LeaseAt(leased, holders, uri);
      Removed(holders, t, uri);
      Removed(holding, t, uri);
    }
  }

  // ---- the places of the connections ----

  predicate EntryFine(e: Idle, key: Key, made: map<nat, Key>, dirty: set<nat>) {
    e.conn in made && made[e.conn] == key && e.conn !in dirty && e.bounded == (key.receive > 0)
  }

  predicate Distinct(bucket: seq<Idle>) {
    forall i, j | 0 <= i < j < |bucket| :: bucket[i].conn != bucket[j].conn
  }

  predicate EntriesFine(bucket: seq<Idle>, key: Key, made: map<nat, Key>, dirty: set<nat>) {
    forall i | 0 <= i < |bucket| :: EntryFine(bucket[i], key, made, dirty)
  }

  /** A bucket holds clean connections of its key, each once, and no more than it may. */
  predicate BucketFine(bucket: seq<Idle>, key: Key, made: map<nat, Key>, dirty: set<nat>, maxIdle: nat) {
    0 < |bucket| <= maxIdle && EntriesFine(bucket, key, made, dirty) && Distinct(bucket)
  }

  predicate IdleFine(idle: map<Key, seq<Idle>>, made: map<nat, Key>, dirty: set<nat>, maxIdle: nat) {
    forall key | key in idle :: BucketFine(idle[key], key, made, dirty, maxIdle)
  }

  predicate Holds(h: Holder, c: nat) {
    ConnOf(h) == Some(c)
  }

  /** A held connection was opened with the key of its holder; one in the hand of an acquire is clean. */
  predicate HolderFine(h: Holder, made: map<nat, Key>, dirty: set<nat>) {
    var c := ConnOf(h);
    c.Some? ==> c.value in made && made[c.value] == h.key && (h.Opening? ==> c.value !in dirty)
  }

  predicate HoldersFine(holders: map<nat, Holder>, made: map<nat, Key>, dirty: set<nat>) {
    && (forall t | t in holders :: HolderFine(holders[t], made, dirty))
    && (forall t, u | t in holders && u in holders && t != u && ConnOf(holders[t]).Some? ::
          ConnOf(holders[t]) != ConnOf(holders[u]))
  }

  predicate InBucket(bucket: seq<Idle>, c: nat) {
    exists i | 0 <= i < |bucket| :: bucket[i].conn == c
  }

  /** No connection is idle and held. */
  predicate Apart(idle: map<Key, seq<Idle>>, holders: map<nat, Holder>) {
    forall key, t | key in idle && t in holders && ConnOf(holders[t]).Some? ::
      !InBucket(idle[key], ConnOf(holders[t]).value)
  }

  predicate Numbered(made: map<nat, Key>, next: nat) {
    forall c | c in made :: c < next
  }

  // ---- the sweep ----

  predicate Expired(e: Idle, now: int, ttl: nat) {
    now - e.returnedAt >= ttl
  }

  function Young(now: int, ttl: nat): Idle -> bool {
    (e: Idle) => !Expired(e, now, ttl)
  }

  /** The buckets without the expired connections; an empty bucket goes. */
  ghost function Swept(idle: map<Key, seq<Idle>>, now: int, ttl: nat): map<Key, seq<Idle>> {
    if ttl == 0 then idle
    else map key | key in idle && Filter(idle[key], Young(now, ttl)) != [] :: Filter(idle[key], Young(now, ttl))
  }

  /** The sweep of all buckets but some. */
  ghost function SweptBut(idle: map<Key, seq<Idle>>, keys: set<Key>, now: int, ttl: nat): map<Key, seq<Idle>> {
    map key | key in idle && key !in keys && Filter(idle[key], Young(now, ttl)) != [] ::
      Filter(idle[key], Young(now, ttl))
  }

  lemma SweptMore(idle: map<Key, seq<Idle>>, keys: set<Key>, key: Key, now: int, ttl: nat)
    requires key in keys && key in idle
    ensures var young, before := Filter(idle[key], Young(now, ttl)), SweptBut(idle, keys, now, ttl);
            SweptBut(idle, keys - {key}, now, ttl) == if young != [] then before[key := young] else before
  {
    hide Filter;
  }

  lemma SweptAll(idle: map<Key, seq<Idle>>, now: int, ttl: nat)
    ensures SweptBut(idle, idle.Keys, now, ttl) == map[]
    ensures Swept(idle, now, ttl) == if ttl > 0 then SweptBut(idle, {}, now, ttl) else idle
  {
    hide Filter;
  }

  lemma {:induction false} FilterFine(bucket: seq<Idle>, keep: Idle -> bool, key: Key, made: map<nat, Key>,
                                      dirty: set<nat>)
    requires EntriesFine(bucket, key, made, dirty) && Distinct(bucket)
    ensures EntriesFine(Filter(bucket, keep), key, made, dirty) && Distinct(Filter(bucket, keep))
    ensures |Filter(bucket, keep)| <= |bucket|
    ensures forall c :: InBucket(Filter(bucket, keep), c) ==> InBucket(bucket, c)
  {
    hide EntryFine;
    if bucket != [] {
      var last := |bucket| - 1;
      var before, kept := bucket[..last], Filter(bucket[..last], keep);
      FilterFine(before, keep, key, made, dirty);
      assert !InBucket(before, bucket[last].conn);
      forall c | InBucket(Filter(bucket, keep), c) ensures InBucket(bucket, c) {
        if InBucket(kept, c) {
          var i :| 0 <= i < |before| && before[i].conn == c;
          assert bucket[i].conn == c;
        } else {
          assert bucket[last].conn == c;
        }
      }
      forall i | 0 <= i < |kept| ensures kept[i].conn != bucket[last].conn {
        assert InBucket(kept, kept[i].conn);
      }
    }
  }

  lemma SweptFine(idle: map<Key, seq<Idle>>, now: int, ttl: nat, made: map<nat, Key>, dirty: set<nat>,
                  maxIdle: nat, holders: map<nat, Holder>)
    requires IdleFine(idle, made, dirty, maxIdle) && Apart(idle, holders)
    ensures IdleFine(Swept(idle, now, ttl), made, dirty, maxIdle) && Apart(Swept(idle, now, ttl), holders)
  {
    hide Filter, EntriesFine, Distinct, InBucket;
    if ttl > 0 {
      forall key | key in idle ensures
        var young := Filter(idle[key], Young(now, ttl));
        && EntriesFine(young, key, made, dirty) && Distinct(young) && |young| <= |idle[key]|
        && forall c :: InBucket(young, c) ==> InBucket(idle[key], c)
      {
        FilterFine(idle[key], Young(now, ttl), key, made, dirty);
      }
    }
  }

  // ---- the choice of an idle connection ----

  predicate ValidationDue(e: Idle, now: int, validateAfter: nat) {
    validateAfter > 0 && now - e.returnedAt >= validateAfter
  }

  /** A connection that may be lent: not expired; and when it is stale, one that a ping can check. */
  predicate Lendable(e: Idle, now: int, ttl: nat, validateAfter: nat) {
    (ttl > 0 ==> !Expired(e, now, ttl)) && (ValidationDue(e, now, validateAfter) ==> e.bounded)
  }

  /** The last lendable connection of a bucket; those after it are closed. */
  method TakeLast(bucket: seq<Idle>, now: int, ttl: nat, validateAfter: nat)
    returns (rest: seq<Idle>, found: Option<Idle>)
    ensures rest <= bucket
    ensures found.Some? ==>
              |rest| < |bucket| && found.value == bucket[|rest|] && Lendable(found.value, now, ttl, validateAfter)
    ensures found.None? ==> rest == []
    ensures forall i | |rest| + (if found.Some? then 1 else 0) <= i < |bucket| ::
              !Lendable(bucket[i], now, ttl, validateAfter)
  {
    rest, found := bucket, None;
    while rest != [] && found.None?
      invariant rest <= bucket
      invariant found.Some? ==>
                  |rest| < |bucket| && found.value == bucket[|rest|] && Lendable(found.value, now, ttl, validateAfter)
      invariant forall i | |rest| + (if found.Some? then 1 else 0) <= i < |bucket| ::
                  !Lendable(bucket[i], now, ttl, validateAfter)
      decreases |rest|
    {
      var e := rest[|rest| - 1];
      rest := rest[..|rest| - 1];
      if ttl > 0 && Expired(e, now, ttl) {
      } else if ValidationDue(e, now, validateAfter) && !e.bounded {
      } else {
        found := Some(e);
      }
    }
  }

  /** The last lendable connection of a bucket, if there is one, and whether it must answer a ping first. */
  predicate Choice(bucket: seq<Idle>, hand: Option<nat>, mustPing: bool, now: int, ttl: nat, validateAfter: nat) {
    if hand.None? then !mustPing && forall i | 0 <= i < |bucket| :: !Lendable(bucket[i], now, ttl, validateAfter)
    else exists i | 0 <= i < |bucket| ::
           && bucket[i].conn == hand.value && Lendable(bucket[i], now, ttl, validateAfter)
           && (mustPing <==> ValidationDue(bucket[i], now, validateAfter))
           && forall j | i < j < |bucket| :: !Lendable(bucket[j], now, ttl, validateAfter)
  }

  /** A connection that is taken: the last fit one of its bucket, idle for less than the whole ttl; when it is idle for
      as long as a validation needs, it has a receive timeout and must answer a ping. */
  predicate TakenLast(bucket: seq<Idle>, i: nat, conn: nat, mustPing: bool, now: int, ttl: nat, validateAfter: nat) {
    && i < |bucket| && bucket[i].conn == conn
    && (ttl == 0 || now < bucket[i].returnedAt + ttl)
    && (mustPing <==> 0 < validateAfter <= now - bucket[i].returnedAt)
    && (mustPing ==> bucket[i].bounded)
    && forall j | i < j < |bucket| :: Unfit(bucket[j], now, ttl, validateAfter)
  }

  /** A connection that is not taken although it stands in the bucket: idle for the whole ttl, or due for a validation
      with a ping that might never come back. */
  predicate Unfit(e: Idle, now: int, ttl: nat, validateAfter: nat) {
    (0 < ttl <= now - e.returnedAt) || (0 < validateAfter <= now - e.returnedAt && !e.bounded)
  }

  /** What an acquire takes from the bucket of its key: the last fit connection, or none when each one is unfit. */
  ghost predicate LastFit(bucket: seq<Idle>, hand: Option<nat>, mustPing: bool, now: int, ttl: nat,
                          validateAfter: nat) {
    if hand.None? then !mustPing && forall i | 0 <= i < |bucket| :: Unfit(bucket[i], now, ttl, validateAfter)
    else exists i: nat :: TakenLast(bucket, i, hand.value, mustPing, now, ttl, validateAfter)
  }

  /** A bucket after the expired connections went. */
  ghost function FreshIn(bucket: seq<Idle>, now: int, ttl: nat): seq<Idle> {
    if ttl == 0 then bucket else Filter(bucket, Young(now, ttl))
  }

  /** Where an element of a filtered bucket stands: those after it that are kept come after it there too. */
  lemma {:induction false} PlaceOf(bucket: seq<Idle>, keep: Idle -> bool, i: nat) returns (k: nat)
    requires i < |Filter(bucket, keep)|
    ensures k < |bucket| && bucket[k] == Filter(bucket, keep)[i]
    ensures forall j | k < j < |bucket| && keep(bucket[j]) :: bucket[j] in Filter(bucket, keep)[i + 1..]
  {
    var last := |bucket| - 1;
    var before := Filter(bucket[..last], keep);
    if i == |before| {
      k := last;
    } else {
      k := PlaceOf(bucket[..last], keep, i);
      assert Filter(bucket, keep)[i + 1..] == before[i + 1..] + (if keep(bucket[last]) then [bucket[last]] else []);
      forall j | k < j < |bucket| && keep(bucket[j]) ensures bucket[j] in Filter(bucket, keep)[i + 1..] {
        assert j < last ==> bucket[..last][j] == bucket[j];
      }
    }
  }

  lemma FreshPlace(bucket: seq<Idle>, now: int, ttl: nat, i: nat) returns (k: nat)
    requires i < |FreshIn(bucket, now, ttl)|
    ensures k < |bucket| && bucket[k] == FreshIn(bucket, now, ttl)[i]
    ensures forall j | k < j < |bucket| ::
              (0 < ttl <= now - bucket[j].returnedAt) || bucket[j] in FreshIn(bucket, now, ttl)[i + 1..]
  {
    if ttl == 0 {
      k := i;
    } else {
      k := PlaceOf(bucket, Young(now, ttl), i);
    }
  }

  /** A connection of the bucket that did not stay, or stayed and may not be lent, is unfit. */
  lemma UnfitWhenNotLent(bucket: seq<Idle>, i: nat, now: int, ttl: nat, validateAfter: nat)
    requires i < |bucket|
    requires forall k | 0 <= k < |FreshIn(bucket, now, ttl)| ::
               !Lendable(FreshIn(bucket, now, ttl)[k], now, ttl, validateAfter)
    ensures Unfit(bucket[i], now, ttl, validateAfter)
  {
    var young := FreshIn(bucket, now, ttl);
    FilterMembers(bucket, Young(now, ttl));
    if !Expired(bucket[i], now, ttl) || ttl == 0 {
      assert bucket[i] in young;
      var k :| 0 <= k < |young| && young[k] == bucket[i];
    }
  }

  lemma TakenMeaning(bucket: seq<Idle>, i: nat, mustPing: bool, now: int, ttl: nat, validateAfter: nat) returns (k: nat)
    requires var young := FreshIn(bucket, now, ttl);
             && i < |young| && Lendable(young[i], now, ttl, validateAfter)
             && (mustPing <==> ValidationDue(young[i], now, validateAfter))
             && forall j | i < j < |young| :: !Lendable(young[j], now, ttl, validateAfter)
    ensures TakenLast(bucket, k, FreshIn(bucket, now, ttl)[i].conn, mustPing, now, ttl, validateAfter)
  {
    var young := FreshIn(bucket, now, ttl);
    k := FreshPlace(bucket, now, ttl, i);
    hide FreshIn;
    forall j | k < j < |bucket| ensures Unfit(bucket[j], now, ttl, validateAfter) {
      if bucket[j] in young[i + 1..] {
        var m :| i < m < |young| && young[m] == bucket[j];
      }
    }
  }

  /** The choice of the pool, on the times of the connections. */
  lemma ChoiceMeaning(bucket: seq<Idle>, hand: Option<nat>, mustPing: bool, now: int, ttl: nat, validateAfter: nat)
    requires Choice(FreshIn(bucket, now, ttl), hand, mustPing, now, ttl, validateAfter)
    ensures LastFit(bucket, hand, mustPing, now, ttl, validateAfter)
  {
    hide FreshIn, Lendable, Unfit, ValidationDue, TakenLast;
    var young := FreshIn(bucket, now, ttl);
    if hand.None? {
      forall i | 0 <= i < |bucket| ensures Unfit(bucket[i], now, ttl, validateAfter) {
        UnfitWhenNotLent(bucket, i, now, ttl, validateAfter);
      }
    } else {
      var i :| 0 <= i < |young| && young[i].conn == hand.value && Lendable(young[i], now, ttl, validateAfter)
               && (mustPing <==> ValidationDue(young[i], now, validateAfter))
               && forall j | i < j < |young| :: !Lendable(young[j], now, ttl, validateAfter);
      var k := TakenMeaning(bucket, i, mustPing, now, ttl, validateAfter);
    }
  }

  function Bucket(idle: map<Key, seq<Idle>>, key: Key): seq<Idle> {
    if key in idle then idle[key] else []
  }

  /** What is left when a connection is taken from its bucket: the connections before it. The others stay as they
      are; and a bucket with nothing to take is closed. */
  predicate Left(before: map<Key, seq<Idle>>, after: map<Key, seq<Idle>>, key: Key, hand: Option<nat>) {
    var bucket, rest := Bucket(before, key), Bucket(after, key);
    && (if hand.None? then rest == [] else rest < bucket && bucket[|rest|].conn == hand.value)
    && after - {key} == before - {key}
  }

  lemma SweptBucket(idle: map<Key, seq<Idle>>, key: Key, now: int, ttl: nat)
    ensures Bucket(Swept(idle, now, ttl), key) == FreshIn(Bucket(idle, key), now, ttl)
  {
  }

  /** The buckets after one of them keeps a first part. */
  function Trimmed(idle: map<Key, seq<Idle>>, key: Key, rest: seq<Idle>): map<Key, seq<Idle>> {
    if rest == [] then idle - {key} else idle[key := rest]
  }

  lemma TrimmedFine(idle: map<Key, seq<Idle>>, key: Key, rest: seq<Idle>, made: map<nat, Key>, dirty: set<nat>,
                    maxIdle: nat, holders: map<nat, Holder>)
    requires IdleFine(idle, made, dirty, maxIdle) && Apart(idle, holders) && key in idle && rest <= idle[key]
    ensures IdleFine(Trimmed(idle, key, rest), made, dirty, maxIdle) && Apart(Trimmed(idle, key, rest), holders)
  {
    hide EntryFine;
    assert BucketFine(idle[key], key, made, dirty, maxIdle);
    forall c | InBucket(rest, c) ensures InBucket(idle[key], c) {
      var i :| 0 <= i < |rest| && rest[i].conn == c;
      assert idle[key][i].conn == c;
    }
  }

  /** A connection of a bucket is in no other bucket. */
  lemma OnlyThere(idle: map<Key, seq<Idle>>, key: Key, i: nat, other: Key, made: map<nat, Key>, dirty: set<nat>,
                  maxIdle: nat)
    requires IdleFine(idle, made, dirty, maxIdle) && key in idle && i < |idle[key]| && other in idle && other != key
    ensures !InBucket(idle[other], idle[key][i].conn)
  {
    assert EntryFine(idle[key][i], key, made, dirty);
    forall j | 0 <= j < |idle[other]| ensures idle[other][j].conn != idle[key][i].conn {
      assert EntryFine(idle[other][j], other, made, dirty);
    }
  }

  // ---- the steps on the places ----

  /** A connection that leaves the end of a bucket is in no place. */
  lemma TakenIsApart(idle: map<Key, seq<Idle>>, key: Key, rest: seq<Idle>, made: map<nat, Key>, dirty: set<nat>,
                     maxIdle: nat, holders: map<nat, Holder>)
    requires IdleFine(idle, made, dirty, maxIdle) && Apart(idle, holders) && key in idle
    requires rest <= idle[key] && |rest| < |idle[key]|
    ensures var c := idle[key][|rest|].conn;
            && c in made && made[c] == key && c !in dirty && idle[key][|rest|].bounded == (key.receive > 0)
            && (forall other | other in Trimmed(idle, key, rest) :: !InBucket(Trimmed(idle, key, rest)[other], c))
            && (forall t | t in holders :: ConnOf(holders[t]) != Some(c))
  {
    var e := idle[key][|rest|];
    assert BucketFine(idle[key], key, made, dirty, maxIdle);
    assert EntryFine(e, key, made, dirty);
    assert InBucket(idle[key], e.conn);
    forall other | other in Trimmed(idle, key, rest) ensures !InBucket(Trimmed(idle, key, rest)[other], e.conn) {
      if other != key {
        OnlyThere(idle, key, |rest|, other, made, dirty, maxIdle);
      } else {
        assert forall i | 0 <= i < |rest| :: rest[i].conn == idle[key][i].conn != e.conn;
      }
    }
  }

  /** A holder comes, or takes or drops its connection. */
  lemma HolderSet(idle: map<Key, seq<Idle>>, holders: map<nat, Holder>, made: map<nat, Key>, dirty: set<nat>, t: nat,
                  h: Holder)
    requires HoldersFine(holders, made, dirty) && Apart(idle, holders) && HolderFine(h, made, dirty)
    requires ConnOf(h).Some? ==>
               && (forall u | u in holders && u != t :: ConnOf(holders[u]) != ConnOf(h))
               && (forall key | key in idle :: !InBucket(idle[key], ConnOf(h).value))
    ensures HoldersFine(holders[t := h], made, dirty) && Apart(idle, holders[t := h])
  {
    hide HolderFine, InBucket, ConnOf;
  }

  lemma HolderGone(idle: map<Key, seq<Idle>>, holders: map<nat, Holder>, made: map<nat, Key>, dirty: set<nat>, t: nat)
    requires HoldersFine(holders, made, dirty) && Apart(idle, holders) && t in holders
    ensures HoldersFine(holders - {t}, made, dirty) && Apart(idle, holders - {t})
    ensures ConnOf(holders[t]).Some? ==>
              && (forall u | u in holders - {t} :: ConnOf(holders[u]) != ConnOf(holders[t]))
              && (forall key | key in idle :: !InBucket(idle[key], ConnOf(holders[t]).value))
  {
    hide HolderFine, InBucket, ConnOf;
  }

  /** A new connection is in no place yet. */
  lemma ConnMade(idle: map<Key, seq<Idle>>, holders: map<nat, Holder>, made: map<nat, Key>, dirty: set<nat>,
                 maxIdle: nat, c: nat, key: Key)
    requires IdleFine(idle, made, dirty, maxIdle) && HoldersFine(holders, made, dirty) && c !in made
    ensures IdleFine(idle, made[c := key], dirty, maxIdle) && HoldersFine(holders, made[c := key], dirty)
    ensures forall t | t in holders :: ConnOf(holders[t]) != Some(c)
    ensures forall k | k in idle :: !InBucket(idle[k], c)
  {
    hide ConnOf;
    forall k | k in idle ensures !InBucket(idle[k], c) && BucketFine(idle[k], k, made[c := key], dirty, maxIdle) {
      assert BucketFine(idle[k], k, made, dirty, maxIdle);
      forall i | 0 <= i < |idle[k]| ensures EntryFine(idle[k][i], k, made[c := key], dirty) && idle[k][i].conn != c {
        assert EntryFine(idle[k][i], k, made, dirty);
      }
    }
    forall t | t in holders ensures ConnOf(holders[t]) != Some(c) && HolderFine(holders[t], made[c := key], dirty) {
      assert HolderFine(holders[t], made, dirty);
    }
  }

  /** Only a lent connection becomes dirty. */
  lemma Dirtied(idle: map<Key, seq<Idle>>, holders: map<nat, Holder>, made: map<nat, Key>, dirty: set<nat>,
                maxIdle: nat, t: nat)
    requires IdleFine(idle, made, dirty, maxIdle) && HoldersFine(holders, made, dirty) && Apart(idle, holders)
    requires t in holders && holders[t].Lent?
    ensures IdleFine(idle, made, dirty + {holders[t].conn}, maxIdle)
    ensures HoldersFine(holders, made, dirty + {holders[t].conn})
  {
    var c := holders[t].conn;
    forall k | k in idle ensures BucketFine(idle[k], k, made, dirty + {c}, maxIdle) {
      assert BucketFine(idle[k], k, made, dirty, maxIdle);
      assert !InBucket(idle[k], c);
      forall i | 0 <= i < |idle[k]| ensures EntryFine(idle[k][i], k, made, dirty + {c}) {
        assert EntryFine(idle[k][i], k, made, dirty);
      }
    }
    forall u | u in holders ensures HolderFine(holders[u], made, dirty + {c}) {
      assert HolderFine(holders[u], made, dirty);
      assert u != t ==> ConnOf(holders[t]) != ConnOf(holders[u]);
    }
  }

  /** A clean connection that comes back fits in its bucket. */
  lemma BackInPool(idle: map<Key, seq<Idle>>, holders: map<nat, Holder>, made: map<nat, Key>, dirty: set<nat>,
                   maxIdle: nat, key: Key, e: Idle)
    requires IdleFine(idle, made, dirty, maxIdle) && Apart(idle, holders) && EntryFine(e, key, made, dirty)
    requires forall t | t in holders :: ConnOf(holders[t]) != Some(e.conn)
    requires forall k | k in idle :: !InBucket(idle[k], e.conn)
    requires (if key in idle then |idle[key]| else 0) < maxIdle
    ensures var bucket := if key in idle then idle[key] else [];
            IdleFine(idle[key := bucket + [e]], made, dirty, maxIdle) && Apart(idle[key := bucket + [e]], holders)
  {
    hide EntryFine;
    var bucket := if key in idle then idle[key] else [];
    var more := bucket + [e];
    assert key in idle ==> BucketFine(idle[key], key, made, dirty, maxIdle) && !InBucket(idle[key], e.conn);
    forall i | 0 <= i < |bucket| ensures bucket[i].conn != e.conn {
      assert InBucket(bucket, bucket[i].conn);
    }
    forall c | InBucket(more, c) ensures InBucket(bucket, c) || c == e.conn {
      var i :| 0 <= i < |more| && more[i].conn == c;
      assert i < |bucket| ==> bucket[i].conn == c;
    }
  }

  lemma NobodyHolds()
    ensures Leases(map[], map[])
  {
    forall uri: string ensures LeaseAt(map[], map[], uri) {
      NobodyOf(map[], uri);
    }
  }

  lemma NobodyOf(holders: map<nat, Holder>, uri: string)
    requires holders == map[]
    ensures Count(holders, uri) == 0
  {
    assert Members(holders, uri) == {};
  }

  predicate DirtyMade(dirty: set<nat>, made: map<nat, Key>) {
    forall c | c in dirty :: c in made
  }

  // ---- the pool ----

  datatype Begun = Exhausted | Started

  class ClientPool {
    const maxIdle: nat
    const idleTtl: nat
    const validateAfter: nat
    const maxLeased: nat
    var stopping: bool
    var idle: map<Key, seq<Idle>>
    var leased: map<string, nat>
    var total: nat
    var dirtyClosed: nat
    // Who holds a lease, which connections a statement left in an unknown state, and the key that opened each.
    ghost var holders: map<nat, Holder>
    ghost var dirty: set<nat>
    ghost var made: map<nat, Key>

    ghost predicate Valid()
      reads this
    {
      && Leases(leased, holders)
      && (maxLeased > 0 ==> forall uri | uri in leased :: leased[uri] <= maxLeased)
      && IdleFine(idle, made, dirty, maxIdle)
      && HoldersFine(holders, made, dirty)
      && Apart(idle, holders)
      && Numbered(made, total)
      && DirtyMade(dirty, made)
    }

    constructor (maxIdle: nat, idleTtl: nat, validateAfter: nat, maxLeased: nat)
      ensures Valid() && holders == map[] && idle == map[] && leased == map[] && !stopping
      ensures total == 0 && dirtyClosed == 0
      ensures this.maxIdle == maxIdle && this.idleTtl == idleTtl
      ensures this.validateAfter == validateAfter && this.maxLeased == maxLeased
    {
      this.maxIdle, this.idleTtl, this.validateAfter, this.maxLeased := maxIdle, idleTtl, validateAfter, maxLeased;
      stopping, idle, leased, total, dirtyClosed := false, map[], map[], 0, 0;
      holders, dirty, made := map[], {}, map[];
      assert Leases(map[], map[]) by { NobodyHolds(); }
    }

    /** collect_expired_locked. */
    method Sweep(now: int)
      requires IdleFine(idle, made, dirty, maxIdle) && Apart(idle, holders)
      modifies `idle
      ensures idle == Swept(old(idle), now, idleTtl)
      ensures IdleFine(idle, made, dirty, maxIdle) && Apart(idle, holders)
    {
      hide Filter, BucketFine, InBucket, Apart, IdleFine, SweptBut, Swept;
      SweptFine(idle, now, idleTtl, made, dirty, maxIdle, holders);
      SweptAll(idle, now, idleTtl);
      if idleTtl > 0 {
        var all := idle;
        var keys, after: map<Key, seq<Idle>> := all.Keys, map[];
        while keys != {}
          invariant keys <= all.Keys
          invariant after == SweptBut(all, keys, now, idleTtl)
          decreases |keys|
        {
          var key :| key in keys;
          var young := Filter(all[key], Young(now, idleTtl));
          SweptMore(all, keys, key, now, idleTtl);
          keys := keys - {key};
          after := if young != [] then after[key := young] else after;
        }
        idle := after;
      }
    }

    /** The start of acquire, when its wait ends: the lease is counted, the expired connections are closed, and the last
        lendable idle one is taken. Without a free lease nothing changes. */
    method Begin(key: Key, now: int, ghost ticket: nat) returns (begun: Begun, hand: Option<nat>, mustPing: bool)
      requires Valid() && ticket !in holders
      modifies `idle, `leased, `holders
      ensures Valid()
      ensures begun.Exhausted? <==> maxLeased > 0 && (stopping || old(LeaseOf(leased, key.uri)) >= maxLeased)
      ensures begun.Exhausted? ==> holders == old(holders) && idle == old(idle) && leased == old(leased)
      ensures begun.Exhausted? ==> hand.None? && !mustPing
      ensures begun.Started? ==> holders == old(holders)[ticket := Opening(key, hand, mustPing)]
      ensures begun.Started? ==> LeaseOf(leased, key.uri) == old(LeaseOf(leased, key.uri)) + 1
      ensures hand.Some? ==>
                hand.value !in dirty && hand.value in made && made[hand.value] == key
      ensures begun.Started? ==>
                && LastFit(Bucket(old(idle), key), hand, mustPing, now, idleTtl, validateAfter)
                && Left(Swept(old(idle), now, idleTtl), idle, key, hand)
    {
      hide Left, LastFit, Choice, FreshIn, Bucket, Leases, IdleFine, HoldersFine, Apart, Numbered, Swept, Count;
      begun, hand, mustPing := Exhausted, None, false;
      if maxLeased == 0 || (!stopping && LeaseOf(leased, key.uri) < maxLeased) {
        begun := Started;
        Sweep(now);
        hand, mustPing := TakeIdle(key, now);
        SweptBucket(old(idle), key, now, idleTtl);
        ChoiceMeaning(Bucket(old(idle), key), hand, mustPing, now, idleTtl, validateAfter);
        LeaseTaken(leased, holders, ticket, Opening(key, hand, mustPing));
        leased := leased[key.uri := LeaseOf(leased, key.uri) + 1];
        HolderSet(idle, holders, made, dirty, ticket, Opening(key, hand, mustPing));
        holders := holders[ticket := Opening(key, hand, mustPing)];
      }
    }

    method TakeIdle(key: Key, now: int) returns (hand: Option<nat>, mustPing: bool)
      requires IdleFine(idle, made, dirty, maxIdle) && Apart(idle, holders)
      modifies `idle
      ensures IdleFine(idle, made, dirty, maxIdle) && Apart(idle, holders)
      ensures hand.Some? ==>
                && hand.value !in dirty && hand.value in made && made[hand.value] == key
                && (forall t | t in holders :: ConnOf(holders[t]) != hand)
                && (forall k | k in idle :: !InBucket(idle[k], hand.value))
      ensures Choice(Bucket(old(idle), key), hand, mustPing, now, idleTtl, validateAfter)
      ensures Left(old(idle), idle, key, hand)
    {
      hide IdleFine, Apart, ConnOf, InBucket, Lendable, ValidationDue;
      hand, mustPing := None, false;
      if key in idle {
        var rest, found := TakeLast(idle[key], now, idleTtl, validateAfter);
        TrimmedFine(idle, key, rest, made, dirty, maxIdle, holders);
        if found.Some? {
          TakenIsApart(idle, key, rest, made, dirty, maxIdle, holders);
          hand, mustPing := Some(found.value.conn), ValidationDue(found.value, now, validateAfter);
        }
        idle := Trimmed(idle, key, rest);
        assert idle - {key} == old(idle) - {key};
      }
    }

    /** The ping of a stale connection: a connection that does not answer is closed. */
    method Ping(answers: bool, ghost ticket: nat)
      requires Valid() && ticket in holders && holders[ticket].Opening?
      requires holders[ticket].hand.Some? && holders[ticket].mustPing
      modifies `holders
      ensures Valid()
      ensures holders == old(holders)[ticket := if answers then old(holders[ticket]).(mustPing := false)
                                                else Opening(old(holders[ticket]).key, None, false)]
    {
      hide Leases, IdleFine, Apart, Numbered, Count;
      ghost var h := holders[ticket];
      ghost var next := if answers then h.(mustPing := false) else Opening(h.key, None, false);
      HolderGone(idle, holders, made, dirty, ticket);
      LeaseKept(leased, holders, ticket, next);
      HolderSet(idle, holders, made, dirty, ticket, next);
      holders := holders[ticket := next];
    }

    /** The connection in the hand becomes the lease of the caller. A stale one was pinged. */
    method Lend(ghost ticket: nat)
      requires Valid() && ticket in holders && holders[ticket].Opening?
      requires holders[ticket].hand.Some? && !holders[ticket].mustPing
      modifies `holders
      ensures Valid()
      ensures holders == old(holders)[ticket := Lent(old(holders[ticket]).key, old(holders[ticket]).hand.value)]
      ensures holders[ticket].conn !in dirty
    {
      hide Leases, IdleFine, Apart, Numbered, Count;
      ghost var next := Lent(holders[ticket].key, holders[ticket].hand.value);
      HolderGone(idle, holders, made, dirty, ticket);
      LeaseKept(leased, holders, ticket, next);
      HolderSet(idle, holders, made, dirty, ticket, next);
      holders := holders[ticket := next];
    }

    /** A new connection for the caller. */
    method Open(ghost ticket: nat) returns (conn: nat)
      requires Valid() && ticket in holders && holders[ticket].Opening? && holders[ticket].hand.None?
      modifies `holders, `total, `made
      ensures Valid() && conn !in old(made) && holders == old(holders)[ticket := Lent(old(holders[ticket]).key, conn)]
      ensures conn !in dirty && total == old(total) + 1
    {
      hide Leases, IdleFine, HoldersFine, Apart, Count;
      conn := total;
      ghost var next := Lent(holders[ticket].key, conn);
      ConnMade(idle, holders, made, dirty, maxIdle, conn, next.key);
      made := made[conn := next.key];
      LeaseKept(leased, holders, ticket, next);
      HolderSet(idle, holders, made, dirty, ticket, next);
      holders, total := holders[ticket := next], total + 1;
    }

    /** The connection did not open: the lease is given back. Its count is not 0 here. */
    method GiveBack(ghost ticket: nat, uri: string)
      requires Valid() && ticket in holders && holders[ticket].Opening?
      requires holders[ticket].hand.None? && holders[ticket].key.uri == uri
      modifies `leased, `holders
      ensures Valid() && holders == old(holders) - {ticket}
      ensures LeaseOf(leased, uri) == old(LeaseOf(leased, uri)) - 1
    {
      hide Leases, IdleFine, HoldersFine, Apart, Numbered, Count, DirtyMade;
      LeaseEnded(leased, holders, ticket);
      HolderGone(idle, holders, made, dirty, ticket);
      Return(uri);
      holders := holders - {ticket};
    }

    method Return(uri: string)
      requires uri in leased && leased[uri] > 0
      modifies `leased
      ensures leased == Returned(old(leased), uri)
    {
      if uri in leased {
        leased := leased[uri := leased[uri] - 1];
        if leased[uri] == 0 {
          leased := leased - {uri};
        }
      }
    }

    /** A statement left the connection of a caller in an unknown state. */
    method Invalidate(ghost ticket: nat)
      requires Valid() && ticket in holders && holders[ticket].Lent?
      modifies `dirty
      ensures Valid() && dirty == old(dirty) + {holders[ticket].conn}
    {
      hide Leases, IdleFine, Numbered, Count, Apart;
      Dirtied(idle, holders, made, dirty, maxIdle, ticket);
      LentIsMade(holders, made, dirty, ticket);
      dirty := dirty + {holders[ticket].conn};
    }

    /** The end of a lease: the connection goes back to its bucket when the pool runs, it is clean and there is room;
        else it is closed. */
    method Release(key: Key, conn: nat, isDirty: bool, bounded: bool, now: int, ghost ticket: nat)
      requires Valid() && ticket in holders && holders[ticket] == Lent(key, conn)
      requires isDirty == (conn in dirty) && bounded == (key.receive > 0)
      modifies `idle, `leased, `holders, `dirtyClosed
      ensures Valid() && holders == old(holders) - {ticket}
      ensures LeaseOf(leased, key.uri) == old(LeaseOf(leased, key.uri)) - 1
      ensures var keep := !stopping && !isDirty && maxIdle > 0 && |Bucket(old(idle), key)| < maxIdle;
              idle == if keep then old(idle)[key := Bucket(old(idle), key) + [Idle(conn, now, bounded)]] else old(idle)
      ensures dirtyClosed == old(dirtyClosed) + (if isDirty then 1 else 0)
    {
      hide Leases, IdleFine, HoldersFine, Apart, Numbered, Count, DirtyMade, InBucket;
      LeaseEnded(leased, holders, ticket);
      HolderGone(idle, holders, made, dirty, ticket);
      LentIsMade(holders, made, dirty, ticket);
      Return(key.uri);
      holders := holders - {ticket};
      dirtyClosed := dirtyClosed + (if isDirty then 1 else 0);
      if !(stopping || isDirty || maxIdle == 0) {
        var bucket := if key in idle then idle[key] else [];
        if |bucket| < maxIdle {
          BackInPool(idle, holders, made, dirty, maxIdle, key, Idle(conn, now, bounded));
          idle := idle[key := bucket + [Idle(conn, now, bounded)]];
        }
      }
    }

    /** One round of the reaper. */
    method Reap(now: int)
      requires Valid()
      modifies `idle
      ensures Valid() && idle == if stopping then old(idle) else Swept(old(idle), now, idleTtl)
    {
      hide Leases, IdleFine, HoldersFine, Apart, Numbered, Count, DirtyMade, Swept;
      if !stopping {
        Sweep(now);
      }
    }

    method Clear()
      requires Valid()
      modifies `idle
      ensures Valid() && idle == map[]
    {
      hide Leases, HoldersFine, Numbered, Count, DirtyMade;
      idle := map[];
    }

    method Stop()
      requires Valid()
      modifies `stopping
      ensures Valid() && stopping
    {
      stopping := true;
    }
  }

  lemma LentIsMade(holders: map<nat, Holder>, made: map<nat, Key>, dirty: set<nat>, t: nat)
    requires HoldersFine(holders, made, dirty) && t in holders && holders[t].Lent?
    ensures holders[t].conn in made && made[holders[t].conn] == holders[t].key
  {
    assert HolderFine(holders[t], made, dirty);
  }

  /** What every reachable state says of the leases: no address has more leases and acquires in progress than it may,
      also when nothing is idle. */
  lemma LeasesWithinTheMaximum(p: ClientPool, uri: string)
    requires p.Valid()
    ensures p.maxLeased > 0 ==> Count(p.holders, uri) <= p.maxLeased
    ensures Count(p.holders, uri) > 0 <==> uri in p.leased
  {
    hide Count;
    assert LeaseAt(p.leased, p.holders, uri);
  }

  /** A connection has one holder, and a held connection is not idle. */
  lemma OneHolder(p: ClientPool, c: nat, t: nat, u: nat)
    requires p.Valid() && t in p.holders && u in p.holders
    requires Holds(p.holders[t], c) && Holds(p.holders[u], c)
    ensures t == u
    ensures forall key | key in p.idle :: !InBucket(p.idle[key], c)
    ensures c in p.made && p.made[c] == p.holders[t].key
  {
    hide Leases, IdleFine, Numbered, Count, InBucket;
    assert HolderFine(p.holders[t], p.made, p.dirty);
  }

  /** An idle connection is clean, has no holder, and is idle in one place. */
  lemma IdleInOnePlace(p: ClientPool, key: Key, i: nat)
    requires p.Valid() && key in p.idle && i < |p.idle[key]|
    ensures var c := p.idle[key][i].conn;
            && c !in p.dirty
            && (forall t | t in p.holders :: ConnOf(p.holders[t]) != Some(c))
            && (forall other, j | other in p.idle && 0 <= j < |p.idle[other]| && p.idle[other][j].conn == c ::
                  other == key && j == i)
    ensures |p.idle[key]| <= p.maxIdle
  {
    hide Count;
    var c := p.idle[key][i].conn;
    assert BucketFine(p.idle[key], key, p.made, p.dirty, p.maxIdle);
    assert EntryFine(p.idle[key][i], key, p.made, p.dirty);
    assert InBucket(p.idle[key], c);
    forall other, j | other in p.idle && 0 <= j < |p.idle[other]| && p.idle[other][j].conn == c
      ensures other == key && j == i
    {
      assert BucketFine(p.idle[other], other, p.made, p.dirty, p.maxIdle);
      assert EntryFine(p.idle[other][j], other, p.made, p.dirty);
    }
  }
}
