/** The values of the answer cache of the PDP client (PdpClient::cache_store, src/access_pdp.cpp): what a store
    leaves in a cache that always removes the expired answers when it is full. The class PdpClient proves that its
    list, its map, its running byte count and its watermark compute exactly this. */
module PdpCache {
  import opened Common
  import opened PdpModel

  /** One kept answer, and the time from which it is not used any more (milliseconds). */
  datatype Entry = Entry(key: string, answer: Answer, expires: nat, bytes: nat)

  datatype Bounds = Bounds(ttl: nat, entries: nat, bytes: nat)

  const ENTRY_OVERHEAD := 160
  const LIMIT_OVERHEAD := 64

  function LimitBytes(limits: seq<Limit>): nat {
    if limits == [] then 0 else LimitBytes(limits[..|limits| - 1]) + |limits[|limits| - 1].name| + LIMIT_OVERHEAD
  }

  function EntryBytes(key: string, answer: Answer): nat {
    |key| + ENTRY_OVERHEAD + LimitBytes(answer.limits)
  }

  /** The names of the limits, one after the other. */
  function AllNames(limits: seq<Limit>): string {
    if limits == [] then "" else AllNames(limits[..|limits| - 1]) + limits[|limits| - 1].name
  }

  /** What the cache accounts for an entry: the key, the names of the limits, 160 bytes and 64 for each limit. */
  predicate Sized(e: Entry) {
    e.bytes == |e.key| + |AllNames(e.answer.limits)| + 160 + 64 * |e.answer.limits|
  }

  lemma {:induction false} LimitBytesAre(limits: seq<Limit>)
    ensures LimitBytes(limits) == |AllNames(limits)| + 64 * |limits|
  {
    if limits != [] {
      LimitBytesAre(limits[..|limits| - 1]);
    }
  }

  lemma EntriesAreSized(key: string, answer: Answer, expires: nat)
    ensures Sized(Entry(key, answer, expires, EntryBytes(key, answer)))
  {
    LimitBytesAre(answer.limits);
  }

  /** How long an answer is kept. The comparison is in whole seconds first. */
  function Life(ttl: nat, answer: Answer): nat {
    if answer.retryAfter.Some? && answer.retryAfter.value <= ttl / 1000
    then Min(ttl, answer.retryAfter.value * 1000)
    else ttl
  }

  /** The comparison in whole seconds loses nothing: the life is the lower of the two times. */
  lemma LifeIsTheLower(ttl: nat, answer: Answer)
    ensures answer.retryAfter.None? ==> Life(ttl, answer) == ttl
    ensures answer.retryAfter.Some? ==> Life(ttl, answer) == Min(ttl, answer.retryAfter.value * 1000)
  {
  }

  /** An answer that took units is never kept. */
  predicate MayKeep(answer: Answer) {
    answer.usageUnits.None? || answer.usageUnits.value == 0
  }

  /** The answer took no unit. */
  predicate TookNothing(answer: Answer) {
    answer.usageUnits == None || answer.usageUnits == Some(0)
  }

  function OfOtherKey(key: string): Entry -> bool {
    (e: Entry) => e.key != key
  }

  function ValidAfter(now: nat): Entry -> bool {
    (e: Entry) => e.expires > now
  }

  function Without(order: seq<Entry>, key: string): seq<Entry> {
    Filter(order, OfOtherKey(key))
  }

  /** The answers that are not expired. */
  function Live(order: seq<Entry>, now: nat): seq<Entry> {
    Filter(order, ValidAfter(now))
  }

  function TotalBytes(order: seq<Entry>): nat {
    if order == [] then 0 else TotalBytes(order[..|order| - 1]) + order[|order| - 1].bytes
  }

  predicate Full(b: Bounds, order: seq<Entry>, bytes: nat) {
    |order| >= b.entries || TotalBytes(order) + bytes > b.bytes
  }

  /** The oldest answers go until the new one fits. */
  function Evicted(b: Bounds, order: seq<Entry>, bytes: nat): seq<Entry> {
    if Full(b, order, bytes) && order != [] then Evicted(b, order[1..], bytes) else order
  }

  /** A store that always removes the expired answers of a full cache. */
  function Stored(b: Bounds, order: seq<Entry>, key: string, answer: Answer, now: nat): seq<Entry> {
    if b.ttl == 0 || !MayKeep(answer) then order
    else
      var bytes := EntryBytes(key, answer);
      var others := Without(order, key);
      if bytes > b.bytes || b.entries == 0 then others
      else
        var live := if Full(b, others, bytes) then Live(others, now) else others;
        Evicted(b, live, bytes) + [Entry(key, answer, now + Life(b.ttl, answer), bytes)]
  }

  predicate DistinctKeys(order: seq<Entry>) {
    forall i, j | 0 <= i < j < |order| :: order[i].key != order[j].key
  }

  predicate WithinBounds(b: Bounds, order: seq<Entry>) {
    |order| <= b.entries && TotalBytes(order) <= b.bytes
  }

  // ---- facts about the parts ----

  lemma {:induction false} FilterKeepsDistinct(order: seq<Entry>, keep: Entry -> bool)
    requires DistinctKeys(order)
    ensures DistinctKeys(Filter(order, keep))
  {
    if order != [] {
      var last := |order| - 1;
      FilterKeepsDistinct(order[..last], keep);
      FilterMembers(order[..last], keep);
      var kept := Filter(order[..last], keep);
      assert forall i | 0 <= i < |kept| :: kept[i] in order[..last];
    }
  }

  lemma {:induction false} FilterBytes(order: seq<Entry>, keep: Entry -> bool)
    ensures TotalBytes(Filter(order, keep)) <= TotalBytes(order)
  {
    if order != [] {
      var last := |order| - 1;
      FilterBytes(order[..last], keep);
      var kept := Filter(order[..last], keep);
      assert (kept + [order[last]])[..|kept|] == kept;
      assert kept + [] == kept;
    }
  }

  lemma {:induction false} TotalBytesConcat(a: seq<Entry>, b: seq<Entry>)
    ensures TotalBytes(a + b) == TotalBytes(a) + TotalBytes(b)
  {
    if b == [] {
      assert a + b == a;
    } else {
      var last := |b| - 1;
      TotalBytesConcat(a, b[..last]);
      assert (a + b)[..|a| + last] == a + b[..last];
    }
  }

  /** With distinct keys, exactly one entry goes. */
  lemma WithoutOne(order: seq<Entry>, i: nat)
    requires i < |order| && DistinctKeys(order)
    ensures Without(order, order[i].key) == order[..i] + order[i + 1..]
  {
    hide Filter;
    var before, e, after := order[..i], order[i], order[i + 1..];
    var keep := OfOtherKey(e.key);
    FilterAll(before, keep);
    FilterAll(after, keep);
    FilterNone(e, keep);
    FilterConcat([e], after, keep);
    FilterConcat(before, [e] + after, keep);
    assert order == before + ([e] + after);
    assert [] + after == after;
  }

  lemma BytesOfOne(order: seq<Entry>, i: nat)
    requires i < |order|
    ensures TotalBytes(order[..i] + order[i + 1..]) == TotalBytes(order) - order[i].bytes
  {
    TotalBytesConcat(order[..i], order[i..]);
    TotalBytesTail(order[i..]);
    TotalBytesConcat(order[..i], order[i + 1..]);
    assert order == order[..i] + order[i..];
    assert order[i..][1..] == order[i + 1..];
  }

  lemma FilterNone(e: Entry, keep: Entry -> bool)
    requires !keep(e)
    ensures Filter([e], keep) == []
  {
    assert [e][..0] == [];
  }

  lemma TotalBytesTail(order: seq<Entry>)
    requires order != []
    ensures TotalBytes(order) == order[0].bytes + TotalBytes(order[1..])
  {
    assert order == [order[0]] + order[1..];
    TotalBytesConcat([order[0]], order[1..]);
  }

  /** What is left after the eviction: the newest answers, with room for the new one. */
  lemma {:induction false} EvictionLeavesRoom(b: Bounds, order: seq<Entry>, bytes: nat)
    requires b.entries > 0 && bytes <= b.bytes
    ensures var kept := Evicted(b, order, bytes);
            && !Full(b, kept, bytes)
            && |kept| <= |order|
            && kept == order[|order| - |kept|..]
    decreases |order|
  {
    if Full(b, order, bytes) && order != [] {
      EvictionLeavesRoom(b, order[1..], bytes);
      SliceOfSlice(order, 1, |order|, |order| - 1 - |Evicted(b, order[1..], bytes)|, |order| - 1);
    }
  }

  /** Not one answer less than that needs: with the last one that went, the new answer would not fit. */
  lemma {:induction false} EvictionIsLeast(b: Bounds, order: seq<Entry>, bytes: nat)
    requires b.entries > 0 && bytes <= b.bytes
    ensures var n := |Evicted(b, order, bytes)|;
            n <= |order| && (n < |order| ==> Full(b, order[|order| - n - 1..], bytes))
    decreases |order|
  {
    if Full(b, order, bytes) && order != [] {
      hide Full;
      EvictionIsLeast(b, order[1..], bytes);
      LeastWithOneMore(b, order, |Evicted(b, order[1..], bytes)|, bytes);
    }
  }

  lemma LeastWithOneMore(b: Bounds, order: seq<Entry>, n: nat, bytes: nat)
    requires order != [] && Full(b, order, bytes) && n < |order|
    requires n < |order| - 1 ==> Full(b, order[1..][|order| - 2 - n..], bytes)
    ensures Full(b, order[|order| - n - 1..], bytes)
  {
    hide Full;
    if n == |order| - 1 {
      assert order[0..] == order;
    } else {
      assert order[1..][|order| - 2 - n..] == order[|order| - n - 1..];
    }
  }

  // ---- what a store keeps ----

  /** The answers that a store leaves beside the new one. */
  function Survivors(b: Bounds, order: seq<Entry>, key: string, bytes: nat, now: nat): seq<Entry> {
    var others := Without(order, key);
    Evicted(b, if Full(b, others, bytes) then Live(others, now) else others, bytes)
  }

  lemma SurvivorFacts(b: Bounds, order: seq<Entry>, key: string, bytes: nat, now: nat)
    requires DistinctKeys(order) && b.entries > 0 && bytes <= b.bytes
    ensures var kept := Survivors(b, order, key, bytes, now);
            && !Full(b, kept, bytes)
            && DistinctKeys(kept)
            && forall e | e in kept :: e in order && e.key != key
  {
    hide Filter;
    var others := Without(order, key);
    FilterMembers(order, OfOtherKey(key));
    FilterKeepsDistinct(order, OfOtherKey(key));
    FilterMembers(others, ValidAfter(now));
    FilterKeepsDistinct(others, ValidAfter(now));
    var from := if Full(b, others, bytes) then Live(others, now) else others;
    EvictionLeavesRoom(b, from, bytes);
    var kept := Evicted(b, from, bytes);
    assert forall e | e in kept :: e in from;
  }

  lemma AppendKeepsDistinct(order: seq<Entry>, e: Entry)
    requires DistinctKeys(order) && forall d | d in order :: d.key != e.key
    ensures DistinctKeys(order + [e])
  {
    assert forall i | 0 <= i < |order| :: order[i] in order;
  }

  /** A store keeps the keys distinct and both bounds; the only answer that it can bring is the new one, and never one
      that took units. */
  lemma StoreKeepsTheBounds(b: Bounds, order: seq<Entry>, key: string, answer: Answer, now: nat)
    requires DistinctKeys(order) && WithinBounds(b, order)
    ensures var after := Stored(b, order, key, answer, now);
            && DistinctKeys(after) && WithinBounds(b, after)
            && forall e | e in after :: e in order ||
                 (TookNothing(answer) && e == Entry(key, answer, now + Life(b.ttl, answer), EntryBytes(key, answer)))
  {
    hide Filter, Evicted, EntryBytes, Life, Full, DistinctKeys, WithinBounds, TotalBytes;
    WithoutKeepsTheBounds(b, order, key);
    var bytes := EntryBytes(key, answer);
    if b.ttl > 0 && MayKeep(answer) && bytes <= b.bytes && b.entries > 0 {
      var entry := Entry(key, answer, now + Life(b.ttl, answer), bytes);
      SurvivorFacts(b, order, key, bytes, now);
      RoomForOne(b, Survivors(b, order, key, bytes, now), entry);
      AppendKeepsDistinct(Survivors(b, order, key, bytes, now), entry);
    }
  }

  lemma WithoutKeepsTheBounds(b: Bounds, order: seq<Entry>, key: string)
    requires DistinctKeys(order) && WithinBounds(b, order)
    ensures DistinctKeys(Without(order, key)) && WithinBounds(b, Without(order, key))
    ensures forall e | e in Without(order, key) :: e in order
  {
    hide Filter, DistinctKeys, TotalBytes;
    FilterMembers(order, OfOtherKey(key));
    FilterKeepsDistinct(order, OfOtherKey(key));
    FilterBytes(order, OfOtherKey(key));
  }

  lemma RoomForOne(b: Bounds, kept: seq<Entry>, e: Entry)
    requires !Full(b, kept, e.bytes)
    ensures WithinBounds(b, kept + [e])
  {
    TotalBytesConcat(kept, [e]);
    assert TotalBytes([e]) == e.bytes;
  }

  /** The answer of a key after a store: the stored one, unless the rules or the bounds refuse it. */
  lemma StoreAnswersTheKey(b: Bounds, order: seq<Entry>, key: string, answer: Answer, now: nat)
    requires DistinctKeys(order)
    requires b.ttl > 0 && TookNothing(answer) && EntryBytes(key, answer) <= b.bytes && b.entries > 0
    ensures var after := Stored(b, order, key, answer, now);
            && after != []
            && after[|after| - 1] == Entry(key, answer, now + Life(b.ttl, answer), EntryBytes(key, answer))
            && Sized(after[|after| - 1])
            && forall i | 0 <= i < |after| - 1 :: after[i].key != key
  {
    EntriesAreSized(key, answer, now + Life(b.ttl, answer));
    hide Filter, Evicted, EntryBytes, Life, Sized;
    var kept := Survivors(b, order, key, EntryBytes(key, answer), now);
    SurvivorFacts(b, order, key, EntryBytes(key, answer), now);
    assert forall i | 0 <= i < |kept| :: kept[i] in kept;
  }

  /** Without a cache, or for an answer that took units, a store changes nothing. An answer that is too large only ends
      the older one of its key. And while the new answer fits beside the others, all of them stay, in their order. */
  lemma StoreLeavesTheOthers(b: Bounds, order: seq<Entry>, key: string, answer: Answer, now: nat)
    ensures var after := Stored(b, order, key, answer, now);
            && (b.ttl == 0 || !TookNothing(answer) ==> after == order)
            && (b.ttl > 0 && TookNothing(answer) && (EntryBytes(key, answer) > b.bytes || b.entries == 0) ==>
                  after == Without(order, key))
            && (b.ttl > 0 && TookNothing(answer) && |Without(order, key)| + 1 <= b.entries
                && TotalBytes(Without(order, key)) + EntryBytes(key, answer) <= b.bytes ==>
                  after != [] && after[..|after| - 1] == Without(order, key))
    ensures forall e :: e in Without(order, key) <==> e in order && e.key != key
  {
    hide Filter, EntryBytes, Life;
    FilterMembers(order, OfOtherKey(key));
    var others := Without(order, key);
    var e := Entry(key, answer, now + Life(b.ttl, answer), EntryBytes(key, answer));
    assert (others + [e])[..|others|] == others;
  }

  /** An answer that is not expired leaves the cache only for room: some of the newest live answers, this one among
      them, would not fit with the new answer. */
  lemma StoreEvictsOnlyForRoom(b: Bounds, order: seq<Entry>, key: string, answer: Answer, now: nat, e: Entry)
    requires b.ttl > 0 && TookNothing(answer) && EntryBytes(key, answer) <= b.bytes && b.entries > 0
    requires e in order && e.key != key && e.expires > now
    requires e !in Stored(b, order, key, answer, now)
    ensures var live := Live(Without(order, key), now);
            exists n | 0 <= n < |live| && e in live[..n + 1] :: Full(b, live[n..], EntryBytes(key, answer))
  {
    hide Filter, EntryBytes, Life;
    var bytes := EntryBytes(key, answer);
    var others := Without(order, key);
    var live := Live(others, now);
    FilterMembers(order, OfOtherKey(key));
    FilterMembers(others, ValidAfter(now));
    var kept := Evicted(b, live, bytes);
    EvictionLeavesRoom(b, live, bytes);
    EvictionIsLeast(b, live, bytes);
    var k := |live| - |kept|;
    assert live == live[..k] + live[k..];
    assert e in live && e !in live[k..];
    assert live[..k - 1 + 1] == live[..k];
  }
}
