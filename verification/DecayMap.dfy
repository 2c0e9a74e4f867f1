/** The expiring map (utils/decaymap.go): its methods, and every interleaving of their locked steps. */
module DecayMaps {

  import opened Wrappers

  datatype Entry<V> = Entry(value: V, expiry: int)

  /** The map without the key, if the entry there still has that expiry. */
  function Dropped<K, V>(data: map<K, Entry<V>>, key: K, expiry: int): map<K, Entry<V>>
  {
    if key in data && data[key].expiry == expiry then data - {key} else data
  }

  function Decayed<K, V>(data: map<K, Entry<V>>, now: int): map<K, Entry<V>>
  {
    map k | k in data && now <= data[k].expiry :: data[k]
  }

  class DecayMap<K(==), V> {
    var data: map<K, Entry<V>>

    constructor ()
      ensures data == map[]
    {
      data := map[];
    }

    /** The part under the read lock. */
    method Read(key: K) returns (seen: Option<Entry<V>>)
      ensures seen == if key in data then Some(data[key]) else None
    {
      seen := if key in data then Some(data[key]) else None;
    }

    /** The part under the write lock. */
    method DeleteIfSame(key: K, expiry: int)
      modifies this
      ensures data == Dropped(old(data), key, expiry)
    {
      if key in data && data[key].expiry == expiry {
        data := data - {key};
      }
    }

    /** Without other callers: a hit is exactly a live entry, and a dead one is removed. */
    method Get(key: K, now: int) returns (hit: Option<V>)
      modifies this
      ensures hit == if key in old(data) && now <= old(data)[key].expiry then Some(old(data)[key].value) else None
      ensures data == if key in old(data) && old(data)[key].expiry < now then old(data) - {key} else old(data)
    {
      var seen := Read(key);
      if seen.None? {
        return None;
      }
      if now > seen.value.expiry {
        DeleteIfSame(key, seen.value.expiry);
        return None;
      }
      return Some(seen.value.value);
    }

    method Set(key: K, value: V, ttl: int, now: int)
      modifies this
      ensures data == old(data)[key := Entry(value, now + ttl)]
    {
      data := data[key := Entry(value, now + ttl)];
    }

    method Decay(now: int)
      modifies this
      ensures data == Decayed(old(data), now)
    {
      var keys := data.Keys;
      while keys != {}
        invariant keys <= old(data).Keys && data.Keys <= old(data).Keys
        invariant forall k :: k in data ==> data[k] == old(data)[k]
        invariant forall k :: k in old(data) && (k in keys || now <= old(data)[k].expiry) ==> k in data
        invariant forall k :: k in data && k !in keys ==> now <= data[k].expiry
        decreases keys
      {
        var k :| k in keys;
        if now > data[k].expiry {
          data := data - {k};
        }
        keys := keys - {k};
      }
    }
  }

  // ----------------------------------------------------------------- interleavings

  /** Where a running Get is: before its read, before its look at the clock, before its delete, or done. */
  datatype Call<K, V> =
    | Started(key: K)
    | Seen(key: K, entry: Entry<V>)
    | Condemned(key: K, expiry: int)
    | Done(key: K, hit: Option<V>, at: int)

  datatype State<K, V> = State(data: map<K, Entry<V>>, clock: int, calls: map<nat, Call<K, V>>)

  datatype Event<K, V> =
    | Tick(delta: nat)
    | Begin(id: nat, key: K)
    | Read(id: nat)
    | Judge(id: nat)
    | Delete(id: nat)
    | Put(key: K, value: V, ttl: int)
    | Sweep

  /** One locked step of some caller, or the clock moving on; a step that is not due does nothing. */
  function Next<K, V>(s: State<K, V>, ev: Event<K, V>): State<K, V>
  {
    match ev
    case Tick(delta) => s.(clock := s.clock + delta)
    case Begin(id, key) => if id in s.calls then s else s.(calls := s.calls[id := Started(key)])
    case Read(id) =>
      if id in s.calls && s.calls[id].Started? then
        var key := s.calls[id].key;
        s.(calls := s.calls[id := if key in s.data then Seen(key, s.data[key]) else Done(key, None, s.clock)])
      else s
    case Judge(id) =>
      if id in s.calls && s.calls[id].Seen? then
        var c := s.calls[id];
        s.(calls := s.calls[id := if s.clock > c.entry.expiry then Condemned(c.key, c.entry.expiry)
                                  else Done(c.key, Some(c.entry.value), s.clock)])
      else s
    case Delete(id) =>
      if id in s.calls && s.calls[id].Condemned? then
        var c := s.calls[id];
        s.(data := Dropped(s.data, c.key, c.expiry), calls := s.calls[id := Done(c.key, None, s.clock)])
      else s
    case Put(key, value, ttl) => s.(data := s.data[key := Entry(value, s.clock + ttl)])
    case Sweep => s.(data := Decayed(s.data, s.clock))
  }

  function After<K, V>(s: State<K, V>, evs: seq<Event<K, V>>): State<K, V>
    decreases |evs|
  {
    if evs == [] then s else After(Next(s, evs[0]), evs[1..])
  }

  /** A caller about to delete has seen the clock past the expiry it will compare with. */
  ghost predicate CondemnedAreDead<K(!new), V(!new)>(s: State<K, V>)
  {
    forall id :: id in s.calls && s.calls[id].Condemned? ==> s.calls[id].expiry < s.clock
  }

  /** No step removes an entry that has not expired, and the ground for that is kept by every step. */
  lemma OnlyDeadEntriesGo<K(!new), V(!new)>(s: State<K, V>, ev: Event<K, V>)
    requires CondemnedAreDead(s)
    ensures CondemnedAreDead(Next(s, ev))
    ensures forall k :: k in s.data && k !in Next(s, ev).data ==> s.data[k].expiry < s.clock
  {
  }

  /** In a whole run no event removes an entry that has not expired. */
  lemma {:induction false} RunsStaySound<K(!new), V(!new)>(s: State<K, V>, evs: seq<Event<K, V>>, i: nat)
    requires CondemnedAreDead(s) && i < |evs|
    ensures var t := After(s, evs[..i]);
      && CondemnedAreDead(t) && s.clock <= t.clock
      && forall k :: k in t.data && k !in Next(t, evs[i]).data ==> t.data[k].expiry < t.clock
    decreases |evs|
  {
    if i > 0 {
      OnlyDeadEntriesGo(s, evs[0]);
      assert evs[..i][0] == evs[0] && evs[..i][1..] == evs[1..][..i - 1];
      RunsStaySound(Next(s, evs[0]), evs[1..], i - 1);
    } else {
      OnlyDeadEntriesGo(s, evs[i]);
    }
  }

  /** The entry is in the map, or has expired. */
  ghost predicate Held<K(!new), V(!new)>(s: State<K, V>, key: K, entry: Entry<V>)
  {
    if key in s.data then s.data[key] == entry else entry.expiry < s.clock
  }

  /** A call for the key has seen nothing but the entry, or its being gone. */
  ghost predicate Faithful<K(!new), V(!new)>(s: State<K, V>, id: nat, key: K, entry: Entry<V>)
  {
    id in s.calls && s.calls[id].key == key ==>
      match s.calls[id]
      case Started(_) => true
      case Seen(_, e) => e == entry
      case Condemned(_, expiry) => expiry == entry.expiry && entry.expiry < s.clock
      case Done(_, hit, at) => at <= s.clock && hit == if at <= entry.expiry then Some(entry.value) else None
  }

  lemma HeldStep<K(!new), V(!new)>(s: State<K, V>, ev: Event<K, V>, id: nat, key: K, entry: Entry<V>)
    requires CondemnedAreDead(s) && Held(s, key, entry) && Faithful(s, id, key, entry)
    requires !(ev.Put? && ev.key == key)
    ensures Held(Next(s, ev), key, entry) && Faithful(Next(s, ev), id, key, entry)
  {
  }

  lemma {:induction false} HeldRun<K(!new), V(!new)>(s: State<K, V>, evs: seq<Event<K, V>>, id: nat, key: K, entry: Entry<V>)
    requires CondemnedAreDead(s) && Held(s, key, entry) && Faithful(s, id, key, entry)
    requires forall i :: 0 <= i < |evs| ==> !(evs[i].Put? && evs[i].key == key)
    ensures Faithful(After(s, evs), id, key, entry)
    decreases |evs|
  {
    if evs != [] {
      HeldStep(s, evs[0], id, key, entry);
      OnlyDeadEntriesGo(s, evs[0]);
      HeldRun(Next(s, evs[0]), evs[1..], id, key, entry);
    }
  }

  /**
    A Get that begins after a Set of its key, with no later Set of it, returns the value set exactly
    when the time at which it decides is not after the expiry, whatever else runs in between.
   */
  lemma GetAfterSet<K(!new), V(!new)>(s: State<K, V>, key: K, value: V, ttl: int, evs: seq<Event<K, V>>, id: nat)
    requires CondemnedAreDead(s) && id !in s.calls
    requires forall i :: 0 <= i < |evs| ==> !(evs[i].Put? && evs[i].key == key)
    ensures var t := After(Next(s, Put(key, value, ttl)), evs);
      id in t.calls && t.calls[id].Done? && t.calls[id].key == key ==>
        t.calls[id].hit == if t.calls[id].at <= s.clock + ttl then Some(value) else None
  {
    var u := Next(s, Put(key, value, ttl));
    HeldRun(u, evs, id, key, Entry(value, s.clock + ttl));
  }

  /** A call that has seen an entry saw one that was in the map then, and a hit returns just that. */
  lemma HitIsLiveAtRead<K(!new), V(!new)>(s: State<K, V>, id: nat, later: seq<Event<K, V>>)
    requires id in s.calls && s.calls[id].Started? && s.calls[id].key in s.data
    ensures var key := s.calls[id].key;
      var t := After(Next(s, Read(id)), later);
      id in t.calls && t.calls[id].key == key &&
      (t.calls[id].Done? && t.calls[id].hit.Some? ==> t.calls[id].hit.value == s.data[key].value)
  {
    SeenIsRemembered(Next(s, Read(id)), id, s.calls[id].key, s.data[s.calls[id].key], later);
  }

  ghost predicate Remembers<K(!new), V(!new)>(s: State<K, V>, id: nat, key: K, entry: Entry<V>)
  {
    && id in s.calls && s.calls[id].key == key && !s.calls[id].Started?
    && (s.calls[id].Seen? ==> s.calls[id].entry == entry)
    && (s.calls[id].Done? && s.calls[id].hit.Some? ==> s.calls[id].hit.value == entry.value)
  }

  lemma {:induction false} SeenIsRemembered<K(!new), V(!new)>(s: State<K, V>, id: nat, key: K, entry: Entry<V>,
                                                              evs: seq<Event<K, V>>)
    requires Remembers(s, id, key, entry)
    ensures Remembers(After(s, evs), id, key, entry)
    decreases |evs|
  {
    if evs != [] {
      SeenIsRemembered(Next(s, evs[0]), id, key, entry, evs[1..]);
    }
  }

  /** A miss may race with a Set that refreshes the entry after it was seen dead; the refreshed entry stays. */
  lemma RefreshedEntryStays<K(!new), V(!new)>(s: State<K, V>, id: nat, value: V, ttl: nat)
    requires id in s.calls && s.calls[id].Condemned? && CondemnedAreDead(s)
    ensures var key := s.calls[id].key;
      var t := Next(Next(s, Put(key, value, ttl)), Delete(id));
      t.calls[id] == Done(key, None, s.clock) && key in t.data && t.data[key] == Entry(value, s.clock + ttl)
  {
  }

  /** A sweep leaves exactly the entries that have not expired, and a caller removes the dead entry it saw. */
  lemma DeadEntriesGo<K(!new), V(!new)>(s: State<K, V>, id: nat, k: K)
    ensures k in Next(s, Sweep).data <==> k in s.data && s.clock <= s.data[k].expiry
    ensures k in Next(s, Sweep).data ==> Next(s, Sweep).data[k] == s.data[k]
    ensures id in s.calls && s.calls[id].Condemned? ==>
      var c := s.calls[id];
      (c.key in Next(s, Delete(id)).data <==> c.key in s.data && s.data[c.key].expiry != c.expiry)
  {
  }

  /** Alone, the three steps of a caller find a live entry or miss, and remove it when it is dead. */
  lemma AloneIsSequential<K(!new), V(!new)>(s: State<K, V>, id: nat, key: K)
    requires id !in s.calls
    ensures var t := After(s, [Begin(id, key), Read(id), Judge(id), Delete(id)]);
      && id in t.calls
      && t.calls[id] == Done(key, if key in s.data && s.clock <= s.data[key].expiry then Some(s.data[key].value) else None, s.clock)
      && t.data == if key in s.data && s.data[key].expiry < s.clock then s.data - {key} else s.data
  {
    var a := Next(s, Begin(id, key));
    var b := Next(a, Read(id));
    var c := Next(b, Judge(id));
    var d := Next(c, Delete(id));
    var evs: seq<Event<K, V>> := [Begin(id, key), Read(id), Judge(id), Delete(id)];
    assert evs[1..] == [Read(id), Judge(id), Delete(id)] && evs[1..][1..] == [Judge(id), Delete(id)];
    assert evs[1..][1..][1..] == [Delete(id)] && evs[1..][1..][1..][1..] == [];
    assert After(d, []) == d;
    assert After(c, [Delete(id)]) == d;
    assert After(b, [Judge(id), Delete(id)]) == d;
    assert After(a, [Read(id), Judge(id), Delete(id)]) == d;
  }
}
