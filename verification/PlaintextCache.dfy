/**
 The cache of decrypted plaintexts: an ordered map whose values are arrays that nobody else holds,
 so that neither the caller's array nor a copy handed out can change what the cache remembers.
 */
module PlaintextCache {
  import opened Basics
  import opened Buffers
  import opened CacheTrace

  /** An entry of the ordered map; the oldest comes first. */
  datatype Slot = Slot(key: CacheKey, value: array<byte>, expiresAt: int)

  ghost function BuffersOf(slots: seq<Slot>): set<array<byte>> {
    set s | s in slots :: s.value
  }

  ghost function View(slots: seq<Slot>): (r: seq<Entry>)
    reads BuffersOf(slots)
    ensures |r| == |slots|
  {
    if slots == [] then []
    else [Entry(slots[0].key, slots[0].value[..], slots[0].expiresAt)] + View(slots[1..])
  }

  function Find(slots: seq<Slot>, key: CacheKey): (r: Option<Slot>)
    ensures r.Some? ==> r.value in slots
  {
    if slots == [] then None else if slots[0].key == key then Some(slots[0]) else Find(slots[1..], key)
  }

  function Without(slots: seq<Slot>, key: CacheKey): (r: seq<Slot>)
    ensures forall s :: s in r ==> s in slots
  {
    if slots == [] then []
    else if slots[0].key == key then Without(slots[1..], key)
    else [slots[0]] + Without(slots[1..], key)
  }

  lemma {:induction false} ViewFind(slots: seq<Slot>, key: CacheKey)
    ensures Lookup(View(slots), key)
         == match Find(slots, key)
            case None => None
            case Some(s) => Some(Entry(s.key, s.value[..], s.expiresAt))
  {
    if slots != [] {
      ViewFind(slots[1..], key);
    }
  }

  lemma {:induction false} ViewWithout(slots: seq<Slot>, key: CacheKey)
    ensures View(Without(slots, key)) == Remove(View(slots), key)
  {
    if slots != [] {
      ViewWithout(slots[1..], key);
      assert Without(slots, key)
        == if slots[0].key == key then Without(slots[1..], key) else [slots[0]] + Without(slots[1..], key);
    }
  }

  lemma {:induction false} Absent(slots: seq<Slot>, key: CacheKey)
    requires Find(slots, key).None?
    ensures Without(slots, key) == slots
  {
    if slots != [] {
      Absent(slots[1..], key);
    }
  }

  lemma {:induction false} ViewAppend(slots: seq<Slot>, s: Slot)
    ensures View(slots + [s]) == View(slots) + [Entry(s.key, s.value[..], s.expiresAt)]
  {
    if slots == [] {
      assert slots + [s] == [s];
    } else {
      ViewAppend(slots[1..], s);
      assert (slots + [s])[1..] == slots[1..] + [s];
    }
  }

  class PlaintextCache {
    var slots: seq<Slot>
    const maxEntries: nat
    const ttlMs: int

    constructor (maxEntries: nat, ttlMs: int)
      ensures this.maxEntries == maxEntries && this.ttlMs == ttlMs && slots == []
    {
      this.maxEntries := maxEntries;
      this.ttlMs := ttlMs;
      slots := [];
    }

    ghost function Contents(): seq<Entry>
      reads this, BuffersOf(slots)
    {
      View(slots)
    }

    ghost function Buffers(): set<array<byte>>
      reads this
    {
      BuffersOf(slots)
    }

    /** A copy of the value, if it has not expired; it then becomes the newest entry. */
    method Get(key: CacheKey, now: int) returns (r: Option<array<byte>>)
      modifies this
      ensures Contents() == AfterGet(old(Contents()), ttlMs, now, key)
      ensures match Hit(old(Contents()), now, key)
              case None => r.None?
              case Some(value) => r.Some? && fresh(r.value) && r.value[..] == value
      ensures Buffers() <= old(Buffers())
    {
      var entry := Find(slots, key);
      ViewFind(slots, key);
      ViewWithout(slots, key);
      if entry.None? {
        Absent(slots, key);
        return None;
      }
      if entry.value.expiresAt <= now {
        Replace(Without(slots, key));
        return None;
      }
      var copy := Refreshed(entry.value.value, key, now);
      r := Some(copy);
    }

    method Refreshed(value: array<byte>, key: CacheKey, now: int) returns (copy: array<byte>)
      requires value in Buffers()
      modifies this
      ensures Contents() == Remove(old(Contents()), key) + [Entry(key, old(value[..]), now + ttlMs)]
      ensures fresh(copy) && copy[..] == value[..] && Buffers() <= old(Buffers())
    {
      MoveToEnd(Slot(key, value, now + ttlMs));
      copy := PrivateCopy(value);
    }

    /** A new array of the same bytes; the entries are as before. */
    method PrivateCopy(value: array<byte>) returns (copy: array<byte>)
      ensures fresh(copy) && copy[..] == value[..]
      ensures Contents() == old(Contents())
    {
      assert forall b: object :: b in BuffersOf(slots) ==> allocated(b);
      copy := NewBytes(value[..]);
    }

    /** Replaces the map's entries. */
    method Replace(slots: seq<Slot>)
      modifies this
      ensures this.slots == slots && Contents() == old(View(slots))
    {
      assert forall b: object :: b in BuffersOf(slots) ==> b != this;
      this.slots := slots;
    }

    /** Stores a copy as the newest entry, and evicts the oldest if there are now too many. */
    method Set(key: CacheKey, value: array<byte>, now: int)
      modifies this
      ensures Contents() == AfterSet(old(Contents()), maxEntries, ttlMs, now, key, value[..])
      ensures forall b :: b in Buffers() ==> b in old(Buffers()) || fresh(b)
    {
      var copy := PrivateCopy(value);
      SetCopy(key, copy, now);
    }

    /** Stores the array itself, which nobody else holds. */
    method SetCopy(key: CacheKey, copy: array<byte>, now: int)
      modifies this
      ensures Contents() == AfterSet(old(Contents()), maxEntries, ttlMs, now, key, copy[..])
      ensures Buffers() <= old(Buffers()) + {copy}
    {
      MoveToEnd(Slot(key, copy, now + ttlMs));
      if |slots| > maxEntries {
        Evict();
      }
    }

    /** Deletes the key's entry and puts this one at the end. */
    method MoveToEnd(s: Slot)
      modifies this
      ensures Contents() == Remove(old(Contents()), s.key) + [Entry(s.key, s.value[..], s.expiresAt)]
      ensures Buffers() <= old(Buffers()) + {s.value}
    {
      ViewWithout(slots, s.key);
      ViewAppend(Without(slots, s.key), s);
      Replace(Without(slots, s.key) + [s]);
    }

    method Evict()
      modifies this
      ensures slots == if old(slots) == [] then [] else old(slots)[1..]
      ensures Contents() == if old(Contents()) == [] then [] else old(Contents())[1..]
      ensures Buffers() <= old(Buffers())
    {
      if slots != [] {
        Replace(slots[1..]);
      }
    }

    method ClearEntries()
      modifies this
      ensures Contents() == [] && Buffers() == {}
    {
      slots := [];
    }
  }
}
