/** Set cardinalities used by the fixed-capacity structures. */
module Counting {

  /** The numbers below `n`. */
  function Below(n: nat): (s: set<nat>)
    ensures forall i :: i in s <==> 0 <= i < n
    ensures |s| == n
  {
    if n == 0 then {} else Below(n - 1) + {n - 1}
  }

  lemma SubsetSize<T>(a: set<T>, b: set<T>)
    requires a <= b
    ensures |a| <= |b|
    ensures |a| == |b| ==> a == b
  {
    assert b == a + (b - a);
  }

  lemma ValuesWithout<K, V>(m: map<K, V>, k: K)
    requires k in m
    ensures m.Values == (m - {k}).Values + {m[k]}
  {
    var n := m - {k};
    forall v | v in m.Values ensures v in n.Values + {m[k]} {
      var j :| j in m && m[j] == v;
      assert j != k ==> j in n && n[j] == v;
    }
  }

  /** An injective map has as many keys as values. */
  lemma {:induction false} InjectiveSize<K, V>(m: map<K, V>)
    requires forall j, k :: j in m && k in m && m[j] == m[k] ==> j == k
    ensures |m.Values| == |m|
  {
    if m != map[] {
      var k :| k in m;
      var n := m - {k};
      InjectiveSize(n);
      ValuesWithout(m, k);
      assert m[k] !in n.Values;
      assert |m.Keys| == |n.Keys| + 1 by {
        assert m.Keys == n.Keys + {k};
      }
    }
  }
}

/** The open-addressing index with linear probing and tombstones. */
module Hashing {

  import opened Types
  import Counting

  datatype Entry<K, V> = Empty | Occupied(key: K, value: V) | Deleted

  /** Position `i` of a ring of `n` slots, for `i` less than two turns. */
  function Wrap(n: nat, i: nat): (r: nat)
    requires i < 2 * n
    ensures r < n
  {
    if i < n then i else i - n
  }

  /** The number of probes from slot `h` to slot `i`. */
  function Distance(n: nat, h: nat, i: nat): (d: nat)
    requires h < n && i < n
    ensures d < n && Wrap(n, h + d) == i
  {
    if i >= h then i - h else i + n - h
  }

  /** The entry that the t-th probe from slot `h` looks at. */
  function Probe<K, V>(s: seq<Entry<K, V>>, h: nat, t: nat): Entry<K, V>
    requires h < |s| && t < |s|
  {
    s[Wrap(|s|, h + t)]
  }

  /** No empty slot lies on the first `d` probes from `h`. */
  predicate Reachable<K, V>(s: seq<Entry<K, V>>, h: nat, d: nat)
    requires h < |s| && d <= |s|
  {
    forall t :: 0 <= t < d ==> !Probe(s, h, t).Empty?
  }

  class FixedHashMap<K(==), V> {
    const capacity: nat
    /** The hash function of the key type; nothing is known about it. */
    const hashOf: K -> nat
    const entries: array<Entry<K, V>>
    var size: nat
    /** Where each stored key lies. */
    ghost var slots: map<K, nat>

    function Home(key: K): (h: nat)
      requires capacity > 0
      ensures h < capacity
    {
      hashOf(key) % capacity
    }

    /** Stored keys and occupied slots correspond one to one, and every key can be probed. */
    ghost predicate Table(s: seq<Entry<K, V>>, slots: map<K, nat>)
      requires capacity > 0
    {
      && |s| == capacity
      && (forall k :: k in slots ==>
            && slots[k] < capacity
            && s[slots[k]].Occupied?
            && s[slots[k]].key == k
            && Reachable(s, Home(k), Distance(capacity, Home(k), slots[k])))
      && (forall i :: 0 <= i < |s| && s[i].Occupied? ==> s[i].key in slots && slots[s[i].key] == i)
    }

    ghost predicate Valid()
      reads this, entries
    {
      && capacity > 0
      && entries.Length == capacity
      && size == |slots|
      && Table(entries[..], slots)
    }

    /** The finite map that a table represents. */
    ghost function Lookup(s: seq<Entry<K, V>>, slots: map<K, nat>): (m: map<K, V>)
      requires capacity > 0 && Table(s, slots)
      ensures m.Keys == slots.Keys && |m| == |slots|
    {
      var m := map k | k in slots :: s[slots[k]].value;
      assert m.Keys == slots.Keys;
      m
    }

    ghost function Contents(): (m: map<K, V>)
      requires Valid()
      reads this, entries
      ensures m.Keys == slots.Keys && |m| == size
    {
      Lookup(entries[..], slots)
    }

    constructor (capacity: nat, hashOf: K -> nat)
      requires capacity > 0
      ensures Valid() && Contents() == map[]
      ensures this.capacity == capacity && this.hashOf == hashOf && fresh(entries)
    {
      this.capacity := capacity;
      this.hashOf := hashOf;
      this.entries := new Entry<K, V>[capacity](_ => Empty);
      this.size := 0;
      this.slots := map[];
    }

    function NextIndex(index: nat): (r: nat)
      requires index < capacity
      ensures r == Wrap(capacity, index + 1)
    {
      (index + 1) % capacity
    }

    /** Nothing seen on the first `probe` probes is empty or holds `key`. */
    ghost predicate Missed(s: seq<Entry<K, V>>, key: K, probe: nat)
      requires capacity > 0 && |s| == capacity && probe <= capacity
    {
      forall t :: 0 <= t < probe ==>
        !Probe(s, Home(key), t).Empty? && !(Probe(s, Home(key), t).Occupied? && Probe(s, Home(key), t).key == key)
    }

    /** A key not met before an empty slot, or on a whole turn, is not stored. */
    lemma MissedKey(s: seq<Entry<K, V>>, slots: map<K, nat>, key: K, probe: nat)
      requires capacity > 0 && Table(s, slots) && probe <= capacity && Missed(s, key, probe)
      requires probe == capacity || Probe(s, Home(key), probe).Empty?
      ensures key !in slots
    {
      StoredKey(s, slots, key);
    }

    lemma FoundAt(s: seq<Entry<K, V>>, slots: map<K, nat>, i: nat)
      requires capacity > 0 && Table(s, slots) && i < capacity && s[i].Occupied?
      ensures s[i].key in slots && slots[s[i].key] == i && Lookup(s, slots)[s[i].key] == s[i].value
    {
    }

    lemma StoredKey(s: seq<Entry<K, V>>, slots: map<K, nat>, key: K)
      requires capacity > 0 && Table(s, slots)
      ensures key in slots ==>
        var d := Distance(capacity, Home(key), slots[key]);
        Probe(s, Home(key), d).Occupied? && Probe(s, Home(key), d).key == key && Reachable(s, Home(key), d)
    {
    }

    /** The number of keys is the number of occupied slots, so a full table has no other slot. */
    lemma FullTable(s: seq<Entry<K, V>>, slots: map<K, nat>)
      requires capacity > 0 && Table(s, slots)
      ensures |slots| <= capacity
      ensures |slots| == capacity <==> forall i :: 0 <= i < |s| ==> s[i].Occupied?
    {
      Counting.InjectiveSize(slots);
      var all := Counting.Below(capacity);
      Counting.SubsetSize(slots.Values, all);
      if forall i :: 0 <= i < |s| ==> s[i].Occupied? {
        forall i | i in all ensures i in slots.Values {
          assert s[i].key in slots && slots[s[i].key] == i;
        }
        assert slots.Values == all;
      }
      if |slots| == capacity {
        forall i | 0 <= i < |s| ensures s[i].Occupied? {
          assert i in all;
        }
      }
    }

    lemma SizeBound()
      requires Valid()
      ensures size <= capacity
    {
      FullTable(entries[..], slots);
    }

    /** Placing a new key in a slot met on its probe path keeps the table in order. */
    lemma Placed(s: seq<Entry<K, V>>, slots: map<K, nat>, key: K, value: V, d: nat, target: nat)
      requires capacity > 0 && Table(s, slots) && key !in slots && d < capacity
      requires target == Wrap(capacity, Home(key) + d) && !s[target].Occupied? && Reachable(s, Home(key), d)
      ensures Table(s[target := Occupied(key, value)], slots[key := target])
      ensures Lookup(s[target := Occupied(key, value)], slots[key := target]) == Lookup(s, slots)[key := value]
      ensures |slots| < capacity && |slots[key := target]| == |slots| + 1
    {
      FullTable(s, slots);
      assert !s[target].Occupied? && |s| == capacity;
      hide Table, Lookup, Reachable;
      PlacedTable(s, slots, key, value, d, target);
      PlacedLookup(s, slots, key, value, target);
    }

    lemma PlacedLookup(s: seq<Entry<K, V>>, slots: map<K, nat>, key: K, value: V, target: nat)
      requires capacity > 0 && Table(s, slots) && key !in slots && target < capacity && !s[target].Occupied?
      requires Table(s[target := Occupied(key, value)], slots[key := target])
      ensures Lookup(s[target := Occupied(key, value)], slots[key := target]) == Lookup(s, slots)[key := value]
    {
      hide Reachable, Distance;
      var s', slots' := s[target := Occupied(key, value)], slots[key := target];
      var m, m' := Lookup(s, slots)[key := value], Lookup(s', slots');
      assert m.Keys == m'.Keys;
      forall k | k in m ensures m[k] == m'[k] {
        assert k != key ==> slots[k] != target;
      }
    }

    lemma PlacedTable(s: seq<Entry<K, V>>, slots: map<K, nat>, key: K, value: V, d: nat, target: nat)
      requires capacity > 0 && Table(s, slots) && key !in slots && d < capacity
      requires target == Wrap(capacity, Home(key) + d) && !s[target].Occupied? && Reachable(s, Home(key), d)
      ensures Table(s[target := Occupied(key, value)], slots[key := target])
    {
      var s', slots' := s[target := Occupied(key, value)], slots[key := target];
      forall k | k in slots'
        ensures slots'[k] < capacity && s'[slots'[k]].Occupied? && s'[slots'[k]].key == k
        ensures Reachable(s', Home(k), Distance(capacity, Home(k), slots'[k]))
      {
        var e := Distance(capacity, Home(k), slots'[k]);
        assert Reachable(s, Home(k), e);
        StillReachable(s, s', Home(k), e);
      }
    }

    lemma StillReachable(s: seq<Entry<K, V>>, s': seq<Entry<K, V>>, h: nat, d: nat)
      requires |s| == |s'| && h < |s| && d <= |s| && Reachable(s, h, d)
      requires forall i :: 0 <= i < |s| && s'[i].Empty? ==> s[i].Empty?
      ensures Reachable(s', h, d)
    {
      forall t | 0 <= t < d ensures !Probe(s', h, t).Empty? {
        assert !Probe(s, h, t).Empty?;
      }
    }

    /** Marking a stored key's slot deleted keeps every other probe path. */
    lemma Erased(s: seq<Entry<K, V>>, slots: map<K, nat>, key: K)
      requires capacity > 0 && Table(s, slots) && key in slots
      ensures Table(s[slots[key] := Deleted], slots - {key})
      ensures Lookup(s[slots[key] := Deleted], slots - {key}) == Lookup(s, slots) - {key}
      ensures |slots| == |slots - {key}| + 1
    {
      hide Reachable, Distance;
      ErasedTable(s, slots, key);
      var s', slots' := s[slots[key] := Deleted], slots - {key};
      assert slots == slots'[key := slots[key]];
      assert forall k :: k in slots' ==> s'[slots'[k]] == s[slots[k]];
      assert Lookup(s', slots').Keys == (Lookup(s, slots) - {key}).Keys;
    }

    lemma ErasedTable(s: seq<Entry<K, V>>, slots: map<K, nat>, key: K)
      requires capacity > 0 && Table(s, slots) && key in slots
      ensures Table(s[slots[key] := Deleted], slots - {key})
    {
      var s' := s[slots[key] := Deleted];
      forall k | k in slots - {key}
        ensures Reachable(s', Home(k), Distance(capacity, Home(k), slots[k]))
      {
        StillReachable(s, s', Home(k), Distance(capacity, Home(k), slots[k]));
      }
    }

    /** Overwriting the value of a stored key. */
    lemma Overwritten(s: seq<Entry<K, V>>, slots: map<K, nat>, key: K, value: V)
      requires capacity > 0 && Table(s, slots) && key in slots
      ensures Table(s[slots[key] := Occupied(key, value)], slots)
      ensures Lookup(s[slots[key] := Occupied(key, value)], slots) == Lookup(s, slots)[key := value]
    {
      var s' := s[slots[key] := Occupied(key, value)];
      forall k | k in slots
        ensures Reachable(s', Home(k), Distance(capacity, Home(k), slots[k]))
      {
        StillReachable(s, s', Home(k), Distance(capacity, Home(k), slots[k]));
      }
    }

    method Find(key: K) returns (r: Option<V>)
      requires Valid()
      ensures r == if key in Contents() then Some(Contents()[key]) else None
    {
      hide Table, Lookup;
      var index := Home(key);
      ghost var s := entries[..];
      for probe := 0 to capacity
        invariant index == Wrap(capacity, Home(key) + probe)
        invariant Missed(s, key, probe)
      {
        var entry := entries[index];
        assert Probe(s, Home(key), probe) == entry;
        if entry.Empty? {
          MissedKey(s, slots, key, probe);
          return None;
        }
        if entry.Occupied? && entry.key == key {
          FoundAt(s, slots, index);
          return Some(entry.value);
        }
        index := NextIndex(index);
      }
      MissedKey(s, slots, key, capacity);
      return None;
    }

    method Contains(key: K) returns (b: bool)
      requires Valid()
      ensures b <==> key in Contents()
    {
      var r := Find(key);
      b := r.Some?;
    }

    method Insert(key: K, value: V) returns (ok: bool)
      requires Valid()
      modifies this, entries
      ensures Valid()
      ensures ok <==> key in old(Contents()) || old(size) < capacity
      ensures Contents() == if ok then old(Contents())[key := value] else old(Contents())
    {
      hide Table, Lookup;
      var index := Home(key);
      var firstDeleted := capacity;
      ghost var s := entries[..];
      ghost var d := 0;
      FullTable(s, slots);
      for probe := 0 to capacity
        invariant entries[..] == s && slots == old(slots) && size == old(size)
        invariant index == Wrap(capacity, Home(key) + probe)
        invariant Missed(s, key, probe)
        invariant if firstDeleted == capacity
          then forall t :: 0 <= t < probe ==> Probe(s, Home(key), t).Occupied?
          else d < probe && firstDeleted == Wrap(capacity, Home(key) + d) && s[firstDeleted].Deleted?
      {
        var entry := entries[index];
        assert Probe(s, Home(key), probe) == entry;
        if entry.Occupied? {
          if entry.key == key {
            FoundAt(s, slots, index);
            Overwritten(s, slots, key, value);
            entries[index] := Occupied(key, value);
            assert entries[..] == s[index := Occupied(key, value)];
            return true;
          }
        } else if entry.Deleted? {
          if firstDeleted == capacity {
            firstDeleted := index;
            d := probe;
          }
        } else {
          var target := if firstDeleted != capacity then firstDeleted else index;
          MissedKey(s, slots, key, probe);
          Place(key, value, target, if firstDeleted != capacity then d else probe);
          return true;
        }
        index := NextIndex(index);
      }
      MissedKey(s, slots, key, capacity);
      if firstDeleted != capacity {
        Place(key, value, firstDeleted, d);
        return true;
      }
      forall i | 0 <= i < |s| ensures s[i].Occupied? {
        assert Probe(s, Home(key), Distance(capacity, Home(key), i)) == s[i];
      }
      return false;
    }

    /** The writes that store a new key in a free slot. */
    method Place(key: K, value: V, target: nat, ghost d: nat)
      requires Valid() && key !in slots && d < capacity
      requires target == Wrap(capacity, Home(key) + d)
      requires !entries[target].Occupied? && Reachable(entries[..], Home(key), d)
      modifies this, entries
      ensures Valid() && Contents() == old(Contents())[key := value] && old(size) < capacity
    {
      hide Table, Lookup;
      ghost var s := entries[..];
      Placed(s, slots, key, value, d, target);
      entries[target] := Occupied(key, value);
      assert entries[..] == s[target := Occupied(key, value)];
      slots := slots[key := target];
      size := size + 1;
    }

    method Erase(key: K) returns (ok: bool)
      requires Valid()
      modifies this, entries
      ensures Valid()
      ensures ok <==> key in old(Contents())
      ensures Contents() == old(Contents()) - {key}
      ensures size == old(size) - (if ok then 1 else 0)
    {
      hide Table, Lookup;
      var index := Home(key);
      ghost var s := entries[..];
      for probe := 0 to capacity
        invariant entries[..] == s && slots == old(slots) && size == old(size)
        invariant index == Wrap(capacity, Home(key) + probe)
        invariant Missed(s, key, probe)
      {
        var entry := entries[index];
        assert Probe(s, Home(key), probe) == entry;
        if entry.Empty? {
          MissedKey(s, slots, key, probe);
          return false;
        }
        if entry.Occupied? && entry.key == key {
          FoundAt(s, slots, index);
          Erased(s, slots, key);
          entries[index] := Deleted;
          assert entries[..] == s[index := Deleted];
          slots := slots - {key};
          size := size - 1;
          return true;
        }
        index := NextIndex(index);
      }
      MissedKey(s, slots, key, capacity);
      return false;
    }
  }
}
