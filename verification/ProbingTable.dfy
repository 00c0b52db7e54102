/** Linear probing over a cyclic table without deletion. */
module ProbingTable {
  /** A 32-byte digest, as a number. */
  type Key = nat

  datatype Slot = Slot(used: bool, key: Key, off: nat, tableRef: nat, len: nat)

  /** The next slot: (i + 1) & (cap - 1). */
  function NextSlot(i: nat, cap: nat): nat {
    if i + 1 == cap then 0 else i + 1
  }

  /** The slot d steps behind the start. */
  function SlotAt(start: nat, d: nat, cap: nat): (i: nat)
    requires start < cap && d < cap
    ensures i < cap
  {
    if start + d < cap then start + d else start + d - cap
  }

  function Distance(start: nat, i: nat, cap: nat): (d: nat)
    requires start < cap && i < cap
    ensures d < cap && SlotAt(start, d, cap) == i
  {
    if start <= i then i - start else i - start + cap
  }

  /** code_db_hash(key) & (cap - 1), for any hash. */
  function Start(hash: Key -> nat, key: Key, cap: nat): (i: nat)
    requires cap > 0
    ensures i < cap
  {
    hash(key) % cap
  }

  /** Every slot from the start of a key up to i is taken. */
  ghost predicate ChainTaken(t: seq<Slot>, start: nat, i: nat)
    requires start < |t| && i < |t|
  {
    forall d {:trigger SlotAt(start, d, |t|)} :: 0 <= d < Distance(start, i, |t|) ==> t[SlotAt(start, d, |t|)].used
  }

  /** The used slots are those `places` says, each behind an unbroken chain. */
  ghost predicate Represents(t: seq<Slot>, places: map<Key, nat>, hash: Key -> nat) {
    && (forall k :: k in places ==> places[k] < |t| && t[places[k]].used && t[places[k]].key == k)
    && (forall i :: 0 <= i < |t| && t[i].used ==> t[i].key in places && places[t[i].key] == i)
    && (forall k :: k in places ==> ChainTaken(t, Start(hash, k, |t|), places[k]))
  }

  /** Where a probe ends: the first slot from the start on that is free or holds the key. */
  ghost predicate ProbeEnds(t: seq<Slot>, hash: Key -> nat, key: Key, i: nat) {
    && i < |t|
    && (t[i].used ==> t[i].key == key)
    && var start := Start(hash, key, |t|);
       forall d {:trigger SlotAt(start, d, |t|)} :: 0 <= d < Distance(start, i, |t|) ==>
         t[SlotAt(start, d, |t|)].used && t[SlotAt(start, d, |t|)].key != key
  }

  /** The probe finds the key exactly when it is there. */
  lemma ProbeDecides(t: seq<Slot>, places: map<Key, nat>, hash: Key -> nat, key: Key, i: nat)
    requires Represents(t, places, hash) && ProbeEnds(t, hash, key, i)
    ensures t[i].used <==> key in places
    ensures key in places ==> places[key] == i
  {
    if key in places {
      var start, w := Start(hash, key, |t|), places[key];
      var d, e := Distance(start, i, |t|), Distance(start, w, |t|);
      assert ChainTaken(t, start, w);
      assert SlotAt(start, d, |t|) == i && SlotAt(start, e, |t|) == w;
      assert d == e;
    }
  }

  /** Putting an entry where the probe ended. */
  lemma PutRepresents(t: seq<Slot>, places: map<Key, nat>, hash: Key -> nat, i: nat, e: Slot)
    requires Represents(t, places, hash) && ProbeEnds(t, hash, e.key, i) && e.used
    ensures Represents(t[i := e], places[e.key := i], hash)
  {
    ProbeDecides(t, places, hash, e.key, i);
    var u, q := t[i := e], places[e.key := i];
    forall k | k in q ensures ChainTaken(u, Start(hash, k, |u|), q[k]) {
      if k != e.key { assert ChainTaken(t, Start(hash, k, |t|), places[k]); }
    }
  }

  /** The keys of the first n slots, all taken, are n keys. */
  lemma {:induction false} TakenKeys(t: seq<Slot>, places: map<Key, nat>, hash: Key -> nat, n: nat) returns (keys: set<Key>)
    requires Represents(t, places, hash) && n <= |t| && forall i :: 0 <= i < n ==> t[i].used
    ensures |keys| == n && keys <= places.Keys && forall k :: k in keys ==> places[k] < n
  {
    if n == 0 {
      keys := {};
    } else {
      var rest := TakenKeys(t, places, hash, n - 1);
      keys := rest + {t[n - 1].key};
    }
  }

  /** Fewer keys than slots leave a free slot. */
  lemma FreeSlot(t: seq<Slot>, places: map<Key, nat>, hash: Key -> nat) returns (free: nat)
    requires Represents(t, places, hash) && |places| < |t|
    ensures free < |t| && !t[free].used
  {
    if forall i :: 0 <= i < |t| ==> t[i].used {
      var keys := TakenKeys(t, places, hash, |t|);
      Subset(keys, places.Keys);
    }
    free :| 0 <= free < |t| && !t[free].used;
  }

  lemma {:induction false} Subset<T>(a: set<T>, b: set<T>)
    requires a <= b
    ensures |a| <= |b|
  {
    assert b == a + (b - a);
  }

  /** One slot further along the probe. */
  ghost predicate Probing(t: seq<Slot>, start: nat, key: Key, d: nat) {
    && start < |t| && d < |t|
    && forall e {:trigger SlotAt(start, e, |t|)} :: 0 <= e < d ==>
         t[SlotAt(start, e, |t|)].used && t[SlotAt(start, e, |t|)].key != key
  }

  lemma ProbeStep(t: seq<Slot>, start: nat, key: Key, d: nat, free: nat)
    requires Probing(t, start, key, d) && free < |t| && !t[free].used && d <= Distance(start, free, |t|)
    requires var i := SlotAt(start, d, |t|); t[i].used && t[i].key != key
    ensures d < Distance(start, free, |t|) && Probing(t, start, key, d + 1)
    ensures SlotAt(start, d + 1, |t|) == NextSlot(SlotAt(start, d, |t|), |t|)
  {
  }

  /** code_db_find: the probe always ends, because a slot is free. */
  method Find(table: array<Slot>, key: Key, ghost places: map<Key, nat>, hash: Key -> nat) returns (i: nat)
    requires Represents(table[..], places, hash) && |places| < table.Length
    ensures ProbeEnds(table[..], hash, key, i)
    ensures table[i].used <==> key in places
    ensures key in places ==> places[key] == i
  {
    ghost var t := table[..];
    ghost var free := FreeSlot(t, places, hash);
    ghost var start, d: nat := Start(hash, key, |t|), 0;
    i := Start(hash, key, table.Length);
    while table[i].used && table[i].key != key
      invariant i < table.Length && Probing(t, start, key, d) && i == SlotAt(start, d, |t|)
      invariant d <= Distance(start, free, |t|)
      decreases |t| - d
    {
      ProbeStep(t, start, key, d, free);
      i := NextSlot(i, table.Length);
      d := d + 1;
    }
    assert Distance(start, i, |t|) == d;
    ProbeDecides(t, places, hash, key, i);
  }

  //////////////////////////////////////////////////////////////////////////////
  // Growth
  //////////////////////////////////////////////////////////////////////////////

  /** The entries of the first n old slots sit in the new table. */
  ghost predicate Moved(was: seq<Slot>, oldPlaces: map<Key, nat>, t: seq<Slot>, places: map<Key, nat>, n: nat)
    requires n <= |was|
  {
    && (forall k :: k in places <==> k in oldPlaces && oldPlaces[k] < n)
    && (forall k :: k in places ==> places[k] < |t| && oldPlaces[k] < |was| && t[places[k]] == was[oldPlaces[k]])
  }

  lemma MovedFewer(was: seq<Slot>, oldPlaces: map<Key, nat>, t: seq<Slot>, places: map<Key, nat>, n: nat)
    requires n <= |was| && Moved(was, oldPlaces, t, places, n)
    ensures |places| <= |oldPlaces|
  {
    Subset(places.Keys, oldPlaces.Keys);
  }

  lemma MovedStep(was: seq<Slot>, oldPlaces: map<Key, nat>, t: seq<Slot>, places: map<Key, nat>, hash: Key -> nat,
                  n: nat, i: nat)
    requires n < |was| && Moved(was, oldPlaces, t, places, n) && Represents(was, oldPlaces, hash)
    requires Represents(t, places, hash) && i < |t|
    requires was[n].used ==> !t[i].used
    ensures was[n].used ==> Moved(was, oldPlaces, t[i := was[n]], places[was[n].key := i], n + 1)
    ensures !was[n].used ==> Moved(was, oldPlaces, t, places, n + 1)
  {
  }

  /** Copies an entry to the slot where the probe for its key ends. */
  method Put(table: array<Slot>, e: Slot, ghost places: map<Key, nat>, hash: Key -> nat) returns (i: nat)
    requires Represents(table[..], places, hash) && |places| < table.Length && e.used
    modifies table
    ensures i < table.Length && table[..] == old(table[..])[i := e]
    ensures old(table[i].used) <==> e.key in places
    ensures Represents(table[..], places[e.key := i], hash)
  {
    i := Find(table, e.key, places, hash);
    PutRepresents(table[..], places, hash, i, e);
    table[i] := e;
  }

  /** code_db_grow: a table twice the size (or the first one) with the same entries. */
  method Grow(table: array<Slot>, ghost places: map<Key, nat>, hash: Key -> nat, blank: Slot, first: nat)
      returns (grown: array<Slot>, ghost newPlaces: map<Key, nat>)
    requires Represents(table[..], places, hash) && |places| <= table.Length && first > 0 && !blank.used
    ensures fresh(grown) && grown.Length == if table.Length == 0 then first else 2 * table.Length
    ensures Represents(grown[..], newPlaces, hash) && newPlaces.Keys == places.Keys
    ensures Moved(table[..], places, grown[..], newPlaces, table.Length)
  {
    var cap := if table.Length == 0 then first else 2 * table.Length;
    grown := new Slot[cap](_ => blank);
    newPlaces := map[];
    ghost var o := table[..];
    for i := 0 to table.Length
      modifies grown
      invariant table[..] == o
      invariant Represents(grown[..], newPlaces, hash) && Moved(o, places, grown[..], newPlaces, i)
    {
      MovedFewer(o, places, grown[..], newPlaces, i);
      if table[i].used {
        ghost var t := grown[..];
        ghost var j := Put(grown, table[i], newPlaces, hash);
        MovedStep(o, places, t, newPlaces, hash, i, j);
        newPlaces := newPlaces[o[i].key := j];
      } else {
        MovedStep(o, places, grown[..], newPlaces, hash, i, 0);
      }
    }
  }
}
