/** Which of the facts recorded in a block its event stream tells. */
module AccessFacts {
  import opened HostModel
  import opened AccessRecording
  import opened AccessEvents

  /** Some fact is about the account. */
  predicate Mentioned(facts: seq<Fact>, a: Address) {
    exists i :: 0 <= i < |facts| && facts[i].address == a
  }

  predicate ChangesSlot(f: Fact, key: SlotKey) {
    f.StorageSet? && SlotKey(f.address, f.slot) == key
  }

  /** Some fact changes the slot. */
  predicate Changed(facts: seq<Fact>, key: SlotKey) {
    exists i :: 0 <= i < |facts| && ChangesSlot(facts[i], key)
  }

  /** Nothing from i on overwrites the fact. */
  predicate Stands(facts: seq<Fact>, f: Fact, i: nat) {
    i < |facts| && facts[i] == f && forall j :: i < j < |facts| && SameEntry(facts[j], f) ==> facts[j] == f
  }

  /** An account shows once it is mentioned, a read unless its slot is changed, a change until it is overwritten. */
  ghost predicate Survives(facts: seq<Fact>, f: Fact) {
    match f
    case Touched(a) => Mentioned(facts, a)
    case StorageSeen(a, slot) => f in facts && !Changed(facts, SlotKey(a, slot))
    case _ => exists i :: Stands(facts, f, i)
  }

  predicate IsChange(f: Fact) {
    !f.Touched? && !f.StorageSeen?
  }

  /** The change is what its entry holds. */
  predicate Holds(s: Recording, f: Fact)
    requires IsChange(f)
  {
    match f
    case StorageSet(a, slot, index, v) => HoldsAt(Entries(s.storage, SlotKey(a, slot)), index, v)
    case BalanceSet(a, index, v) => HoldsAt(Entries(s.balances, a), index, v)
    case NonceSet(a, index, v) => HoldsAt(Entries(s.nonces, a), index, v)
    case CodeSet(a, index, v) => HoldsAt(Entries(s.codes, a), index, v)
  }

  predicate HoldsAt(changes: map<nat, Word>, index: nat, v: Word) {
    index in changes && changes[index] == v
  }

  lemma EntryHolds<K>(m: map<K, map<nat, Word>>, k: K, i: nat, v: Word, l: K, j: nat, w: Word)
    ensures HoldsAt(Entries(WithEntry(m, k, i, v), l), j, w) <==>
            if k == l && i == j then v == w else HoldsAt(Entries(m, l), j, w)
  {
  }

  lemma HoldsNext(s: Recording, g: Fact, f: Fact)
    requires IsChange(f)
    ensures Holds(Record(s, g), f) <==> g == f || (!SameEntry(g, f) && Holds(s, f))
  {
    match f
    case StorageSet(a, slot, j, w) =>
      if g.StorageSet? { EntryHolds(s.storage, SlotKey(g.address, g.slot), g.index, g.value, SlotKey(a, slot), j, w); }
    case BalanceSet(a, j, w) => if g.BalanceSet? { EntryHolds(s.balances, g.address, g.index, g.value, a, j, w); }
    case NonceSet(a, j, w) => if g.NonceSet? { EntryHolds(s.nonces, g.address, g.index, g.value, a, j, w); }
    case CodeSet(a, j, w) => if g.CodeSet? { EntryHolds(s.codes, g.address, g.index, g.value, a, j, w); }
  }

  lemma StandsNext(facts: seq<Fact>, f: Fact)
    requires facts != []
    ensures var n := |facts| - 1;
            (exists i :: Stands(facts, f, i)) <==>
            facts[n] == f || (!SameEntry(facts[n], f) && exists i :: Stands(facts[..n], f, i))
  {
    var n := |facts| - 1;
    var front := facts[..n];
    if facts[n] == f { assert Stands(facts, f, n); }
    else if i :| Stands(facts, f, i) { assert Stands(front, f, i); }
    if i :| !SameEntry(facts[n], f) && Stands(front, f, i) { assert Stands(facts, f, i); }
  }

  /** A change is held exactly when no later fact overwrites it. */
  lemma {:induction false} HoldsLast(facts: seq<Fact>, f: Fact)
    requires IsChange(f)
    ensures Holds(RecordAll(NOTHING, facts), f) <==> exists i :: Stands(facts, f, i)
    decreases |facts|
  {
    if facts != [] {
      var n := |facts| - 1;
      HoldsLast(facts[..n], f);
      HoldsNext(RecordAll(NOTHING, facts[..n]), facts[n], f);
      StandsNext(facts, f);
    }
  }

  /** What is touched, changed and read are what the facts say. */
  lemma {:induction false} RecordedKeys(facts: seq<Fact>, a: Address, key: SlotKey)
    ensures var s := RecordAll(NOTHING, facts);
            && (a in s.accounts <==> Mentioned(facts, a))
            && (key in s.storage <==> Changed(facts, key))
            && (key in s.seen <==> StorageSeen(key.addr, key.slot) in facts)
    decreases |facts|
  {
    if facts != [] {
      var n := |facts| - 1;
      RecordedKeys(facts[..n], a, key);
      KeysNext(RecordAll(NOTHING, facts[..n]), facts[n], a, key);
      SaidNext(facts[..n], facts[n], a, key);
      assert facts == facts[..n] + [facts[n]];
    }
  }

  lemma KeysNext(s: Recording, g: Fact, a: Address, key: SlotKey)
    ensures var t := Record(s, g);
            && (a in t.accounts <==> a in s.accounts || g.address == a)
            && (key in t.storage <==> key in s.storage || ChangesSlot(g, key))
            && (key in t.seen <==> key in s.seen || g == StorageSeen(key.addr, key.slot))
  {
  }

  lemma SaidNext(facts: seq<Fact>, g: Fact, a: Address, key: SlotKey)
    ensures Mentioned(facts + [g], a) <==> Mentioned(facts, a) || g.address == a
    ensures Changed(facts + [g], key) <==> Changed(facts, key) || ChangesSlot(g, key)
  {
    var all := facts + [g];
    assert all[|facts|] == g;
    if i :| 0 <= i < |facts| && facts[i].address == a { assert all[i].address == a; }
    if i :| 0 <= i < |facts| && ChangesSlot(facts[i], key) { assert ChangesSlot(all[i], key); }
  }

  /** For any facts, in any order and however often an entry is written: the stream tells exactly the touched accounts,
      the changes that stand, and the reads of slots that nothing changes. */
  lemma StreamTells(facts: seq<Fact>, f: Fact)
    ensures Told(Parse(Events(RecordAll(NOTHING, facts))), f) <==> Survives(facts, f)
  {
    var s := RecordAll(NOTHING, facts);
    DecodeEvents(s, f);
    if IsChange(f) {
      HoldsLast(facts, f);
      RecordedKeys(facts, f.address, SlotKey(f.address, 0));
      if i :| Stands(facts, f, i) { assert Mentioned(facts, f.address); }
      assert Recorded(s, f) <==> f.address in s.accounts && Holds(s, f);
    } else {
      RecordedKeys(facts, f.address, if f.Touched? then SlotKey(f.address, 0) else SlotKey(f.address, f.slot));
    }
  }

  /** Where no two facts disagree about an entry, every change is told. */
  lemma IndependentTold(facts: seq<Fact>, f: Fact)
    requires AllIndependent(facts) && IsChange(f)
    ensures Told(Parse(Events(RecordAll(NOTHING, facts))), f) <==> f in facts
  {
    StreamTells(facts, f);
    IndependentStands(facts, f);
  }

  lemma IndependentStands(facts: seq<Fact>, f: Fact)
    requires AllIndependent(facts)
    ensures (exists i :: Stands(facts, f, i)) <==> f in facts
  {
    if f in facts {
      var i :| 0 <= i < |facts| && facts[i] == f;
      forall j | i < j < |facts| && SameEntry(facts[j], f) ensures facts[j] == f {
        assert Independent(facts[i], facts[j]);
        assert SameEntry(f, facts[j]);
      }
      assert Stands(facts, f, i);
    }
  }

  //////////////////////////////////////////////////////////////////////////////
  // Reachable recordings
  //////////////////////////////////////////////////////////////////////////////

  /** No entry is empty, and every entry is of a touched account. */
  ghost predicate WellRecorded(s: Recording) {
    && (forall key :: key in s.storage ==> s.storage[key] != map[] && key.addr in s.accounts)
    && (forall key :: key in s.seen ==> key.addr in s.accounts)
    && (forall a :: a in s.balances ==> s.balances[a] != map[] && a in s.accounts)
    && (forall a :: a in s.nonces ==> s.nonces[a] != map[] && a in s.accounts)
    && (forall a :: a in s.codes ==> s.codes[a] != map[] && a in s.accounts)
  }

  lemma EntryNonempty<K>(m: map<K, map<nat, Word>>, k: K, i: nat, v: Word)
    requires forall l :: l in m ==> m[l] != map[]
    ensures forall l :: l in WithEntry(m, k, i, v) ==> WithEntry(m, k, i, v)[l] != map[]
  {
    assert i in Entries(m, k)[i := v];
  }

  lemma RecordKeeps(s: Recording, f: Fact)
    requires WellRecorded(s)
    ensures WellRecorded(Record(s, f))
  {
    match f
    case StorageSet(a, slot, i, v) => EntryNonempty(s.storage, SlotKey(a, slot), i, v);
    case BalanceSet(a, i, v) => EntryNonempty(s.balances, a, i, v);
    case NonceSet(a, i, v) => EntryNonempty(s.nonces, a, i, v);
    case CodeSet(a, i, v) => EntryNonempty(s.codes, a, i, v);
    case StorageSeen(_, _) =>
    case Touched(_) =>
  }

  lemma {:induction false} RecordAllKeeps(facts: seq<Fact>)
    ensures WellRecorded(RecordAll(NOTHING, facts))
    decreases |facts|
  {
    if facts != [] {
      RecordAllKeeps(facts[..|facts| - 1]);
      RecordKeeps(RecordAll(NOTHING, facts[..|facts| - 1]), facts[|facts| - 1]);
    }
  }

  /** No read vanishes: its slot shows as a read or as a change. */
  lemma ReadShows(facts: seq<Fact>, a: Address, slot: Word)
    requires StorageSeen(a, slot) in facts
    ensures var told := Parse(Events(RecordAll(NOTHING, facts)));
            Told(told, StorageSeen(a, slot)) || exists index, v :: Told(told, StorageSet(a, slot, index, v))
  {
    var s, key := RecordAll(NOTHING, facts), SlotKey(a, slot);
    RecordedKeys(facts, a, key);
    RecordAllKeeps(facts);
    DecodeEvents(s, StorageSeen(a, slot));
    if key in s.storage {
      var index :| index in s.storage[key];
      DecodeEvents(s, StorageSet(a, slot, index, s.storage[key][index]));
    }
  }
}
