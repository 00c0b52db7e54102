/** The execution-time host state and the undo entries of its journal. */
module HostModel {
  import opened Collections
  import opened Journal

  type Address = nat

  type Word = nat

  const INITIAL_GENERATION: nat := 1

  datatype SlotKey = SlotKey(addr: Address, slot: Word)

  datatype Account = Account(
    balance: Word, nonce: Word, codeHash: Word,
    present: bool, created: bool, selfdestructed: bool, storageCleared: bool)

  datatype AccountRow = AccountRow(current: Account, original: Account)

  datatype StorageValue = StorageValue(curr: Word, orig: Word)

  datatype StorageRow = StorageRow(value: StorageValue, generation: nat)

  datatype LogRecord = LogRecord(address: Address, topics: seq<Word>, offset: nat, length: nat)

  /** A dictionary that remembers the order in which its keys came in. */
  datatype Dict<K(==), V> = Dict(keys: seq<K>, rows: map<K, V>) {
    function Insert(key: K, row: V): Dict<K, V> {
      Dict(keys + [key], rows[key := row])
    }

    function Put(key: K, row: V): Dict<K, V> {
      Dict(keys, rows[key := row])
    }

    function RemoveAt(i: nat): Dict<K, V>
      requires i < |keys|
    {
      Dict(keys[..i] + keys[i + 1..], rows - {keys[i]})
    }

    /** Each row is listed once. */
    ghost predicate Ordered() {
      && (forall i :: 0 <= i < |keys| ==> keys[i] in rows)
      && (forall k :: k in rows ==> k in keys)
      && (forall i, j :: 0 <= i < j < |keys| ==> keys[i] != keys[j])
    }
  }

  lemma RemoveKeepsOrder<K, V>(d: Dict<K, V>, i: nat)
    requires d.Ordered() && i < |d.keys|
    ensures d.RemoveAt(i).Ordered()
  {
    var t := d.RemoveAt(i);
    forall j | 0 <= j < |t.keys| ensures t.keys[j] == d.keys[if j < i then j else j + 1] {}
    forall k | k in t.rows ensures k in t.keys { RemainingKey(d, i, k); }
  }

  lemma RemainingKey<K, V>(d: Dict<K, V>, i: nat, k: K)
    requires d.Ordered() && i < |d.keys| && k in d.rows && k != d.keys[i]
    ensures k in d.RemoveAt(i).keys
  {
    assert k in d.keys;
    var j :| 0 <= j < |d.keys| && d.keys[j] == k;
    assert d.RemoveAt(i).keys[if j < i then j else j - 1] == k;
  }

  /** What was taken out first, and what came after it. */
  lemma DrainedNext<K, V>(first: (K, V), rest: seq<(K, V)>, slots: map<K, V>)
    requires first.0 in slots && slots[first.0] == first.1
    requires forall key, v :: (key, v) in rest <==> key in slots - {first.0} && slots[key] == v
    requires forall i, j :: 0 <= i < j < |rest| ==> rest[i].0 != rest[j].0
    ensures var drained := [first] + rest;
            && (forall key, v :: (key, v) in drained <==> key in slots && slots[key] == v)
            && (forall i, j :: 0 <= i < j < |drained| ==> drained[i].0 != drained[j].0)
  {
    var drained := [first] + rest;
    forall i, j | 0 <= i < j < |drained| ensures drained[i].0 != drained[j].0 {
      if i == 0 { assert (drained[j].0, drained[j].1) in rest; }
    }
  }

  datatype Change =
    | TransientChanged(key: SlotKey, prior: Word)
    | WarmAccountChanged(address: Address, priorEpoch: nat)
    | WarmStorageChanged(key: SlotKey, priorEpoch: nat)
    | BalanceChanged(address: Address, prior: Word)
    | NonceChanged(address: Address, prior: Word)
    | CodeHashChanged(address: Address, prior: Word)
    | ExistsChanged(address: Address, flag: bool)
    | CreatedChanged(address: Address, flag: bool)
    | SelfdestructedChanged(address: Address, flag: bool)
    | AccountListed
    | StorageListed(address: Address)
    | LogAppended
    | StorageValueChanged(key: SlotKey, prior: Word)
    | StorageRowGenerationChanged(key: SlotKey, prior: nat)
    | StorageGenerationChanged(address: Address, prior: nat)

  /** The part of the host state that a revert restores. */
  datatype Store = Store(
    transient: map<SlotKey, Word>,
    warmAccounts: map<Address, nat>,
    warmSlots: map<SlotKey, nat>,
    accounts: Dict<Address, AccountRow>,
    storage: Dict<SlotKey, StorageRow>,
    generations: map<Address, nat>,
    logs: seq<LogRecord>,
    logData: seq<bv8>)

  /** dict.get(key, default) */
  function Read<K>(m: map<K, nat>, key: K, default: nat): nat {
    if key in m then m[key] else default
  }

  function GenerationOf(s: Store, a: Address): nat {
    Read(s.generations, a, INITIAL_GENERATION)
  }

  function SetCurrent(s: Store, a: Address, current: Account): Store
    requires a in s.accounts.rows
  {
    s.(accounts := s.accounts.Put(a, s.accounts.rows[a].(current := current)))
  }

  function PutRow(s: Store, key: SlotKey, row: StorageRow): Store {
    s.(storage := s.storage.Put(key, row))
  }

  /** The position of the last key of an address in the insertion order. */
  function LastListed(keys: seq<SlotKey>, a: Address): (i: Option<nat>)
    ensures i.Some? ==> i.value < |keys| && keys[i.value].addr == a
    ensures i.Some? ==> forall k :: i.value < k < |keys| ==> keys[k].addr != a
    ensures i.None? ==> forall k :: 0 <= k < |keys| ==> keys[k].addr != a
  {
    if keys == [] then None
    else if keys[|keys| - 1].addr == a then Some(|keys| - 1)
    else LastListed(keys[..|keys| - 1], a)
  }

  /** del data[offset:] */
  function CutAt(data: seq<bv8>, offset: nat): seq<bv8> {
    if offset <= |data| then data[..offset] else data
  }

  /** The storage_cleared flag follows a generation that an undo restores. */
  function WithGeneration(s: Store, a: Address, generation: nat): Store {
    var restored := s.(generations := s.generations[a := generation]);
    if a !in s.accounts.rows then restored else
    var row := s.accounts.rows[a];
    SetCurrent(restored, a, row.current.(
        storageCleared := row.original.storageCleared || generation != INITIAL_GENERATION))
  }

  /** Undoes one entry; None where the entry names a row that is missing. */
  function Restore(s: Store, e: Change): Option<Store> {
    match e
    case TransientChanged(key, prior) => Some(s.(transient := s.transient[key := prior]))
    case WarmAccountChanged(a, prior) => Some(s.(warmAccounts := s.warmAccounts[a := prior]))
    case WarmStorageChanged(key, prior) => Some(s.(warmSlots := s.warmSlots[key := prior]))
    case BalanceChanged(a, prior) =>
      if a !in s.accounts.rows then None else Some(SetCurrent(s, a, s.accounts.rows[a].current.(balance := prior)))
    case NonceChanged(a, prior) =>
      if a !in s.accounts.rows then None else Some(SetCurrent(s, a, s.accounts.rows[a].current.(nonce := prior)))
    case CodeHashChanged(a, prior) =>
      if a !in s.accounts.rows then None else Some(SetCurrent(s, a, s.accounts.rows[a].current.(codeHash := prior)))
    case ExistsChanged(a, flag) =>
      if a !in s.accounts.rows then None else Some(SetCurrent(s, a, s.accounts.rows[a].current.(present := flag)))
    case CreatedChanged(a, flag) =>
      if a !in s.accounts.rows then None else Some(SetCurrent(s, a, s.accounts.rows[a].current.(created := flag)))
    case SelfdestructedChanged(a, flag) =>
      if a !in s.accounts.rows then None
      else Some(SetCurrent(s, a, s.accounts.rows[a].current.(selfdestructed := flag)))
    case AccountListed =>
      if s.accounts.keys == [] then None else Some(s.(accounts := s.accounts.RemoveAt(|s.accounts.keys| - 1)))
    case StorageListed(a) =>
      var i := LastListed(s.storage.keys, a);
      if i.None? then None else Some(s.(storage := s.storage.RemoveAt(i.value)))
    case LogAppended =>
      if s.logs == [] then None else
      Some(s.(logs := s.logs[..|s.logs| - 1], logData := CutAt(s.logData, s.logs[|s.logs| - 1].offset)))
    case StorageValueChanged(key, prior) =>
      if key !in s.storage.rows then None else
      var row := s.storage.rows[key];
      Some(PutRow(s, key, row.(value := row.value.(curr := prior))))
    case StorageRowGenerationChanged(key, prior) =>
      if key !in s.storage.rows then None else
      Some(PutRow(s, key, s.storage.rows[key].(generation := prior)))
    case StorageGenerationChanged(a, prior) => Some(WithGeneration(s, a, prior))
  }

  /** Undoing a clear sets the generation back, and the flag of a listed account says again whether it was cleared
      before the transaction or is still cleared in it. */
  lemma GenerationRestored(s: Store, a: Address, prior: nat)
    ensures var t := Restore(s, StorageGenerationChanged(a, prior));
            && t.Some? && t.value.generations == s.generations[a := prior]
            && t.value == s.(generations := t.value.generations, accounts := t.value.accounts)
            && t.value.accounts.keys == s.accounts.keys
            && t.value.accounts.rows == if a !in s.accounts.rows then s.accounts.rows else
                 var row := s.accounts.rows[a];
                 s.accounts.rows[a := row.(current := row.current.(
                     storageCleared := row.original.storageCleared || prior != 1))]
  {
  }

  //////////////////////////////////////////////////////////////////////////////
  // What of a store can be observed
  //////////////////////////////////////////////////////////////////////////////

  /** A map with a default value, without the keys that hold the default. */
  function Dense<K>(m: map<K, nat>, default: nat): map<K, nat> {
    map k | k in m && m[k] != default :: m[k]
  }

  function HideCleared(row: AccountRow): AccountRow {
    row.(current := row.current.(storageCleared := false))
  }

  function HideRows(rows: map<Address, AccountRow>): map<Address, AccountRow> {
    map a | a in rows :: HideCleared(rows[a])
  }

  /** The store up to keys that hold their default and up to the derived storage_cleared flags. */
  function Observed(s: Store): Store {
    s.(transient := Dense(s.transient, 0),
       warmAccounts := Dense(s.warmAccounts, 0),
       warmSlots := Dense(s.warmSlots, 0),
       generations := Dense(s.generations, INITIAL_GENERATION),
       accounts := s.accounts.(rows := HideRows(s.accounts.rows)))
  }

  function Lift(s: Option<Store>): Option<Store> {
    if s.None? then None else Some(Observed(s.value))
  }

  /** Undoing one entry, as far as it can be observed; the row of a storage listing must be the last one. */
  function UndoEntry(s: Store, e: Change): Option<Store> {
    if e.StorageListed? && !LastRowOf(s, e.address) then None else Lift(Restore(s, e))
  }

  predicate LastRowOf(s: Store, a: Address) {
    s.storage.keys != [] && s.storage.keys[|s.storage.keys| - 1].addr == a
  }

  lemma DensePut<K>(m: map<K, nat>, key: K, v: nat, default: nat)
    ensures Dense(Dense(m, default)[key := v], default) == Dense(m[key := v], default)
  {
  }

  lemma DenseTwice<K>(m: map<K, nat>, default: nat)
    ensures Dense(Dense(m, default), default) == Dense(m, default)
  {
  }

  lemma DenseRestored<K>(m: map<K, nat>, key: K, v: nat, default: nat)
    ensures Dense(m[key := v][key := Read(m, key, default)], default) == Dense(m, default)
  {
  }

  lemma ReadDense<K>(m: map<K, nat>, key: K, default: nat)
    ensures Read(Dense(m, default), key, default) == Read(m, key, default)
  {
  }

  lemma HidePut(rows: map<Address, AccountRow>, a: Address, row: AccountRow)
    ensures HideRows(rows[a := row]) == HideRows(rows)[a := HideCleared(row)]
  {
  }

  lemma HideTwice(rows: map<Address, AccountRow>)
    ensures HideRows(HideRows(rows)) == HideRows(rows)
  {
  }

  lemma HideRemove(rows: map<Address, AccountRow>, a: Address)
    ensures HideRows(rows - {a}) == HideRows(rows) - {a}
  {
  }

  lemma ObservedTwice(s: Store)
    ensures Observed(Observed(s)) == Observed(s)
  {
    DenseTwice(s.transient, 0);
    DenseTwice(s.warmAccounts, 0);
    DenseTwice(s.warmSlots, 0);
    DenseTwice(s.generations, INITIAL_GENERATION);
    HideTwice(s.accounts.rows);
  }

  /** Rows that differ only in the derived flag are observed alike. */
  lemma SetCurrentObserved(s: Store, t: Store, a: Address, x: Account, y: Account)
    requires Observed(s) == Observed(t) && a in s.accounts.rows && a in t.accounts.rows
    requires x.(storageCleared := false) == y.(storageCleared := false)
    ensures Observed(SetCurrent(s, a, x)) == Observed(SetCurrent(t, a, y))
  {
    HidePut(s.accounts.rows, a, s.accounts.rows[a].(current := x));
    HidePut(t.accounts.rows, a, t.accounts.rows[a].(current := y));
    assert HideRows(s.accounts.rows)[a] == HideRows(t.accounts.rows)[a];
  }

  /** Undoing an entry of an observed store is observing the undone store. */
  lemma RestoreObserved(s: Store, e: Change)
    ensures UndoEntry(Observed(s), e) ==
            if e.StorageListed? && !LastRowOf(s, e.address) then None else Lift(Restore(s, e))
  {
    ObservedTwice(s);
    var o := Observed(s);
    match e
    case TransientChanged(key, prior) => DensePut(s.transient, key, prior, 0);
    case WarmAccountChanged(a, prior) => DensePut(s.warmAccounts, a, prior, 0);
    case WarmStorageChanged(key, prior) => DensePut(s.warmSlots, key, prior, 0);
    case AccountListed =>
      if s.accounts.keys != [] {
        HideRemove(s.accounts.rows, s.accounts.keys[|s.accounts.keys| - 1]);
        HideRemove(o.accounts.rows, s.accounts.keys[|s.accounts.keys| - 1]);
      }
    case StorageGenerationChanged(a, prior) => GenerationObserved(s, a, prior);
    case BalanceChanged(a, _) => FieldObserved(s, e, a);
    case NonceChanged(a, _) => FieldObserved(s, e, a);
    case CodeHashChanged(a, _) => FieldObserved(s, e, a);
    case ExistsChanged(a, _) => FieldObserved(s, e, a);
    case CreatedChanged(a, _) => FieldObserved(s, e, a);
    case SelfdestructedChanged(a, _) => FieldObserved(s, e, a);
    case StorageListed(_) =>
    case LogAppended =>
    case StorageValueChanged(_, _) =>
    case StorageRowGenerationChanged(_, _) =>
  }

  predicate IsFieldOf(e: Change, a: Address) {
    match e
    case BalanceChanged(b, _) => a == b
    case NonceChanged(b, _) => a == b
    case CodeHashChanged(b, _) => a == b
    case ExistsChanged(b, _) => a == b
    case CreatedChanged(b, _) => a == b
    case SelfdestructedChanged(b, _) => a == b
    case _ => false
  }

  /** The account with the field of a change set back. */
  function WithField(x: Account, e: Change): Account {
    match e
    case BalanceChanged(_, prior) => x.(balance := prior)
    case NonceChanged(_, prior) => x.(nonce := prior)
    case CodeHashChanged(_, prior) => x.(codeHash := prior)
    case ExistsChanged(_, flag) => x.(present := flag)
    case CreatedChanged(_, flag) => x.(created := flag)
    case SelfdestructedChanged(_, flag) => x.(selfdestructed := flag)
    case _ => x
  }

  lemma FieldRestored(s: Store, e: Change, a: Address)
    requires IsFieldOf(e, a)
    ensures Restore(s, e) == if a !in s.accounts.rows then None else
                             Some(SetCurrent(s, a, WithField(s.accounts.rows[a].current, e)))
  {
  }

  lemma FieldObserved(s: Store, e: Change, a: Address)
    requires IsFieldOf(e, a)
    ensures UndoEntry(Observed(s), e) == Lift(Restore(s, e))
  {
    FieldRestored(s, e, a);
    FieldRestored(Observed(s), e, a);
    ObservedTwice(s);
    if a in s.accounts.rows {
      var x, y := s.accounts.rows[a].current, Observed(s).accounts.rows[a].current;
      assert y == x.(storageCleared := false);
      SetCurrentObserved(Observed(s), s, a, WithField(y, e), WithField(x, e));
    }
  }

  lemma GenerationObserved(s: Store, a: Address, prior: nat)
    ensures Observed(WithGeneration(Observed(s), a, prior)) == Observed(WithGeneration(s, a, prior))
  {
    ObservedTwice(s);
    DensePut(s.generations, a, prior, INITIAL_GENERATION);
    var t, o := s.(generations := s.generations[a := prior]), Observed(s);
    var u := o.(generations := o.generations[a := prior]);
    assert Observed(t) == Observed(u);
    if a in s.accounts.rows {
      var x, y := s.accounts.rows[a].current, o.accounts.rows[a].current;
      var flag := s.accounts.rows[a].original.storageCleared || prior != INITIAL_GENERATION;
      SetCurrentObserved(t, u, a, x.(storageCleared := flag), y.(storageCleared := flag));
    }
  }

  /** Replaying a whole segment and observing commute. */
  lemma {:induction false} RewindObserved(s: Store, items: seq<Item<Change>>)
    requires Rewind(UndoEntry, Observed(s), items).Some?
    ensures Rewind(UndoEntry, Observed(s), items) == Lift(Rewind(Restore, s, items))
    decreases |items|
  {
    if items != [] {
      var rest := items[..|items| - 1];
      match items[|items| - 1]
      case Entry(e) =>
        RestoreObserved(s, e);
        RewindObserved(Restore(s, e).value, rest);
      case Checkpoint => RewindObserved(s, rest);
      case Commit => RewindObserved(s, rest);
    }
  }
}
