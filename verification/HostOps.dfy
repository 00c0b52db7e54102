/** The host operations on the values of the state, and what each does to the snapshots of the journal. */
module HostOps {
  import opened Collections
  import opened Journal
  import opened HostModel

  /** The store, its journal, and the fields that a revert leaves alone. */
  datatype Host = Host(
    store: Store,
    journal: seq<Item<Change>>,
    block: map<Address, Account>,
    nextGeneration: nat,
    warmEpoch: nat,
    currentLog: Option<nat>,
    logStart: nat)

  /** The defaults of a new host state. */
  function InitialHost(block: map<Address, Account>): Host {
    Host(Store(map[], map[], map[], Dict([], map[]), Dict([], map[]), map[], [], []), [], block,
         INITIAL_GENERATION, 1, None, 0)
  }

  /** The observable stores at the open checkpoints, outermost first; None if a replay could fail. */
  function Saved(h: Host): Option<seq<Store>> {
    Snapshots(UndoEntry, Observed(h.store), h.journal, 0)
  }

  predicate FrameOpen(h: Host) {
    OpenIndex(h.journal, 0).Some?
  }

  /** One mutation: the store changes and its inverse goes to the journal. */
  function Record(h: Host, e: Change, after: Store): Host {
    h.(journal := h.journal + [Entry(e)], store := after)
  }

  lemma RecordSaved(h: Host, e: Change, after: Store)
    requires Lift(Restore(after, e)) == Some(Observed(h.store)) && (e.StorageListed? ==> LastRowOf(after, e.address))
    ensures Saved(Record(h, e, after)) == Saved(h)
    ensures FrameOpen(Record(h, e, after)) == FrameOpen(h)
  {
    RestoreObserved(after, e);
    RecordKeeps(UndoEntry, Observed(h.store), Observed(after), h.journal, e);
  }

  //////////////////////////////////////////////////////////////////////////////
  // Transient storage and warm sets
  //////////////////////////////////////////////////////////////////////////////

  function StoreTransient(h: Host, key: SlotKey, v: Word): Host {
    Record(h, TransientChanged(key, Read(h.store.transient, key, 0)),
           h.store.(transient := h.store.transient[key := v]))
  }

  lemma StoreTransientSaved(h: Host, key: SlotKey, v: Word)
    ensures Saved(StoreTransient(h, key, v)) == Saved(h)
    ensures FrameOpen(StoreTransient(h, key, v)) == FrameOpen(h)
  {
    DenseRestored(h.store.transient, key, v, 0);
    RecordSaved(h, TransientChanged(key, Read(h.store.transient, key, 0)),
                h.store.(transient := h.store.transient[key := v]));
  }

  function IsWarm<K>(stamps: map<K, nat>, k: K, epoch: nat): bool {
    Read(stamps, k, 0) >= epoch
  }

  function MarkAccount(h: Host, a: Address): Host {
    var stamp := Read(h.store.warmAccounts, a, 0);
    if stamp < h.warmEpoch then
      Record(h, WarmAccountChanged(a, stamp),
             h.store.(warmAccounts := h.store.warmAccounts[a := h.warmEpoch]))
    else h
  }

  lemma MarkAccountSaved(h: Host, a: Address)
    ensures Saved(MarkAccount(h, a)) == Saved(h) && FrameOpen(MarkAccount(h, a)) == FrameOpen(h)
  {
    var stamp := Read(h.store.warmAccounts, a, 0);
    if stamp < h.warmEpoch {
      DenseRestored(h.store.warmAccounts, a, h.warmEpoch, 0);
      RecordSaved(h, WarmAccountChanged(a, stamp),
                  h.store.(warmAccounts := h.store.warmAccounts[a := h.warmEpoch]));
    }
  }

  function MarkSlot(h: Host, key: SlotKey): Host {
    var stamp := Read(h.store.warmSlots, key, 0);
    if stamp < h.warmEpoch then
      Record(h, WarmStorageChanged(key, stamp), h.store.(warmSlots := h.store.warmSlots[key := h.warmEpoch]))
    else h
  }

  lemma MarkSlotSaved(h: Host, key: SlotKey)
    ensures Saved(MarkSlot(h, key)) == Saved(h) && FrameOpen(MarkSlot(h, key)) == FrameOpen(h)
  {
    var stamp := Read(h.store.warmSlots, key, 0);
    if stamp < h.warmEpoch {
      DenseRestored(h.store.warmSlots, key, h.warmEpoch, 0);
      RecordSaved(h, WarmStorageChanged(key, stamp),
                  h.store.(warmSlots := h.store.warmSlots[key := h.warmEpoch]));
    }
  }

  //////////////////////////////////////////////////////////////////////////////
  // Storage
  //////////////////////////////////////////////////////////////////////////////

  datatype StorageTx = Hit(value: StorageValue) | Cleared | Miss

  function GetStorage(h: Host, key: SlotKey): StorageTx {
    var generation := GenerationOf(h.store, key.addr);
    if key in h.store.storage.rows && h.store.storage.rows[key].generation == generation then
      Hit(h.store.storage.rows[key].value)
    else if generation != INITIAL_GENERATION then Cleared
    else Miss
  }

  function ListStorage(h: Host, key: SlotKey, v: StorageValue): Host {
    Record(h, StorageListed(key.addr), h.store.(
           storage := h.store.storage.Insert(key, StorageRow(v, GenerationOf(h.store, key.addr)))))
  }

  function WriteRow(h: Host, key: SlotKey, curr: Word): Host
    requires key in h.store.storage.rows
  {
    var row := h.store.storage.rows[key];
    if row.value.curr != curr then
      Record(h, StorageValueChanged(key, row.value.curr),
             PutRow(h.store, key, row.(value := row.value.(curr := curr))))
    else h
  }

  function RaiseRow(h: Host, key: SlotKey): Host
    requires key in h.store.storage.rows
  {
    var row, generation := h.store.storage.rows[key], GenerationOf(h.store, key.addr);
    if row.generation != generation then
      Record(h, StorageRowGenerationChanged(key, row.generation),
             PutRow(h.store, key, row.(generation := generation)))
    else h
  }

  function UpdateStorage(h: Host, key: SlotKey, v: StorageValue): Host {
    if key !in h.store.storage.rows then ListStorage(h, key, v) else
    RaiseRow(WriteRow(h, key, v.curr), key)
  }

  /** The row that the undo of a listing removes is the row that the listing put in. */
  lemma ListStorageSaved(h: Host, key: SlotKey, v: StorageValue)
    requires key !in h.store.storage.rows
    ensures Saved(ListStorage(h, key, v)) == Saved(h) && FrameOpen(ListStorage(h, key, v)) == FrameOpen(h)
  {
    var d := h.store.storage;
    var after := d.Insert(key, StorageRow(v, GenerationOf(h.store, key.addr)));
    assert LastListed(after.keys, key.addr) == Some(|d.keys|);
    assert after.keys[..|d.keys|] + after.keys[|d.keys| + 1..] == d.keys;
    assert after.rows - {key} == d.rows;
    RecordSaved(h, StorageListed(key.addr), h.store.(storage := after));
  }

  lemma WriteRowSaved(h: Host, key: SlotKey, curr: Word)
    requires key in h.store.storage.rows
    ensures Saved(WriteRow(h, key, curr)) == Saved(h) && FrameOpen(WriteRow(h, key, curr)) == FrameOpen(h)
  {
    var row := h.store.storage.rows[key];
    if row.value.curr != curr {
      var after := PutRow(h.store, key, row.(value := row.value.(curr := curr)));
      assert after.storage.rows[key := row] == h.store.storage.rows;
      RecordSaved(h, StorageValueChanged(key, row.value.curr), after);
    }
  }

  lemma RaiseRowSaved(h: Host, key: SlotKey)
    requires key in h.store.storage.rows
    ensures Saved(RaiseRow(h, key)) == Saved(h) && FrameOpen(RaiseRow(h, key)) == FrameOpen(h)
  {
    var row, generation := h.store.storage.rows[key], GenerationOf(h.store, key.addr);
    if row.generation != generation {
      var after := PutRow(h.store, key, row.(generation := generation));
      assert after.storage.rows[key := row] == h.store.storage.rows;
      RecordSaved(h, StorageRowGenerationChanged(key, row.generation), after);
    }
  }

  lemma UpdateStorageSaved(h: Host, key: SlotKey, v: StorageValue)
    ensures Saved(UpdateStorage(h, key, v)) == Saved(h)
    ensures FrameOpen(UpdateStorage(h, key, v)) == FrameOpen(h)
  {
    if key !in h.store.storage.rows {
      ListStorageSaved(h, key, v);
    } else {
      WriteRowSaved(h, key, v.curr);
      RaiseRowSaved(WriteRow(h, key, v.curr), key);
    }
  }

  /** The last row that is not stale, and the table without it and the stale rows behind it. */
  function PopStorage(d: Dict<SlotKey, StorageRow>, generations: map<Address, nat>):
      (r: (Option<(SlotKey, StorageValue)>, Dict<SlotKey, StorageRow>))
    ensures d.keys == [] ==> r == (None, d)
    ensures d.keys != [] ==> |r.1.keys| < |d.keys|
    decreases |d.keys|
  {
    if d.keys == [] then (None, d) else
    var n := |d.keys| - 1;
    var key, rest := d.keys[n], d.RemoveAt(n);
    if key in d.rows && d.rows[key].generation == Read(generations, key.addr, INITIAL_GENERATION)
    then (Some((key, d.rows[key].value)), rest)
    else PopStorage(rest, generations)
  }

  function TakeSlot(h: Host): Host {
    h.(store := h.store.(storage := PopStorage(h.store.storage, h.store.generations).1))
  }

  function ClearStorage(h: Host, a: Address): Host {
    var next := h.nextGeneration + 1;
    Record(h, StorageGenerationChanged(a, GenerationOf(h.store, a)),
           h.store.(generations := h.store.generations[a := next])).(nextGeneration := next)
  }

  lemma ClearStorageSaved(h: Host, a: Address)
    ensures Saved(ClearStorage(h, a)) == Saved(h) && FrameOpen(ClearStorage(h, a)) == FrameOpen(h)
  {
    var next, prior := h.nextGeneration + 1, GenerationOf(h.store, a);
    var after := h.store.(generations := h.store.generations[a := next]);
    GenerationUndone(h.store, a, next);
    RecordSaved(h, StorageGenerationChanged(a, prior), after);
    CounterSaved(Record(h, StorageGenerationChanged(a, prior), after), next);
  }

  /** The counter is no part of a snapshot. */
  lemma CounterSaved(h: Host, next: nat)
    ensures Saved(h.(nextGeneration := next)) == Saved(h) && FrameOpen(h.(nextGeneration := next)) == FrameOpen(h)
  {
  }

  lemma GenerationUndone(s: Store, a: Address, next: nat)
    ensures var cleared := s.(generations := s.generations[a := next]);
            Lift(Restore(cleared, StorageGenerationChanged(a, GenerationOf(s, a)))) == Some(Observed(s))
  {
    var prior := GenerationOf(s, a);
    var restored := s.(generations := s.generations[a := next][a := prior]);
    DenseRestored(s.generations, a, next, INITIAL_GENERATION);
    assert Observed(restored) == Observed(s);
    if a in s.accounts.rows {
      var row := s.accounts.rows[a];
      SetCurrentSame(s, a);
      SetCurrentObserved(restored, s, a, row.current.(
          storageCleared := row.original.storageCleared || prior != INITIAL_GENERATION), row.current);
    }
  }

  lemma SetCurrentSame(s: Store, a: Address)
    requires a in s.accounts.rows
    ensures SetCurrent(s, a, s.accounts.rows[a].current) == s
  {
    assert s.accounts.rows[a := s.accounts.rows[a]] == s.accounts.rows;
  }

  //////////////////////////////////////////////////////////////////////////////
  // Accounts
  //////////////////////////////////////////////////////////////////////////////

  /** A new row for an account of the block; None when the block has not cached it. */
  function ListAccount(h: Host, a: Address, current: Account): Option<Host> {
    if a !in h.block then None else
    Some(Record(h, AccountListed, h.store.(
         accounts := h.store.accounts.Insert(a, AccountRow(current, h.block[a])))))
  }

  lemma ListAccountSaved(h: Host, a: Address, current: Account)
    requires a in h.block && a !in h.store.accounts.rows
    ensures var r := ListAccount(h, a, current).value; Saved(r) == Saved(h) && FrameOpen(r) == FrameOpen(h)
  {
    var d := h.store.accounts;
    var after := d.Insert(a, AccountRow(current, h.block[a]));
    assert after.keys[..|d.keys|] + after.keys[|d.keys| + 1..] == d.keys;
    assert after.rows - {a} == d.rows;
    RecordSaved(h, AccountListed, h.store.(accounts := after));
  }

  /** The inverse of a field is recorded only when the field changes. */
  function Note(h: Host, changed: bool, e: Change): Host {
    if changed then h.(journal := h.journal + [Entry(e)]) else h
  }

  datatype FieldNote = FieldNote(changed: bool, change: Change)

  function NoteEach(h: Host, notes: seq<FieldNote>): (g: Host)
    ensures g.store == h.store
  {
    if notes == [] then h else
    Note(NoteEach(h, notes[..|notes| - 1]), notes[|notes| - 1].changed, notes[|notes| - 1].change)
  }

  lemma {:induction false} NoteEachKeeps(h: Host, notes: seq<FieldNote>)
    ensures NoteEach(h, notes) == h.(journal := NoteEach(h, notes).journal)
  {
    if notes != [] { NoteEachKeeps(h, notes[..|notes| - 1]); }
  }

  /** The fields in the order in which acct_tx_update compares them. */
  function FieldNoteAt(a: Address, prior: Account, value: Account, i: nat): FieldNote {
    match i
    case 0 => FieldNote(prior.balance != value.balance, BalanceChanged(a, prior.balance))
    case 1 => FieldNote(prior.nonce != value.nonce, NonceChanged(a, prior.nonce))
    case 2 => FieldNote(prior.codeHash != value.codeHash, CodeHashChanged(a, prior.codeHash))
    case 3 => FieldNote(prior.present != value.present, ExistsChanged(a, prior.present))
    case 4 => FieldNote(prior.created != value.created, CreatedChanged(a, prior.created))
    case _ => FieldNote(prior.selfdestructed != value.selfdestructed,
                        SelfdestructedChanged(a, prior.selfdestructed))
  }

  const FIELDS: nat := 6

  function FieldNotes(a: Address, prior: Account, value: Account): seq<FieldNote> {
    seq(FIELDS, i requires 0 <= i < FIELDS => FieldNoteAt(a, prior, value, i))
  }

  function WithCurrent(h: Host, a: Address, current: Account): Host
    requires a in h.store.accounts.rows
  {
    h.(store := SetCurrent(h.store, a, current))
  }

  function UpdateAccount(h: Host, a: Address, value: Account): Option<Host> {
    if a !in h.store.accounts.rows then ListAccount(h, a, value) else
    var prior := h.store.accounts.rows[a].current;
    Some(WithCurrent(NoteEach(h, FieldNotes(a, prior, value)), a, value))
  }

  function RequiredAccount(h: Host, a: Address): Option<Host> {
    if a in h.store.accounts.rows then Some(h)
    else if a !in h.block then None
    else ListAccount(h, a, h.block[a])
  }

  /** acct_tx_set_balance, acct_tx_set_nonce and acct_tx_set_code_hash differ only in the field. */
  datatype Field = Balance | Nonce | CodeHash

  function FieldOf(x: Account, f: Field): Word {
    match f
    case Balance => x.balance
    case Nonce => x.nonce
    case CodeHash => x.codeHash
  }

  function FieldChange(a: Address, f: Field, prior: Word): Change {
    match f
    case Balance => BalanceChanged(a, prior)
    case Nonce => NonceChanged(a, prior)
    case CodeHash => CodeHashChanged(a, prior)
  }

  function SetField(h: Host, a: Address, f: Field, v: Word): Option<Host> {
    var required := RequiredAccount(h, a);
    if required.None? then None else
    var current := required.value.store.accounts.rows[a].current;
    if FieldOf(current, f) == v then required else
    Some(WithCurrent(Note(required.value, true, FieldChange(a, f, FieldOf(current, f))), a,
                     WithField(current, FieldChange(a, f, v))))
  }

  /** The last account row, and the table without it. */
  function PopAccount(d: Dict<Address, AccountRow>): (r: (Option<(Address, AccountRow)>, Dict<Address, AccountRow>))
    ensures d.keys == [] ==> r == (None, d)
    ensures d.keys != [] ==> |r.1.keys| < |d.keys|
  {
    if d.keys == [] then (None, d) else
    var a := d.keys[|d.keys| - 1];
    (if a in d.rows then Some((a, d.rows[a])) else None, d.RemoveAt(|d.keys| - 1))
  }

  function TakeAccount(h: Host): Host {
    h.(store := h.store.(accounts := PopAccount(h.store.accounts).1))
  }

  /** One field: the store with the new value and the note has the snapshots of the store with the old value. */
  lemma NoteSaved(h: Host, g: Host, a: Address, x: Account, y: Account, changed: bool, e: Change)
    requires g == Note(h, changed, e)
    requires a in h.store.accounts.rows && IsFieldOf(e, a) && WithField(y, e) == x
    requires !changed ==> x == y
    ensures g.store == h.store
    ensures Saved(WithCurrent(g, a, y)) == Saved(WithCurrent(h, a, x))
    ensures FrameOpen(g) == FrameOpen(h)
  {
    if changed {
      var s, t := SetCurrent(h.store, a, x), SetCurrent(h.store, a, y);
      FieldRestored(t, e, a);
      assert SetCurrent(t, a, x) == s by {
        assert t.accounts.rows[a := t.accounts.rows[a].(current := x)] == s.accounts.rows;
      }
      RecordSaved(h.(store := s), e, t);
    }
  }

  /** The flag of the account is not observed. */
  lemma FlagSaved(h: Host, a: Address, x: Account)
    requires a in h.store.accounts.rows
    requires x.(storageCleared := false) == h.store.accounts.rows[a].current.(storageCleared := false)
    ensures Saved(WithCurrent(h, a, x)) == Saved(h)
  {
    SetCurrentSame(h.store, a);
    SetCurrentObserved(h.store, h.store, a, x, h.store.accounts.rows[a].current);
  }

  /** `xs` are the accounts between one note and the next. */
  ghost predicate FieldChain(a: Address, notes: seq<FieldNote>, xs: seq<Account>) {
    && |xs| == |notes| + 1
    && (forall i :: 0 <= i < |notes| ==> IsFieldOf(notes[i].change, a))
    && (forall i :: 0 <= i < |notes| ==> WithField(xs[i + 1], notes[i].change) == xs[i])
    && (forall i :: 0 <= i < |notes| ==> !notes[i].changed ==> xs[i] == xs[i + 1])
  }

  /** A run of fields, through the accounts `xs` between one note and the next. */
  lemma {:induction false} NoteEachSaved(h: Host, notes: seq<FieldNote>, a: Address, xs: seq<Account>)
    requires a in h.store.accounts.rows && FieldChain(a, notes, xs)
    ensures Saved(WithCurrent(NoteEach(h, notes), a, xs[|notes|])) == Saved(WithCurrent(h, a, xs[0]))
    ensures FrameOpen(NoteEach(h, notes)) == FrameOpen(h)
  {
    if notes != [] {
      var n := |notes| - 1;
      NoteEachSaved(h, notes[..n], a, xs[..n + 1]);
      NoteSaved(NoteEach(h, notes[..n]), NoteEach(h, notes), a, xs[n], xs[n + 1], notes[n].changed, notes[n].change);
    }
  }

  /** The account whose first i fields are new already. */
  function Mixed(prior: Account, value: Account, i: nat): Account {
    Account(if i > 0 then value.balance else prior.balance,
            if i > 1 then value.nonce else prior.nonce,
            if i > 2 then value.codeHash else prior.codeHash,
            if i > 3 then value.present else prior.present,
            if i > 4 then value.created else prior.created,
            if i > 5 then value.selfdestructed else prior.selfdestructed,
            value.storageCleared)
  }

  lemma FieldStep(a: Address, prior: Account, value: Account, i: nat)
    requires i < FIELDS
    ensures var note := FieldNoteAt(a, prior, value, i);
            var x, y := Mixed(prior, value, i), Mixed(prior, value, i + 1);
            IsFieldOf(note.change, a) && WithField(y, note.change) == x && (note.changed || x == y)
  {
    var x, y := Mixed(prior, value, i), Mixed(prior, value, i + 1);
    match i
    case 0 => assert y.(balance := prior.balance) == x;
    case 1 => assert y.(nonce := prior.nonce) == x;
    case 2 => assert y.(codeHash := prior.codeHash) == x;
    case 3 => assert y.(present := prior.present) == x;
    case 4 => assert y.(created := prior.created) == x;
    case _ => assert y.(selfdestructed := prior.selfdestructed) == x;
  }

  lemma FieldNotesChain(a: Address, prior: Account, value: Account) returns (xs: seq<Account>)
    ensures FieldChain(a, FieldNotes(a, prior, value), xs)
    ensures xs[0] == prior.(storageCleared := value.storageCleared) && xs[FIELDS] == value
  {
    xs := seq(FIELDS + 1, i requires 0 <= i <= FIELDS => Mixed(prior, value, i));
    forall i: nat | i < FIELDS {
      FieldStep(a, prior, value, i);
    }
  }

  lemma UpdateRowSaved(h: Host, a: Address, value: Account)
    requires a in h.store.accounts.rows
    ensures var r := UpdateAccount(h, a, value).value; Saved(r) == Saved(h) && FrameOpen(r) == FrameOpen(h)
  {
    var prior := h.store.accounts.rows[a].current;
    var notes := FieldNotes(a, prior, value);
    var xs := FieldNotesChain(a, prior, value);
    FlagSaved(h, a, xs[0]);
    NoteEachSaved(h, notes, a, xs);
  }

  /** The account is stored as it is given, its storage_cleared flag included; a new row keeps the block's account
      as its original; no other row and nothing else of the state changes. */
  lemma UpdateAccountWrites(h: Host, a: Address, value: Account)
    requires UpdateAccount(h, a, value).Some?
    ensures a in h.store.accounts.rows || a in h.block
    ensures var g, was := UpdateAccount(h, a, value).value, h.store.accounts;
            && g == h.(journal := g.journal, store := h.store.(accounts := g.store.accounts))
            && g.store.accounts.keys == was.keys + (if a in was.rows then [] else [a])
            && g.store.accounts.rows == was.rows[
                 a := AccountRow(value, if a in was.rows then was.rows[a].original else h.block[a])]
  {
    if a in h.store.accounts.rows { NoteEachKeeps(h, FieldNotes(a, h.store.accounts.rows[a].current, value)); }
  }

  /** A setter writes its own field and leaves the other ones and the flags; no other row and nothing else of the
      state changes. */
  lemma SetFieldWrites(h: Host, a: Address, f: Field, v: Word)
    requires SetField(h, a, f, v).Some?
    ensures a in h.store.accounts.rows || a in h.block
    ensures var g, was := SetField(h, a, f, v).value, h.store.accounts;
            var row := if a in was.rows then was.rows[a] else AccountRow(h.block[a], h.block[a]);
            var x := row.current;
            var y := match f
                     case Balance => x.(balance := v)
                     case Nonce => x.(nonce := v)
                     case CodeHash => x.(codeHash := v);
            && g == h.(journal := g.journal, store := h.store.(accounts := g.store.accounts))
            && g.store.accounts.keys == was.keys + (if a in was.rows then [] else [a])
            && g.store.accounts.rows == was.rows[a := row.(current := y)]
  {
    var x := if a in h.store.accounts.rows then h.store.accounts.rows[a].current else h.block[a];
    SetFieldUndone(a, f, x, v);
    if FieldOf(x, f) == v && a in h.store.accounts.rows {
      assert h.store.accounts.rows[a := h.store.accounts.rows[a]] == h.store.accounts.rows;
    }
  }

  /** Nothing but the last row goes, and it comes out as it is. */
  lemma PopAccountLast(d: Dict<Address, AccountRow>)
    requires d.Ordered() && d.keys != []
    ensures var (popped, rest) := PopAccount(d); var a := d.keys[|d.keys| - 1];
            popped == Some((a, d.rows[a])) && rest.keys == d.keys[..|d.keys| - 1] && rest.rows == d.rows - {a}
  {
    assert d.keys[..|d.keys| - 1] + d.keys[|d.keys|..] == d.keys[..|d.keys| - 1];
  }

  /** The rows that pops give out until the table is exhausted. */
  function DrainAccounts(d: Dict<Address, AccountRow>): seq<(Address, AccountRow)>
    decreases |d.keys|
  {
    var (popped, rest) := PopAccount(d);
    if popped.None? then [] else [popped.value] + DrainAccounts(rest)
  }

  /** They are the rows of the table, with the current and the original account, each once. */
  lemma {:induction false} DrainGivesRows(d: Dict<Address, AccountRow>)
    requires d.Ordered()
    ensures var drained := DrainAccounts(d);
            && (forall a, row :: (a, row) in drained <==> a in d.rows && d.rows[a] == row)
            && (forall i, j :: 0 <= i < j < |drained| ==> drained[i].0 != drained[j].0)
    decreases |d.keys|
  {
    if d.keys != [] {
      var a, rest := d.keys[|d.keys| - 1], PopAccount(d).1;
      PopAccountLast(d);
      RemoveKeepsOrder(d, |d.keys| - 1);
      DrainGivesRows(rest);
      DrainedNext((a, d.rows[a]), DrainAccounts(rest), d.rows);
      assert DrainAccounts(d) == [(a, d.rows[a])] + DrainAccounts(rest);
    }
  }

  lemma UpdateAccountSaved(h: Host, a: Address, value: Account)
    ensures UpdateAccount(h, a, value).Some? <==> a in h.store.accounts.rows || a in h.block
    ensures UpdateAccount(h, a, value).Some? ==>
            var r := UpdateAccount(h, a, value).value; Saved(r) == Saved(h) && FrameOpen(r) == FrameOpen(h)
  {
    if a in h.store.accounts.rows { UpdateRowSaved(h, a, value); }
    else if a in h.block { ListAccountSaved(h, a, value); }
  }

  lemma RequiredAccountSaved(h: Host, a: Address)
    ensures RequiredAccount(h, a).Some? <==> a in h.store.accounts.rows || a in h.block
    ensures RequiredAccount(h, a).Some? ==>
            var r := RequiredAccount(h, a).value;
            a in r.store.accounts.rows && Saved(r) == Saved(h) && FrameOpen(r) == FrameOpen(h)
  {
    if a !in h.store.accounts.rows && a in h.block { ListAccountSaved(h, a, h.block[a]); }
  }

  lemma SetFieldUndone(a: Address, f: Field, x: Account, v: Word)
    ensures var y := WithField(x, FieldChange(a, f, v)); var e := FieldChange(a, f, FieldOf(x, f));
            IsFieldOf(e, a) && WithField(y, e) == x && (FieldOf(x, f) == v ==> y == x)
  {
  }

  lemma SetFieldSaved(h: Host, a: Address, f: Field, v: Word)
    ensures SetField(h, a, f, v).Some? <==> a in h.store.accounts.rows || a in h.block
    ensures SetField(h, a, f, v).Some? ==>
            var r := SetField(h, a, f, v).value; Saved(r) == Saved(h) && FrameOpen(r) == FrameOpen(h)
  {
    RequiredAccountSaved(h, a);
    if RequiredAccount(h, a).Some? {
      var g := RequiredAccount(h, a).value;
      var x := g.store.accounts.rows[a].current;
      FlagSaved(g, a, x);
      var e := FieldChange(a, f, FieldOf(x, f));
      SetFieldUndone(a, f, x, v);
      NoteSaved(g, Note(g, FieldOf(x, f) != v, e), a, x, WithField(x, FieldChange(a, f, v)), FieldOf(x, f) != v, e);
    }
  }

  //////////////////////////////////////////////////////////////////////////////
  // Logs
  //////////////////////////////////////////////////////////////////////////////

  function BeginLog(h: Host, a: Address): Host {
    Record(h, LogAppended, h.store.(logs := h.store.logs + [LogRecord(a, [], |h.store.logData|, 0)]))
    .(currentLog := Some(|h.store.logs|))
  }

  lemma BeginLogSaved(h: Host, a: Address)
    ensures Saved(BeginLog(h, a)) == Saved(h) && FrameOpen(BeginLog(h, a)) == FrameOpen(h)
  {
    var after := h.store.(logs := h.store.logs + [LogRecord(a, [], |h.store.logData|, 0)]);
    assert after.logs[..|h.store.logs|] == h.store.logs;
    assert CutAt(after.logData, |h.store.logData|) == h.store.logData;
    RecordSaved(h, LogAppended, after);
  }

  /** The record log_add_* write to; None before a log_begin. */
  predicate LogReady(h: Host) {
    h.currentLog.Some? && h.currentLog.value < |h.store.logs|
  }

  function TopicAdded(s: Store, i: nat, topic: Word): Store
    requires i < |s.logs|
  {
    s.(logs := s.logs[i := s.logs[i].(topics := s.logs[i].topics + [topic])])
  }

  function DataAdded(s: Store, i: nat, payload: seq<bv8>): Store
    requires i < |s.logs|
  {
    s.(logs := s.logs[i := s.logs[i].(length := s.logs[i].length + |payload|)], logData := s.logData + payload)
  }

  function AddTopic(h: Host, topic: Word): Option<Host> {
    if !LogReady(h) then None else Some(h.(store := TopicAdded(h.store, h.currentLog.value, topic)))
  }

  function AddData(h: Host, payload: seq<bv8>): Option<Host> {
    if !LogReady(h) then None else Some(h.(store := DataAdded(h.store, h.currentLog.value, payload)))
  }

  //////////////////////////////////////////////////////////////////////////////
  // Resets, and the block cache
  //////////////////////////////////////////////////////////////////////////////

  function CacheAccount(h: Host, a: Address, x: Account): Host {
    if a in h.block then h else h.(block := h.block[a := x])
  }

  function ResetJournal(h: Host): Host {
    h.(journal := [])
  }

  function ResetWarm(h: Host, epoch: nat): Host {
    h.(warmEpoch := epoch + 1)
  }

  function ResetTransient(h: Host): Host {
    h.(store := h.store.(transient := map[]))
  }

  function ResetAccounts(h: Host): Host {
    h.(store := h.store.(accounts := Dict([], map[])))
  }

  function ResetStorage(h: Host): Host {
    h.(store := h.store.(storage := Dict([], map[]), generations := map[]), nextGeneration := INITIAL_GENERATION)
  }

  function ResetLogs(h: Host): Host {
    h.(currentLog := None, logStart := |h.store.logs|)
  }

  //////////////////////////////////////////////////////////////////////////////
  // Frames
  //////////////////////////////////////////////////////////////////////////////

  function CheckpointFrame(h: Host): Host {
    h.(journal := h.journal + [Checkpoint])
  }

  /** None when there is no open checkpoint. */
  function CommitFrame(h: Host): Option<Host> {
    if !FrameOpen(h) then None else Some(h.(journal := h.journal + [Commit]))
  }

  /** None when there is no open checkpoint or an entry names a missing row. */
  function RevertFrame(h: Host): Option<Host> {
    if !FrameOpen(h) then None else
    var m := OpenIndex(h.journal, 0).value;
    var restored := Rewind(Restore, h.store, h.journal[m + 1..]);
    if restored.None? then None else
    Some(h.(store := restored.value, journal := h.journal[..m],
            currentLog := if Entry(LogAppended) in h.journal[m + 1..] then None else h.currentLog))
  }

  lemma CheckpointFrameSaved(h: Host)
    requires Saved(h).Some?
    ensures Saved(CheckpointFrame(h)) == Some(Saved(h).value + [Observed(h.store)])
  {
    CheckpointSaves(UndoEntry, Observed(h.store), h.journal);
  }

  lemma CommitFrameSaved(h: Host)
    requires Saved(h).Some?
    ensures CommitFrame(h).Some? <==> Saved(h).value != []
    ensures CommitFrame(h).Some? ==> Saved(CommitFrame(h).value) == Some(Saved(h).value[..|Saved(h).value| - 1])
  {
    SnapshotsOpen(UndoEntry, Observed(h.store), h.journal, 0);
    if FrameOpen(h) { CommitDrops(UndoEntry, Observed(h.store), h.journal); }
  }

  /** A revert never meets a missing row, and restores the innermost snapshot. */
  lemma RevertFrameSaved(h: Host)
    requires Saved(h).Some?
    ensures RevertFrame(h).Some? <==> Saved(h).value != []
    ensures RevertFrame(h).Some? ==>
            var saved := Saved(h).value; var r := RevertFrame(h).value;
            && Observed(r.store) == saved[|saved| - 1]
            && Saved(r) == Some(saved[..|saved| - 1])
  {
    SnapshotsOpen(UndoEntry, Observed(h.store), h.journal, 0);
    if FrameOpen(h) {
      RevertRestores(UndoEntry, Observed(h.store), h.journal, 0);
      RewindObserved(h.store, h.journal[OpenIndex(h.journal, 0).value + 1..]);
    }
  }
}
