/** The journaled, generation-gated, epoch-stamped host behaves like the reference machine. */
module HostRefinement {
  import opened Collections
  import opened Journal
  import opened HostModel
  import opened HostOps
  import opened HostLogs
  import opened HostReference

  function WarmOf<K>(stamps: map<K, nat>, epoch: nat): set<K> {
    set k | k in stamps && stamps[k] >= epoch
  }

  /** The slots whose row carries the current generation of its address. */
  function VisibleRows(rows: map<SlotKey, StorageRow>, generations: map<Address, nat>): map<SlotKey, StorageValue> {
    map key | key in rows && rows[key].generation == Read(generations, key.addr, INITIAL_GENERATION) ::
      rows[key].value
  }

  function VisibleSlots(s: Store): map<SlotKey, StorageValue> {
    VisibleRows(s.storage.rows, s.generations)
  }

  /** Every row, in order, with the original value it holds. */
  function ListedRows(d: Dict<SlotKey, StorageRow>): Dict<SlotKey, Word> {
    Dict(d.keys, map key | key in d.rows :: d.rows[key].value.orig)
  }

  function WipedOf(s: Store): set<Address> {
    Dense(s.generations, INITIAL_GENERATION).Keys
  }

  /** What execution sees of a store. */
  function See(s: Store, epoch: nat): World {
    World(Dense(s.transient, 0), WarmOf(s.warmAccounts, epoch), WarmOf(s.warmSlots, epoch),
          s.accounts.(rows := HideRows(s.accounts.rows)), VisibleSlots(s), ListedRows(s.storage), WipedOf(s),
          s.logs, s.logData)
  }

  function SeeAll(saved: seq<Store>, epoch: nat): seq<World> {
    seq(|saved|, i requires 0 <= i < |saved| => See(saved[i], epoch))
  }

  /** Every generation in use was issued, every stamp is of this epoch or an older one, and no log starts
      behind the data. */
  ghost predicate Bounded(s: Store, next: nat, epoch: nat) {
    && (forall key :: key in s.storage.rows ==> s.storage.rows[key].generation <= next)
    && (forall a :: a in s.generations ==> s.generations[a] <= next)
    && (forall a :: a in s.warmAccounts ==> s.warmAccounts[a] <= epoch)
    && (forall key :: key in s.warmSlots ==> s.warmSlots[key] <= epoch)
    && (forall i :: 0 <= i < |s.logs| ==> s.logs[i].offset <= |s.logData|)
  }

  ghost predicate AllBounded(saved: seq<Store>, next: nat, epoch: nat) {
    forall i :: 0 <= i < |saved| ==> Bounded(saved[i], next, epoch)
  }

  ghost predicate Refines(h: Host, r: Reference) {
    && h.nextGeneration >= INITIAL_GENERATION && h.warmEpoch >= 1
    && Saved(h).Some? && AllBounded(Saved(h).value, h.nextGeneration, h.warmEpoch)
    && Bounded(h.store, h.nextGeneration, h.warmEpoch)
    && r.current == See(h.store, h.warmEpoch)
    && r.saved == SeeAll(Saved(h).value, h.warmEpoch)
    && r.block == h.block && r.logStart == h.logStart
    && r.logOpen == h.currentLog.Some?
    && (h.currentLog.Some? ==> h.currentLog.value + 1 == |h.store.logs|)
  }

  lemma SeeObserved(s: Store, epoch: nat)
    requires epoch >= 1
    ensures See(Observed(s), epoch) == See(s, epoch)
  {
    var o := Observed(s);
    DenseTwice(s.transient, 0);
    DenseTwice(s.generations, INITIAL_GENERATION);
    HideTwice(s.accounts.rows);
    forall a ensures GenerationOf(o, a) == GenerationOf(s, a) {
      ReadDense(s.generations, a, INITIAL_GENERATION);
    }
    assert VisibleSlots(o) == VisibleSlots(s);
    assert WarmOf(o.warmAccounts, epoch) == WarmOf(s.warmAccounts, epoch);
    assert WarmOf(o.warmSlots, epoch) == WarmOf(s.warmSlots, epoch);
  }

  lemma BoundedObserved(s: Store, next: nat, epoch: nat)
    requires next >= INITIAL_GENERATION
    ensures Bounded(Observed(s), next, epoch) <==> Bounded(s, next, epoch)
  {
    var o := Observed(s);
    if Bounded(o, next, epoch) {
      forall a | a in s.generations ensures s.generations[a] <= next { assert a in o.generations || s.generations[a] == 1; }
      forall a | a in s.warmAccounts ensures s.warmAccounts[a] <= epoch { assert a in o.warmAccounts || s.warmAccounts[a] == 0; }
      forall k | k in s.warmSlots ensures s.warmSlots[k] <= epoch { assert k in o.warmSlots || s.warmSlots[k] == 0; }
    }
  }

  /** A mutation that keeps the snapshots only moves the current world. */
  lemma MutationRefines(h: Host, r: Reference, g: Host, w: World)
    requires Refines(h, r) && Saved(g) == Saved(h)
    requires g.warmEpoch == h.warmEpoch && g.nextGeneration >= h.nextGeneration
    requires Bounded(g.store, g.nextGeneration, g.warmEpoch) && See(g.store, g.warmEpoch) == w
    requires g.block == h.block && g.logStart == h.logStart && g.currentLog == h.currentLog && |g.store.logs| == |h.store.logs|
    ensures Refines(g, r.(current := w))
  {
  }

  //////////////////////////////////////////////////////////////////////////////
  // What each mutation does to the world
  //////////////////////////////////////////////////////////////////////////////

  lemma TransientSeen(s: Store, key: SlotKey, v: Word, next: nat, epoch: nat)
    requires Bounded(s, next, epoch)
    ensures var t := s.(transient := s.transient[key := v]);
            See(t, epoch) == WithTransient(See(s, epoch), key, v) && Bounded(t, next, epoch)
  {
    assert Dense(s.transient[key := v], 0) == WithTransient(See(s, epoch), key, v).transient;
  }

  lemma TransientRefines(h: Host, r: Reference, key: SlotKey, v: Word)
    requires Refines(h, r)
    ensures Refines(StoreTransient(h, key, v), r.(current := WithTransient(r.current, key, v)))
  {
    StoreTransientSaved(h, key, v);
    TransientSeen(h.store, key, v, h.nextGeneration, h.warmEpoch);
    MutationRefines(h, r, StoreTransient(h, key, v), WithTransient(r.current, key, v));
  }

  lemma WarmPut<K>(stamps: map<K, nat>, k: K, epoch: nat)
    ensures WarmOf(stamps[k := epoch], epoch) == WarmOf(stamps, epoch) + {k}
    ensures Read(stamps, k, 0) >= epoch >= 1 ==> WarmOf(stamps, epoch) + {k} == WarmOf(stamps, epoch)
  {
  }

  lemma MarkAccountSeen(h: Host, a: Address)
    requires h.warmEpoch >= 1 && Bounded(h.store, h.nextGeneration, h.warmEpoch)
    ensures var t := MarkAccount(h, a).store;
            See(t, h.warmEpoch) == WithWarmAccount(See(h.store, h.warmEpoch), a)
            && Bounded(t, h.nextGeneration, h.warmEpoch)
  {
    WarmPut(h.store.warmAccounts, a, h.warmEpoch);
  }

  lemma MarkAccountRefines(h: Host, r: Reference, a: Address)
    requires Refines(h, r)
    ensures Refines(MarkAccount(h, a), r.(current := WithWarmAccount(r.current, a)))
  {
    MarkAccountSaved(h, a);
    MarkAccountSeen(h, a);
    MutationRefines(h, r, MarkAccount(h, a), WithWarmAccount(r.current, a));
  }

  lemma MarkSlotSeen(h: Host, key: SlotKey)
    requires h.warmEpoch >= 1 && Bounded(h.store, h.nextGeneration, h.warmEpoch)
    ensures var t := MarkSlot(h, key).store;
            See(t, h.warmEpoch) == WithWarmSlot(See(h.store, h.warmEpoch), key)
            && Bounded(t, h.nextGeneration, h.warmEpoch)
  {
    WarmPut(h.store.warmSlots, key, h.warmEpoch);
  }

  lemma MarkSlotRefines(h: Host, r: Reference, key: SlotKey)
    requires Refines(h, r)
    ensures Refines(MarkSlot(h, key), r.(current := WithWarmSlot(r.current, key)))
  {
    MarkSlotSaved(h, key);
    MarkSlotSeen(h, key);
    MutationRefines(h, r, MarkSlot(h, key), WithWarmSlot(r.current, key));
  }

  /** The original value that an update leaves: the one of the row, if there is a row. */
  function KeptOriginal(s: Store, key: SlotKey, v: StorageValue): Word {
    if key in s.storage.rows then s.storage.rows[key].value.orig else v.orig
  }

  /** What an update leaves: the row with the new value and the current generation. */
  lemma UpdatedRows(h: Host, key: SlotKey, v: StorageValue)
    ensures var g, d := UpdateStorage(h, key, v), h.store.storage;
            && g == h.(journal := g.journal, store := h.store.(storage := g.store.storage))
            && g.store.storage.keys == d.keys + (if key in d.rows then [] else [key])
            && g.store.storage.rows == d.rows[key := StorageRow(StorageValue(v.curr, KeptOriginal(h.store, key, v)),
                                                                GenerationOf(h.store, key.addr))]
  {
    if key in h.store.storage.rows {
      var k := WriteRow(h, key, v.curr);
      WrittenRow(h, key, v.curr);
      RaisedRow(k, key);
    }
  }

  lemma WrittenRow(h: Host, key: SlotKey, curr: Word)
    requires key in h.store.storage.rows
    ensures var g, row := WriteRow(h, key, curr), h.store.storage.rows[key];
            && g == h.(journal := g.journal, store := h.store.(storage := g.store.storage))
            && g.store.storage == h.store.storage.Put(key, row.(value := row.value.(curr := curr)))
  {
    assert h.store.storage.rows[key := h.store.storage.rows[key]] == h.store.storage.rows;
  }

  lemma RaisedRow(h: Host, key: SlotKey)
    requires key in h.store.storage.rows
    ensures var g, row := RaiseRow(h, key), h.store.storage.rows[key];
            && g == h.(journal := g.journal, store := h.store.(storage := g.store.storage))
            && g.store.storage == h.store.storage.Put(key, row.(generation := GenerationOf(h.store, key.addr)))
  {
    assert h.store.storage.rows[key := h.store.storage.rows[key]] == h.store.storage.rows;
  }

  lemma PutSeen(s: Store, t: Store, key: SlotKey, v: StorageValue)
    requires t == s.(storage := t.storage)
    requires t.storage.rows == s.storage.rows[key := StorageRow(v, GenerationOf(s, key.addr))]
    ensures VisibleSlots(t) == VisibleSlots(s)[key := v]
  {
    forall a ensures GenerationOf(t, a) == GenerationOf(s, a) {}
  }

  lemma PutListed(d: Dict<SlotKey, StorageRow>, e: Dict<SlotKey, StorageRow>, key: SlotKey, row: StorageRow)
    requires e.rows == d.rows[key := row] && e.keys == d.keys + (if key in d.rows then [] else [key])
    requires key in d.rows ==> row.value.orig == d.rows[key].value.orig
    ensures ListedRows(e) == if key in d.rows then ListedRows(d) else ListedRows(d).Insert(key, row.value.orig)
  {
    assert ListedRows(e).rows == ListedRows(d).rows[key := row.value.orig];
  }

  /** An update of the gated table is one of the plain map; a slot once written keeps its original value. */
  lemma UpdateSeen(h: Host, key: SlotKey, v: StorageValue)
    ensures See(UpdateStorage(h, key, v).store, h.warmEpoch) == WithStorage(See(h.store, h.warmEpoch), key, v)
  {
    var t, value := UpdateStorage(h, key, v).store, StorageValue(v.curr, KeptOriginal(h.store, key, v));
    UpdatedRows(h, key, v);
    PutSeen(h.store, t, key, value);
    PutListed(h.store.storage, t.storage, key, StorageRow(value, GenerationOf(h.store, key.addr)));
  }

  /** A row that an older generation left behind. */
  predicate Stale(s: Store, key: SlotKey) {
    key in s.storage.rows && s.storage.rows[key].generation != GenerationOf(s, key.addr)
  }

  /** Writing over a stale row brings the original value that the row already holds. */
  predicate OriginalKept(s: Store, key: SlotKey, v: StorageValue) {
    Stale(s, key) ==> s.storage.rows[key].value.orig == v.orig
  }

  /** A map that forgets what a clear removes. */
  function PlainPut(slots: map<SlotKey, StorageValue>, key: SlotKey, v: StorageValue): map<SlotKey, StorageValue> {
    slots[key := StorageValue(v.curr, if key in slots then slots[key].orig else v.orig)]
  }

  /** Exactly then does an update act as if the clear had forgotten the original values. */
  lemma UpdateForgets(h: Host, key: SlotKey, v: StorageValue)
    ensures VisibleSlots(UpdateStorage(h, key, v).store) == PlainPut(VisibleSlots(h.store), key, v) <==>
            OriginalKept(h.store, key, v)
  {
    var orig, slots := KeptOriginal(h.store, key, v), VisibleSlots(h.store);
    UpdatedRows(h, key, v);
    PutSeen(h.store, UpdateStorage(h, key, v).store, key, StorageValue(v.curr, orig));
    var plain := if key in slots then slots[key].orig else v.orig;
    assert slots[key := StorageValue(v.curr, orig)] == slots[key := StorageValue(v.curr, plain)] <==> orig == plain by {
      assert slots[key := StorageValue(v.curr, orig)][key].orig == orig;
      assert slots[key := StorageValue(v.curr, plain)][key].orig == plain;
    }
  }

  /** Otherwise the old original value comes back: the slot was cleared, and 7 was to be its original. */
  lemma StaleOriginal(h: Host, key: SlotKey)
    requires key !in h.store.storage.rows && GenerationOf(h.store, key.addr) <= h.nextGeneration
    ensures var listed := UpdateStorage(h, key, StorageValue(5, 5));
            GetStorage(UpdateStorage(ClearStorage(listed, key.addr), key, StorageValue(9, 7)), key) ==
            Hit(StorageValue(9, 5))
  {
  }

  lemma UpdateBounded(h: Host, key: SlotKey, v: StorageValue)
    requires h.nextGeneration >= INITIAL_GENERATION && Bounded(h.store, h.nextGeneration, h.warmEpoch)
    ensures Bounded(UpdateStorage(h, key, v).store, h.nextGeneration, h.warmEpoch)
  {
    UpdatedRows(h, key, v);
  }

  lemma UpdateRefines(h: Host, r: Reference, key: SlotKey, v: StorageValue)
    requires Refines(h, r)
    ensures Refines(UpdateStorage(h, key, v), r.(current := WithStorage(r.current, key, v)))
  {
    UpdateStorageSaved(h, key, v);
    UpdateSeen(h, key, v);
    UpdateBounded(h, key, v);
    UpdatedRows(h, key, v);
    MutationRefines(h, r, UpdateStorage(h, key, v), WithStorage(r.current, key, v));
  }

  lemma ClearedSlots(s: Store, a: Address, next: nat, epoch: nat)
    requires Bounded(s, next, epoch) && next >= INITIAL_GENERATION
    ensures VisibleSlots(s.(generations := s.generations[a := next + 1])) ==
            WithoutStorage(See(s, epoch), a).storage
  {
    var cleared := s.(generations := s.generations[a := next + 1]);
    forall b ensures GenerationOf(cleared, b) == if a == b then next + 1 else GenerationOf(s, b) {}
  }

  /** A new generation hides every row of the address: no row can carry it yet. */
  lemma ClearSeen(s: Store, a: Address, next: nat, epoch: nat)
    requires Bounded(s, next, epoch) && next >= INITIAL_GENERATION
    ensures var cleared := s.(generations := s.generations[a := next + 1]);
            See(cleared, epoch) == WithoutStorage(See(s, epoch), a)
  {
    ClearedSlots(s, a, next, epoch);
    assert WipedOf(s.(generations := s.generations[a := next + 1])) == WipedOf(s) + {a};
  }

  lemma ClearBounded(s: Store, a: Address, next: nat, epoch: nat)
    requires Bounded(s, next, epoch)
    ensures Bounded(s.(generations := s.generations[a := next + 1]), next + 1, epoch)
  {
  }

  lemma ClearRefines(h: Host, r: Reference, a: Address)
    requires Refines(h, r)
    ensures Refines(ClearStorage(h, a), r.(current := WithoutStorage(r.current, a)))
  {
    var g := ClearStorage(h, a);
    ClearStorageSaved(h, a);
    ClearSeen(h.store, a, h.nextGeneration, h.warmEpoch);
    ClearBounded(h.store, a, h.nextGeneration, h.warmEpoch);
    assert g.store == h.store.(generations := h.store.generations[a := h.nextGeneration + 1]);
    MutationRefines(h, r, g, WithoutStorage(r.current, a));
  }

  lemma SetCurrentSeen(s: Store, a: Address, x: Account, epoch: nat)
    requires a in s.accounts.rows
    ensures var w := See(s, epoch);
            See(SetCurrent(s, a, x), epoch) ==
            w.(accounts := w.accounts.Put(a, w.accounts.rows[a].(current := Shown(x))))
  {
    HidePut(s.accounts.rows, a, s.accounts.rows[a].(current := x));
  }

  lemma ListAccountSeen(h: Host, a: Address, x: Account)
    requires a in h.block && a !in h.store.accounts.rows
    ensures Some(See(ListAccount(h, a, x).value.store, h.warmEpoch)) ==
            WithAccount(See(h.store, h.warmEpoch), h.block, a, x)
  {
    HidePut(h.store.accounts.rows, a, AccountRow(x, h.block[a]));
    assert a !in See(h.store, h.warmEpoch).accounts.rows;
    assert HideCleared(AccountRow(x, h.block[a])) == AccountRow(Shown(x), h.block[a]);
    var t := ListAccount(h, a, x).value.store;
    forall b ensures GenerationOf(t, b) == GenerationOf(h.store, b) {}
    assert VisibleSlots(t) == VisibleSlots(h.store);
  }

  lemma PutAccountRefines(h: Host, r: Reference, a: Address, x: Account)
    requires Refines(h, r)
    ensures UpdateAccount(h, a, x).Some? <==> WithAccount(r.current, r.block, a, x).Some?
    ensures UpdateAccount(h, a, x).Some? ==>
            Refines(UpdateAccount(h, a, x).value, r.(current := WithAccount(r.current, r.block, a, x).value))
  {
    UpdateAccountSaved(h, a, x);
    assert a in r.current.accounts.rows <==> a in h.store.accounts.rows;
    if UpdateAccount(h, a, x).Some? {
      if a in h.store.accounts.rows {
        SetCurrentSeen(h.store, a, x, h.warmEpoch);
        var notes := FieldNotes(a, h.store.accounts.rows[a].current, x);
        NoteEachKeeps(h, notes);
      } else {
        ListAccountSeen(h, a, x);
      }
      MutationRefines(h, r, UpdateAccount(h, a, x).value, WithAccount(r.current, r.block, a, x).value);
    }
  }

  lemma SetFieldRefines(h: Host, r: Reference, a: Address, f: Field, v: Word)
    requires Refines(h, r)
    ensures SetField(h, a, f, v).Some? <==> WithAccountField(r.current, r.block, a, f, v).Some?
    ensures SetField(h, a, f, v).Some? ==>
            Refines(SetField(h, a, f, v).value, r.(current := WithAccountField(r.current, r.block, a, f, v).value))
  {
    SetFieldSaved(h, a, f, v);
    assert a in r.current.accounts.rows <==> a in h.store.accounts.rows;
    if SetField(h, a, f, v).Some? {
      SetFieldSeen(h, a, f, v);
      SetFieldIs(h, a, f, v);
      MutationRefines(h, r, SetField(h, a, f, v).value, WithAccountField(r.current, r.block, a, f, v).value);
    }
  }

  /** Writing an account that was just listed is listing it with the new value. */
  lemma ListThenWrite(w: World, block: map<Address, Account>, a: Address, x: Account, y: Account)
    requires a in block && a !in w.accounts.rows
    ensures var listed := WithAccount(w, block, a, x);
            listed.Some? && WithAccount(listed.value, block, a, y) == WithAccount(w, block, a, y)
  {
    var listed := WithAccount(w, block, a, x).value;
    assert listed.accounts.rows[a := AccountRow(Shown(y), block[a])] ==
           w.accounts.rows[a := AccountRow(Shown(y), block[a])];
  }

  lemma WriteAccountSeen(s: Store, block: map<Address, Account>, a: Address, x: Account, epoch: nat)
    requires a in s.accounts.rows
    ensures Some(See(SetCurrent(s, a, x), epoch)) == WithAccount(See(s, epoch), block, a, x)
  {
    SetCurrentSeen(s, a, x, epoch);
  }

  lemma SetFieldIs(h: Host, a: Address, f: Field, v: Word)
    requires SetField(h, a, f, v).Some?
    ensures RequiredAccount(h, a).Some? && a in RequiredAccount(h, a).value.store.accounts.rows
    ensures var g, required := SetField(h, a, f, v).value, RequiredAccount(h, a).value;
            && g == h.(journal := g.journal, store := h.store.(accounts := g.store.accounts))
            && g.store == SetCurrent(required.store, a,
                                     WithField(required.store.accounts.rows[a].current, FieldChange(a, f, v)))
  {
    var required := RequiredAccount(h, a).value;
    SetFieldUndone(a, f, required.store.accounts.rows[a].current, v);
    SetCurrentSame(required.store, a);
  }

  lemma SetFieldSeen(h: Host, a: Address, f: Field, v: Word)
    requires SetField(h, a, f, v).Some?
    ensures Some(See(SetField(h, a, f, v).value.store, h.warmEpoch)) ==
            WithAccountField(See(h.store, h.warmEpoch), h.block, a, f, v)
  {
    SetFieldIs(h, a, f, v);
    var w, required := See(h.store, h.warmEpoch), RequiredAccount(h, a).value;
    var x := required.store.accounts.rows[a].current;
    var y := WithField(x, FieldChange(a, f, v));
    WriteAccountSeen(required.store, h.block, a, y, h.warmEpoch);
    ShownField(a, f, x, v);
    if a in h.store.accounts.rows {
      assert w.accounts.rows[a].current == Shown(x);
    } else {
      ListAccountSeen(h, a, x);
      ListThenWrite(w, h.block, a, x, y);
    }
  }

  lemma ShownField(a: Address, f: Field, x: Account, v: Word)
    ensures WithField(x, FieldChange(a, f, v)) == Assigned(x, f, v)
    ensures Shown(Assigned(Shown(x), f, v)) == Shown(Assigned(x, f, v))
  {
  }

  lemma BeginLogRefines(h: Host, r: Reference, a: Address)
    requires Refines(h, r)
    ensures Refines(BeginLog(h, a), r.(current := WithLog(r.current, a), logOpen := true))
  {
    BeginLogSaved(h, a);
  }

  /** No frame is open, or the innermost frame began the last log. */
  predicate LogIsOwn(r: Reference) {
    r.saved == [] || |Innermost(r).logs| < |r.current.logs|
  }

  lemma LogIsInFrame(h: Host, r: Reference)
    requires Refines(h, r)
    ensures LogIsOwn(r) <==> !FrameOpen(h) || LogInFrame(h.journal, 0)
  {
    SnapshotsOpen(UndoEntry, Observed(h.store), h.journal, 0);
    if FrameOpen(h) { LogInFrameCounts(Observed(h.store), h.journal, 0); }
  }

  lemma TopicRefines(h: Host, r: Reference, topic: Word)
    requires Refines(h, r) && r.logOpen && LogIsOwn(r)
    ensures AddTopic(h, topic).Some?
    ensures Refines(AddTopic(h, topic).value, r.(current := WithTopic(r.current, topic)))
  {
    LogIsInFrame(h, r);
    TopicKeepsSnapshots(h, topic);
    MutationRefines(h, r, AddTopic(h, topic).value, WithTopic(r.current, topic));
  }

  lemma DataRefines(h: Host, r: Reference, payload: seq<bv8>)
    requires Refines(h, r) && r.logOpen && LogIsOwn(r)
    ensures AddData(h, payload).Some?
    ensures Refines(AddData(h, payload).value, r.(current := WithData(r.current, payload)))
  {
    LogIsInFrame(h, r);
    DataKeepsSnapshots(h, payload);
    MutationRefines(h, r, AddData(h, payload).value, WithData(r.current, payload));
  }

  //////////////////////////////////////////////////////////////////////////////
  // Frames
  //////////////////////////////////////////////////////////////////////////////

  lemma CheckpointRefines(h: Host, r: Reference)
    requires Refines(h, r)
    ensures Refines(CheckpointFrame(h), r.(saved := r.saved + [r.current]))
  {
    CheckpointFrameSaved(h);
    SeeObserved(h.store, h.warmEpoch);
    BoundedObserved(h.store, h.nextGeneration, h.warmEpoch);
  }

  lemma CommitRefines(h: Host, r: Reference)
    requires Refines(h, r)
    ensures CommitFrame(h).Some? <==> r.saved != []
    ensures r.saved != [] ==> Refines(CommitFrame(h).value, r.(saved := r.saved[..|r.saved| - 1]))
  {
    CommitFrameSaved(h);
  }

  lemma RevertRefines(h: Host, r: Reference)
    requires Refines(h, r)
    ensures RevertFrame(h).Some? <==> r.saved != []
    ensures r.saved != [] ==> Refines(RevertFrame(h).value, Reverted(r))
  {
    RevertFrameSaved(h);
    if r.saved != [] { InnermostRestored(h, r, RevertFrame(h).value); }
  }

  lemma InnermostRestored(h: Host, r: Reference, g: Host)
    requires Refines(h, r) && r.saved != [] && RevertFrame(h) == Some(g)
    requires var saved := Saved(h).value;
             saved != [] && Observed(g.store) == saved[|saved| - 1] && Saved(g) == Some(saved[..|saved| - 1])
    ensures Refines(g, Reverted(r))
  {
    var saved := Saved(h).value;
    assert SeeAll(saved[..|saved| - 1], h.warmEpoch) == r.saved[..|r.saved| - 1];
    RestoredSeen(g.store, saved[|saved| - 1], h.nextGeneration, h.warmEpoch);
    RevertLogs(h, r, g);
    RevertedRefines(g, Reverted(r), saved[..|saved| - 1]);
  }

  /** The open log is forgotten exactly when the revert removed a log. */
  lemma RevertLogs(h: Host, r: Reference, g: Host)
    requires Refines(h, r) && r.saved != [] && RevertFrame(h) == Some(g)
    requires Saved(h).value != [] && Observed(g.store) == Saved(h).value[|Saved(h).value| - 1]
    ensures Reverted(r).logOpen == g.currentLog.Some?
    ensures g.currentLog.Some? ==> g.currentLog.value + 1 == |g.store.logs|
  {
    LogInFrameIsUndone(h.journal, 0);
    LogInFrameCounts(Observed(h.store), h.journal, 0);
  }

  lemma RevertedRefines(g: Host, q: Reference, saved: seq<Store>)
    requires g.nextGeneration >= INITIAL_GENERATION && g.warmEpoch >= 1
    requires Saved(g) == Some(saved) && AllBounded(saved, g.nextGeneration, g.warmEpoch)
    requires Bounded(g.store, g.nextGeneration, g.warmEpoch) && q.current == See(g.store, g.warmEpoch)
    requires q.saved == SeeAll(saved, g.warmEpoch) && q.block == g.block && q.logStart == g.logStart
    requires q.logOpen == g.currentLog.Some? && (g.currentLog.Some? ==> g.currentLog.value + 1 == |g.store.logs|)
    ensures Refines(g, q)
  {
  }

  lemma RestoredSeen(s: Store, saved: Store, next: nat, epoch: nat)
    requires Observed(s) == saved && Bounded(saved, next, epoch) && next >= INITIAL_GENERATION && epoch >= 1
    ensures See(s, epoch) == See(saved, epoch) && Bounded(s, next, epoch)
  {
    SeeObserved(s, epoch);
    BoundedObserved(s, next, epoch);
  }

  //////////////////////////////////////////////////////////////////////////////
  // Resets
  //////////////////////////////////////////////////////////////////////////////

  lemma OutsideFrames(h: Host, r: Reference)
    requires Refines(h, r) && r.saved == []
    ensures !FrameOpen(h)
  {
    SnapshotsOpen(UndoEntry, Observed(h.store), h.journal, 0);
  }

  /** No stamp is newer than the epoch. */
  predicate StampsReach(s: Store, epoch: nat) {
    && (forall a :: a in s.warmAccounts ==> s.warmAccounts[a] <= epoch)
    && (forall key :: key in s.warmSlots ==> s.warmSlots[key] <= epoch)
  }

  lemma StampsForgotten<K>(stamps: map<K, nat>, epoch: nat)
    ensures WarmOf(stamps, epoch + 1) == {} <==> forall k :: k in stamps ==> stamps[k] <= epoch
  {
    if WarmOf(stamps, epoch + 1) == {} {
      forall k | k in stamps ensures stamps[k] <= epoch { assert k !in WarmOf(stamps, epoch + 1); }
    }
  }

  /** Exactly then does a reset empty the warm sets: no stamp is newer than its epoch. */
  lemma ResetWarmRefines(h: Host, r: Reference, epoch: nat)
    requires Refines(h, r) && r.saved == []
    ensures Refines(ResetWarm(h, epoch), r.(current := r.current.(warmAccounts := {}, warmSlots := {}))) <==>
            StampsReach(h.store, epoch)
  {
    OutsideFrames(h, r);
    StampsForgotten(h.store.warmAccounts, epoch);
    StampsForgotten(h.store.warmSlots, epoch);
  }

  /** An epoch that is not below the current one always reaches the stamps. */
  lemma NewerEpoch(h: Host, r: Reference, epoch: nat)
    requires Refines(h, r) && epoch >= h.warmEpoch
    ensures StampsReach(h.store, epoch)
  {
  }

  /** A reset forgets what was just marked if and only if its epoch is not below the current one. */
  lemma ResetForgets(h: Host, a: Address, epoch: nat)
    requires h.warmEpoch >= 1 && Bounded(h.store, h.nextGeneration, h.warmEpoch)
    ensures var g := ResetWarm(MarkAccount(h, a), epoch);
            !IsWarm(g.store.warmAccounts, a, g.warmEpoch) <==> epoch >= h.warmEpoch
  {
  }

  lemma ResetTransientRefines(h: Host, r: Reference)
    requires Refines(h, r) && r.saved == []
    ensures Refines(ResetTransient(h), r.(current := r.current.(transient := map[])))
  {
    OutsideFrames(h, r);
  }

  lemma ResetAccountsRefines(h: Host, r: Reference)
    requires Refines(h, r) && r.saved == []
    ensures Refines(ResetAccounts(h), r.(current := r.current.(accounts := Dict([], map[]))))
  {
    OutsideFrames(h, r);
    assert HideRows(map[]) == map[];
  }

  lemma ResetStorageRefines(h: Host, r: Reference)
    requires Refines(h, r) && r.saved == []
    ensures Refines(ResetStorage(h), r.(current := r.current.(storage := map[], listed := Dict([], map[]), wiped := {})))
  {
    OutsideFrames(h, r);
    assert VisibleSlots(ResetStorage(h).store) == map[];
    assert ListedRows(ResetStorage(h).store.storage) == Dict([], map[]) && WipedOf(ResetStorage(h).store) == {};
  }

  //////////////////////////////////////////////////////////////////////////////
  // Pops
  //////////////////////////////////////////////////////////////////////////////

  lemma RemovedSeen(s: Store, i: nat, epoch: nat)
    requires i < |s.storage.keys|
    ensures var key, w := s.storage.keys[i], See(s, epoch);
            && See(s.(storage := s.storage.RemoveAt(i)), epoch) ==
               w.(storage := w.storage - {key}, listed := w.listed.RemoveAt(i))
            && (key in w.storage <==>
                key in s.storage.rows && s.storage.rows[key].generation == GenerationOf(s, key.addr))
            && (key in w.storage ==> w.storage[key] == s.storage.rows[key].value)
  {
    var t, key, w := s.(storage := s.storage.RemoveAt(i)), s.storage.keys[i], See(s, epoch);
    forall a ensures GenerationOf(t, a) == GenerationOf(s, a) {}
    assert VisibleSlots(t) == w.storage - {key};
    assert ListedRows(t.storage).rows == w.listed.rows - {key};
  }

  /** A pop of the gated table is one of the plain map, and gives out the same slot. */
  lemma {:induction false} PopSeen(s: Store, epoch: nat)
    ensures var (popped, rest) := PopStorage(s.storage, s.generations);
            PopSlot(See(s, epoch)) == (popped, See(s.(storage := rest), epoch))
    decreases |s.storage.keys|
  {
    if s.storage.keys != [] {
      var n := |s.storage.keys| - 1;
      var t, key, w := s.(storage := s.storage.RemoveAt(n)), s.storage.keys[n], See(s, epoch);
      RemovedSeen(s, n, epoch);
      PopSeen(t, epoch);
      assert PopSlot(w) == if key in w.storage then (Some((key, w.storage[key])), See(t, epoch)) else PopSlot(See(t, epoch));
    }
  }

  lemma {:induction false} PopBounded(s: Store, next: nat, epoch: nat)
    requires Bounded(s, next, epoch)
    ensures Bounded(s.(storage := PopStorage(s.storage, s.generations).1), next, epoch)
    decreases |s.storage.keys|
  {
    if s.storage.keys != [] { PopBounded(s.(storage := s.storage.RemoveAt(|s.storage.keys| - 1)), next, epoch); }
  }

  lemma TakeSlotRefines(h: Host, r: Reference)
    requires Refines(h, r) && (r.saved == [] || r.current.listed.keys == [])
    ensures Refines(TakeSlot(h), r.(current := PopSlot(r.current).1))
    ensures PopStorage(h.store.storage, h.store.generations).0 == PopSlot(r.current).0
  {
    PopSeen(h.store, h.warmEpoch);
    PopBounded(h.store, h.nextGeneration, h.warmEpoch);
    if r.saved == [] { OutsideFrames(h, r); }
    MutationRefines(h, r, TakeSlot(h), PopSlot(r.current).1);
  }

  function ShownRow(popped: Option<(Address, AccountRow)>): Option<(Address, AccountRow)> {
    if popped.None? then None else Some((popped.value.0, HideCleared(popped.value.1)))
  }

  lemma PopAccountSeen(s: Store, epoch: nat)
    ensures var ((popped, rest), w) := (PopAccount(s.accounts), See(s, epoch));
            LastAccount(w) == ShownRow(popped) && See(s.(accounts := rest), epoch) == WithoutLastAccount(w)
  {
    if s.accounts.keys != [] {
      var n := |s.accounts.keys| - 1;
      assert s.accounts.keys[..n] + s.accounts.keys[n + 1..] == s.accounts.keys[..n];
      HideRemove(s.accounts.rows, s.accounts.keys[|s.accounts.keys| - 1]);
      var t := s.(accounts := PopAccount(s.accounts).1);
      forall a ensures GenerationOf(t, a) == GenerationOf(s, a) {}
      assert VisibleSlots(t) == VisibleSlots(s);
    }
  }

  lemma TakeAccountRefines(h: Host, r: Reference)
    requires Refines(h, r) && (r.saved == [] || r.current.accounts.keys == [])
    ensures Refines(TakeAccount(h), r.(current := WithoutLastAccount(r.current)))
    ensures ShownRow(PopAccount(h.store.accounts).0) == LastAccount(r.current)
  {
    PopAccountSeen(h.store, h.warmEpoch);
    if r.saved == [] { OutsideFrames(h, r); }
    MutationRefines(h, r, TakeAccount(h), WithoutLastAccount(r.current));
  }

  //////////////////////////////////////////////////////////////////////////////
  // Whole runs
  //////////////////////////////////////////////////////////////////////////////

  /** What the host relies on its callers for. */
  predicate Disciplined(h: Host, r: Reference, op: Op) {
    match op
    case OpTopic(_) => r.logOpen ==> LogIsOwn(r)
    case OpData(_) => r.logOpen ==> LogIsOwn(r)
    case OpPopStorage => r.saved == [] || r.current.listed.keys == []
    case OpPopAccount => r.saved == [] || r.current.accounts.keys == []
    case OpResetWarm(epoch) => r.saved == [] && StampsReach(h.store, epoch)
    case OpResetTransient => r.saved == []
    case OpResetAccounts => r.saved == []
    case OpResetStorage => r.saved == []
    case _ => true
  }

  predicate IsFrameOp(op: Op) {
    op.OpCheckpoint? || op.OpCommit? || op.OpRevert?
  }

  predicate IsReset(op: Op) {
    op.OpResetWarm? || op.OpResetTransient? || op.OpResetAccounts? || op.OpResetStorage?
  }

  /** What leaves the store alone. */
  predicate IsAside(op: Op) {
    op.OpResetJournal? || op.OpResetLogs? || op.OpCacheAccount?
  }

  predicate IsPop(op: Op) {
    op.OpPopStorage? || op.OpPopAccount?
  }

  predicate IsPartial(op: Op) {
    op.OpPutAccount? || op.OpSetField? || op.OpTopic? || op.OpData?
  }

  /** The host and the reference machine take the step together or both fail. */
  ghost predicate StepsTogether(h: Host, r: Reference, op: Op) {
    var g, q := HostStep(h, op), ReferenceStep(r, op);
    (g.Some? <==> q.Some?) && (g.Some? ==> Refines(g.value, q.value))
  }

  lemma FrameStep(h: Host, r: Reference, op: Op)
    requires Refines(h, r) && IsFrameOp(op)
    ensures StepsTogether(h, r, op)
  {
    match op
    case OpCheckpoint => CheckpointRefines(h, r);
    case OpCommit => CommitRefines(h, r);
    case OpRevert => RevertRefines(h, r);
  }

  lemma ResetStep(h: Host, r: Reference, op: Op)
    requires Refines(h, r) && Disciplined(h, r, op) && IsReset(op)
    ensures StepsTogether(h, r, op)
  {
    match op
    case OpResetWarm(epoch) => ResetWarmRefines(h, r, epoch);
    case OpResetTransient => ResetTransientRefines(h, r);
    case OpResetAccounts => ResetAccountsRefines(h, r);
    case OpResetStorage => ResetStorageRefines(h, r);
  }

  lemma AsideStep(h: Host, r: Reference, op: Op)
    requires Refines(h, r) && IsAside(op)
    ensures StepsTogether(h, r, op)
  {
    match op
    case OpResetJournal => JournalForgotten(h, r);
    case OpCacheAccount(a, x) => AccountCached(h, r, a, x);
    case OpResetLogs => LogsMarked(h, r);
  }

  lemma JournalForgotten(h: Host, r: Reference)
    requires Refines(h, r)
    ensures StepsTogether(h, r, OpResetJournal)
  {
  }

  lemma BlockRefines(h: Host, r: Reference, block: map<Address, Account>)
    requires Refines(h, r)
    ensures Refines(h.(block := block), r.(block := block))
  {
  }

  lemma AccountCached(h: Host, r: Reference, a: Address, x: Account)
    requires Refines(h, r)
    ensures StepsTogether(h, r, OpCacheAccount(a, x))
  {
    if a !in h.block { BlockRefines(h, r, h.block[a := x]); }
  }

  lemma LogsMarked(h: Host, r: Reference)
    requires Refines(h, r)
    ensures StepsTogether(h, r, OpResetLogs)
  {
  }

  lemma PopStep(h: Host, r: Reference, op: Op)
    requires Refines(h, r) && Disciplined(h, r, op) && IsPop(op)
    ensures StepsTogether(h, r, op)
  {
    match op
    case OpPopStorage => TakeSlotRefines(h, r);
    case OpPopAccount => TakeAccountRefines(h, r);
  }

  lemma PartialStep(h: Host, r: Reference, op: Op)
    requires Refines(h, r) && Disciplined(h, r, op) && IsPartial(op)
    ensures StepsTogether(h, r, op)
  {
    match op
    case OpPutAccount(a, x) => PutAccountRefines(h, r, a, x);
    case OpSetField(a, f, v) => SetFieldRefines(h, r, a, f, v);
    case OpTopic(v) => if r.logOpen { TopicRefines(h, r, v); }
    case OpData(payload) => if r.logOpen { DataRefines(h, r, payload); }
  }

  predicate IsStamp(op: Op) {
    op.OpTransient? || op.OpWarmAccount? || op.OpWarmSlot?
  }

  lemma StampStep(h: Host, r: Reference, op: Op)
    requires Refines(h, r) && IsStamp(op)
    ensures StepsTogether(h, r, op)
  {
    match op
    case OpTransient(key, v) => TransientRefines(h, r, key, v);
    case OpWarmAccount(a) => MarkAccountRefines(h, r, a);
    case OpWarmSlot(key) => MarkSlotRefines(h, r, key);
  }

  predicate IsWrite(op: Op) {
    op.OpPutStorage? || op.OpClearStorage? || op.OpBeginLog?
  }

  lemma PutStep(h: Host, r: Reference, key: SlotKey, v: StorageValue)
    requires Refines(h, r)
    ensures StepsTogether(h, r, OpPutStorage(key, v))
  {
    UpdateRefines(h, r, key, v);
  }

  lemma ClearStep(h: Host, r: Reference, a: Address)
    requires Refines(h, r)
    ensures StepsTogether(h, r, OpClearStorage(a))
  {
    ClearRefines(h, r, a);
  }

  lemma LogStep(h: Host, r: Reference, a: Address)
    requires Refines(h, r)
    ensures StepsTogether(h, r, OpBeginLog(a))
  {
    BeginLogRefines(h, r, a);
  }

  lemma WriteStep(h: Host, r: Reference, op: Op)
    requires Refines(h, r) && IsWrite(op)
    ensures StepsTogether(h, r, op)
  {
    match op
    case OpPutStorage(key, v) => PutStep(h, r, key, v);
    case OpClearStorage(a) => ClearStep(h, r, a);
    case OpBeginLog(a) => LogStep(h, r, a);
  }

  /** One step: the host fails exactly where the reference machine does, and otherwise they stay together. */
  lemma StepRefines(h: Host, r: Reference, op: Op)
    requires Refines(h, r) && Disciplined(h, r, op)
    ensures StepsTogether(h, r, op)
  {
    if IsFrameOp(op) { FrameStep(h, r, op); }
    else if IsReset(op) { ResetStep(h, r, op); }
    else if IsPop(op) { PopStep(h, r, op); }
    else if IsPartial(op) { PartialStep(h, r, op); }
    else if IsAside(op) { AsideStep(h, r, op); }
    else if IsStamp(op) { StampStep(h, r, op); }
    else { WriteStep(h, r, op); }
  }

  predicate DisciplinedRun(h: Host, r: Reference, ops: seq<Op>)
    decreases |ops|
  {
    ops == [] ||
    (&& Disciplined(h, r, ops[0])
     && (HostStep(h, ops[0]).Some? && ReferenceStep(r, ops[0]).Some? ==>
         DisciplinedRun(HostStep(h, ops[0]).value, ReferenceStep(r, ops[0]).value, ops[1..])))
  }

  /** Every run: the host ends in an error exactly when the reference machine does, and otherwise both show the
      same world and the same snapshots. */
  lemma {:induction false} RunRefines(h: Host, r: Reference, ops: seq<Op>)
    requires Refines(h, r) && DisciplinedRun(h, r, ops)
    ensures RunHost(h, ops).Some? <==> RunReference(r, ops).Some?
    ensures RunHost(h, ops).Some? ==> Refines(RunHost(h, ops).value, RunReference(r, ops).value)
    decreases |ops|
  {
    if ops != [] {
      StepRefines(h, r, ops[0]);
      if HostStep(h, ops[0]).Some? {
        RunRefines(HostStep(h, ops[0]).value, ReferenceStep(r, ops[0]).value, ops[1..]);
      }
    }
  }

  //////////////////////////////////////////////////////////////////////////////
  // What the getters answer
  //////////////////////////////////////////////////////////////////////////////

  /** A slot is a hit exactly when the plain map has it; otherwise it is cleared exactly when its address was. */
  lemma StorageSeen(h: Host, r: Reference, key: SlotKey)
    requires Refines(h, r)
    ensures GetStorage(h, key) ==
            if key in r.current.storage then Hit(r.current.storage[key])
            else if key.addr in r.current.wiped then Cleared else Miss
  {
    ReadDense(h.store.generations, key.addr, INITIAL_GENERATION);
  }

  /** After a clear, every slot of the address reads as cleared. */
  lemma ClearedReads(h: Host, r: Reference, key: SlotKey)
    requires Refines(h, r)
    ensures GetStorage(ClearStorage(h, key.addr), key) == Cleared
  {
    ClearRefines(h, r, key.addr);
    StorageSeen(ClearStorage(h, key.addr), r.(current := WithoutStorage(r.current, key.addr)), key);
  }

  lemma WarmSeen(h: Host, r: Reference, a: Address, key: SlotKey)
    requires Refines(h, r)
    ensures IsWarm(h.store.warmAccounts, a, h.warmEpoch) <==> a in r.current.warmAccounts
    ensures IsWarm(h.store.warmSlots, key, h.warmEpoch) <==> key in r.current.warmSlots
  {
  }

  /** A frame: checkpoint, any disciplined run that leaves the frame open, revert. All that execution sees is back. */
  lemma RevertUndoesRun(h: Host, r: Reference, ops: seq<Op>)
    requires Refines(h, r) && DisciplinedRun(CheckpointFrame(h), r.(saved := r.saved + [r.current]), ops)
    requires RunReference(r.(saved := r.saved + [r.current]), ops).Some?
    requires RunReference(r.(saved := r.saved + [r.current]), ops).value.saved == r.saved + [r.current]
    ensures var g := RunHost(CheckpointFrame(h), ops);
            && g.Some? && RevertFrame(g.value).Some?
            && See(RevertFrame(g.value).value.store, g.value.warmEpoch) == See(h.store, h.warmEpoch)
  {
    CheckpointRefines(h, r);
    RunRefines(CheckpointFrame(h), r.(saved := r.saved + [r.current]), ops);
    var g, q := RunHost(CheckpointFrame(h), ops).value, RunReference(r.(saved := r.saved + [r.current]), ops).value;
    RevertRefines(g, q);
  }

  /** The fresh host state refines the fresh reference machine. */
  lemma InitialRefines(block: map<Address, Account>)
    ensures Refines(InitialHost(block), FreshReference(block))
  {
    var s := InitialHost(block).store;
    assert VisibleSlots(s) == map[] && ListedRows(s.storage) == Dict([], map[]);
    assert WipedOf(s) == {} && HideRows(map[]) == map[];
  }

  /** A block starts on a fresh host with warm_reset(0), and whatever disciplined run follows. */
  lemma BlockRunRefines(block: map<Address, Account>, ops: seq<Op>)
    requires DisciplinedRun(InitialHost(block), FreshReference(block), ops)
    ensures DisciplinedRun(InitialHost(block), FreshReference(block), [OpResetWarm(0)] + ops)
    ensures var g, q := RunHost(InitialHost(block), [OpResetWarm(0)] + ops),
                        RunReference(FreshReference(block), [OpResetWarm(0)] + ops);
            (g.Some? <==> q.Some?) && (g.Some? ==> Refines(g.value, q.value))
  {
    InitialRefines(block);
    assert ([OpResetWarm(0)] + ops)[1..] == ops;
    assert ResetWarm(InitialHost(block), 0) == InitialHost(block);
    RunRefines(InitialHost(block), FreshReference(block), [OpResetWarm(0)] + ops);
  }

  //////////////////////////////////////////////////////////////////////////////
  // The derived storage_cleared flags
  //////////////////////////////////////////////////////////////////////////////

  /** storage_cleared says that the account was cleared before this transaction or in it. */
  ghost predicate FlagsFollow(s: Store) {
    forall a :: a in s.accounts.rows ==> FlagFollows(s, a)
  }

  predicate FlagFollows(s: Store, a: Address)
    requires a in s.accounts.rows
  {
    var row := s.accounts.rows[a];
    row.current.storageCleared == (row.original.storageCleared || GenerationOf(s, a) != INITIAL_GENERATION)
  }

  lemma OtherFlags(s: Store, e: Change, a: Address)
    requires Restore(s, e).Some? && !(e.StorageGenerationChanged? && e.address == a)
    ensures var t := Restore(s, e).value;
            && GenerationOf(t, a) == GenerationOf(s, a)
            && (a in t.accounts.rows ==>
                a in s.accounts.rows
                && t.accounts.rows[a].current.storageCleared == s.accounts.rows[a].current.storageCleared
                && t.accounts.rows[a].original == s.accounts.rows[a].original)
  {
  }

  lemma RestoreKeepsFlags(s: Store, e: Change)
    requires FlagsFollow(s) && Restore(s, e).Some?
    ensures FlagsFollow(Restore(s, e).value)
  {
    var t := Restore(s, e).value;
    forall a | a in t.accounts.rows ensures FlagFollows(t, a) {
      if !(e.StorageGenerationChanged? && e.address == a) {
        OtherFlags(s, e, a);
        assert FlagFollows(s, a);
      }
    }
  }

  lemma {:induction false} RewindKeepsFlags(s: Store, items: seq<Item<Change>>)
    requires FlagsFollow(s) && Rewind(Restore, s, items).Some?
    ensures FlagsFollow(Rewind(Restore, s, items).value)
    decreases |items|
  {
    if items != [] {
      var rest := items[..|items| - 1];
      match items[|items| - 1]
      case Entry(e) =>
        RestoreKeepsFlags(s, e);
        RewindKeepsFlags(Restore(s, e).value, rest);
      case Checkpoint => RewindKeepsFlags(s, rest);
      case Commit => RewindKeepsFlags(s, rest);
    }
  }

  /** Where the flags follow the generations at the checkpoint and at the revert, the revert restores them too. */
  lemma RevertRestoresFlags(h: Host, was: Store)
    requires Saved(h).Some? && Saved(h).value != [] && Saved(h).value[|Saved(h).value| - 1] == Observed(was)
    requires FlagsFollow(was) && FlagsFollow(h.store)
    ensures RevertFrame(h).Some? && RevertFrame(h).value.store.accounts == was.accounts
  {
    RevertFrameSaved(h);
    var t := RevertFrame(h).value.store;
    RewindKeepsFlags(h.store, h.journal[OpenIndex(h.journal, 0).value + 1..]);
    FlagsDetermined(t, was);
  }

  lemma FlagsDetermined(s: Store, t: Store)
    requires Observed(s) == Observed(t) && FlagsFollow(s) && FlagsFollow(t)
    ensures s.accounts == t.accounts
  {
    assert s.accounts.rows.Keys == HideRows(s.accounts.rows).Keys == t.accounts.rows.Keys;
    forall a | a in s.accounts.rows ensures s.accounts.rows[a] == t.accounts.rows[a] {
      assert HideRows(s.accounts.rows)[a] == HideRows(t.accounts.rows)[a];
      assert FlagFollows(s, a) && FlagFollows(t, a);
      ReadDense(s.generations, a, INITIAL_GENERATION);
      ReadDense(t.generations, a, INITIAL_GENERATION);
    }
  }

  //////////////////////////////////////////////////////////////////////////////
  // Draining the storage rows
  //////////////////////////////////////////////////////////////////////////////

  predicate RowVisible(row: StorageRow, key: SlotKey, generations: map<Address, nat>) {
    row.generation == Read(generations, key.addr, INITIAL_GENERATION)
  }

  lemma RemovedRow(rows: map<SlotKey, StorageRow>, generations: map<Address, nat>, key: SlotKey)
    requires key in rows
    ensures var slots := VisibleRows(rows, generations);
            && (RowVisible(rows[key], key, generations) <==> key in slots)
            && VisibleRows(rows - {key}, generations) == slots - {key}
            && (key !in slots ==> slots - {key} == slots)
  {
  }

  lemma NoRows(d: Dict<SlotKey, StorageRow>, generations: map<Address, nat>)
    requires d.Ordered() && d.keys == []
    ensures VisibleRows(d.rows, generations) == map[]
  {
  }

  /** A pop takes one visible slot out of the plain map, and finds one as long as there is any. */
  lemma {:induction false} PopTakesVisible(d: Dict<SlotKey, StorageRow>, generations: map<Address, nat>)
    requires d.Ordered()
    ensures var (popped, rest) := PopStorage(d, generations);
            var slots := VisibleRows(d.rows, generations);
            && rest.Ordered()
            && (popped.None? ==> slots == map[])
            && (popped.Some? ==> popped.value.0 in slots && slots[popped.value.0] == popped.value.1
                                 && VisibleRows(rest.rows, generations) == slots - {popped.value.0})
    decreases |d.keys|
  {
    if d.keys == [] {
      NoRows(d, generations);
    } else {
      var n := |d.keys| - 1;
      RemoveKeepsOrder(d, n);
      RemovedRow(d.rows, generations, d.keys[n]);
      if !RowVisible(d.rows[d.keys[n]], d.keys[n], generations) { PopTakesVisible(d.RemoveAt(n), generations); }
    }
  }

  /** The rows that pops give out until the table is exhausted. */
  function Drain(d: Dict<SlotKey, StorageRow>, generations: map<Address, nat>): seq<(SlotKey, StorageValue)>
    decreases |d.keys|
  {
    var (popped, rest) := PopStorage(d, generations);
    if popped.None? then [] else [popped.value] + Drain(rest, generations)
  }

  /** They are the slots of the plain map, each once. */
  lemma {:induction false} DrainTakesAll(d: Dict<SlotKey, StorageRow>, generations: map<Address, nat>)
    requires d.Ordered()
    ensures var drained, slots := Drain(d, generations), VisibleRows(d.rows, generations);
            && (forall key, v :: (key, v) in drained <==> key in slots && slots[key] == v)
            && (forall i, j :: 0 <= i < j < |drained| ==> drained[i].0 != drained[j].0)
    decreases |d.keys|
  {
    var (popped, rest) := PopStorage(d, generations);
    PopTakesVisible(d, generations);
    if popped.Some? {
      DrainTakesAll(rest, generations);
      DrainedNext(popped.value, Drain(rest, generations), VisibleRows(d.rows, generations));
    }
  }
}
