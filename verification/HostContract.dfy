/** The mutable host state; every method is proved against the host operation on its contents. */
module HostContract {
  import opened Collections
  import opened Journal
  import opened HostModel
  import opened HostOps

  lemma InsertKeepsOrder<K, V>(d: Dict<K, V>, key: K, row: V)
    requires d.Ordered() && key !in d.rows
    ensures d.Insert(key, row).Ordered()
  {
  }

  lemma PutKeepsOrder<K, V>(d: Dict<K, V>, key: K, row: V)
    requires d.Ordered() && key in d.rows
    ensures d.Put(key, row).Ordered()
  {
  }

  ghost predicate WellListed(s: Store) {
    s.storage.Ordered() && s.accounts.Ordered()
  }

  lemma RestoreKeepsOrder(s: Store, e: Change)
    requires WellListed(s) && Restore(s, e).Some?
    ensures WellListed(Restore(s, e).value)
  {
    if e.AccountListed? { RemoveKeepsOrder(s.accounts, |s.accounts.keys| - 1); }
    if e.StorageListed? { RemoveKeepsOrder(s.storage, LastListed(s.storage.keys, e.address).value); }
  }

  function NotedItems(note: FieldNote): seq<Item<Change>> {
    if note.changed then [Entry(note.change)] else []
  }

  /** The journal after some notes. */
  function NotedJournal(j: seq<Item<Change>>, notes: seq<FieldNote>): seq<Item<Change>> {
    if notes == [] then j else NotedJournal(j, notes[..|notes| - 1]) + NotedItems(notes[|notes| - 1])
  }

  lemma NotedNext(j: seq<Item<Change>>, notes: seq<FieldNote>, k: nat)
    requires k < |notes|
    ensures NotedJournal(j, notes[..k + 1]) == NotedJournal(j, notes[..k]) + NotedItems(notes[k])
  {
    assert notes[..k + 1][..k] == notes[..k];
  }

  lemma {:induction false} NotedJournalIs(h: Host, notes: seq<FieldNote>)
    ensures NoteEach(h, notes) == h.(journal := NotedJournal(h.journal, notes))
  {
    if notes != [] { NotedJournalIs(h, notes[..|notes| - 1]); }
  }

  /** Part of a replay: what is left of the segment still leads to where the whole segment leads. */
  ghost predicate Replaying(h: Host, now: Host, segment: seq<Item<Change>>, left: nat)
    requires left <= |segment|
  {
    && now == h.(store := now.store, currentLog := now.currentLog)
    && Rewind(Restore, now.store, segment[..left]) == Rewind(Restore, h.store, segment)
    && now.currentLog == (if Entry(LogAppended) in segment[left..] then None else h.currentLog)
  }

  lemma ReplayingEnd(h: Host, now: Host, segment: seq<Item<Change>>)
    requires Replaying(h, now, segment, 0)
    ensures Rewind(Restore, h.store, segment) == Some(now.store)
    ensures now == h.(store := now.store,
                      currentLog := if Entry(LogAppended) in segment then None else h.currentLog)
  {
    assert segment[0..] == segment;
  }

  /** A replay that met a missing row: everything behind the entry that names it is undone, and nothing else. */
  ghost predicate Stopped(h: Host, now: Host, segment: seq<Item<Change>>) {
    exists left: nat :: StoppedAt(h, now, segment, left)
  }

  ghost predicate StoppedAt(h: Host, now: Host, segment: seq<Item<Change>>, left: nat) {
    && 0 < left <= |segment| && segment[left - 1].Entry?
    && Replaying(h, now, segment, left) && Restore(now.store, segment[left - 1].change).None?
  }

  lemma ReplayingMarker(h: Host, now: Host, segment: seq<Item<Change>>, left: nat)
    requires 0 < left <= |segment| && Replaying(h, now, segment, left) && !segment[left - 1].Entry?
    ensures Replaying(h, now, segment, left - 1)
  {
    assert segment[..left][..left - 1] == segment[..left - 1];
    assert segment[left - 1..] == [segment[left - 1]] + segment[left..];
  }

  /** One entry of the replay: it fails exactly when the whole replay does. */
  lemma ReplayingEntry(h: Host, now: Host, next: Host, segment: seq<Item<Change>>, left: nat, e: Change)
    requires 0 < left <= |segment| && Replaying(h, now, segment, left) && segment[left - 1] == Entry(e)
    ensures Restore(now.store, e).None? ==> Rewind(Restore, h.store, segment).None?
    ensures Restore(now.store, e) == Some(next.store)
            && next == now.(store := next.store, currentLog := if e.LogAppended? then None else now.currentLog)
            ==> Replaying(h, next, segment, left - 1)
  {
    assert segment[..left][..left - 1] == segment[..left - 1];
    assert segment[left - 1..] == [segment[left - 1]] + segment[left..];
  }

  class HostState {
    var transient: map<SlotKey, Word>
    var warmAddresses: map<Address, nat>
    var warmSlots: map<SlotKey, nat>
    var currentWarmEpoch: nat
    var accountTx: Dict<Address, AccountRow>
    var accountBlock: map<Address, Account>
    var storageTx: Dict<SlotKey, StorageRow>
    var storageGenerations: map<Address, nat>
    var storageNextGeneration: nat
    var logs: seq<LogRecord>
    var logData: seq<bv8>
    var currentLog: Option<nat>
    var transactionLogStart: nat
    var journal: seq<Item<Change>>

    ghost function Rows(): Store
      reads this
    {
      Store(transient, warmAddresses, warmSlots, accountTx, storageTx, storageGenerations, logs, logData)
    }

    ghost function Contents(): Host
      reads this
    {
      Host(Rows(), journal, accountBlock, storageNextGeneration, currentWarmEpoch, currentLog,
           transactionLogStart)
    }

    ghost predicate Valid()
      reads this
    {
      WellListed(Rows())
    }

    constructor ()
      ensures Valid() && Contents() == InitialHost(map[])
      ensures transient == map[] && warmAddresses == map[] && warmSlots == map[] && currentWarmEpoch == 1
      ensures accountTx == Dict([], map[]) && storageTx == Dict([], map[]) && accountBlock == map[]
      ensures storageGenerations == map[] && storageNextGeneration == 1 && journal == []
      ensures logs == [] && logData == [] && currentLog == None && transactionLogStart == 0
    {
      transient, warmAddresses, warmSlots, currentWarmEpoch := map[], map[], map[], 1;
      accountTx, accountBlock := Dict([], map[]), map[];
      storageTx, storageGenerations, storageNextGeneration := Dict([], map[]), map[], INITIAL_GENERATION;
      logs, logData, currentLog, transactionLogStart, journal := [], [], None, 0, [];
    }

    method TransientStore(key: SlotKey, value: Word)
      requires Valid()
      modifies this`transient, this`journal
      ensures Valid() && Contents() == StoreTransient(old(Contents()), key, value)
      ensures Saved(Contents()) == old(Saved(Contents()))
      ensures transient == old(transient)[key := value]
    {
      StoreTransientSaved(Contents(), key, value);
      journal := journal + [Entry(TransientChanged(key, Read(transient, key, 0)))];
      transient := transient[key := value];
    }

    method AccountMarkWarm(address: Address)
      requires Valid()
      modifies this`warmAddresses, this`journal
      ensures Valid() && Contents() == MarkAccount(old(Contents()), address)
      ensures Saved(Contents()) == old(Saved(Contents()))
      ensures currentWarmEpoch > 0 ==> address in warmAddresses && warmAddresses[address] >= currentWarmEpoch
      ensures warmAddresses == old(warmAddresses) || warmAddresses == old(warmAddresses)[address := currentWarmEpoch]
    {
      MarkAccountSaved(Contents(), address);
      var stamp := Read(warmAddresses, address, 0);
      if stamp < currentWarmEpoch {
        journal := journal + [Entry(WarmAccountChanged(address, stamp))];
        warmAddresses := warmAddresses[address := currentWarmEpoch];
      }
    }

    method StorageMarkWarm(key: SlotKey)
      requires Valid()
      modifies this`warmSlots, this`journal
      ensures Valid() && Contents() == MarkSlot(old(Contents()), key)
      ensures Saved(Contents()) == old(Saved(Contents()))
      ensures currentWarmEpoch > 0 ==> key in warmSlots && warmSlots[key] >= currentWarmEpoch
      ensures warmSlots == old(warmSlots) || warmSlots == old(warmSlots)[key := currentWarmEpoch]
    {
      MarkSlotSaved(Contents(), key);
      var stamp := Read(warmSlots, key, 0);
      if stamp < currentWarmEpoch {
        journal := journal + [Entry(WarmStorageChanged(key, stamp))];
        warmSlots := warmSlots[key := currentWarmEpoch];
      }
    }

    method AccountIsWarm(address: Address) returns (warm: bool)
      ensures warm <==> IsWarm(Contents().store.warmAccounts, address, Contents().warmEpoch)
      ensures currentWarmEpoch > 0 ==>
              (warm <==> address in warmAddresses && warmAddresses[address] >= currentWarmEpoch)
    {
      warm := Read(warmAddresses, address, 0) >= currentWarmEpoch;
    }

    method StorageIsWarm(key: SlotKey) returns (warm: bool)
      ensures warm <==> IsWarm(Contents().store.warmSlots, key, Contents().warmEpoch)
      ensures currentWarmEpoch > 0 ==> (warm <==> key in warmSlots && warmSlots[key] >= currentWarmEpoch)
    {
      warm := Read(warmSlots, key, 0) >= currentWarmEpoch;
    }

    method WarmReset(epoch: nat)
      requires Valid()
      modifies this`currentWarmEpoch
      ensures Valid() && Contents() == ResetWarm(old(Contents()), epoch)
      ensures currentWarmEpoch == epoch + 1
    {
      currentWarmEpoch := epoch + 1;
    }

    function StorageGeneration(address: Address): nat
      reads this
    {
      Read(storageGenerations, address, INITIAL_GENERATION)
    }

    method StorageTxUpdate(key: SlotKey, value: StorageValue)
      requires Valid()
      modifies this`storageTx, this`journal
      ensures Valid() && Contents() == UpdateStorage(old(Contents()), key, value)
      ensures Saved(Contents()) == old(Saved(Contents()))
      ensures storageTx.keys == old(storageTx).keys + (if key in old(storageTx).rows then [] else [key])
      ensures var rows := old(storageTx).rows;
              storageTx.rows == rows[key := StorageRow(
                StorageValue(value.curr, if key in rows then rows[key].value.orig else value.orig),
                if key.addr in storageGenerations then storageGenerations[key.addr] else 1)]
    {
      UpdateStorageSaved(Contents(), key, value);
      var generation := StorageGeneration(key.addr);
      if key !in storageTx.rows {
        InsertKeepsOrder(storageTx, key, StorageRow(value, generation));
        journal := journal + [Entry(StorageListed(key.addr))];
        storageTx := storageTx.Insert(key, StorageRow(value, generation));
        return;
      }
      WriteValue(key, value.curr);
      RaiseGeneration(key, generation);
    }

    /** The value of a row that is listed already. */
    method WriteValue(key: SlotKey, curr: Word)
      requires Valid() && key in storageTx.rows
      modifies this`storageTx, this`journal
      ensures Valid() && Contents() == WriteRow(old(Contents()), key, curr)
      ensures var row := old(storageTx).rows[key];
              storageTx == old(storageTx).Put(key, row.(value := row.value.(curr := curr)))
    {
      var row := storageTx.rows[key];
      assert storageTx == storageTx.Put(key, row) by { assert storageTx.rows[key := row] == storageTx.rows; }
      if row.value.curr != curr {
        PutKeepsOrder(storageTx, key, row.(value := row.value.(curr := curr)));
        journal := journal + [Entry(StorageValueChanged(key, row.value.curr))];
        storageTx := storageTx.Put(key, row.(value := row.value.(curr := curr)));
      }
    }

    /** The generation of a row that is listed already. */
    method RaiseGeneration(key: SlotKey, generation: nat)
      requires Valid() && key in storageTx.rows && generation == StorageGeneration(key.addr)
      modifies this`storageTx, this`journal
      ensures Valid() && Contents() == RaiseRow(old(Contents()), key)
      ensures storageTx == old(storageTx).Put(key, old(storageTx).rows[key].(generation := generation))
    {
      var row := storageTx.rows[key];
      assert storageTx == storageTx.Put(key, row) by { assert storageTx.rows[key := row] == storageTx.rows; }
      if row.generation != generation {
        PutKeepsOrder(storageTx, key, row.(generation := generation));
        journal := journal + [Entry(StorageRowGenerationChanged(key, row.generation))];
        storageTx := storageTx.Put(key, row.(generation := generation));
      }
    }

    method StorageTxGet(key: SlotKey) returns (found: StorageTx)
      ensures found == GetStorage(Contents(), key)
      ensures var generation := if key.addr in storageGenerations then storageGenerations[key.addr] else 1;
              found == if key in storageTx.rows && storageTx.rows[key].generation == generation
                       then Hit(storageTx.rows[key].value)
                       else if generation != 1 then Cleared else Miss
    {
      var generation := StorageGeneration(key.addr);
      if key in storageTx.rows && storageTx.rows[key].generation == generation {
        return Hit(storageTx.rows[key].value);
      }
      if generation != INITIAL_GENERATION { return Cleared; }
      return Miss;
    }

    method StorageTxClear(address: Address)
      requires Valid()
      modifies this`storageGenerations, this`storageNextGeneration, this`journal
      ensures Valid() && Contents() == ClearStorage(old(Contents()), address)
      ensures Saved(Contents()) == old(Saved(Contents()))
      ensures storageNextGeneration == old(storageNextGeneration) + 1
      ensures storageGenerations == old(storageGenerations)[address := storageNextGeneration]
    {
      ClearStorageSaved(Contents(), address);
      journal := journal + [Entry(StorageGenerationChanged(address, StorageGeneration(address)))];
      storageNextGeneration := storageNextGeneration + 1;
      storageGenerations := storageGenerations[address := storageNextGeneration];
    }

    /** The loop pops rows until one is of the current generation. */
    method StorageTxPop() returns (popped: Option<(SlotKey, StorageValue)>)
      requires Valid()
      modifies this`storageTx
      ensures Valid() && (popped, storageTx) == PopStorage(old(storageTx), storageGenerations)
    {
      while storageTx.keys != []
        invariant Valid()
        invariant PopStorage(storageTx, storageGenerations) == PopStorage(old(storageTx), storageGenerations)
        decreases |storageTx.keys|
      {
        var n := |storageTx.keys| - 1;
        var key := storageTx.keys[n];
        var row := storageTx.rows[key];
        RemoveKeepsOrder(storageTx, n);
        storageTx := storageTx.RemoveAt(n);
        if row.generation == StorageGeneration(key.addr) { return Some((key, row.value)); }
      }
      popped := None;
    }

    method AcctTxPop() returns (popped: Option<(Address, AccountRow)>)
      requires Valid()
      modifies this`accountTx
      ensures Valid() && (popped, accountTx) == PopAccount(old(accountTx))
      ensures popped.Some? <==> old(accountTx).keys != []
      ensures popped.Some? ==>
              var d := old(accountTx); var a := d.keys[|d.keys| - 1];
              popped.value == (a, d.rows[a]) && accountTx.rows == d.rows - {a}
    {
      if accountTx.keys == [] { return None; }
      var n := |accountTx.keys| - 1;
      var address := accountTx.keys[n];
      RemoveKeepsOrder(accountTx, n);
      popped := Some((address, accountTx.rows[address]));
      accountTx := accountTx.RemoveAt(n);
    }

    method TransientReset()
      requires Valid()
      modifies this`transient
      ensures Valid() && Contents() == ResetTransient(old(Contents()))
      ensures transient == map[]
    {
      transient := map[];
    }

    method AcctTxReset()
      requires Valid()
      modifies this`accountTx
      ensures Valid() && Contents() == ResetAccounts(old(Contents()))
      ensures accountTx == Dict([], map[])
    {
      accountTx := Dict([], map[]);
    }

    method StorageTxReset()
      requires Valid()
      modifies this`storageTx, this`storageGenerations, this`storageNextGeneration
      ensures Valid() && Contents() == ResetStorage(old(Contents()))
      ensures storageTx == Dict([], map[]) && storageGenerations == map[] && storageNextGeneration == 1
    {
      storageTx, storageGenerations := Dict([], map[]), map[];
      storageNextGeneration := INITIAL_GENERATION;
    }

    method AcctBlockCache(address: Address, account: Account)
      requires Valid()
      modifies this`accountBlock
      ensures Valid() && Contents() == CacheAccount(old(Contents()), address, account)
      ensures var block := old(accountBlock);
              accountBlock == if address in block then block else block[address := account]
    {
      if address in accountBlock { return; }
      accountBlock := accountBlock[address := account];
    }

    method AccountTxRequired(address: Address) returns (ok: bool)
      requires Valid()
      modifies this`accountTx, this`journal
      ensures Valid() && ok == RequiredAccount(old(Contents()), address).Some?
      ensures Contents() == if ok then RequiredAccount(old(Contents()), address).value else old(Contents())
      ensures ok ==> address in accountTx.rows
      ensures ok <==> address in old(accountTx).rows || address in accountBlock
      ensures ok && address !in old(accountTx).rows ==>
              accountTx.rows == old(accountTx).rows[address := AccountRow(accountBlock[address], accountBlock[address])]
      ensures address in old(accountTx).rows ==> accountTx == old(accountTx)
    {
      if address in accountTx.rows { return true; }
      if address !in accountBlock { return false; }
      var row := AccountRow(accountBlock[address], accountBlock[address]);
      InsertKeepsOrder(accountTx, address, row);
      journal := journal + [Entry(AccountListed)];
      accountTx := accountTx.Insert(address, row);
      ok := true;
    }

    method AcctTxUpdate(address: Address, value: Account) returns (ok: bool)
      requires Valid()
      modifies this`accountTx, this`journal
      ensures Valid() && ok == UpdateAccount(old(Contents()), address, value).Some?
      ensures Contents() == if ok then UpdateAccount(old(Contents()), address, value).value else old(Contents())
      ensures Saved(Contents()) == old(Saved(Contents()))
      ensures ok <==> address in old(accountTx).rows || address in accountBlock
      ensures ok ==>
              var rows := old(accountTx).rows;
              accountTx.rows == rows[
                address := AccountRow(value, if address in rows then rows[address].original else accountBlock[address])]
    {
      UpdateAccountSaved(Contents(), address, value);
      if UpdateAccount(Contents(), address, value).Some? { UpdateAccountWrites(Contents(), address, value); }
      if address !in accountTx.rows {
        if address !in accountBlock { return false; }
        var row := AccountRow(value, accountBlock[address]);
        InsertKeepsOrder(accountTx, address, row);
        journal := journal + [Entry(AccountListed)];
        accountTx := accountTx.Insert(address, row);
        return true;
      }
      WriteListed(address, value);
      ok := true;
    }

    /** acct_tx_update on a listed account: notes the fields that change, then replaces the value. */
    method WriteListed(address: Address, value: Account)
      requires Valid() && address in accountTx.rows
      modifies this`journal, this`accountTx
      ensures Valid() && Some(Contents()) == UpdateAccount(old(Contents()), address, value)
    {
      var row := accountTx.rows[address];
      NoteNumbers(address, row.current, value);
      NoteFlags(address, row.current, value, old(journal));
      NotedJournalIs(old(Contents()), FieldNotes(address, row.current, value));
      PutKeepsOrder(accountTx, address, row.(current := value));
      accountTx := accountTx.Put(address, row.(current := value));
    }

    /** The comparisons of acct_tx_update: balance, nonce, code hash. */
    method NoteNumbers(address: Address, prior: Account, value: Account)
      modifies this`journal
      ensures journal == NotedJournal(old(journal), FieldNotes(address, prior, value)[..3])
    {
      ghost var j, notes := journal, FieldNotes(address, prior, value);
      assert notes[..0] == [];
      NotedNext(j, notes, 0);
      if prior.balance != value.balance { journal := journal + [Entry(BalanceChanged(address, prior.balance))]; }
      assert journal == NotedJournal(j, notes[..1]);
      NotedNext(j, notes, 1);
      if prior.nonce != value.nonce { journal := journal + [Entry(NonceChanged(address, prior.nonce))]; }
      assert journal == NotedJournal(j, notes[..2]);
      NotedNext(j, notes, 2);
      if prior.codeHash != value.codeHash { journal := journal + [Entry(CodeHashChanged(address, prior.codeHash))]; }
    }

    /** The comparisons of acct_tx_update: the flags. */
    method NoteFlags(address: Address, prior: Account, value: Account, ghost j: seq<Item<Change>>)
      requires journal == NotedJournal(j, FieldNotes(address, prior, value)[..3])
      modifies this`journal
      ensures journal == NotedJournal(j, FieldNotes(address, prior, value))
    {
      ghost var notes := FieldNotes(address, prior, value);
      NotedNext(j, notes, 3);
      if prior.present != value.present { journal := journal + [Entry(ExistsChanged(address, prior.present))]; }
      assert journal == NotedJournal(j, notes[..4]);
      NotedNext(j, notes, 4);
      if prior.created != value.created { journal := journal + [Entry(CreatedChanged(address, prior.created))]; }
      assert journal == NotedJournal(j, notes[..5]);
      NotedNext(j, notes, 5);
      assert notes[..FIELDS] == notes;
      if prior.selfdestructed != value.selfdestructed {
        journal := journal + [Entry(SelfdestructedChanged(address, prior.selfdestructed))];
      }
    }

    method AcctTxSetField(address: Address, field: Field, value: Word) returns (ok: bool)
      requires Valid()
      modifies this`accountTx, this`journal
      ensures Valid() && ok == SetField(old(Contents()), address, field, value).Some?
      ensures Contents() == if ok then SetField(old(Contents()), address, field, value).value else old(Contents())
      ensures Saved(Contents()) == old(Saved(Contents()))
      ensures ok <==> address in old(accountTx).rows || address in accountBlock
      ensures ok ==> var row := if address in old(accountTx).rows then old(accountTx).rows[address]
                                else AccountRow(accountBlock[address], accountBlock[address]);
                     var current := match field case Balance => row.current.(balance := value)
                                                case Nonce => row.current.(nonce := value)
                                                case CodeHash => row.current.(codeHash := value);
                     accountTx.rows == old(accountTx).rows[address := row.(current := current)]
    {
      SetFieldSaved(Contents(), address, field, value);
      if SetField(Contents(), address, field, value).Some? { SetFieldWrites(Contents(), address, field, value); }
      ok := AccountTxRequired(address);
      if !ok { return; }
      var prior := FieldOf(accountTx.rows[address].current, field);
      if prior != value { WriteField(address, field, prior, value); }
    }

    method WriteField(address: Address, field: Field, prior: Word, value: Word)
      requires Valid() && address in accountTx.rows
      modifies this`journal, this`accountTx
      ensures Valid()
      ensures var x := old(accountTx).rows[address].current;
              Contents() == WithCurrent(Note(old(Contents()), true, FieldChange(address, field, prior)), address,
                                        WithField(x, FieldChange(address, field, value)))
    {
      var row := accountTx.rows[address];
      var current := WithField(row.current, FieldChange(address, field, value));
      PutKeepsOrder(accountTx, address, row.(current := current));
      journal := journal + [Entry(FieldChange(address, field, prior))];
      accountTx := accountTx.Put(address, row.(current := current));
    }

    method LogBegin(address: Address)
      requires Valid()
      modifies this`logs, this`currentLog, this`journal
      ensures Valid() && Contents() == BeginLog(old(Contents()), address)
      ensures Saved(Contents()) == old(Saved(Contents()))
      ensures logs == old(logs) + [LogRecord(address, [], |logData|, 0)] && currentLog == Some(|old(logs)|)
    {
      BeginLogSaved(Contents(), address);
      journal := journal + [Entry(LogAppended)];
      logs := logs + [LogRecord(address, [], |logData|, 0)];
      currentLog := Some(|logs| - 1);
    }

    method LogAddTopic(topic: Word) returns (ok: bool)
      requires Valid()
      modifies this`logs
      ensures Valid() && ok == AddTopic(old(Contents()), topic).Some?
      ensures Contents() == if ok then AddTopic(old(Contents()), topic).value else old(Contents())
      ensures ok ==> old(currentLog).Some? && old(currentLog).value < |old(logs)|
      ensures ok ==> var i := old(currentLog).value; var was := old(logs)[i];
                     logs == old(logs)[i := was.(topics := was.topics + [topic])]
    {
      if currentLog.None? || |logs| <= currentLog.value { return false; }
      var record := logs[currentLog.value];
      logs := logs[currentLog.value := record.(topics := record.topics + [topic])];
      ok := true;
    }

    method AppendLogData(payload: seq<bv8>) returns (ok: bool)
      requires Valid()
      modifies this`logs, this`logData
      ensures Valid() && ok == AddData(old(Contents()), payload).Some?
      ensures Contents() == if ok then AddData(old(Contents()), payload).value else old(Contents())
      ensures ok ==> old(currentLog).Some? && old(currentLog).value < |old(logs)|
      ensures ok ==> var i := old(currentLog).value; var was := old(logs)[i];
                     logs == old(logs)[i := was.(length := was.length + |payload|)] && logData == old(logData) + payload
    {
      if currentLog.None? || |logs| <= currentLog.value { return false; }
      var record := logs[currentLog.value];
      logData := logData + payload;
      logs := logs[currentLog.value := record.(length := record.length + |payload|)];
      ok := true;
    }

    method LogsTxReset()
      requires Valid()
      modifies this`currentLog, this`transactionLogStart
      ensures Valid() && Contents() == ResetLogs(old(Contents()))
      ensures transactionLogStart == |logs| && currentLog == None
    {
      transactionLogStart := |logs|;
      currentLog := None;
    }

    method StateJournalReset()
      requires Valid()
      modifies this`journal
      ensures Valid() && Contents() == ResetJournal(old(Contents()))
      ensures journal == []
    {
      journal := [];
    }

    method StateJournalCheckpoint()
      requires Valid()
      modifies this`journal
      ensures Valid() && Contents() == CheckpointFrame(old(Contents()))
      ensures old(Saved(Contents())).Some? ==>
              Saved(Contents()) == Some(old(Saved(Contents())).value + [Observed(Rows())])
      ensures journal == old(journal) + [Checkpoint]
    {
      if Saved(Contents()).Some? { CheckpointFrameSaved(Contents()); }
      journal := journal + [Checkpoint];
    }

    method StateJournalCommit() returns (ok: bool)
      requires Valid()
      modifies this`journal
      ensures Valid() && ok == CommitFrame(old(Contents())).Some?
      ensures Contents() == if ok then CommitFrame(old(Contents())).value else old(Contents())
      ensures old(Saved(Contents())).Some? ==>
              var saved := old(Saved(Contents())).value;
              ok == (saved != []) && (ok ==> Saved(Contents()) == Some(saved[..|saved| - 1]))
      ensures journal == if ok then old(journal) + [Commit] else old(journal)
    {
      if Saved(Contents()).Some? { CommitFrameSaved(Contents()); }
      var open := OpenCheckpointIndex(journal);
      if open.None? { return false; }
      journal := journal + [Commit];
      ok := true;
    }

    /** Replays the inverses from the end down to the marker, then drops the segment. On a missing row it stops
        there, as the raise does. */
    method StateJournalRevert() returns (ok: bool)
      requires Valid()
      modifies this
      ensures Valid() && ok == RevertFrame(old(Contents())).Some?
      ensures ok ==> Contents() == RevertFrame(old(Contents())).value
      ensures ok ==> var open := OpenIndex(old(journal), 0);
                     && open.Some? && journal == old(journal)[..open.value]
                     && currentLog == if Entry(LogAppended) in old(journal)[open.value + 1..] then None
                                      else old(currentLog)
      ensures !old(FrameOpen(Contents())) ==> Contents() == old(Contents())
      ensures old(FrameOpen(Contents())) && !ok ==>
              Stopped(old(Contents()), Contents(), old(journal)[OpenIndex(old(journal), 0).value + 1..])
      ensures old(Saved(Contents())).Some? ==>
              var saved := old(Saved(Contents())).value;
              && ok == (saved != [])
              && (ok ==> Observed(Rows()) == saved[|saved| - 1] && Saved(Contents()) == Some(saved[..|saved| - 1]))
    {
      if Saved(Contents()).Some? { RevertFrameSaved(Contents()); }
      var open := OpenCheckpointIndex(journal);
      if open.None? { return false; }
      ok := Replay(open.value);
      if ok { journal := journal[..open.value]; }
    }

    /** The loop of the revert. */
    method Replay(marker: nat) returns (ok: bool)
      requires Valid() && marker < |journal|
      modifies this
      ensures Valid() && ok == Rewind(Restore, old(Rows()), old(journal)[marker + 1..]).Some?
      ensures ok ==> Contents() == old(Contents()).(
                store := Rewind(Restore, old(Rows()), old(journal)[marker + 1..]).value,
                currentLog := if Entry(LogAppended) in old(journal)[marker + 1..] then None else old(currentLog))
      ensures !ok ==> Stopped(old(Contents()), Contents(), old(journal)[marker + 1..])
    {
      ghost var h, segment := Contents(), journal[marker + 1..];
      assert segment[..|segment|] == segment && segment[|segment|..] == [];
      for index := |journal| - 1 downto marker
        invariant Valid() && Replaying(h, Contents(), segment, index - marker)
      {
        assert journal[index + 1] == segment[index - marker];
        ok := ReplayItem(journal[index + 1], h, segment, index + 1 - marker);
        if !ok { return; }
      }
      ReplayingEnd(h, Contents(), segment);
      ok := true;
    }

    /** One round of that loop. */
    method ReplayItem(item: Item<Change>, ghost h: Host, ghost segment: seq<Item<Change>>, ghost left: nat)
        returns (ok: bool)
      requires Valid() && 0 < left <= |segment| && segment[left - 1] == item && Replaying(h, Contents(), segment, left)
      modifies this
      ensures Valid()
      ensures ok ==> Replaying(h, Contents(), segment, left - 1)
      ensures !ok ==> Rewind(Restore, h.store, segment).None? && StoppedAt(h, Contents(), segment, left)
    {
      ghost var now := Contents();
      ok := true;
      if item.Entry? {
        ok := JournalRestore(item.change);
        ReplayingEntry(h, now, Contents(), segment, left, item.change);
      } else {
        ReplayingMarker(h, now, segment, left);
      }
    }

    /** Undoes one entry. */
    method JournalRestore(entry: Change) returns (ok: bool)
      requires Valid()
      modifies this
      ensures Valid() && ok == Restore(old(Rows()), entry).Some?
      ensures Rows() == if ok then Restore(old(Rows()), entry).value else old(Rows())
      ensures Contents() == old(Contents()).(store := Rows(), currentLog := currentLog)
      ensures currentLog == if ok && entry.LogAppended? then None else old(currentLog)
    {
      ok := true;
      if entry.TransientChanged? || entry.WarmAccountChanged? || entry.WarmStorageChanged? {
        RestoreStamp(entry);
      } else if entry.LogAppended? {
        ok := RestoreLog();
      } else {
        ok := RestoreRow(entry);
      }
    }

    /** The entries of the account and storage rows. */
    method RestoreRow(entry: Change) returns (ok: bool)
      requires !entry.TransientChanged? && !entry.WarmAccountChanged? && !entry.WarmStorageChanged?
      requires Valid() && !entry.LogAppended?
      modifies this`accountTx, this`storageGenerations, this`storageTx
      ensures Valid() && ok == Restore(old(Rows()), entry).Some?
      ensures Rows() == if ok then Restore(old(Rows()), entry).value else old(Rows())
    {
      if entry.AccountListed? || entry.StorageGenerationChanged? {
        ok := RestoreAccount(entry);
      } else if entry.StorageListed? || entry.StorageValueChanged? || entry.StorageRowGenerationChanged? {
        ok := RestoreStorage(entry);
      } else {
        ok := RestoreField(entry, entry.address);
      }
    }

    /** The transient slots and the warm stamps. */
    method RestoreStamp(entry: Change)
      requires entry.TransientChanged? || entry.WarmAccountChanged? || entry.WarmStorageChanged?
      requires Valid()
      modifies this`transient, this`warmAddresses, this`warmSlots
      ensures Valid() && Restore(old(Rows()), entry) == Some(Rows())
    {
      match entry
      case TransientChanged(key, prior) => transient := transient[key := prior];
      case WarmAccountChanged(address, prior) => warmAddresses := warmAddresses[address := prior];
      case WarmStorageChanged(key, prior) => warmSlots := warmSlots[key := prior];
    }

    /** The last record and its data. */
    method RestoreLog() returns (ok: bool)
      requires Valid()
      modifies this`logs, this`logData, this`currentLog
      ensures Valid() && ok == Restore(old(Rows()), LogAppended).Some?
      ensures if ok then Rows() == Restore(old(Rows()), LogAppended).value && currentLog == None
              else Contents() == old(Contents())
    {
      if logs == [] { return false; }
      var record := logs[|logs| - 1];
      logs := logs[..|logs| - 1];
      logData := CutAt(logData, record.offset);
      currentLog := None;
      ok := true;
    }

    /** The entries of the storage rows. */
    method RestoreStorage(entry: Change) returns (ok: bool)
      requires entry.StorageListed? || entry.StorageValueChanged? || entry.StorageRowGenerationChanged?
      requires Valid()
      modifies this`storageTx
      ensures Valid() && ok == Restore(old(Rows()), entry).Some?
      ensures Rows() == if ok then Restore(old(Rows()), entry).value else old(Rows())
    {
      match entry
      case StorageListed(a) => ok := RestoreListing(a);
      case StorageValueChanged(key, prior) => ok := RestoreValue(key, prior);
      case StorageRowGenerationChanged(key, prior) => ok := RestoreGeneration(key, prior);
    }

    method RestoreListing(a: Address) returns (ok: bool)
      requires Valid()
      modifies this`storageTx
      ensures Valid() && ok == Restore(old(Rows()), StorageListed(a)).Some?
      ensures Rows() == if ok then Restore(old(Rows()), StorageListed(a)).value else old(Rows())
    {
      var listed := FindLastListed(a);
      if listed.None? { return false; }
      RemoveKeepsOrder(storageTx, listed.value);
      storageTx := storageTx.RemoveAt(listed.value);
      ok := true;
    }

    method RestoreValue(key: SlotKey, prior: Word) returns (ok: bool)
      requires Valid()
      modifies this`storageTx
      ensures Valid() && ok == Restore(old(Rows()), StorageValueChanged(key, prior)).Some?
      ensures Rows() == if ok then Restore(old(Rows()), StorageValueChanged(key, prior)).value else old(Rows())
    {
      if key !in storageTx.rows { return false; }
      var row := storageTx.rows[key];
      PutKeepsOrder(storageTx, key, row.(value := row.value.(curr := prior)));
      storageTx := storageTx.Put(key, row.(value := row.value.(curr := prior)));
      ok := true;
    }

    method RestoreGeneration(key: SlotKey, prior: nat) returns (ok: bool)
      requires Valid()
      modifies this`storageTx
      ensures Valid() && ok == Restore(old(Rows()), StorageRowGenerationChanged(key, prior)).Some?
      ensures Rows() == if ok then Restore(old(Rows()), StorageRowGenerationChanged(key, prior)).value else old(Rows())
    {
      if key !in storageTx.rows { return false; }
      PutKeepsOrder(storageTx, key, storageTx.rows[key].(generation := prior));
      storageTx := storageTx.Put(key, storageTx.rows[key].(generation := prior));
      ok := true;
    }

    /** The account listing and the storage generation of an account. */
    method RestoreAccount(entry: Change) returns (ok: bool)
      requires entry.AccountListed? || entry.StorageGenerationChanged?
      requires Valid()
      modifies this`accountTx, this`storageGenerations
      ensures Valid() && ok == Restore(old(Rows()), entry).Some?
      ensures Rows() == if ok then Restore(old(Rows()), entry).value else old(Rows())
    {
      if Restore(Rows(), entry).Some? { RestoreKeepsOrder(Rows(), entry); }
      ok := true;
      match entry
      case AccountListed =>
        if accountTx.keys == [] { return false; }
        accountTx := accountTx.RemoveAt(|accountTx.keys| - 1);
      case StorageGenerationChanged(a, prior) =>
        storageGenerations := storageGenerations[a := prior];
        if a in accountTx.rows {
          var row := accountTx.rows[a];
          var cleared := row.original.storageCleared || prior != INITIAL_GENERATION;
          accountTx := accountTx.Put(a, row.(current := row.current.(storageCleared := cleared)));
        }
    }

    /** The field entries of an account: balance, nonce, code hash and the flags. */
    method RestoreField(entry: Change, address: Address) returns (ok: bool)
      requires Valid() && IsFieldOf(entry, address)
      modifies this`accountTx
      ensures Valid() && ok == Restore(old(Rows()), entry).Some?
      ensures Rows() == if ok then Restore(old(Rows()), entry).value else old(Rows())
    {
      if address !in accountTx.rows { return false; }
      RestoreKeepsOrder(Rows(), entry);
      FieldRestored(Rows(), entry, address);
      var row := accountTx.rows[address];
      accountTx := accountTx.Put(address, row.(current := WithField(row.current, entry)));
      ok := true;
    }

    /** The reversed search for the last row of an address. */
    method FindLastListed(address: Address) returns (listed: Option<nat>)
      ensures listed == LastListed(storageTx.keys, address)
    {
      var keys := storageTx.keys;
      assert keys[..|keys|] == keys;
      for i := |keys| downto 0
        invariant LastListed(keys[..i], address) == LastListed(keys, address)
      {
        assert keys[..i + 1][..i] == keys[..i];
        if keys[i].addr == address { return Some(i); }
      }
      listed := None;
    }
  }
}
