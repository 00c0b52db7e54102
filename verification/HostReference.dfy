/** The reference machine: no journal, no generations and no epochs, but a stack of whole-state snapshots. */
module HostReference {
  import opened Collections
  import opened HostModel
  import opened HostOps

  /** What execution can see of the host. Storage is a plain map that a clear really empties; `listed` remembers every
      slot written since the last reset, in order, with the original value it came with. A warm set is a set. */
  datatype World = World(
    transient: map<SlotKey, Word>,
    warmAccounts: set<Address>,
    warmSlots: set<SlotKey>,
    accounts: Dict<Address, AccountRow>,
    storage: map<SlotKey, StorageValue>,
    listed: Dict<SlotKey, Word>,
    wiped: set<Address>,
    logs: seq<LogRecord>,
    logData: seq<bv8>)

  datatype Reference = Reference(
    current: World,
    saved: seq<World>,
    logOpen: bool,
    logStart: nat,
    block: map<Address, Account>)

  const EMPTY_WORLD: World := World(map[], {}, {}, Dict([], map[]), map[], Dict([], map[]), {}, [], [])

  function FreshReference(block: map<Address, Account>): Reference {
    Reference(EMPTY_WORLD, [], false, 0, block)
  }

  datatype Op =
    | OpTransient(key: SlotKey, word: Word)
    | OpWarmAccount(address: Address)
    | OpWarmSlot(key: SlotKey)
    | OpPutStorage(key: SlotKey, value: StorageValue)
    | OpClearStorage(address: Address)
    | OpPopStorage
    | OpPopAccount
    | OpPutAccount(address: Address, account: Account)
    | OpSetField(address: Address, field: Field, word: Word)
    | OpBeginLog(address: Address)
    | OpTopic(word: Word)
    | OpData(payload: seq<bv8>)
    | OpCheckpoint
    | OpCommit
    | OpRevert
    | OpCacheAccount(address: Address, account: Account)
    | OpResetJournal
    | OpResetWarm(epoch: nat)
    | OpResetTransient
    | OpResetAccounts
    | OpResetStorage
    | OpResetLogs

  function Shown(x: Account): Account {
    x.(storageCleared := false)
  }

  function WithTransient(w: World, key: SlotKey, v: Word): World {
    w.(transient := if v == 0 then w.transient - {key} else w.transient[key := v])
  }

  function WithWarmAccount(w: World, a: Address): World {
    w.(warmAccounts := w.warmAccounts + {a})
  }

  function WithWarmSlot(w: World, key: SlotKey): World {
    w.(warmSlots := w.warmSlots + {key})
  }

  /** A slot keeps the original value it was first written with, through clears. */
  function WithStorage(w: World, key: SlotKey, v: StorageValue): World {
    if key in w.listed.rows then w.(storage := w.storage[key := StorageValue(v.curr, w.listed.rows[key])])
    else w.(storage := w.storage[key := v], listed := w.listed.Insert(key, v.orig))
  }

  function WithoutStorage(w: World, a: Address): World {
    w.(storage := map key | key in w.storage && key.addr != a :: w.storage[key], wiped := w.wiped + {a})
  }

  /** The slot listed last among those that the plain map has; it goes, and so does what was listed behind it. */
  function PopSlot(w: World): (Option<(SlotKey, StorageValue)>, World)
    decreases |w.listed.keys|
  {
    if w.listed.keys == [] then (None, w) else
    var n := |w.listed.keys| - 1;
    var key := w.listed.keys[n];
    var rest := w.(storage := w.storage - {key}, listed := w.listed.RemoveAt(n));
    if key in w.storage then (Some((key, w.storage[key])), rest) else PopSlot(rest)
  }

  function WithAccount(w: World, block: map<Address, Account>, a: Address, value: Account): Option<World> {
    if a in w.accounts.rows then
      Some(w.(accounts := w.accounts.Put(a, w.accounts.rows[a].(current := Shown(value)))))
    else if a in block then
      Some(w.(accounts := w.accounts.Insert(a, AccountRow(Shown(value), block[a]))))
    else None
  }

  function Assigned(x: Account, f: Field, v: Word): Account {
    match f
    case Balance => x.(balance := v)
    case Nonce => x.(nonce := v)
    case CodeHash => x.(codeHash := v)
  }

  function WithAccountField(w: World, block: map<Address, Account>, a: Address, f: Field, v: Word): Option<World> {
    if a in w.accounts.rows then WithAccount(w, block, a, Assigned(w.accounts.rows[a].current, f, v))
    else if a in block then WithAccount(w, block, a, Assigned(block[a], f, v))
    else None
  }

  /** The account listed last goes. */
  function LastAccount(w: World): Option<(Address, AccountRow)> {
    if w.accounts.keys == [] || w.accounts.keys[|w.accounts.keys| - 1] !in w.accounts.rows then None else
    var a := w.accounts.keys[|w.accounts.keys| - 1];
    Some((a, w.accounts.rows[a]))
  }

  function WithoutLastAccount(w: World): World {
    if w.accounts.keys == [] then w else
    var n := |w.accounts.keys| - 1;
    w.(accounts := Dict(w.accounts.keys[..n], w.accounts.rows - {w.accounts.keys[n]}))
  }

  function WithLog(w: World, a: Address): World {
    w.(logs := w.logs + [LogRecord(a, [], |w.logData|, 0)])
  }

  /** The last record, extended. */
  function WithTopic(w: World, topic: Word): World
    requires w.logs != []
  {
    var last := w.logs[|w.logs| - 1];
    w.(logs := w.logs[..|w.logs| - 1] + [last.(topics := last.topics + [topic])])
  }

  function WithData(w: World, payload: seq<bv8>): World
    requires w.logs != []
  {
    var last := w.logs[|w.logs| - 1];
    w.(logs := w.logs[..|w.logs| - 1] + [last.(length := last.length + |payload|)], logData := w.logData + payload)
  }

  function Innermost(r: Reference): World
    requires r.saved != []
  {
    r.saved[|r.saved| - 1]
  }

  /** Reverting restores the innermost snapshot; a log begun since then is no longer open. */
  function Reverted(r: Reference): Reference
    requires r.saved != []
  {
    r.(current := Innermost(r), saved := r.saved[..|r.saved| - 1],
       logOpen := r.logOpen && |r.current.logs| <= |Innermost(r).logs|)
  }

  function InWorld(r: Reference, w: Option<World>): Option<Reference> {
    if w.None? then None else Some(r.(current := w.value))
  }

  /** One step of the reference machine; None is a RuntimeError. */
  function ReferenceStep(r: Reference, op: Op): Option<Reference> {
    var w := r.current;
    match op
    case OpTransient(key, v) => Some(r.(current := WithTransient(w, key, v)))
    case OpWarmAccount(a) => Some(r.(current := WithWarmAccount(w, a)))
    case OpWarmSlot(key) => Some(r.(current := WithWarmSlot(w, key)))
    case OpPutStorage(key, v) => Some(r.(current := WithStorage(w, key, v)))
    case OpClearStorage(a) => Some(r.(current := WithoutStorage(w, a)))
    case OpPopStorage => Some(r.(current := PopSlot(w).1))
    case OpPopAccount => Some(r.(current := WithoutLastAccount(w)))
    case OpPutAccount(a, x) => InWorld(r, WithAccount(w, r.block, a, x))
    case OpSetField(a, f, v) => InWorld(r, WithAccountField(w, r.block, a, f, v))
    case OpBeginLog(a) => Some(r.(current := WithLog(w, a), logOpen := true))
    case OpTopic(v) => if r.logOpen && w.logs != [] then Some(r.(current := WithTopic(w, v))) else None
    case OpData(payload) => if r.logOpen && w.logs != [] then Some(r.(current := WithData(w, payload))) else None
    case OpCheckpoint => Some(r.(saved := r.saved + [w]))
    case OpCommit => if r.saved == [] then None else Some(r.(saved := r.saved[..|r.saved| - 1]))
    case OpRevert => if r.saved == [] then None else Some(Reverted(r))
    case OpCacheAccount(a, x) => Some(if a in r.block then r else r.(block := r.block[a := x]))
    case OpResetJournal => Some(r.(saved := []))
    case OpResetWarm(_) => Some(r.(current := w.(warmAccounts := {}, warmSlots := {})))
    case OpResetTransient => Some(r.(current := w.(transient := map[])))
    case OpResetAccounts => Some(r.(current := w.(accounts := Dict([], map[]))))
    case OpResetStorage => Some(r.(current := w.(storage := map[], listed := Dict([], map[]), wiped := {})))
    case OpResetLogs => Some(r.(logOpen := false, logStart := |w.logs|))
  }

  /** The same step of the host. */
  function HostStep(h: Host, op: Op): Option<Host> {
    match op
    case OpTransient(key, v) => Some(StoreTransient(h, key, v))
    case OpWarmAccount(a) => Some(MarkAccount(h, a))
    case OpWarmSlot(key) => Some(MarkSlot(h, key))
    case OpPutStorage(key, v) => Some(UpdateStorage(h, key, v))
    case OpClearStorage(a) => Some(ClearStorage(h, a))
    case OpPopStorage => Some(TakeSlot(h))
    case OpPopAccount => Some(TakeAccount(h))
    case OpPutAccount(a, x) => UpdateAccount(h, a, x)
    case OpSetField(a, f, v) => SetField(h, a, f, v)
    case OpBeginLog(a) => Some(BeginLog(h, a))
    case OpTopic(v) => AddTopic(h, v)
    case OpData(payload) => AddData(h, payload)
    case OpCheckpoint => Some(CheckpointFrame(h))
    case OpCommit => CommitFrame(h)
    case OpRevert => RevertFrame(h)
    case OpCacheAccount(a, x) => Some(CacheAccount(h, a, x))
    case OpResetJournal => Some(ResetJournal(h))
    case OpResetWarm(epoch) => Some(ResetWarm(h, epoch))
    case OpResetTransient => Some(ResetTransient(h))
    case OpResetAccounts => Some(ResetAccounts(h))
    case OpResetStorage => Some(ResetStorage(h))
    case OpResetLogs => Some(ResetLogs(h))
  }

  function RunHost(h: Host, ops: seq<Op>): Option<Host>
    decreases |ops|
  {
    if ops == [] then Some(h) else
    var next := HostStep(h, ops[0]);
    if next.None? then None else RunHost(next.value, ops[1..])
  }

  function RunReference(r: Reference, ops: seq<Op>): Option<Reference>
    decreases |ops|
  {
    if ops == [] then Some(r) else
    var next := ReferenceStep(r, ops[0]);
    if next.None? then None else RunReference(next.value, ops[1..])
  }
}
