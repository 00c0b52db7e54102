/** The C warm sets: flat vectors with swap-with-last removal, under the same journal. */
module WarmVectors {
  import opened Collections
  import opened Journal
  import opened HostModel
  import opened HostOps
  import opened HostReference
  import opened HostRefinement

  /** JT_WARMA and JT_WARMS; every other tag leaves the vectors alone. */
  datatype WarmChange = WarmAddress(address: Address) | WarmSlot(key: SlotKey) | Other

  datatype Vectors = Vectors(addresses: seq<Address>, slots: seq<SlotKey>)

  datatype Kernel = Kernel(vectors: Vectors, journal: seq<Item<WarmChange>>)

  /** The index of the first occurrence, or the length. */
  function Find<T(==)>(v: seq<T>, x: T): (i: nat)
    ensures i <= |v| && (i < |v| ==> v[i] == x) && (i < |v| <==> x in v)
  {
    if v == [] then 0
    else if v[0] == x then 0
    else
      assert v == [v[0]] + v[1..];
      Find(v[1..], x) + 1
  }

  /** v[i] = v[--n] */
  function SwapOut<T>(v: seq<T>, i: nat): seq<T>
    requires i < |v|
  {
    v[i := v[|v| - 1]][..|v| - 1]
  }

  function UndoVectors(s: Vectors, e: WarmChange): Option<Vectors> {
    match e
    case WarmAddress(a) =>
      var i := Find(s.addresses, a);
      Some(if i < |s.addresses| then s.(addresses := SwapOut(s.addresses, i)) else s)
    case WarmSlot(key) =>
      var i := Find(s.slots, key);
      if i < |s.slots| then Some(s.(slots := SwapOut(s.slots, i))) else None
    case Other => Some(s)
  }

  /** Undo that only ever removes the last element. */
  function UndoLast(s: Vectors, e: WarmChange): Option<Vectors> {
    match e
    case WarmAddress(a) =>
      if s.addresses != [] && s.addresses[|s.addresses| - 1] == a
      then Some(s.(addresses := s.addresses[..|s.addresses| - 1])) else None
    case WarmSlot(key) =>
      if s.slots != [] && s.slots[|s.slots| - 1] == key
      then Some(s.(slots := s.slots[..|s.slots| - 1])) else None
    case Other => Some(s)
  }

  ghost predicate AllDistinct(s: Vectors) {
    Distinct(s.addresses) && Distinct(s.slots)
  }

  lemma FindLast<T>(v: seq<T>)
    requires v != [] && Distinct(v)
    ensures Find(v, v[|v| - 1]) == |v| - 1 && SwapOut(v, |v| - 1) == v[..|v| - 1]
  {
    var i := Find(v, v[|v| - 1]);
    assert v[i] == v[|v| - 1];
  }

  /** Where the last element is the one to go, the swap removal takes it. */
  lemma SwapHitsLast(s: Vectors, e: WarmChange)
    requires AllDistinct(s) && UndoLast(s, e).Some?
    ensures UndoVectors(s, e) == UndoLast(s, e) && AllDistinct(UndoLast(s, e).value)
  {
    match e
    case WarmAddress(_) => FindLast(s.addresses);
    case WarmSlot(_) => FindLast(s.slots);
    case Other =>
  }

  /** So a whole replay by swaps is a replay by truncation. */
  lemma {:induction false} SwapReplay(s: Vectors, items: seq<Item<WarmChange>>)
    requires AllDistinct(s) && Rewind(UndoLast, s, items).Some?
    ensures Rewind(UndoVectors, s, items) == Rewind(UndoLast, s, items)
    ensures AllDistinct(Rewind(UndoLast, s, items).value)
    decreases |items|
  {
    if items != [] {
      var rest := items[..|items| - 1];
      match items[|items| - 1]
      case Entry(e) =>
        SwapHitsLast(s, e);
        SwapReplay(UndoLast(s, e).value, rest);
      case Checkpoint => SwapReplay(s, rest);
      case Commit => SwapReplay(s, rest);
    }
  }

  //////////////////////////////////////////////////////////////////////////////
  // Operations
  //////////////////////////////////////////////////////////////////////////////

  function MarkAddress(c: Kernel, a: Address): Kernel {
    if Find(c.vectors.addresses, a) < |c.vectors.addresses| then c else
    Kernel(c.vectors.(addresses := c.vectors.addresses + [a]), c.journal + [Entry(WarmAddress(a))])
  }

  function MarkStorage(c: Kernel, key: SlotKey): Kernel {
    if Find(c.vectors.slots, key) < |c.vectors.slots| then c else
    Kernel(c.vectors.(slots := c.vectors.slots + [key]), c.journal + [Entry(WarmSlot(key))])
  }

  /** None is an abort. */
  function RevertKernel(c: Kernel): Option<Kernel> {
    var open := OpenIndex(c.journal, 0);
    if open.None? then None else
    var restored := Rewind(UndoVectors, c.vectors, c.journal[open.value + 1..]);
    if restored.None? then None else Some(Kernel(restored.value, c.journal[..open.value]))
  }

  function CommitKernel(c: Kernel): Option<Kernel> {
    if OpenIndex(c.journal, 0).None? then None else Some(c.(journal := c.journal + [Commit]))
  }

  predicate IsWarmOp(op: Op) {
    op.OpWarmAccount? || op.OpWarmSlot? || op.OpTransient? || op.OpCheckpoint? || op.OpCommit? || op.OpRevert?
    || op.OpResetJournal? || op.OpResetWarm?
  }

  /** The C kernel's step; a transient store stands for the mutations that only leave an entry of their own. */
  function KernelStep(c: Kernel, op: Op): Option<Kernel>
    requires IsWarmOp(op)
  {
    match op
    case OpWarmAccount(a) => Some(MarkAddress(c, a))
    case OpWarmSlot(key) => Some(MarkStorage(c, key))
    case OpCheckpoint => Some(c.(journal := c.journal + [Checkpoint]))
    case OpCommit => CommitKernel(c)
    case OpRevert => RevertKernel(c)
    case OpResetJournal => Some(c.(journal := []))
    case OpResetWarm(_) => Some(c.(vectors := Vectors([], [])))
    case OpTransient(_, _) => Some(c.(journal := c.journal + [Entry(Other)]))
  }

  //////////////////////////////////////////////////////////////////////////////
  // Refinement
  //////////////////////////////////////////////////////////////////////////////

  function SetOf<T>(v: seq<T>): set<T> {
    set x | x in v
  }

  ghost predicate SeesWarm(s: Vectors, w: World) {
    AllDistinct(s) && SetOf(s.addresses) == w.warmAccounts && SetOf(s.slots) == w.warmSlots
  }

  ghost predicate AllSeeWarm(saved: seq<Vectors>, worlds: seq<World>) {
    |saved| == |worlds| && forall i :: 0 <= i < |saved| ==> SeesWarm(saved[i], worlds[i])
  }

  function SavedVectors(c: Kernel): Option<seq<Vectors>> {
    Snapshots(UndoLast, c.vectors, c.journal, 0)
  }

  /** The vectors hold the warm sets of the reference machine, now and at every open checkpoint. */
  ghost predicate KernelRefines(c: Kernel, r: Reference) {
    && SavedVectors(c).Some? && AllSeeWarm(SavedVectors(c).value, r.saved)
    && SeesWarm(c.vectors, r.current)
  }

  lemma AppendSet<T>(v: seq<T>, x: T)
    requires Distinct(v)
    ensures Find(v, x) < |v| <==> x in SetOf(v)
    ensures SetOf(v + [x]) == SetOf(v) + {x}
    ensures x !in v ==> Distinct(v + [x])
  {
  }

  lemma MarkAddressRefines(c: Kernel, r: Reference, a: Address)
    requires KernelRefines(c, r)
    ensures KernelRefines(MarkAddress(c, a), r.(current := WithWarmAccount(r.current, a)))
  {
    AppendSet(c.vectors.addresses, a);
    var after := c.vectors.(addresses := c.vectors.addresses + [a]);
    RecordKeeps(UndoLast, c.vectors, after, c.journal, WarmAddress(a));
  }

  lemma MarkStorageRefines(c: Kernel, r: Reference, key: SlotKey)
    requires KernelRefines(c, r)
    ensures KernelRefines(MarkStorage(c, key), r.(current := WithWarmSlot(r.current, key)))
  {
    AppendSet(c.vectors.slots, key);
    var after := c.vectors.(slots := c.vectors.slots + [key]);
    RecordKeeps(UndoLast, c.vectors, after, c.journal, WarmSlot(key));
  }

  lemma RevertKernelRefines(c: Kernel, r: Reference)
    requires KernelRefines(c, r)
    ensures RevertKernel(c).Some? <==> r.saved != []
    ensures r.saved != [] ==> KernelRefines(RevertKernel(c).value, Reverted(r))
  {
    SnapshotsOpen(UndoLast, c.vectors, c.journal, 0);
    if r.saved != [] {
      RevertRestores(UndoLast, c.vectors, c.journal, 0);
      SwapReplay(c.vectors, c.journal[OpenIndex(c.journal, 0).value + 1..]);
    }
  }

  lemma CommitKernelRefines(c: Kernel, r: Reference)
    requires KernelRefines(c, r)
    ensures CommitKernel(c).Some? <==> r.saved != []
    ensures r.saved != [] ==> KernelRefines(CommitKernel(c).value, r.(saved := r.saved[..|r.saved| - 1]))
  {
    SnapshotsOpen(UndoLast, c.vectors, c.journal, 0);
    if r.saved != [] { CommitDrops(UndoLast, c.vectors, c.journal); }
  }

  /** The kernel and the reference machine take the step together or both fail. */
  ghost predicate KernelTogether(c: Kernel, r: Reference, op: Op)
    requires IsWarmOp(op)
  {
    var d, q := KernelStep(c, op), ReferenceStep(r, op);
    (d.Some? <==> q.Some?) && (d.Some? ==> KernelRefines(d.value, q.value))
  }

  lemma KernelMarks(c: Kernel, r: Reference, op: Op)
    requires KernelRefines(c, r) && (op.OpWarmAccount? || op.OpWarmSlot?)
    ensures KernelTogether(c, r, op)
  {
    match op
    case OpWarmAccount(a) => MarkAddressRefines(c, r, a);
    case OpWarmSlot(key) => MarkStorageRefines(c, r, key);
  }

  lemma KernelCheckpoint(c: Kernel, r: Reference)
    requires KernelRefines(c, r)
    ensures KernelTogether(c, r, OpCheckpoint)
  {
    CheckpointSaves(UndoLast, c.vectors, c.journal);
  }

  lemma KernelCommit(c: Kernel, r: Reference)
    requires KernelRefines(c, r)
    ensures KernelTogether(c, r, OpCommit)
  {
    CommitKernelRefines(c, r);
  }

  lemma KernelRevert(c: Kernel, r: Reference)
    requires KernelRefines(c, r)
    ensures KernelTogether(c, r, OpRevert)
  {
    RevertKernelRefines(c, r);
  }

  lemma KernelOther(c: Kernel, r: Reference, key: SlotKey, v: Word)
    requires KernelRefines(c, r)
    ensures KernelTogether(c, r, OpTransient(key, v))
  {
    RecordKeeps(UndoLast, c.vectors, c.vectors, c.journal, Other);
  }

  lemma KernelResets(c: Kernel, r: Reference, op: Op)
    requires KernelRefines(c, r) && (op.OpResetJournal? || (op.OpResetWarm? && r.saved == []))
    ensures KernelTogether(c, r, op)
  {
    if op.OpResetWarm? { SnapshotsOpen(UndoLast, c.vectors, c.journal, 0); }
  }

  lemma KernelStepRefines(c: Kernel, r: Reference, op: Op)
    requires KernelRefines(c, r) && IsWarmOp(op) && (op.OpResetWarm? ==> r.saved == [])
    ensures KernelTogether(c, r, op)
  {
    if op.OpWarmAccount? || op.OpWarmSlot? { KernelMarks(c, r, op); }
    else if op.OpCheckpoint? { KernelCheckpoint(c, r); }
    else if op.OpCommit? { KernelCommit(c, r); }
    else if op.OpRevert? { KernelRevert(c, r); }
    else if op.OpTransient? { KernelOther(c, r, op.key, op.word); }
    else { KernelResets(c, r, op); }
  }

  ghost predicate WarmOps(ops: seq<Op>) {
    forall i :: 0 <= i < |ops| ==> IsWarmOp(ops[i])
  }

  function RunKernel(c: Kernel, ops: seq<Op>): Option<Kernel>
    requires WarmOps(ops)
    decreases |ops|
  {
    if ops == [] then Some(c) else
    var next := KernelStep(c, ops[0]);
    if next.None? then None else RunKernel(next.value, ops[1..])
  }

  /** The epoch stamps and the vectors call the same accounts and slots warm. */
  ghost predicate SameAnswers(h: Host, c: Kernel) {
    && (forall a :: IsWarm(h.store.warmAccounts, a, h.warmEpoch) <==> a in c.vectors.addresses)
    && (forall key :: IsWarm(h.store.warmSlots, key, h.warmEpoch) <==> key in c.vectors.slots)
  }

  /** After every run of marks, frames and resets, the vectors of the C kernel and the epoch stamps of the
      Python host fail together and give the same warm answers. */
  lemma {:induction false} WarmAgree(h: Host, c: Kernel, r: Reference, ops: seq<Op>)
    requires Refines(h, r) && KernelRefines(c, r) && WarmOps(ops) && DisciplinedRun(h, r, ops)
    ensures RunHost(h, ops).Some? <==> RunKernel(c, ops).Some?
    ensures RunHost(h, ops).Some? ==>
            SameAnswers(RunHost(h, ops).value, RunKernel(c, ops).value)
    decreases |ops|
  {
    if ops == [] {
      WarmAnswers(h, c, r);
    } else {
      StepRefines(h, r, ops[0]);
      KernelStepRefines(c, r, ops[0]);
      if HostStep(h, ops[0]).Some? {
        WarmAgree(HostStep(h, ops[0]).value, KernelStep(c, ops[0]).value, ReferenceStep(r, ops[0]).value, ops[1..]);
      }
    }
  }

  const EMPTY_KERNEL: Kernel := Kernel(Vectors([], []), [])

  lemma InitialKernelRefines(block: map<Address, Account>)
    ensures KernelRefines(EMPTY_KERNEL, FreshReference(block))
  {
    assert SetOf<Address>([]) == {} && SetOf<SlotKey>([]) == {};
  }

  /** From the start: the fresh host and the empty vectors agree after every run. */
  lemma WarmAgreeFromStart(block: map<Address, Account>, ops: seq<Op>)
    requires WarmOps(ops) && DisciplinedRun(InitialHost(block), FreshReference(block), ops)
    ensures RunHost(InitialHost(block), ops).Some? <==> RunKernel(EMPTY_KERNEL, ops).Some?
    ensures RunHost(InitialHost(block), ops).Some? ==>
            SameAnswers(RunHost(InitialHost(block), ops).value, RunKernel(EMPTY_KERNEL, ops).value)
  {
    InitialRefines(block);
    InitialKernelRefines(block);
    WarmAgree(InitialHost(block), EMPTY_KERNEL, FreshReference(block), ops);
  }

  lemma WarmAnswers(h: Host, c: Kernel, r: Reference)
    requires Refines(h, r) && KernelRefines(c, r)
    ensures SameAnswers(h, c)
  {
    forall a ensures IsWarm(h.store.warmAccounts, a, h.warmEpoch) <==> a in c.vectors.addresses {
      WarmSeen(h, r, a, SlotKey(a, 0));
    }
    forall key ensures IsWarm(h.store.warmSlots, key, h.warmEpoch) <==> key in c.vectors.slots {
      WarmSeen(h, r, key.addr, key);
    }
  }

  //////////////////////////////////////////////////////////////////////////////
  // The kernel in place
  //////////////////////////////////////////////////////////////////////////////

  /** The linear scan of av_find and sv_find. */
  method FindIn<T(==)>(v: seq<T>, x: T) returns (found: Option<nat>)
    ensures found == if Find(v, x) < |v| then Some(Find(v, x)) else None
  {
    for i := 0 to |v|
      invariant Find(v, x) == i + Find(v[i..], x)
    {
      if v[i] == x { return Some(i); }
      assert v[i..][1..] == v[i + 1..];
    }
    found := None;
  }

  class WarmKernel {
    var addresses: seq<Address>
    var slots: seq<SlotKey>
    var journal: seq<Item<WarmChange>>

    ghost function Contents(): Kernel
      reads this
    {
      Kernel(Vectors(addresses, slots), journal)
    }

    constructor ()
      ensures Contents() == EMPTY_KERNEL
    {
      addresses, slots, journal := [], [], [];
    }

    method AccountMarkWarm(address: Address)
      modifies this
      ensures Contents() == MarkAddress(old(Contents()), address)
      ensures addresses == old(addresses) + (if address in old(addresses) then [] else [address])
      ensures slots == old(slots)
    {
      var found := FindIn(addresses, address);
      if found.Some? { return; }
      journal := journal + [Entry(WarmAddress(address))];
      addresses := addresses + [address];
    }

    method StorageMarkWarm(key: SlotKey)
      modifies this
      ensures Contents() == MarkStorage(old(Contents()), key)
      ensures slots == old(slots) + (if key in old(slots) then [] else [key])
      ensures addresses == old(addresses)
    {
      var found := FindIn(slots, key);
      if found.Some? { return; }
      journal := journal + [Entry(WarmSlot(key))];
      slots := slots + [key];
    }

    method AccountIsWarm(address: Address) returns (warm: bool)
      ensures warm <==> address in addresses
    {
      var found := FindIn(addresses, address);
      warm := found.Some?;
    }

    method StorageIsWarm(key: SlotKey) returns (warm: bool)
      ensures warm <==> key in slots
    {
      var found := FindIn(slots, key);
      warm := found.Some?;
    }

    method WarmReset()
      modifies this`addresses, this`slots
      ensures Contents() == old(Contents()).(vectors := Vectors([], []))
    {
      addresses, slots := [], [];
    }

    method StateJournalCheckpoint()
      modifies this`journal
      ensures Contents() == old(Contents()).(journal := old(journal) + [Checkpoint])
    {
      journal := journal + [Checkpoint];
    }

    method StateJournalCommit() returns (ok: bool)
      modifies this`journal
      ensures ok == CommitKernel(old(Contents())).Some?
      ensures journal == if ok then old(journal) + [Commit] else old(journal)
      ensures Contents() == if ok then CommitKernel(old(Contents())).value else old(Contents())
    {
      var marker := OpenCheckpointIndex(journal);
      if marker.None? { return false; }
      journal := journal + [Commit];
      ok := true;
    }

    method StateJournalRevert() returns (ok: bool)
      modifies this
      ensures ok == RevertKernel(old(Contents())).Some?
      ensures ok ==> Contents() == RevertKernel(old(Contents())).value
    {
      var marker := OpenCheckpointIndex(journal);
      if marker.None? { return false; }
      ok := RevertTo(marker.value + 1);
      if ok { journal := journal[..marker.value]; }
    }

    /** journal_revert_to: entries are popped as they are undone. */
    method RevertTo(target: nat) returns (ok: bool)
      requires target <= |journal|
      modifies this
      ensures ok == Rewind(UndoVectors, old(Contents()).vectors, old(journal)[target..]).Some?
      ensures ok ==> Some(Contents().vectors) == Rewind(UndoVectors, old(Contents()).vectors, old(journal)[target..])
      ensures ok ==> journal == old(journal)[..target]
    {
      ghost var j := journal;
      while |journal| > target
        invariant target <= |journal| <= |j| && journal == j[..|journal|]
        invariant Rewind(UndoVectors, Contents().vectors, journal[target..]) ==
                  Rewind(UndoVectors, old(Contents()).vectors, j[target..])
        decreases |journal|
      {
        var e := journal[|journal| - 1];
        assert journal[..|journal| - 1][target..] == journal[target..][..|journal| - 1 - target];
        journal := journal[..|journal| - 1];
        if e.Entry? {
          ok := UndoEntryInPlace(e.change);
          if !ok { return; }
        }
      }
      assert journal[target..] == [];
      ok := true;
    }

    /** The branches of the undo loop. */
    method UndoEntryInPlace(e: WarmChange) returns (ok: bool)
      modifies this`addresses, this`slots
      ensures ok == UndoVectors(old(Contents()).vectors, e).Some?
      ensures ok ==> Contents().vectors == UndoVectors(old(Contents()).vectors, e).value
    {
      ok := true;
      match e
      case WarmAddress(a) =>
        var i := FindIn(addresses, a);
        if i.Some? { addresses := addresses[i.value := addresses[|addresses| - 1]][..|addresses| - 1]; }
      case WarmSlot(key) =>
        var i := FindIn(slots, key);
        if i.None? { return false; }
        slots := slots[i.value := slots[|slots| - 1]][..|slots| - 1];
      case Other =>
    }
  }
}
