/** The block-access event stream (EIP-7928): canonical and decodable. */
module AccessEvents {
  import opened HostModel
  import opened Collections
  import opened AccessRecording

  datatype Event =
    | AccountStart(address: Address)
    | StorageChange(slot: Word, index: nat, value: Word)
    | StorageRead(slot: Word)
    | BalanceChange(index: nat, value: Word)
    | NonceChange(index: nat, value: Word)
    | CodeChange(index: nat, value: Word)
    | AccountEnd

  /** The events of one account, without the frame around them. */
  datatype Block = Block(address: Address, body: seq<Event>)

  datatype Kind = Balance | Nonce | Code

  function Make(kind: Kind, index: nat, value: Word): Event {
    match kind
    case Balance => BalanceChange(index, value)
    case Nonce => NonceChange(index, value)
    case Code => CodeChange(index, value)
  }

  //////////////////////////////////////////////////////////////////////////////
  // The stream of a recording
  //////////////////////////////////////////////////////////////////////////////

  /** The slots of an account in a set of keys. */
  function SlotsOf(keys: set<SlotKey>, a: Address): set<Word> {
    set key | key in keys && key.addr == a :: key.slot
  }

  /** The changes of one slot, by index. */
  ghost function SlotEvents(slot: Word, changes: map<nat, Word>): (xs: seq<Event>)
  {
    var indices := Ascending(changes.Keys);
    seq(|indices|, i requires 0 <= i < |indices| =>
        assert indices[i] in indices; StorageChange(slot, indices[i], changes[indices[i]]))
  }

  ghost function StorageEvents(storage: map<SlotKey, map<nat, Word>>, a: Address, slots: seq<Word>): seq<Event> {
    if slots == [] then []
    else StorageEvents(storage, a, slots[..|slots| - 1])
         + SlotEvents(slots[|slots| - 1], Entries(storage, SlotKey(a, slots[|slots| - 1])))
  }

  /** The reads of slots without a change. */
  function ReadEvents(storage: map<SlotKey, map<nat, Word>>, a: Address, slots: seq<Word>): seq<Event> {
    if slots == [] then [] else
    var slot := slots[|slots| - 1];
    ReadEvents(storage, a, slots[..|slots| - 1]) + if SlotKey(a, slot) in storage then [] else [StorageRead(slot)]
  }

  ghost function IndexEvents(kind: Kind, changes: map<nat, Word>): seq<Event> {
    var indices := Ascending(changes.Keys);
    seq(|indices|, i requires 0 <= i < |indices| =>
        assert indices[i] in indices; Make(kind, indices[i], changes[indices[i]]))
  }

  ghost function StorageBody(s: Recording, a: Address): seq<Event> {
    StorageEvents(s.storage, a, Ascending(SlotsOf(s.storage.Keys, a)))
    + ReadEvents(s.storage, a, Ascending(SlotsOf(s.seen, a)))
  }

  ghost function AccountBody(s: Recording, a: Address): seq<Event> {
    IndexEvents(Balance, Entries(s.balances, a)) + IndexEvents(Nonce, Entries(s.nonces, a))
    + IndexEvents(Code, Entries(s.codes, a))
  }

  ghost function BlockOf(s: Recording, a: Address): Block {
    Block(a, StorageBody(s, a) + AccountBody(s, a))
  }

  ghost function BlocksOf(s: Recording, addresses: seq<Address>): seq<Block> {
    seq(|addresses|, i requires 0 <= i < |addresses| => BlockOf(s, addresses[i]))
  }

  function Framed(b: Block): seq<Event> {
    [AccountStart(b.address)] + b.body + [AccountEnd]
  }

  function Flatten(blocks: seq<Block>): seq<Event> {
    if blocks == [] then [] else Flatten(blocks[..|blocks| - 1]) + Framed(blocks[|blocks| - 1])
  }

  /** The whole stream. */
  ghost function Events(s: Recording): seq<Event> {
    Flatten(BlocksOf(s, Ascending(s.accounts)))
  }

  //////////////////////////////////////////////////////////////////////////////
  // Order within an account
  //////////////////////////////////////////////////////////////////////////////

  /** Storage changes, then reads, balances, nonces, codes. */
  function Phase(e: Event): nat {
    match e
    case AccountStart(_) => 0
    case StorageChange(_, _, _) => 1
    case StorageRead(_) => 2
    case BalanceChange(_, _) => 3
    case NonceChange(_, _) => 4
    case CodeChange(_, _) => 5
    case AccountEnd => 6
  }

  /** Strictly earlier in the canonical order. */
  predicate Before(e: Event, f: Event) {
    || Phase(e) < Phase(f)
    || (e.StorageChange? && f.StorageChange? && (e.slot < f.slot || (e.slot == f.slot && e.index < f.index)))
    || (e.StorageRead? && f.StorageRead? && e.slot < f.slot)
    || (e.BalanceChange? && f.BalanceChange? && e.index < f.index)
    || (e.NonceChange? && f.NonceChange? && e.index < f.index)
    || (e.CodeChange? && f.CodeChange? && e.index < f.index)
  }

  ghost predicate Increasing(xs: seq<Event>) {
    forall i, j :: 0 <= i < j < |xs| ==> Before(xs[i], xs[j])
  }

  /** Every event of a segment is in the phases from lo up to hi. */
  ghost predicate InPhases(xs: seq<Event>, lo: nat, hi: nat) {
    forall i :: 0 <= i < |xs| ==> lo <= Phase(xs[i]) <= hi
  }

  lemma Joined(xs: seq<Event>, ys: seq<Event>, lo: nat, mid: nat, mid': nat, hi: nat)
    requires Increasing(xs) && Increasing(ys) && InPhases(xs, lo, mid) && InPhases(ys, mid', hi)
    requires lo <= mid < mid' <= hi
    ensures Increasing(xs + ys) && InPhases(xs + ys, lo, hi)
  {
  }

  lemma SlotEventsOrdered(slot: Word, changes: map<nat, Word>)
    ensures Increasing(SlotEvents(slot, changes)) && InPhases(SlotEvents(slot, changes), 1, 1)
    ensures forall i :: 0 <= i < |SlotEvents(slot, changes)| ==> SlotEvents(slot, changes)[i].slot == slot
  {
  }

  lemma {:induction false} StorageEventsOrdered(storage: map<SlotKey, map<nat, Word>>, a: Address, slots: seq<Word>)
    requires Ascends(slots)
    ensures var xs := StorageEvents(storage, a, slots);
            && Increasing(xs) && InPhases(xs, 1, 1)
            && forall i :: 0 <= i < |xs| ==> xs[i].slot in slots
    decreases |slots|
  {
    if slots != [] {
      var n := |slots| - 1;
      StorageEventsOrdered(storage, a, slots[..n]);
      SlotEventsOrdered(slots[n], Entries(storage, SlotKey(a, slots[n])));
      var xs, ys := StorageEvents(storage, a, slots[..n]), SlotEvents(slots[n], Entries(storage, SlotKey(a, slots[n])));
      forall i | 0 <= i < |xs| ensures xs[i].slot < slots[n] && xs[i].slot in slots {
        assert xs[i].slot in slots[..n];
      }
      JoinedSlots(xs, ys, slots[n]);
    }
  }

  lemma JoinedSlots(xs: seq<Event>, ys: seq<Event>, slot: Word)
    requires Increasing(xs) && Increasing(ys) && InPhases(xs, 1, 1) && InPhases(ys, 1, 1)
    requires forall i :: 0 <= i < |xs| ==> xs[i].slot < slot
    requires forall i :: 0 <= i < |ys| ==> ys[i].slot == slot
    ensures Increasing(xs + ys) && InPhases(xs + ys, 1, 1)
  {
  }

  lemma {:induction false} ReadEventsOrdered(storage: map<SlotKey, map<nat, Word>>, a: Address, slots: seq<Word>)
    requires Ascends(slots)
    ensures var xs := ReadEvents(storage, a, slots);
            && Increasing(xs) && InPhases(xs, 2, 2)
            && forall i :: 0 <= i < |xs| ==> xs[i].slot in slots
    decreases |slots|
  {
    if slots != [] {
      var n := |slots| - 1;
      ReadEventsOrdered(storage, a, slots[..n]);
      var xs := ReadEvents(storage, a, slots[..n]);
      forall i | 0 <= i < |xs| ensures xs[i].slot < slots[n] && xs[i].slot in slots {
        assert xs[i].slot in slots[..n];
      }
      JoinedRead(xs, slots[n]);
    }
  }

  lemma JoinedRead(xs: seq<Event>, slot: Word)
    requires Increasing(xs) && InPhases(xs, 2, 2) && forall i :: 0 <= i < |xs| ==> xs[i].slot < slot
    ensures Increasing(xs + [StorageRead(slot)]) && InPhases(xs + [StorageRead(slot)], 2, 2)
  {
  }

  function PhaseOf(kind: Kind): nat {
    match kind
    case Balance => 3
    case Nonce => 4
    case Code => 5
  }

  lemma IndexEventsOrdered(kind: Kind, changes: map<nat, Word>)
    ensures Increasing(IndexEvents(kind, changes))
    ensures InPhases(IndexEvents(kind, changes), PhaseOf(kind), PhaseOf(kind))
  {
  }

  /** The body of an account is strictly increasing in the canonical order. */
  lemma BodyOrdered(s: Recording, a: Address)
    ensures Increasing(BlockOf(s, a).body) && InPhases(BlockOf(s, a).body, 1, 5)
  {
    StorageEventsOrdered(s.storage, a, Ascending(SlotsOf(s.storage.Keys, a)));
    ReadEventsOrdered(s.storage, a, Ascending(SlotsOf(s.seen, a)));
    Joined(StorageEvents(s.storage, a, Ascending(SlotsOf(s.storage.Keys, a))),
           ReadEvents(s.storage, a, Ascending(SlotsOf(s.seen, a))), 1, 1, 2, 2);
    AccountBodyOrdered(s, a);
    Joined(StorageBody(s, a), AccountBody(s, a), 1, 2, 3, 5);
  }

  lemma AccountBodyOrdered(s: Recording, a: Address)
    ensures Increasing(AccountBody(s, a)) && InPhases(AccountBody(s, a), 3, 5)
  {
    var xs, ys := IndexEvents(Balance, Entries(s.balances, a)), IndexEvents(Nonce, Entries(s.nonces, a));
    var zs := IndexEvents(Code, Entries(s.codes, a));
    IndexEventsOrdered(Balance, Entries(s.balances, a));
    IndexEventsOrdered(Nonce, Entries(s.nonces, a));
    IndexEventsOrdered(Code, Entries(s.codes, a));
    Joined(xs, ys, 3, 3, 4, 4);
    Joined(xs + ys, zs, 3, 4, 5, 5);
  }

  //////////////////////////////////////////////////////////////////////////////
  // Decoding
  //////////////////////////////////////////////////////////////////////////////

  /** The length of the run of body events from position i on. */
  function BodyEnd(xs: seq<Event>, i: nat): (k: nat)
    requires i <= |xs|
    ensures i <= k <= |xs|
    decreases |xs| - i
  {
    if i == |xs| || xs[i].AccountEnd? then i else BodyEnd(xs, i + 1)
  }

  /** Reads a stream back into blocks. */
  function Parse(xs: seq<Event>): seq<Block>
    decreases |xs|
  {
    if xs == [] || !xs[0].AccountStart? then [] else
    var end := BodyEnd(xs, 1);
    if end == |xs| then [] else [Block(xs[0].address, xs[1..end])] + Parse(xs[end + 1..])
  }

  ghost predicate AllBodies(blocks: seq<Block>) {
    forall i :: 0 <= i < |blocks| ==> InPhases(blocks[i].body, 1, 5)
  }

  lemma {:induction false} BodyEndFound(xs: seq<Event>, i: nat, k: nat)
    requires i <= k < |xs| && xs[k].AccountEnd? && forall j :: i <= j < k ==> !xs[j].AccountEnd?
    ensures BodyEnd(xs, i) == k
    decreases k - i
  {
    if i < k { BodyEndFound(xs, i + 1, k); }
  }

  lemma {:induction false} FlattenFirst(blocks: seq<Block>)
    requires blocks != []
    ensures Flatten(blocks) == Framed(blocks[0]) + Flatten(blocks[1..])
    decreases |blocks|
  {
    var n := |blocks| - 1;
    if n == 0 {
      assert blocks[..n] == [] && blocks[1..] == [];
    } else {
      FlattenFirst(blocks[..n]);
      assert blocks[..n][1..] == blocks[1..][..n - 1] && blocks[1..][n - 1] == blocks[n];
      Associate(Framed(blocks[0]), Flatten(blocks[1..][..n - 1]), Framed(blocks[n]));
    }
  }

  lemma Associate(xs: seq<Event>, ys: seq<Event>, zs: seq<Event>)
    ensures (xs + ys) + zs == xs + (ys + zs)
  {
  }

  lemma ParseFirst(b: Block, rest: seq<Event>)
    requires InPhases(b.body, 1, 5)
    ensures Parse(Framed(b) + rest) == [b] + Parse(rest)
  {
    var xs, end := Framed(b) + rest, 1 + |b.body|;
    assert forall j :: 1 <= j < end ==> xs[j] == b.body[j - 1];
    BodyEndFound(xs, 1, end);
    assert xs[1..end] == b.body && xs[end + 1..] == rest;
  }

  /** Parsing undoes flattening. */
  lemma {:induction false} ParseFlatten(blocks: seq<Block>)
    requires AllBodies(blocks)
    ensures Parse(Flatten(blocks)) == blocks
    decreases |blocks|
  {
    if blocks != [] {
      var b, rest := blocks[0], Flatten(blocks[1..]);
      FlattenFirst(blocks);
      ParseFirst(b, rest);
      ParseFlatten(blocks[1..]);
      assert blocks == [b] + blocks[1..];
    }
  }

  /** The fact that an event of an account tells. */
  function FactOf(a: Address, e: Event): Fact {
    match e
    case StorageChange(slot, index, v) => StorageSet(a, slot, index, v)
    case StorageRead(slot) => StorageSeen(a, slot)
    case BalanceChange(index, v) => BalanceSet(a, index, v)
    case NonceChange(index, v) => NonceSet(a, index, v)
    case CodeChange(index, v) => CodeSet(a, index, v)
    case _ => Touched(a)
  }

  /** The event that tells a fact. */
  function EventOf(f: Fact): Event {
    match f
    case Touched(a) => AccountStart(a)
    case StorageSet(_, slot, index, v) => StorageChange(slot, index, v)
    case StorageSeen(_, slot) => StorageRead(slot)
    case BalanceSet(_, index, v) => BalanceChange(index, v)
    case NonceSet(_, index, v) => NonceChange(index, v)
    case CodeSet(_, index, v) => CodeChange(index, v)
  }

  /** A change of a kind is told by an event of that kind, with the same index and value. */
  lemma EventsOfFacts(a: Address, slot: Word, index: nat, v: Word)
    ensures EventOf(StorageSet(a, slot, index, v)) == StorageChange(slot, index, v)
    ensures EventOf(StorageSeen(a, slot)) == StorageRead(slot)
    ensures EventOf(BalanceSet(a, index, v)) == BalanceChange(index, v)
    ensures EventOf(NonceSet(a, index, v)) == NonceChange(index, v)
    ensures EventOf(CodeSet(a, index, v)) == CodeChange(index, v)
  {
  }

  /** A block of the list tells the fact. */
  ghost predicate Told(blocks: seq<Block>, f: Fact) {
    exists i :: 0 <= i < |blocks| && blocks[i].address == f.address && (f.Touched? || EventOf(f) in blocks[i].body)
  }

  /** The fact is in the recording, and no change shadows it. */
  predicate Recorded(s: Recording, f: Fact) {
    f.address in s.accounts &&
    match f
    case Touched(_) => true
    case StorageSet(a, slot, index, v) =>
      var changes := Entries(s.storage, SlotKey(a, slot)); index in changes && changes[index] == v
    case StorageSeen(a, slot) => SlotKey(a, slot) in s.seen && SlotKey(a, slot) !in s.storage
    case BalanceSet(a, index, v) => var changes := Entries(s.balances, a); index in changes && changes[index] == v
    case NonceSet(a, index, v) => var changes := Entries(s.nonces, a); index in changes && changes[index] == v
    case CodeSet(a, index, v) => var changes := Entries(s.codes, a); index in changes && changes[index] == v
  }

  lemma SlotEventsTell(slot: Word, changes: map<nat, Word>, e: Event)
    ensures e in SlotEvents(slot, changes) <==>
            e.StorageChange? && e.slot == slot && e.index in changes && e.value == changes[e.index]
  {
    var indices, xs := Ascending(changes.Keys), SlotEvents(slot, changes);
    if e.StorageChange? && e.slot == slot && e.index in changes && e.value == changes[e.index] {
      assert e.index in indices;
      var i :| 0 <= i < |indices| && indices[i] == e.index;
      assert xs[i] == e;
    }
    if e in xs {
      var i :| 0 <= i < |xs| && xs[i] == e;
      assert indices[i] in indices;
    }
  }

  lemma {:induction false} StorageEventsTell(storage: map<SlotKey, map<nat, Word>>, a: Address, slots: seq<Word>, e: Event)
    ensures e in StorageEvents(storage, a, slots) <==>
            e.StorageChange? && e.slot in slots
            && e.index in Entries(storage, SlotKey(a, e.slot)) && e.value == Entries(storage, SlotKey(a, e.slot))[e.index]
    decreases |slots|
  {
    if slots != [] {
      var n := |slots| - 1;
      StorageEventsTell(storage, a, slots[..n], e);
      SlotEventsTell(slots[n], Entries(storage, SlotKey(a, slots[n])), e);
      assert slots == slots[..n] + [slots[n]];
    }
  }

  lemma {:induction false} ReadEventsTell(storage: map<SlotKey, map<nat, Word>>, a: Address, slots: seq<Word>, e: Event)
    ensures e in ReadEvents(storage, a, slots) <==> e.StorageRead? && e.slot in slots && SlotKey(a, e.slot) !in storage
    decreases |slots|
  {
    if slots != [] {
      var n := |slots| - 1;
      ReadEventsTell(storage, a, slots[..n], e);
      assert slots == slots[..n] + [slots[n]];
    }
  }

  predicate IsOfKind(e: Event, kind: Kind) {
    match kind
    case Balance => e.BalanceChange?
    case Nonce => e.NonceChange?
    case Code => e.CodeChange?
  }

  lemma IndexEventsTell(kind: Kind, changes: map<nat, Word>, e: Event)
    ensures e in IndexEvents(kind, changes) <==>
            IsOfKind(e, kind) && e.index in changes && e.value == changes[e.index]
  {
    var indices, xs := Ascending(changes.Keys), IndexEvents(kind, changes);
    if IsOfKind(e, kind) && e.index in changes && e.value == changes[e.index] {
      assert e.index in indices;
      var i :| 0 <= i < |indices| && indices[i] == e.index;
      assert xs[i] == e;
    }
    if e in xs {
      var i :| 0 <= i < |xs| && xs[i] == e;
      assert indices[i] in indices;
    }
  }

  lemma StorageBodyTells(s: Recording, a: Address, e: Event)
    ensures e in StorageBody(s, a) <==>
            || (e.StorageChange? && var changes := Entries(s.storage, SlotKey(a, e.slot));
                                    e.index in changes && e.value == changes[e.index])
            || (e.StorageRead? && SlotKey(a, e.slot) in s.seen && SlotKey(a, e.slot) !in s.storage)
  {
    StorageEventsTell(s.storage, a, Ascending(SlotsOf(s.storage.Keys, a)), e);
    ReadEventsTell(s.storage, a, Ascending(SlotsOf(s.seen, a)), e);
    SlotsListed(s.storage.Keys, a);
    SlotsListed(s.seen, a);
  }

  lemma AccountBodyTells(s: Recording, a: Address, e: Event)
    ensures e in AccountBody(s, a) <==>
            || (e.BalanceChange? && e.index in Entries(s.balances, a) && e.value == Entries(s.balances, a)[e.index])
            || (e.NonceChange? && e.index in Entries(s.nonces, a) && e.value == Entries(s.nonces, a)[e.index])
            || (e.CodeChange? && e.index in Entries(s.codes, a) && e.value == Entries(s.codes, a)[e.index])
  {
    IndexEventsTell(Balance, Entries(s.balances, a), e);
    IndexEventsTell(Nonce, Entries(s.nonces, a), e);
    IndexEventsTell(Code, Entries(s.codes, a), e);
  }

  /** The body of an account tells exactly what is recorded of it. */
  lemma BodyTells(s: Recording, f: Fact)
    requires f.address in s.accounts && !f.Touched?
    ensures EventOf(f) in BlockOf(s, f.address).body <==> Recorded(s, f)
  {
    StorageBodyTells(s, f.address, EventOf(f));
    AccountBodyTells(s, f.address, EventOf(f));
  }

  lemma SlotsListed(keys: set<SlotKey>, a: Address)
    ensures forall slot :: slot in Ascending(SlotsOf(keys, a)) <==> SlotKey(a, slot) in keys
  {
    forall slot ensures slot in SlotsOf(keys, a) <==> SlotKey(a, slot) in keys {
      if SlotKey(a, slot) in keys { assert SlotKey(a, slot).slot == slot; }
    }
  }

  lemma BlocksTell(s: Recording, f: Fact)
    ensures Told(BlocksOf(s, Ascending(s.accounts)), f) <==> Recorded(s, f)
  {
    var addresses := Ascending(s.accounts);
    var blocks := BlocksOf(s, addresses);
    if f.address in s.accounts {
      assert f.address in addresses;
      var i :| 0 <= i < |addresses| && addresses[i] == f.address;
      assert blocks[i] == BlockOf(s, f.address);
      if !f.Touched? { BodyTells(s, f); }
    }
    forall i | 0 <= i < |blocks| && blocks[i].address == f.address
      ensures f.address in s.accounts && blocks[i] == BlockOf(s, f.address)
    {
      assert addresses[i] in addresses;
    }
  }

  /** Decoding the stream gives back every change, every touched account, and every read that no change shadows. */
  lemma DecodeEvents(s: Recording, f: Fact)
    ensures Told(Parse(Events(s)), f) <==> Recorded(s, f)
  {
    EventsParse(s);
    BlocksTell(s, f);
  }

  lemma EventsParse(s: Recording)
    ensures Parse(Events(s)) == BlocksOf(s, Ascending(s.accounts))
  {
    var blocks := BlocksOf(s, Ascending(s.accounts));
    forall i | 0 <= i < |blocks| ensures InPhases(blocks[i].body, 1, 5) {
      BodyOrdered(s, Ascending(s.accounts)[i]);
    }
    ParseFlatten(blocks);
  }

  /** Accounts strictly ascend, and within an account the events do; no slot is both changed and read. */
  ghost predicate Canonical(blocks: seq<Block>) {
    && (forall i, j :: 0 <= i < j < |blocks| ==> blocks[i].address < blocks[j].address)
    && (forall i :: 0 <= i < |blocks| ==> Increasing(blocks[i].body) && ReadsUnshadowed(blocks[i].body))
  }

  ghost predicate ReadsUnshadowed(body: seq<Event>) {
    forall e, f :: e in body && f in body && e.StorageChange? && f.StorageRead? ==> e.slot != f.slot
  }

  /** The order within an account: storage changes by slot and index, reads by slot, then balances, nonces and codes,
      each by index. */
  lemma IncreasingMeans(body: seq<Event>, i: nat, j: nat)
    requires Increasing(body) && i < j < |body|
    ensures var (e, f) := (body[i], body[j]);
            && !(e.StorageRead? && f.StorageChange?)
            && !(e.BalanceChange? && (f.StorageChange? || f.StorageRead?))
            && !(e.NonceChange? && (f.StorageChange? || f.StorageRead? || f.BalanceChange?))
            && !(e.CodeChange? && (f.StorageChange? || f.StorageRead? || f.BalanceChange? || f.NonceChange?))
            && (e.StorageChange? && f.StorageChange? ==> e.slot < f.slot || (e.slot == f.slot && e.index < f.index))
            && (e.StorageRead? && f.StorageRead? ==> e.slot < f.slot)
            && (e.BalanceChange? && f.BalanceChange? ==> e.index < f.index)
            && (e.NonceChange? && f.NonceChange? ==> e.index < f.index)
            && (e.CodeChange? && f.CodeChange? ==> e.index < f.index)
  {
    assert Before(body[i], body[j]);
  }

  /** The stream is canonical. */
  lemma EventsCanonical(s: Recording)
    ensures Canonical(Parse(Events(s))) && Flatten(Parse(Events(s))) == Events(s)
    ensures var blocks := Parse(Events(s));
            && (forall i, j :: 0 <= i < j < |blocks| ==> blocks[i].address < blocks[j].address)
            && (forall i, e, f :: 0 <= i < |blocks| && e in blocks[i].body && f in blocks[i].body ==>
                  e.StorageChange? && f.StorageRead? ==> e.slot != f.slot)
  {
    EventsParse(s);
    var addresses := Ascending(s.accounts);
    var blocks := BlocksOf(s, addresses);
    forall i | 0 <= i < |blocks| ensures Increasing(blocks[i].body) && ReadsUnshadowed(blocks[i].body) {
      BodyOrdered(s, addresses[i]);
      BodyUnshadowed(s, addresses[i]);
    }
  }

  lemma BodyUnshadowed(s: Recording, a: Address)
    ensures ReadsUnshadowed(BlockOf(s, a).body)
  {
    var body := BlockOf(s, a).body;
    var t := s.(accounts := s.accounts + {a});
    assert BlockOf(t, a) == BlockOf(s, a);
    forall e, f | e in body && f in body && e.StorageChange? && f.StorageRead? ensures e.slot != f.slot {
      BodyTells(t, FactOf(a, e));
      BodyTells(t, FactOf(a, f));
    }
  }

  /** Recordings of the same independent facts give the same stream. */
  lemma EventsIgnoreOrder(facts: seq<Fact>, other: seq<Fact>)
    requires AllIndependent(facts) && multiset(facts) == multiset(other)
    ensures Events(RecordAll(NOTHING, facts)) == Events(RecordAll(NOTHING, other))
  {
    RecordingIgnoresOrder(NOTHING, facts, other);
  }

  //////////////////////////////////////////////////////////////////////////////
  // The recorder
  //////////////////////////////////////////////////////////////////////////////

  class Recorder {
    var accounts: set<Address>
    var storageChanges: map<SlotKey, map<nat, Word>>
    var storageReads: set<SlotKey>
    var balanceChanges: map<Address, map<nat, Word>>
    var nonceChanges: map<Address, map<nat, Word>>
    var codeChanges: map<Address, map<nat, Word>>
    var pending: seq<Event>

    ghost function Contents(): Recording
      reads this
    {
      Recording(accounts, storageChanges, storageReads, balanceChanges, nonceChanges, codeChanges)
    }

    constructor ()
      ensures Contents() == NOTHING && pending == []
    {
      accounts, storageChanges, storageReads := {}, map[], {};
      balanceChanges, nonceChanges, codeChanges := map[], map[], map[];
      pending := [];
    }

    method AccountTouch(address: Address)
      modifies this`accounts
      ensures Contents() == Record(old(Contents()), Touched(address)) && accounts == old(accounts) + {address}
    {
      accounts := accounts + {address};
    }

    method AddStorageChange(index: nat, address: Address, slot: Word, value: Word)
      modifies this`accounts, this`storageChanges
      ensures Contents() == Record(old(Contents()), StorageSet(address, slot, index, value))
      ensures accounts == old(accounts) + {address}
      ensures var key := SlotKey(address, slot);
              var was := if key in old(storageChanges) then old(storageChanges)[key] else map[];
              storageChanges == old(storageChanges)[key := was[index := value]]
    {
      AccountTouch(address);
      var key := SlotKey(address, slot);
      var changes := if key in storageChanges then storageChanges[key] else map[];
      storageChanges := storageChanges[key := changes[index := value]];
    }

    method AddStorageRead(address: Address, slot: Word)
      modifies this`accounts, this`storageReads
      ensures Contents() == Record(old(Contents()), StorageSeen(address, slot))
      ensures accounts == old(accounts) + {address} && storageReads == old(storageReads) + {SlotKey(address, slot)}
    {
      AccountTouch(address);
      storageReads := storageReads + {SlotKey(address, slot)};
    }

    method AddBalanceChange(index: nat, address: Address, value: Word)
      modifies this`accounts, this`balanceChanges
      ensures Contents() == Record(old(Contents()), BalanceSet(address, index, value))
      ensures accounts == old(accounts) + {address}
      ensures var was := if address in old(balanceChanges) then old(balanceChanges)[address] else map[];
              balanceChanges == old(balanceChanges)[address := was[index := value]]
    {
      AccountTouch(address);
      var changes := if address in balanceChanges then balanceChanges[address] else map[];
      balanceChanges := balanceChanges[address := changes[index := value]];
    }

    method AddNonceChange(index: nat, address: Address, value: Word)
      modifies this`accounts, this`nonceChanges
      ensures Contents() == Record(old(Contents()), NonceSet(address, index, value))
      ensures accounts == old(accounts) + {address}
      ensures var was := if address in old(nonceChanges) then old(nonceChanges)[address] else map[];
              nonceChanges == old(nonceChanges)[address := was[index := value]]
    {
      AccountTouch(address);
      var changes := if address in nonceChanges then nonceChanges[address] else map[];
      nonceChanges := nonceChanges[address := changes[index := value]];
    }

    method AddCodeChange(index: nat, address: Address, value: Word)
      modifies this`accounts, this`codeChanges
      ensures Contents() == Record(old(Contents()), CodeSet(address, index, value))
      ensures accounts == old(accounts) + {address}
      ensures var was := if address in old(codeChanges) then old(codeChanges)[address] else map[];
              codeChanges == old(codeChanges)[address := was[index := value]]
    {
      AccountTouch(address);
      var changes := if address in codeChanges then codeChanges[address] else map[];
      codeChanges := codeChanges[address := changes[index := value]];
    }

    /** bal_prepare_iter */
    method PrepareIter()
      modifies this`pending
      ensures pending == Events(Contents())
    {
      ghost var s := Contents();
      var addresses := Sorted(accounts);
      var events: seq<Event> := [];
      assert BlocksOf(s, addresses[..0]) == [];
      for i := 0 to |addresses|
        invariant events == Flatten(BlocksOf(s, addresses[..i]))
      {
        var body := AccountEvents(addresses[i]);
        FlattenNext(s, addresses, i);
        FramedAppend(events, BlockOf(s, addresses[i]));
        events := events + [AccountStart(addresses[i])];
        events := events + body;
        events := events + [AccountEnd];
      }
      assert addresses[..|addresses|] == addresses;
      pending := events;
    }

    /** The events of one account. */
    method AccountEvents(address: Address) returns (body: seq<Event>)
      ensures body == BlockOf(Contents(), address).body
    {
      var changes := ChangeEvents(address);
      var seen := UnshadowedReads(address);
      var balances := IndexedEvents(Balance, if address in balanceChanges then balanceChanges[address] else map[]);
      var nonces := IndexedEvents(Nonce, if address in nonceChanges then nonceChanges[address] else map[]);
      var codes := IndexedEvents(Code, if address in codeChanges then codeChanges[address] else map[]);
      body := (changes + seen) + (balances + nonces + codes);
    }

    method ChangeEvents(address: Address) returns (events: seq<Event>)
      ensures events == StorageEvents(storageChanges, address, Ascending(SlotsOf(storageChanges.Keys, address)))
    {
      var slots := Sorted(SlotsOf(storageChanges.Keys, address));
      SlotsListed(storageChanges.Keys, address);
      events := [];
      for i := 0 to |slots|
        invariant events == StorageEvents(storageChanges, address, slots[..i])
      {
        assert slots[i] in slots;
        StorageNext(storageChanges, address, slots, i);
        var more := OneSlot(slots[i], storageChanges[SlotKey(address, slots[i])]);
        events := events + more;
      }
      assert slots[..|slots|] == slots;
    }

    static method OneSlot(slot: Word, changes: map<nat, Word>) returns (events: seq<Event>)
      ensures events == SlotEvents(slot, changes)
    {
      ghost var all := SlotEvents(slot, changes);
      var indices := Sorted(changes.Keys);
      events := [];
      for k := 0 to |indices|
        invariant events == all[..k]
      {
        SlotEventNext(slot, changes, k);
        events := events + [StorageChange(slot, indices[k], changes[indices[k]])];
      }
      assert all[..|indices|] == all;
    }

    method UnshadowedReads(address: Address) returns (events: seq<Event>)
      ensures events == ReadEvents(storageChanges, address, Ascending(SlotsOf(storageReads, address)))
    {
      var slots := Sorted(SlotsOf(storageReads, address));
      events := [];
      for i := 0 to |slots|
        invariant events == ReadEvents(storageChanges, address, slots[..i])
      {
        ReadNext(storageChanges, address, slots, i);
        if SlotKey(address, slots[i]) !in storageChanges { events := events + [StorageRead(slots[i])]; }
      }
      assert slots[..|slots|] == slots;
    }

    static method IndexedEvents(kind: Kind, changes: map<nat, Word>) returns (events: seq<Event>)
      ensures events == IndexEvents(kind, changes)
    {
      ghost var all := IndexEvents(kind, changes);
      var indices := Sorted(changes.Keys);
      events := [];
      for k := 0 to |indices|
        invariant events == all[..k]
      {
        assert indices[k] in indices;
        TakeNext(all, k);
        events := events + [Make(kind, indices[k], changes[indices[k]])];
      }
      assert all[..|indices|] == all;
    }

    /** bal_iter_next; None is BalEmpty. */
    method IterNext() returns (event: Option<Event>)
      modifies this`pending
      ensures old(pending) == [] ==> event == None && pending == []
      ensures old(pending) != [] ==> event == Some(old(pending)[0]) && pending == old(pending)[1..]
    {
      if pending == [] { return None; }
      event := Some(pending[0]);
      pending := pending[1..];
    }
  }

  lemma ReadNext(storage: map<SlotKey, map<nat, Word>>, a: Address, slots: seq<Word>, i: nat)
    requires i < |slots|
    ensures ReadEvents(storage, a, slots[..i + 1]) ==
            ReadEvents(storage, a, slots[..i]) + if SlotKey(a, slots[i]) in storage then [] else [StorageRead(slots[i])]
  {
    assert slots[..i + 1][..i] == slots[..i];
  }

  lemma SlotEventNext(slot: Word, changes: map<nat, Word>, k: nat)
    requires k < |Ascending(changes.Keys)|
    ensures var (index, all) := (Ascending(changes.Keys)[k], SlotEvents(slot, changes));
            index in changes && all[..k + 1] == all[..k] + [StorageChange(slot, index, changes[index])]
  {
    var indices := Ascending(changes.Keys);
    assert indices[k] in indices;
    TakeNext(SlotEvents(slot, changes), k);
  }

  lemma TakeNext<T>(s: seq<T>, k: nat)
    requires k < |s|
    ensures s[..k + 1] == s[..k] + [s[k]]
  {
  }

  lemma StorageNext(storage: map<SlotKey, map<nat, Word>>, a: Address, slots: seq<Word>, i: nat)
    requires i < |slots|
    ensures StorageEvents(storage, a, slots[..i + 1]) ==
            StorageEvents(storage, a, slots[..i]) + SlotEvents(slots[i], Entries(storage, SlotKey(a, slots[i])))
  {
    assert slots[..i + 1][..i] == slots[..i];
  }

  lemma FramedAppend(xs: seq<Event>, b: Block)
    ensures xs + [AccountStart(b.address)] + b.body + [AccountEnd] == xs + Framed(b)
  {
  }

  lemma FlattenNext(s: Recording, addresses: seq<Address>, i: nat)
    requires i < |addresses|
    ensures Flatten(BlocksOf(s, addresses[..i + 1])) ==
            Flatten(BlocksOf(s, addresses[..i])) + Framed(BlockOf(s, addresses[i]))
  {
    var blocks := BlocksOf(s, addresses[..i + 1]);
    assert blocks[..i] == BlocksOf(s, addresses[..i]) && blocks[i] == BlockOf(s, addresses[i]);
  }
}
