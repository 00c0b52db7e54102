/** The order of the rows and of their listing entries: though an entry names only an address, or nothing, it
    always stands for one row. */
module HostListings {
  import opened Collections
  import opened Journal
  import opened HostModel
  import opened HostOps

  /** The addresses of the storage listings in the innermost open frame, in order. */
  function StorageListings(j: seq<Item<Change>>, closed: nat): seq<Address>
    decreases |j|
  {
    if j == [] then [] else
    var rest := j[..|j| - 1];
    match j[|j| - 1]
    case Commit => StorageListings(rest, closed + 1)
    case Checkpoint => if closed == 0 then [] else StorageListings(rest, closed - 1)
    case Entry(e) => StorageListings(rest, closed) + if e.StorageListed? then [e.address] else []
  }

  /** How many accounts were listed in the innermost open frame. */
  function AccountListings(j: seq<Item<Change>>, closed: nat): nat
    decreases |j|
  {
    if j == [] then 0 else
    var rest := j[..|j| - 1];
    match j[|j| - 1]
    case Commit => AccountListings(rest, closed + 1)
    case Checkpoint => if closed == 0 then 0 else AccountListings(rest, closed - 1)
    case Entry(e) => AccountListings(rest, closed) + if e.AccountListed? then 1 else 0
  }

  function AddressesOf(keys: seq<SlotKey>): seq<Address> {
    seq(|keys|, i requires 0 <= i < |keys| => keys[i].addr)
  }

  /** Undoing a listing takes the last row away; undoing anything else leaves the rows in place. */
  lemma UndoneRows(s: Store, e: Change)
    requires UndoEntry(s, e).Some?
    ensures var t := UndoEntry(s, e).value;
            && s.storage.keys == t.storage.keys +
                 (if e.StorageListed? then [s.storage.keys[|s.storage.keys| - 1]] else [])
            && s.accounts.keys == t.accounts.keys +
                 (if e.AccountListed? then [s.accounts.keys[|s.accounts.keys| - 1]] else [])
            && (e.StorageListed? ==> s.storage.keys[|s.storage.keys| - 1].addr == e.address)
  {
    if e.StorageListed? { assert LastListed(s.storage.keys, e.address) == Some(|s.storage.keys| - 1); }
    else { UndoneAccounts(s, e); }
  }

  lemma UndoneAccounts(s: Store, e: Change)
    requires Restore(s, e).Some? && !e.StorageListed?
    ensures var t := Restore(s, e).value;
            && s.storage.keys == t.storage.keys
            && s.accounts.keys == t.accounts.keys +
                 (if e.AccountListed? then [s.accounts.keys[|s.accounts.keys| - 1]] else [])
  {
  }

  /** `now` is `was` and behind it one key for each listed address. */
  ghost predicate RowsListed(was: seq<SlotKey>, now: seq<SlotKey>, listed: seq<Address>) {
    was <= now && AddressesOf(now[|was|..]) == listed
  }

  lemma RowListed(was: seq<SlotKey>, now: seq<SlotKey>, listed: seq<Address>, key: SlotKey)
    requires RowsListed(was, now, listed)
    ensures RowsListed(was, now + [key], listed + [key.addr])
  {
    assert (now + [key])[|was|..] == now[|was|..] + [key];
  }

  /** The rows of `was` come first, and behind them stand what was listed since. */
  ghost predicate ListedSince(was: Store, now: Store, listed: seq<Address>, accounts: nat) {
    && RowsListed(was.storage.keys, now.storage.keys, listed)
    && was.accounts.keys <= now.accounts.keys && |now.accounts.keys| == |was.accounts.keys| + accounts
  }

  lemma NothingListed(s: Store)
    ensures ListedSince(s, s, [], 0)
  {
  }

  /** One more entry: what it listed stands behind the rest. */
  lemma ListedBehind(was: Store, s: Store, e: Change, listed: seq<Address>, accounts: nat)
    requires UndoEntry(s, e).Some? && ListedSince(was, UndoEntry(s, e).value, listed, accounts)
    ensures ListedSince(was, s, listed + (if e.StorageListed? then [e.address] else []),
                        accounts + if e.AccountListed? then 1 else 0)
  {
    UndoneRows(s, e);
    if e.StorageListed? {
      RowListed(was.storage.keys, UndoEntry(s, e).value.storage.keys, listed, s.storage.keys[|s.storage.keys| - 1]);
    }
  }

  /** The rows of the innermost snapshot come first, and behind them one row for each listing entry of the
      frame, in the order of the entries. */
  ghost predicate FrameListed(s: Store, j: seq<Item<Change>>, closed: nat) {
    var saved := Snapshots(UndoEntry, s, j, closed);
    && saved.Some? && saved.value != []
    && ListedSince(saved.value[|saved.value| - 1], s, StorageListings(j, closed), AccountListings(j, closed))
  }

  lemma EntryListed(s: Store, j: seq<Item<Change>>, closed: nat, e: Change)
    requires OpenIndex(j, closed).Some? && j[|j| - 1] == Entry(e) && UndoEntry(s, e).Some?
    requires FrameListed(UndoEntry(s, e).value, j[..|j| - 1], closed)
    ensures FrameListed(s, j, closed)
  {
    var rest := j[..|j| - 1];
    var saved := Snapshots(UndoEntry, s, j, closed).value;
    ListedBehind(saved[|saved| - 1], s, e, StorageListings(rest, closed), AccountListings(rest, closed));
  }

  lemma {:induction false} ListingOrder(s: Store, j: seq<Item<Change>>, closed: nat)
    requires OpenIndex(j, closed).Some? && Snapshots(UndoEntry, s, j, closed).Some?
    ensures FrameListed(s, j, closed)
    decreases |j|
  {
    var rest := j[..|j| - 1];
    match j[|j| - 1]
    case Commit => ListingOrder(s, rest, closed + 1);
    case Checkpoint => if closed > 0 { ListingOrder(s, rest, closed - 1); } else { NothingListed(s); }
    case Entry(e) =>
      ListingOrder(UndoEntry(s, e).value, rest, closed);
      EntryListed(s, j, closed, e);
  }

  /** A pop of storage rows keeps every snapshot if and only if no frame is open. */
  lemma TakeSlotKeepsSnapshots(h: Host)
    requires Saved(h).Some? && h.store.storage.keys != []
    ensures Saved(TakeSlot(h)) == Saved(h) <==> !FrameOpen(h)
  {
    if FrameOpen(h) && Saved(TakeSlot(h)) == Saved(h) {
      ListingOrder(Observed(h.store), h.journal, 0);
      ListingOrder(Observed(TakeSlot(h).store), h.journal, 0);
      assert false;
    }
  }

  /** So does a pop of an account row. */
  lemma TakeAccountKeepsSnapshots(h: Host)
    requires Saved(h).Some? && h.store.accounts.keys != []
    ensures Saved(TakeAccount(h)) == Saved(h) <==> !FrameOpen(h)
  {
    if FrameOpen(h) && Saved(TakeAccount(h)) == Saved(h) {
      ListingOrder(Observed(h.store), h.journal, 0);
      ListingOrder(Observed(TakeAccount(h).store), h.journal, 0);
      assert false;
    }
  }
}
