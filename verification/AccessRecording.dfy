/** Recording block accesses (EIP-7928); independent facts may come in any order. */
module AccessRecording {
  import opened Collections
  import opened HostModel

  /** Everything recorded in a block. */
  datatype Recording = Recording(
    accounts: set<Address>,
    storage: map<SlotKey, map<nat, Word>>,
    seen: set<SlotKey>,
    balances: map<Address, map<nat, Word>>,
    nonces: map<Address, map<nat, Word>>,
    codes: map<Address, map<nat, Word>>)

  const NOTHING: Recording := Recording({}, map[], {}, map[], map[], map[])

  /** dict.get(key, {}) */
  function Entries<K>(m: map<K, map<nat, Word>>, key: K): map<nat, Word> {
    if key in m then m[key] else map[]
  }

  /** dict.setdefault(key, {})[index] = value */
  function WithEntry<K>(m: map<K, map<nat, Word>>, key: K, index: nat, value: Word): map<K, map<nat, Word>> {
    m[key := Entries(m, key)[index := value]]
  }

  //////////////////////////////////////////////////////////////////////////////
  // Recording
  //////////////////////////////////////////////////////////////////////////////

  datatype Fact =
    | Touched(address: Address)
    | StorageSet(address: Address, slot: Word, index: nat, value: Word)
    | StorageSeen(address: Address, slot: Word)
    | BalanceSet(address: Address, index: nat, value: Word)
    | NonceSet(address: Address, index: nat, value: Word)
    | CodeSet(address: Address, index: nat, value: Word)

  /** Recording a fact touches its account. */
  function Record(s: Recording, f: Fact): Recording {
    var t := s.(accounts := s.accounts + {f.address});
    match f
    case Touched(_) => t
    case StorageSet(a, slot, index, v) => t.(storage := WithEntry(t.storage, SlotKey(a, slot), index, v))
    case StorageSeen(a, slot) => t.(seen := t.seen + {SlotKey(a, slot)})
    case BalanceSet(a, index, v) => t.(balances := WithEntry(t.balances, a, index, v))
    case NonceSet(a, index, v) => t.(nonces := WithEntry(t.nonces, a, index, v))
    case CodeSet(a, index, v) => t.(codes := WithEntry(t.codes, a, index, v))
  }

  function RecordAll(s: Recording, facts: seq<Fact>): Recording {
    if facts == [] then s else Record(RecordAll(s, facts[..|facts| - 1]), facts[|facts| - 1])
  }

  /** Two facts about the same entry overwrite each other; all others are independent. */
  predicate SameEntry(f: Fact, g: Fact) {
    match f
    case StorageSet(a, slot, index, _) => g.StorageSet? && g.address == a && g.slot == slot && g.index == index
    case BalanceSet(a, index, _) => g.BalanceSet? && g.address == a && g.index == index
    case NonceSet(a, index, _) => g.NonceSet? && g.address == a && g.index == index
    case CodeSet(a, index, _) => g.CodeSet? && g.address == a && g.index == index
    case _ => false
  }

  predicate Independent(f: Fact, g: Fact) {
    SameEntry(f, g) ==> f == g
  }

  lemma EntriesCommute<K>(m: map<K, map<nat, Word>>, k: K, i: nat, v: Word, l: K, j: nat, w: Word)
    requires k == l && i == j ==> v == w
    ensures WithEntry(WithEntry(m, k, i, v), l, j, w) == WithEntry(WithEntry(m, l, j, w), k, i, v)
  {
    if k == l {
      assert Entries(m, k)[i := v][j := w] == Entries(m, k)[j := w][i := v];
    } else {
      var e, f := Entries(m, k)[i := v], Entries(m, l)[j := w];
      assert m[k := e][l := f] == m[l := f][k := e];
    }
  }

  /** Recording two independent facts in either order records the same. */
  lemma RecordCommutes(s: Recording, f: Fact, g: Fact)
    requires Independent(f, g)
    ensures Record(Record(s, f), g) == Record(Record(s, g), f)
  {
    assert s.accounts + {f.address} + {g.address} == s.accounts + {g.address} + {f.address};
    match f
    case StorageSet(a, slot, i, v) =>
      if g.StorageSet? { EntriesCommute(s.storage, SlotKey(a, slot), i, v, SlotKey(g.address, g.slot), g.index, g.value); }
    case BalanceSet(a, i, v) => if g.BalanceSet? { EntriesCommute(s.balances, a, i, v, g.address, g.index, g.value); }
    case NonceSet(a, i, v) => if g.NonceSet? { EntriesCommute(s.nonces, a, i, v, g.address, g.index, g.value); }
    case CodeSet(a, i, v) => if g.CodeSet? { EntriesCommute(s.codes, a, i, v, g.address, g.index, g.value); }
    case StorageSeen(a, slot) =>
      if g.StorageSeen? {
        var x, y := SlotKey(a, slot), SlotKey(g.address, g.slot);
        assert s.seen + {x} + {y} == s.seen + {y} + {x};
      }
    case Touched(_) =>
  }

  ghost predicate AllIndependent(facts: seq<Fact>) {
    forall i, j :: 0 <= i < j < |facts| ==> Independent(facts[i], facts[j])
  }

  /** A fact can move to the end of the recording. */
  lemma {:induction false} RecordLast(s: Recording, facts: seq<Fact>, k: nat)
    requires k < |facts| && forall j :: k < j < |facts| ==> Independent(facts[k], facts[j])
    ensures RecordAll(s, facts) == Record(RecordAll(s, facts[..k] + facts[k + 1..]), facts[k])
    decreases |facts|
  {
    var n := |facts| - 1;
    var rest := facts[..k] + facts[k + 1..];
    if k == n {
      assert rest == facts[..n];
    } else {
      var front := facts[..n];
      RecordLast(s, front, k);
      assert rest[..n - 1] == front[..k] + front[k + 1..] && rest[n - 1] == facts[n];
      RecordCommutes(RecordAll(s, rest[..n - 1]), facts[k], facts[n]);
    }
  }

  lemma MultisetWithout<T>(s: seq<T>, k: nat)
    requires k < |s|
    ensures multiset(s) == multiset(s[..k] + s[k + 1..]) + multiset{s[k]}
  {
    assert s == s[..k] + [s[k]] + s[k + 1..];
  }

  /** Taking one element out of two arrangements of the same facts. */
  lemma SameWithout(facts: seq<Fact>, other: seq<Fact>, k: nat)
    requires multiset(facts) == multiset(other) && k < |facts| && other != [] && facts[k] == other[|other| - 1]
    ensures multiset(facts[..k] + facts[k + 1..]) == multiset(other[..|other| - 1])
  {
    var n := |other| - 1;
    assert other == other[..n] + [other[n]];
    MultisetWithout(facts, k);
    assert multiset(facts[..k] + facts[k + 1..]) == multiset(facts) - multiset{facts[k]};
    assert multiset(other[..n]) == multiset(other) - multiset{other[n]};
  }

  lemma IndependentWithout(facts: seq<Fact>, k: nat)
    requires AllIndependent(facts) && k < |facts|
    ensures AllIndependent(facts[..k] + facts[k + 1..])
    ensures forall j :: k < j < |facts| ==> Independent(facts[k], facts[j])
  {
    var rest := facts[..k] + facts[k + 1..];
    forall i, j | 0 <= i < j < |rest| ensures Independent(rest[i], rest[j]) {
      assert rest[i] == facts[if i < k then i else i + 1] && rest[j] == facts[if j < k then j else j + 1];
    }
  }

  /** The recording of pairwise independent facts does not depend on their order. */
  lemma {:induction false} RecordingIgnoresOrder(s: Recording, facts: seq<Fact>, other: seq<Fact>)
    requires AllIndependent(facts) && multiset(facts) == multiset(other)
    ensures RecordAll(s, facts) == RecordAll(s, other)
    decreases |other|
  {
    SameLength(facts, other);
    if other != [] {
      var n := |other| - 1;
      assert other[n] in multiset(facts);
      var k :| 0 <= k < |facts| && facts[k] == other[n];
      IndependentWithout(facts, k);
      RecordLast(s, facts, k);
      SameWithout(facts, other, k);
      RecordingIgnoresOrder(s, facts[..k] + facts[k + 1..], other[..n]);
    }
  }

  //////////////////////////////////////////////////////////////////////////////
  // Sorting
  //////////////////////////////////////////////////////////////////////////////

  ghost predicate Ascends(s: seq<nat>) {
    forall i, j :: 0 <= i < j < |s| ==> s[i] < s[j]
  }

  ghost predicate SortedOf(s: seq<nat>, keys: set<nat>) {
    Ascends(s) && forall k :: k in s <==> k in keys
  }

  lemma AscendsLast(s: seq<nat>, keys: set<nat>)
    requires s != [] && SortedOf(s, keys)
    ensures s[|s| - 1] in keys && forall k :: k in keys ==> k <= s[|s| - 1]
    ensures SortedOf(s[..|s| - 1], keys - {s[|s| - 1]})
  {
    var x := s[|s| - 1];
    assert x in s;
    forall k ensures k in s[..|s| - 1] <==> k in keys - {x} {
      assert k in s <==> k in s[..|s| - 1] || k == x;
    }
  }

  /** There is only one way to sort. */
  lemma {:induction false} SortedUnique(s: seq<nat>, t: seq<nat>, keys: set<nat>)
    requires SortedOf(s, keys) && SortedOf(t, keys)
    ensures s == t
    decreases |s|
  {
    SortedEmpty(s, keys);
    SortedEmpty(t, keys);
    if s != [] {
      AscendsLast(s, keys);
      AscendsLast(t, keys);
      SortedUnique(s[..|s| - 1], t[..|t| - 1], keys - {s[|s| - 1]});
      assert s == s[..|s| - 1] + [s[|s| - 1]] && t == t[..|t| - 1] + [t[|t| - 1]];
    }
  }

  lemma SortedEmpty(s: seq<nat>, keys: set<nat>)
    requires SortedOf(s, keys)
    ensures s == [] <==> keys == {}
  {
    assert s != [] ==> s[0] in keys;
  }

  ghost predicate IsLargest(keys: set<nat>, x: nat) {
    x in keys && forall k :: k in keys ==> k <= x
  }

  lemma {:induction false} HasLargest(keys: set<nat>)
    requires keys != {}
    ensures exists x: nat :: IsLargest(keys, x)
  {
    var x: nat :| x in keys;
    if keys == {x} {
      assert IsLargest(keys, x);
    } else {
      assert keys - {x} != {};
      HasLargest(keys - {x});
      var y: nat :| IsLargest(keys - {x}, y);
      var z := if x < y then y else x;
      forall k | k in keys ensures k <= z {
        assert k == x || k in keys - {x};
      }
      assert IsLargest(keys, z);
    }
  }

  /** sorted(keys) */
  ghost function Ascending(keys: set<nat>): (s: seq<nat>)
    ensures SortedOf(s, keys)
  {
    if keys == {} then [] else
    HasLargest(keys);
    var x: nat :| IsLargest(keys, x);
    Ascending(keys - {x}) + [x]
  }

  method Sorted(keys: set<nat>) returns (s: seq<nat>)
    ensures s == Ascending(keys)
  {
    s := [];
    var left := keys;
    while left != {}
      invariant left <= keys && SortedOf(s, keys - left)
      invariant forall x, y :: x in s && y in left ==> x < y
      decreases left
    {
      var smallest := Smallest(left);
      SortedSnoc(s, keys - left, smallest);
      assert keys - left + {smallest} == keys - (left - {smallest});
      s := s + [smallest];
      left := left - {smallest};
    }
    assert keys - left == keys;
    SortedUnique(s, Ascending(keys), keys);
  }

  lemma SortedSnoc(s: seq<nat>, keys: set<nat>, x: nat)
    requires SortedOf(s, keys) && forall k :: k in s ==> k < x
    ensures SortedOf(s + [x], keys + {x})
  {
    forall i | 0 <= i < |s| ensures s[i] < x { assert s[i] in s; }
  }

  method Smallest(keys: set<nat>) returns (smallest: nat)
    requires keys != {}
    ensures smallest in keys && forall k :: k in keys ==> smallest <= k
  {
    var left := keys;
    smallest :| smallest in left;
    while left != {}
      invariant left <= keys && smallest in keys
      invariant forall k :: k in keys && k !in left ==> smallest <= k
      decreases left
    {
      var k :| k in left;
      if k < smallest { smallest := k; }
      left := left - {k};
    }
  }
}
