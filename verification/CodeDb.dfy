/** The content-addressed code table: a probing table over two append-only arenas. */
module CodeDb {
  import opened Collections
  import opened Jumpdest
  import opened ProbingTable

  const INIT_CAP: nat := 256

  const UINT32_MAX: nat := 0xFFFF_FFFF

  /** What is stored under a hash: the code and its jump table. */
  datatype Code = Code(bytes: seq<Byte>, table: seq<Byte>)

  /** A reference that names n bytes of the jump-table arena. */
  predicate RefSpans(tableRef: nat, n: nat, jumps: seq<Byte>) {
    1 <= tableRef && tableRef - 1 + n <= |jumps|
  }

  predicate SlotSpans(e: Slot, codes: seq<Byte>, jumps: seq<Byte>) {
    0 < e.len && e.off + e.len <= |codes| && RefSpans(e.tableRef, e.len, jumps)
  }

  function TableAt(tableRef: nat, n: nat, jumps: seq<Byte>): seq<Byte>
    requires RefSpans(tableRef, n, jumps)
  {
    jumps[tableRef - 1..tableRef - 1 + n]
  }

  function CodeOf(e: Slot, codes: seq<Byte>, jumps: seq<Byte>): Code
    requires SlotSpans(e, codes, jumps)
  {
    Code(codes[e.off..e.off + e.len], TableAt(e.tableRef, e.len, jumps))
  }

  ghost predicate AllSpan(t: seq<Slot>, places: map<Key, nat>, codes: seq<Byte>, jumps: seq<Byte>) {
    forall k :: k in places ==> places[k] < |t| && SlotSpans(t[places[k]], codes, jumps)
  }

  ghost function CodesOf(t: seq<Slot>, places: map<Key, nat>, codes: seq<Byte>, jumps: seq<Byte>): map<Key, Code>
    requires AllSpan(t, places, codes, jumps)
  {
    map k | k in places :: CodeOf(t[places[k]], codes, jumps)
  }

  /** Growing the arenas moves no span. */
  lemma ArenasGrow(t: seq<Slot>, places: map<Key, nat>, codes: seq<Byte>, jumps: seq<Byte>,
                   codes': seq<Byte>, jumps': seq<Byte>)
    requires AllSpan(t, places, codes, jumps) && codes <= codes' && jumps <= jumps'
    ensures AllSpan(t, places, codes', jumps') && CodesOf(t, places, codes', jumps') == CodesOf(t, places, codes, jumps)
  {
    forall k | k in places
      ensures SlotSpans(t[places[k]], codes', jumps')
      ensures CodeOf(t[places[k]], codes', jumps') == CodeOf(t[places[k]], codes, jumps)
    {
      var e := t[places[k]];
      assert codes'[e.off..e.off + e.len] == codes[e.off..e.off + e.len];
      assert TableAt(e.tableRef, e.len, jumps') == TableAt(e.tableRef, e.len, jumps);
    }
  }

  /** The entries of all keys but one are the old ones. */
  ghost predicate Kept(t: seq<Slot>, places: map<Key, nat>, t': seq<Slot>, places': map<Key, nat>, key: Key) {
    && places'.Keys == places.Keys + {key}
    && (forall k :: k in places ==> places[k] < |t|)
    && (forall k :: k in places' ==> places'[k] < |t'|)
    && (forall k :: k in places && k != key ==> t'[places'[k]] == t[places[k]])
  }

  /** A new key adds its code and leaves the others. */
  lemma CodesExtended(t: seq<Slot>, places: map<Key, nat>, t': seq<Slot>, places': map<Key, nat>, key: Key,
                      codes: seq<Byte>, jumps: seq<Byte>)
    requires AllSpan(t, places, codes, jumps) && key !in places && Kept(t, places, t', places', key)
    requires SlotSpans(t'[places'[key]], codes, jumps)
    ensures AllSpan(t', places', codes, jumps)
    ensures CodesOf(t', places', codes, jumps) ==
            CodesOf(t, places, codes, jumps)[key := CodeOf(t'[places'[key]], codes, jumps)]
  {
  }

  /** Appending the code of a new key. */
  lemma AppendExtends(t: seq<Slot>, places: map<Key, nat>, t': seq<Slot>, places': map<Key, nat>, key: Key,
                      codes: seq<Byte>, src: seq<Byte>, jumps: seq<Byte>)
    requires AllSpan(t, places, codes, jumps) && key !in places && Kept(t, places, t', places', key) && src != []
    requires var e := t'[places'[key]]; e.off == |codes| && e.len == |src| && RefSpans(e.tableRef, |src|, jumps)
    ensures AllSpan(t', places', codes + src, jumps)
    ensures CodesOf(t', places', codes + src, jumps) ==
            CodesOf(t, places, codes, jumps)[key := Code(src, TableAt(t'[places'[key]].tableRef, |src|, jumps))]
  {
    var e := t'[places'[key]];
    ArenasGrow(t, places, codes, jumps, codes + src, jumps);
    assert (codes + src)[e.off..e.off + e.len] == src;
    CodesExtended(t, places, t', places', key, codes + src, jumps);
  }

  lemma MovedKept(t: seq<Slot>, places: map<Key, nat>, u: seq<Slot>, places1: map<Key, nat>, key: Key,
                  grown: seq<Slot>, places2: map<Key, nat>)
    requires Kept(t, places, u, places1, key) && Moved(u, places1, grown, places2, |u|)
    ensures Kept(t, places, grown, places2, key)
  {
    forall k ensures k in places2 <==> k in places1 {}
  }

  lemma PutKept(t: seq<Slot>, places: map<Key, nat>, u: seq<Slot>, places1: map<Key, nat>, key: Key,
                hash: Key -> nat, i: nat, e: Slot)
    requires Kept(t, places, u, places1, key) && Represents(u, places1, hash)
    requires i < |u| && u[i].used && u[i].key == key && e.used && e.key == key
    ensures places1[key] == i && Kept(t, places, u[i := e], places1, key) && Represents(u[i := e], places1, hash)
  {
    forall k | k in places1 ensures ChainTaken(u[i := e], Start(hash, k, |u|), places1[k]) {
      assert ChainTaken(u, Start(hash, k, |u|), places1[k]);
    }
  }

  ghost predicate LoadFits(count: nat, cap: nat) {
    count * 10 < cap * 7 || count == cap == 0
  }

  /** An append-only map keeps what it has. */
  function StoredIn(codes: map<Key, Code>, key: Key, code: Code): map<Key, Code> {
    if key in codes then codes else codes[key := code]
  }

  ghost predicate AllAnalyzed(codes: map<Key, Code>) {
    forall k :: k in codes ==> codes[k].table == JumpTable(codes[k].bytes, false)
  }

  /** Where every table is the one of its code, the bytes alone decide. */
  lemma StoredAnalyzed(codes: map<Key, Code>, key: Key, src: seq<Byte>)
    requires AllAnalyzed(codes)
    ensures AllAnalyzed(StoredIn(codes, key, Code(src, JumpTable(src, false))))
    ensures key in codes ==> (codes[key] == Code(src, JumpTable(src, false)) <==> codes[key].bytes == src)
  {
  }

  lemma MarkBehind(below: seq<Byte>, marks: seq<Byte>, i: nat)
    requires i < |marks|
    ensures (below + marks)[|below| + i := 1] == below + marks[i := 1]
  {
  }

  class Db {
    const hash: Key -> nat
    var table: array<Slot>
    var count: nat
    var codeArena: seq<Byte>
    var jumpdestArena: seq<Byte>
    ghost var places: map<Key, nat>

    ghost predicate Valid()
      reads this, table
    {
      && Represents(table[..], places, hash)
      && count == |places| && LoadFits(count, table.Length)
      && AllSpan(table[..], places, codeArena, jumpdestArena)
    }

    /** The append-only map that the table stands for. */
    ghost function Codes(): map<Key, Code>
      requires Valid()
      reads this, table
    {
      CodesOf(table[..], places, codeArena, jumpdestArena)
    }

    constructor (hash: Key -> nat)
      ensures Valid() && Codes() == map[] && fresh(table) && this.hash == hash
      ensures codeArena == [] && jumpdestArena == []
    {
      this.hash := hash;
      table := new Slot[0];
      count, codeArena, jumpdestArena, places := 0, [], [], map[];
    }

    /** code_db_grow; a missing table is one of length zero. */
    method GrowTable()
      requires Represents(table[..], places, hash) && |places| <= table.Length
      modifies this`table, this`places
      ensures fresh(table) && table.Length == if old(table.Length) == 0 then INIT_CAP else 2 * old(table.Length)
      ensures Represents(table[..], places, hash) && places.Keys == old(places).Keys
      ensures Moved(old(table[..]), old(places), table[..], places, old(table.Length))
    {
      table, places := Grow(table, places, hash, Slot(false, 0, 0, 0, 0), INIT_CAP);
    }

    /** Grows a table that is full to seven tenths, and finds the key again. */
    method GrowFull(key: Key, ghost t: seq<Slot>, ghost q: map<Key, nat>) returns (i: nat)
      requires Represents(table[..], places, hash) && count == |places| <= table.Length && table.Length > 0
      requires Kept(t, q, table[..], places, key)
      modifies this`table, this`places
      ensures fresh(table) && Represents(table[..], places, hash) && |places| == count
      ensures LoadFits(count, table.Length)
      ensures Kept(t, q, table[..], places, key)
      ensures i < table.Length && table[i].used && table[i].key == key
    {
      ghost var u, q' := table[..], places;
      GrowTable();
      MovedKept(t, q, u, q', key, table[..], places);
      assert |places.Keys| == |q'.Keys|;
      i := Find(table, key, places, hash);
    }

    /** Marks a free slot as used, counts it, and grows the table at seven tenths. */
    method Reserve(key: Key, slot: nat) returns (i: nat)
      requires Valid() && table.Length > 0 && key !in places && ProbeEnds(table[..], hash, key, slot)
      modifies this`table, this`places, this`count, table
      ensures table == old(table) || fresh(table)
      ensures Represents(table[..], places, hash) && count == |places| && LoadFits(count, table.Length)
      ensures count * 10 < table.Length * 7
      ensures Kept(old(table[..]), old(places), table[..], places, key)
      ensures i < table.Length && table[i].used && table[i].key == key
    {
      ghost var t, q := table[..], places;
      var e := Slot(true, key, 0, 0, 0);
      PutRepresents(t, places, hash, slot, e);
      ProbeDecides(t, places, hash, key, slot);
      table[slot] := e;
      places := places[key := slot];
      count := count + 1;
      i := slot;
      assert table[..] == t[slot := e];
      if count * 10 >= table.Length * 7 { i := GrowFull(key, t, q); }
    }

    /** code_db_intern: a new hash gets the code and the table; a hash that is there must have just them. */
    method Intern(key: Key, src: seq<Byte>, tableRef: nat) returns (ok: bool)
      requires Valid()
      modifies this, table
      ensures Valid() && (table == old(table) || fresh(table)) && jumpdestArena == old(jumpdestArena)
      ensures old(codeArena) <= codeArena
      ensures src == [] ==> ok == (tableRef == 0) && Codes() == old(Codes())
      ensures src != [] && !RefSpans(tableRef, |src|, jumpdestArena) ==> !ok && Codes() == old(Codes())
      ensures src != [] && RefSpans(tableRef, |src|, jumpdestArena) ==>
              var code := Code(src, TableAt(tableRef, |src|, jumpdestArena));
              && (ok <==> key !in old(Codes()) || old(Codes())[key] == code)
              && Codes() == if key in old(Codes()) then old(Codes()) else old(Codes())[key := code]
    {
      if src == [] { return tableRef == 0; }
      if !RefSpans(tableRef, |src|, jumpdestArena) { return false; }
      if table.Length == 0 { FirstTable(); }
      var i := Find(table, key, places, hash);
      if table[i].used && table[i].len != 0 {
        ok := SameCode(key, i, src, tableRef);
        return;
      }
      SlotsFilled();
      Insert(key, i, src, tableRef);
      ok := true;
    }

    lemma SlotsFilled()
      requires Valid()
      ensures forall k :: k in places ==> places[k] < table.Length && table[places[k]].len != 0
    {
      forall k | k in places ensures table[places[k]].len != 0 {
        assert SlotSpans(table[..][places[k]], codeArena, jumpdestArena);
      }
    }

    /** A stored code is the same code with the same table. */
    method SameCode(key: Key, i: nat, src: seq<Byte>, tableRef: nat) returns (same: bool)
      requires Valid() && i < table.Length && table[i].used && table[i].key == key
      requires RefSpans(tableRef, |src|, jumpdestArena)
      ensures key in Codes() && (same <==> Codes()[key] == Code(src, TableAt(tableRef, |src|, jumpdestArena)))
    {
      var e := table[i];
      assert e == table[..][i] && SlotSpans(table[..][places[key]], codeArena, jumpdestArena);
      same := e.len == |src| && codeArena[e.off..e.off + e.len] == src
              && TableAt(e.tableRef, e.len, jumpdestArena) == TableAt(tableRef, |src|, jumpdestArena);
    }

    /** A new code at the slot where its probe ended. */
    method Insert(key: Key, slot: nat, src: seq<Byte>, tableRef: nat)
      requires Valid() && key !in places && table.Length > 0 && ProbeEnds(table[..], hash, key, slot)
      requires src != [] && RefSpans(tableRef, |src|, jumpdestArena)
      modifies this`table, this`places, this`count, this`codeArena, table
      ensures Valid() && (table == old(table) || fresh(table)) && codeArena == old(codeArena) + src
      ensures Codes() == old(Codes())[key := Code(src, TableAt(tableRef, |src|, jumpdestArena))]
    {
      ghost var t, q := table[..], places;
      var i := Reserve(key, slot);
      Fill(i, key, src, tableRef, t, q);
    }

    /** The first table. */
    method FirstTable()
      requires Valid() && table.Length == 0
      modifies this`table, this`places
      ensures Valid() && fresh(table) && table.Length > 0 && Codes() == old(Codes())
    {
      GrowTable();
    }

    /** Appends the code to its arena and fills the slot. */
    method Fill(i: nat, key: Key, src: seq<Byte>, tableRef: nat, ghost t: seq<Slot>, ghost q: map<Key, nat>)
      requires src != [] && RefSpans(tableRef, |src|, jumpdestArena)
      requires Represents(table[..], places, hash) && count == |places| && LoadFits(count, table.Length)
      requires key !in q && Kept(t, q, table[..], places, key) && AllSpan(t, q, codeArena, jumpdestArena)
      requires i < table.Length && table[i].used && table[i].key == key
      modifies this`codeArena, table
      ensures Valid() && codeArena == old(codeArena) + src
      ensures Codes() == CodesOf(t, q, old(codeArena), jumpdestArena)[
                key := Code(src, TableAt(tableRef, |src|, jumpdestArena))]
    {
      var e := Slot(true, key, |codeArena|, tableRef, |src|);
      ghost var u := table[..];
      PutKept(t, q, u, places, key, hash, i, e);
      table[i] := e;
      assert table[..] == u[i := e];
      AppendExtends(t, q, table[..], places, key, codeArena, src, jumpdestArena);
      codeArena := codeArena + src;
    }

    /** jumpdest_table_alloc: a table of zeros at the end of the arena; 0 when there is nothing to mark or too much. */
    method AllocTable(length: nat) returns (tableRef: nat)
      requires Valid()
      modifies this`jumpdestArena
      ensures Valid() && Codes() == old(Codes())
      ensures tableRef == if length == 0 || length > UINT32_MAX then 0 else |old(jumpdestArena)| + 1
      ensures jumpdestArena == old(jumpdestArena) + if tableRef == 0 then [] else seq(length, _ => 0)
    {
      if length == 0 || length > UINT32_MAX { return 0; }
      ghost var wider := jumpdestArena + seq(length, _ => 0);
      ArenasGrow(table[..], places, codeArena, jumpdestArena, codeArena, wider);
      tableRef := |jumpdestArena| + 1;
      jumpdestArena := jumpdestArena + seq(length, _ => 0);
    }

    /** How far the scan moves. */
    static method Step(src: seq<Byte>, position: nat, amsterdam: bool) returns (step: nat)
      requires position < |src|
      ensures step == StepAt(src, position, amsterdam)
    {
      var opcode := src[position];
      step := 1;
      if IsPush(opcode) {
        step := opcode - 0x5e;
      } else if amsterdam && IsDeepStack(opcode) {
        var immediate: Byte := if position + 1 < |src| then src[position + 1] else 0;
        if ValidImmediate(opcode, immediate) { step := 2; }
      }
    }

    /** Marks one position of the table that ends the arena. */
    method Mark(base: nat, position: nat, ghost below: seq<Byte>, ghost marks: seq<Byte>)
      requires jumpdestArena == below + marks && base == |below| && position < |marks|
      modifies this`jumpdestArena
      ensures jumpdestArena == below + marks[position := 1]
    {
      MarkBehind(below, marks, position);
      jumpdestArena := jumpdestArena[base + position := 1];
    }

    /** The analysis loop: marks the destinations of the code in a table of zeros at the end of the arena. */
    method Analyze(src: seq<Byte>, base: nat, amsterdam: bool, ghost below: seq<Byte>)
      requires jumpdestArena == below + seq(|src|, _ => 0) && base == |below|
      modifies this`jumpdestArena
      ensures jumpdestArena == below + JumpTable(src, amsterdam)
    {
      ghost var marks: seq<Byte> := seq(|src|, _ => 0);
      var position := 0;
      ScanStart(src, marks, amsterdam);
      while position < |src|
        invariant 0 <= position && jumpdestArena == below + marks && Scanning(src, marks, position, amsterdam)
        decreases |src| - position
      {
        ScanStep(src, marks, position, amsterdam);
        if src[position] == JUMPDEST {
          Mark(base, position, below, marks);
          marks := marks[position := 1];
        }
        var step := Step(src, position, amsterdam);
        if step >= |src| - position {
          ScanEnds(src, marks, position + step, amsterdam);
          return;
        }
        position := position + step;
      }
      ScanEnds(src, marks, position, amsterdam);
    }

    /** code_db_insert_analyzed_bytes. The digest is the hash of the code, None when hashing fails. Whatever the
        fork, a code goes in or is found exactly as its hash allows. */
    method InsertAnalyzed(src: seq<Byte>, amsterdam: bool, digest: Option<Key>) returns (ok: bool)
      requires Valid() && Analyzed()
      modifies this, table
      ensures Valid() && Analyzed() && old(codeArena) <= codeArena && old(jumpdestArena) <= jumpdestArena
      ensures |src| > 0xFFFF_FFFF || digest.None? ==> !ok && Codes() == old(Codes())
      ensures src == [] && digest.Some? ==> ok && Codes() == old(Codes())
      ensures 0 < |src| <= 0xFFFF_FFFF && digest.Some? ==>
              && (ok <==> digest.value !in old(Codes()) || old(Codes())[digest.value].bytes == src)
              && Codes() == if digest.value in old(Codes()) then old(Codes())
                            else old(Codes())[digest.value := Code(src, JumpTable(src, false))]
    {
      if |src| > UINT32_MAX { return false; }
      ForkKeepsTable(src);
      ghost var codes := Codes();
      var tableRef := AllocAnalyzed(src, amsterdam);
      if digest.None? { return false; }
      StoredAnalyzed(codes, digest.value, src);
      assert src != [] ==> TableAt(tableRef, |src|, jumpdestArena) == JumpTable(src, false);
      ok := Intern(digest.value, src, tableRef);
    }

    /** Every stored table is the jump table of its code. */
    ghost predicate Analyzed()
      requires Valid()
      reads this, table
    {
      AllAnalyzed(Codes())
    }

    /** The table of a code, allocated and marked. */
    method AllocAnalyzed(src: seq<Byte>, amsterdam: bool) returns (tableRef: nat)
      requires Valid() && |src| <= UINT32_MAX
      modifies this`jumpdestArena
      ensures Valid() && Codes() == old(Codes())
      ensures tableRef == if src == [] then 0 else |old(jumpdestArena)| + 1
      ensures jumpdestArena == old(jumpdestArena) + JumpTable(src, amsterdam)
    {
      var base := |jumpdestArena|;
      ghost var jumps := jumpdestArena;
      tableRef := AllocTable(|src|);
      Analyze(src, base, amsterdam, jumps);
      ArenasGrow(table[..], places, codeArena, jumps, codeArena, jumpdestArena);
    }

    /** code_db_lookup_indexed: the span and the table of a stored code. */
    method Lookup(key: Key) returns (found: bool, off: nat, len: nat, tableRef: nat)
      requires Valid()
      ensures found <==> key in Codes()
      ensures found ==> off + len <= |codeArena| && RefSpans(tableRef, len, jumpdestArena)
      ensures found ==> Codes()[key] == Code(codeArena[off..off + len], TableAt(tableRef, len, jumpdestArena))
      ensures found ==> 1 <= tableRef && tableRef - 1 + len <= |jumpdestArena|
                        && Codes()[key].table == jumpdestArena[tableRef - 1..tableRef - 1 + len]
    {
      if table.Length == 0 { return false, 0, 0, 0; }
      var i := Find(table, key, places, hash);
      SlotsFilled();
      if !table[i].used || table[i].len == 0 { return false, 0, 0, 0; }
      var e := table[i];
      assert e == table[..][i] && SlotSpans(table[..][places[key]], codeArena, jumpdestArena);
      return true, e.off, e.len, e.tableRef;
    }
  }
}
