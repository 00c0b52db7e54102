/** malloc, free, calloc and realloc of the guest runtime: first fit over a free list, with no coalescing and
    no splitting. */
module Heap {
  import opened Blocks
  import opened Collections
  import opened Shifts

  /** nmemb * size overflows a size_t exactly when dividing the wrapped product gives back something else. */
  lemma CallocOverflow(nmemb: nat, size: nat)
    requires nmemb < SIZE_RANGE && 0 < size < SIZE_RANGE
    ensures (nmemb * size) % SIZE_RANGE / size != nmemb <==> nmemb * size >= SIZE_RANGE
  {
    var product := nmemb * size;
    var total := product % SIZE_RANGE;
    if product < SIZE_RANGE {
      QuotientUnique(total, size, nmemb, 0);
    } else {
      QuotientBounds(total, size);
      assert (total / size) * size <= total < product;
    }
  }

  /** `bytes` written over the memory from an address on. */
  function Spliced(m: seq<Byte>, at: nat, bytes: seq<Byte>): (t: seq<Byte>)
    requires at + |bytes| <= |m|
    ensures |t| == |m|
  {
    m[..at] + bytes + m[at + |bytes|..]
  }

  function Zeros(n: nat): (s: seq<Byte>)
    ensures |s| == n && forall i :: 0 <= i < n ==> s[i] == 0
  {
    seq(n, _ => 0)
  }

  lemma SplicedNothing(m: seq<Byte>, at: nat)
    requires at <= |m|
    ensures Spliced(m, at, []) == m
  {
  }

  lemma SplicedNext(m: seq<Byte>, at: nat, bytes: seq<Byte>, x: Byte)
    requires at + |bytes| < |m|
    ensures Spliced(m, at, bytes)[at + |bytes| := x] == Spliced(m, at, bytes + [x])
  {
  }

  lemma SplicedApart(m: seq<Byte>, at: nat, bytes: seq<Byte>, i: nat)
    requires at + |bytes| <= |m| && i < |m| && (i < at || at + |bytes| <= i)
    ensures Spliced(m, at, bytes)[i] == m[i]
  {
  }

  /** What lies apart stays, what lies inside is written. */
  lemma SplicedSlices(m: seq<Byte>, at: nat, bytes: seq<Byte>, lo: nat, hi: nat)
    requires at + |bytes| <= |m| && lo <= hi <= |m|
    ensures hi <= at || at + |bytes| <= lo ==> Spliced(m, at, bytes)[lo..hi] == m[lo..hi]
    ensures Spliced(m, at, bytes)[at..at + |bytes|] == bytes
  {
  }

  lemma SlicePrefix(m: seq<Byte>, at: nat, size: nat, kept: nat)
    requires kept <= size && at + size <= |m|
    ensures m[at..at + size][..kept] == m[at..at + kept]
  {
  }

  class Heap {
    const start: nat
    var freeList: nat
    var brk: nat
    var headers: map<nat, Header>
    var mem: seq<Byte>
    ghost var order: seq<nat>
    ghost var chain: seq<nat>

    /** The blocks tile [start, brk), and the free list holds exactly the free ones. */
    ghost predicate Valid()
      reads this
    {
      && 0 < start && start % ALIGN == 0 && brk % ALIGN == 0
      && Tiles(headers, order, start, brk)
      && FreeList(headers, freeList, chain)
      && (forall a :: a in headers ==> headers[a].size % ALIGN == 0 && a % ALIGN == 0)
      && (brk <= |mem| || headers == map[]) && |mem| < SIZE_RANGE
    }

    /** A payload pointer that malloc has given out at some time. */
    predicate Known(p: nat)
      reads this
    {
      p >= HDR_SIZE && p - HDR_SIZE in headers
    }

    /** One that free has not taken back. */
    predicate Live(p: nat)
      reads this
    {
      Known(p) && !headers[p - HDR_SIZE].free
    }

    function SizeOf(p: nat): nat
      requires Known(p)
      reads this
    {
      headers[p - HDR_SIZE].size
    }

    /** A free block fits, or the frontier has room. */
    ghost predicate CanAllocate(size: nat)
      reads this
    {
      FirstFit(headers, chain, size, 0) < |chain| || brk + HDR_SIZE + size <= |mem|
    }

    /** That is: some free block is large enough, or header and payload fit behind the frontier. */
    lemma CanAllocateMeans(size: nat)
      requires Valid()
      ensures CanAllocate(size) <==>
              (exists a :: a in headers && headers[a].free && headers[a].size >= size) || brk + 32 + size <= |mem|
    {
      var k := FirstFit(headers, chain, size, 0);
      if a :| a in headers && headers[a].free && headers[a].size >= size {
        var j :| 0 <= j < |chain| && chain[j] == a;
        assert k <= j;
      }
      if k < |chain| { assert chain[k] in chain; }
    }

    ghost function Payload(p: nat): (s: seq<Byte>)
      requires Valid() && Known(p)
      reads this
      ensures |s| == SizeOf(p)
    {
      PayloadInside(p);
      mem[p..p + SizeOf(p)]
    }

    lemma PayloadInside(p: nat)
      requires Valid() && Known(p)
      ensures p + SizeOf(p) <= brk <= |mem| && p % 16 == 0
    {
      PayloadsApart(headers, order, start, brk, p - HDR_SIZE, p - HDR_SIZE);
    }

    /** The bytes of a block, from its pointer on. */
    lemma PayloadBytes(p: nat, i: nat)
      requires Valid() && Known(p) && i < SizeOf(p)
      ensures p + i < |mem| && Payload(p)[i] == mem[p + i]
    {
      PayloadInside(p);
    }

    /** Payloads are disjoint, live or not. */
    lemma LiveApart(p: nat, q: nat)
      requires Valid() && Known(p) && Known(q) && p != q
      ensures p + SizeOf(p) <= q || q + SizeOf(q) <= p
    {
      PayloadsApart(headers, order, start, brk, p - HDR_SIZE, q - HDR_SIZE);
    }

    constructor (heapStart: nat, memory: seq<Byte>)
      requires 0 < heapStart < SIZE_RANGE - ALIGN && |memory| < SIZE_RANGE
      ensures Valid() && headers == map[] && mem == memory && brk == start == AlignUp(heapStart)
    {
      start, brk := AlignUp(heapStart), AlignUp(heapStart);
      freeList, headers, mem, order, chain := 0, map[], memory, [], [];
    }

    /** A new block at the frontier; NULL when the heap is exhausted. */
    method BumpNew(payload: nat) returns (h: nat)
      requires Valid() && payload % ALIGN == 0
      modifies this`brk, this`headers, this`order
      ensures Valid()
      ensures h == 0 <==> old(brk) + HDR_SIZE + payload > |mem|
      ensures h == 0 ==> headers == old(headers) && brk == old(brk)
      ensures h != 0 ==> h == old(brk) && h !in old(headers)
      ensures h != 0 ==> headers == old(headers)[h := Header(payload, 0, false)]
      ensures forall q: nat :: old(Live(q)) ==> Live(q) && Payload(q) == old(Payload(q))
    {
      if brk + HDR_SIZE + payload > |mem| { return 0; }
      h := brk;
      BumpTiles(headers, order, start, brk, Header(payload, 0, false));
      BumpLinks(headers, freeList, chain, brk, Header(payload, 0, false));
      TilesStart(headers, order, start, brk);
      headers := headers[brk := Header(payload, 0, false)];
      order := order + [brk];
      brk := brk + HDR_SIZE + payload;
    }

    /** malloc: the first free block that fits, or else a new one; 0 stands for the abort. */
    method Malloc(n: nat) returns (p: nat)
      requires Valid() && n < SIZE_RANGE
      modifies this`freeList, this`brk, this`headers, this`order, this`chain
      ensures Valid()
      ensures var size := AlignUp(if n == 0 then 1 else n);
              var k := FirstFit(old(headers), old(chain), size, 0);
              && (k < |old(chain)| ==> p == old(chain)[k] + HDR_SIZE && chain == Without(old(chain), k))
              && (k == |old(chain)| ==> chain == old(chain))
              && (k == |old(chain)| ==> p == if old(brk) + HDR_SIZE + size > |mem| then 0 else old(brk) + HDR_SIZE)
              && (k == |old(chain)| && p != 0 ==> Live(p) && SizeOf(p) == size)
      ensures p != 0 <==> old(CanAllocate(AlignUp(if n == 0 then 1 else n)))
      ensures p != 0 ==> p % 16 == 0
      ensures p != 0 ==> Live(p) && !old(Live(p)) && SizeOf(p) >= AlignUp(if n == 0 then 1 else n)
      ensures p != 0 ==> (SizeOf(p) >= n <==> n <= SIZE_RANGE - ALIGN)
      ensures forall q: nat :: old(Known(q)) ==> Known(q) && SizeOf(q) == old(SizeOf(q))
      ensures forall q: nat :: old(Live(q)) ==> q != p && Live(q) && Payload(q) == old(Payload(q))
      ensures forall q: nat :: q != p && Live(q) ==> old(Live(q))
    {
      AlignUpRounds(if n == 0 then 1 else n);
      p := Allocate(AlignUp(if n == 0 then 1 else n));
      if p != 0 { PayloadInside(p); }
    }

    /** The body of malloc, once the size is aligned. */
    method Allocate(size: nat) returns (p: nat)
      requires Valid() && size % ALIGN == 0
      modifies this`freeList, this`brk, this`headers, this`order, this`chain
      ensures Valid()
      ensures var k := FirstFit(old(headers), old(chain), size, 0);
              && (k < |old(chain)| ==> p == old(chain)[k] + HDR_SIZE && chain == Without(old(chain), k))
              && (k == |old(chain)| ==> chain == old(chain))
              && (k == |old(chain)| ==> p == if old(brk) + HDR_SIZE + size > |mem| then 0 else old(brk) + HDR_SIZE)
              && (k == |old(chain)| && p != 0 ==> Live(p) && SizeOf(p) == size)
      ensures p != 0 ==> Live(p) && !old(Live(p)) && SizeOf(p) >= size
      ensures forall q: nat :: old(Known(q)) ==> Known(q) && SizeOf(q) == old(SizeOf(q))
      ensures forall q: nat :: old(Live(q)) ==> q != p && Live(q) && Payload(q) == old(Payload(q))
      ensures forall q: nat :: q != p && Live(q) ==> old(Live(q))
    {
      var b, previous;
      ghost var k;
      b, previous, k := FindFit(size);
      if b != 0 {
        Unlink(b, previous, k);
        return b + HDR_SIZE;
      }
      var h := BumpNew(size);
      p := if h == 0 then 0 else h + HDR_SIZE;
    }

    /** Eight below the range of a size_t the alignment wraps to zero, and malloc hands out an empty block. */
    method MallocNearLimit() returns (p: nat)
      requires Valid() && chain == [] && brk + HDR_SIZE <= |mem|
      modifies this`freeList, this`brk, this`headers, this`order, this`chain
      ensures Valid() && p != 0 && Live(p) && SizeOf(p) == 0
    {
      AlignUpRounds(SIZE_RANGE - 8);
      p := Malloc(SIZE_RANGE - 8);
    }

    /** The walk along the free list; `previous` is the block whose link led to b, 0 for the list head. */
    method FindFit(size: nat) returns (b: nat, previous: nat, ghost k: nat)
      requires Valid()
      ensures k == FirstFit(headers, chain, size, 0) && b == LinkAt(chain, k) && (b == 0 <==> k == |chain|)
      ensures previous == if k == 0 then 0 else chain[k - 1]
    {
      b, previous, k := freeList, 0, 0;
      while b != 0
        invariant k <= |chain| && b == LinkAt(chain, k)
        invariant previous == if k == 0 then 0 else chain[k - 1]
        invariant FirstFit(headers, chain, size, k) == FirstFit(headers, chain, size, 0)
        decreases |chain| - k
      {
        assert Links(headers, chain, k);
        if headers[b].size >= size { return; }
        previous := b;
        b := headers[b].next;
        k := k + 1;
      }
      assert k < |chain| ==> Links(headers, chain, k);
    }

    /** *pp = b->next: takes block k of the free list out of it. */
    method Unlink(b: nat, previous: nat, ghost k: nat)
      requires Valid() && k < |chain| && b == chain[k] && previous == if k == 0 then 0 else chain[k - 1]
      modifies this`freeList, this`headers, this`chain
      ensures Valid() && headers.Keys == old(headers).Keys && chain == Without(old(chain), k)
      ensures forall a :: a in headers ==> headers[a].size == old(headers)[a].size
      ensures forall a :: a in headers ==> (headers[a].free <==> old(headers)[a].free && a != b)
      ensures forall q: nat :: old(Live(q)) ==> Live(q) && Payload(q) == old(Payload(q))
    {
      assert Links(headers, chain, k) && (k > 0 ==> Links(headers, chain, k - 1));
      UnlinkFrees(headers, freeList, chain, k);
      SameSizesTile(headers, UnlinkedHeaders(headers, chain, k), order, start, brk);
      var next := headers[b].next;
      if previous == 0 {
        freeList := next;
      } else {
        headers := headers[previous := headers[previous].(next := next)];
      }
      headers := headers[b := headers[b].(free := false, next := 0)];
      chain := Without(chain, k);
    }

    /** free: NULL and a block that is free already are ignored; a pointer to no block aborts. */
    method Free(p: nat) returns (ok: bool)
      requires Valid()
      modifies this`freeList, this`headers, this`chain
      ensures Valid() && headers.Keys == old(headers).Keys
      ensures ok <==> p == 0 || (p >= HDR_SIZE && p - HDR_SIZE in headers)
      ensures !old(Live(p)) ==> headers == old(headers) && chain == old(chain)
      ensures old(Live(p)) ==> !Live(p) && chain == [p - HDR_SIZE] + old(chain)
      ensures forall a :: a in headers ==> headers[a].size == old(headers)[a].size
      ensures forall q: nat :: q != p ==> Live(q) == old(Live(q))
      ensures forall q: nat :: q != p && Live(q) ==> SizeOf(q) == old(SizeOf(q))
    {
      if p == 0 { return true; }
      if p < HDR_SIZE || p - HDR_SIZE !in headers { return false; }
      var h := p - HDR_SIZE;
      ok := true;
      if headers[h].free { return; }
      PayloadsApart(headers, order, start, brk, h, h);
      PushFrees(headers, freeList, chain, h);
      var header := headers[h].(free := true, next := freeList);
      SameSizesTile(headers, headers[h := header], order, start, brk);
      headers := headers[h := header];
      chain := [h] + chain;
      freeList := h;
    }

    /** memset(p, 0, count) */
    method MemClear(p: nat, count: nat)
      requires p + count <= |mem|
      modifies this`mem
      ensures mem == Spliced(old(mem), p, Zeros(count))
    {
      SplicedNothing(mem, p);
      for k := 0 to count
        invariant mem == Spliced(old(mem), p, Zeros(k))
      {
        SplicedNext(old(mem), p, Zeros(k), 0);
        assert Zeros(k) + [0] == Zeros(k + 1);
        mem := mem[p + k := 0];
      }
    }

    /** memcpy between regions that do not overlap. */
    method MemCopy(target: nat, source: nat, count: nat)
      requires target + count <= |mem| && source + count <= |mem|
      requires target + count <= source || source + count <= target
      modifies this`mem
      ensures mem == Spliced(old(mem), target, old(mem)[source..source + count])
    {
      ghost var m, block := mem, mem[source..source + count];
      SplicedNothing(m, target);
      assert block[..0] == [] && block[..count] == block;
      for k := 0 to count
        invariant mem == Spliced(m, target, block[..k])
      {
        SplicedApart(m, target, block[..k], source + k);
        SplicedNext(m, target, block[..k], block[k]);
        assert block[..k] + [block[k]] == block[..k + 1];
        mem := mem[target + k := mem[source + k]];
      }
    }

    /** Memory written inside one live block leaves the other payloads. */
    lemma OthersKept(m: seq<Byte>, p: nat, bytes: seq<Byte>, q: nat)
      requires Valid() && Live(p) && Live(q) && p != q && |bytes| <= SizeOf(p) && |m| == |mem|
      ensures p + |bytes| <= |m| && q + SizeOf(q) <= |m|
      ensures Spliced(m, p, bytes)[q..q + SizeOf(q)] == m[q..q + SizeOf(q)]
    {
      LiveApart(p, q);
      PayloadInside(p);
      PayloadInside(q);
      SplicedSlices(m, p, bytes, q, q + SizeOf(q));
    }

    /** calloc: zeroed memory, or the abort on overflow. `past`: the block is smaller than the memset that follows;
        what that does is not modelled. */
    method Calloc(nmemb: nat, size: nat) returns (p: nat, past: bool)
      requires Valid() && nmemb < SIZE_RANGE && size < SIZE_RANGE
      modifies this
      ensures Valid() && |mem| == |old(mem)|
      ensures p != 0 <==> nmemb * size < SIZE_RANGE &&
                          old(CanAllocate(AlignUp(if nmemb * size == 0 then 1 else nmemb * size)))
      ensures p != 0 ==> Live(p) && !old(Live(p))
      ensures past <==> p != 0 && nmemb * size > SIZE_RANGE - ALIGN
      ensures p != 0 && !past ==> nmemb * size <= SizeOf(p) && Payload(p)[..nmemb * size] == Zeros(nmemb * size)
      ensures !past ==> forall q: nat :: old(Live(q)) ==> Live(q) && Payload(q) == old(Payload(q))
    {
      var product := nmemb * size;
      var total := product % SIZE_RANGE;
      if size != 0 { CallocOverflow(nmemb, size); }
      if size != 0 && total / size != nmemb { return 0, false; }
      assert product == total;
      p, past := CallocTotal(total);
    }

    method CallocTotal(total: nat) returns (p: nat, past: bool)
      requires Valid() && total < SIZE_RANGE
      modifies this
      ensures Valid() && |mem| == |old(mem)|
      ensures p != 0 <==> old(CanAllocate(AlignUp(if total == 0 then 1 else total)))
      ensures p != 0 ==> Live(p) && !old(Live(p))
      ensures past <==> p != 0 && total > SIZE_RANGE - ALIGN
      ensures p != 0 && !past ==> total <= SizeOf(p) && Payload(p)[..total] == Zeros(total)
      ensures !past ==> forall q: nat :: old(Live(q)) ==> Live(q) && Payload(q) == old(Payload(q))
    {
      p := Malloc(total);
      past := p != 0 && SizeOf(p) < total;
      if p == 0 || past { return; }
      ClearBlock(p, total);
    }

    /** The memset of calloc. */
    method ClearBlock(p: nat, total: nat)
      requires Valid() && Live(p) && total <= SizeOf(p)
      modifies this`mem
      ensures Valid() && |mem| == |old(mem)| && Payload(p)[..total] == Zeros(total)
      ensures forall q: nat :: q != p && Live(q) ==> Payload(q) == old(Payload(q))
    {
      PayloadInside(p);
      ghost var m := mem;
      MemClear(p, total);
      SplicedSlices(m, p, Zeros(total), p, p + total);
      SlicePrefix(mem, p, SizeOf(p), total);
      forall q: nat | q != p && Live(q) ensures Payload(q) == old(Payload(q)) {
        OthersKept(m, p, Zeros(total), q);
      }
    }

    /** realloc: the old prefix stays, at the old place or at a new one. A block that was freed is treated alike: where
        it is large enough it is handed out though it stays on the free list. */
    method Realloc(p: nat, n: nat) returns (ok: bool, r: nat)
      requires Valid() && n < SIZE_RANGE
      modifies this
      ensures Valid() && |mem| == |old(mem)|
      ensures p == 0 ==> (ok <==> old(CanAllocate(AlignUp(if n == 0 then 1 else n))))
      ensures p != 0 && !old(Known(p)) ==> !ok
      ensures old(Known(p)) && n != 0 && old(SizeOf(p)) >= AlignUp(n) ==>
              ok && r == p && headers == old(headers) && mem == old(mem)
      ensures old(Known(p)) && n != 0 && old(SizeOf(p)) < AlignUp(n) ==>
              (ok <==> old(CanAllocate(AlignUp(n)))) && (ok ==> r != p && !Live(p))
      ensures old(Known(p)) && n == 0 ==>
              (ok <==> (old(Live(p)) && old(SizeOf(p)) >= ALIGN) || old(CanAllocate(ALIGN)))
      ensures ok ==> Known(r) && SizeOf(r) >= AlignUp(if n == 0 then 1 else n)
      ensures ok ==> (Live(r) <==> p == 0 || n == 0 || old(Live(p)) || old(SizeOf(p)) < AlignUp(n))
      ensures ok ==> (SizeOf(r) >= n <==> n <= SIZE_RANGE - ALIGN)
      ensures ok && p != 0 && n != 0 ==>
              var kept := if old(SizeOf(p)) < n then old(SizeOf(p)) else n;
              kept <= SizeOf(r) && Payload(r)[..kept] == old(Payload(p))[..kept]
      ensures ok && r != p ==> !old(Live(r))
      ensures forall q: nat :: q != p && old(Live(q)) ==> q != r && Live(q) && Payload(q) == old(Payload(q))
    {
      if p == 0 {
        r := Malloc(n);
        return r != 0, r;
      }
      if n == 0 {
        ok, r := FreeAndAllocate(p);
        return;
      }
      if p < HDR_SIZE || p - HDR_SIZE !in headers { return false, 0; }
      AlignUpRounds(n);
      PayloadInside(p);
      if SizeOf(p) >= AlignUp(n) { return true, p; }
      ok, r := Grow(p, n);
    }

    /** The end of realloc: malloc, memcpy, free. */
    method Grow(p: nat, n: nat) returns (ok: bool, r: nat)
      requires Valid() && Known(p) && 0 < n < SIZE_RANGE && SizeOf(p) < AlignUp(n)
      modifies this
      ensures Valid() && |mem| == |old(mem)| && (ok <==> old(CanAllocate(AlignUp(n))))
      ensures ok ==> r != p && !Live(p) && Live(r) && !old(Live(r)) && SizeOf(r) >= AlignUp(n)
      ensures ok ==> (SizeOf(r) >= n <==> n <= SIZE_RANGE - ALIGN)
      ensures ok ==> var kept := if old(SizeOf(p)) < n then old(SizeOf(p)) else n;
                     kept <= SizeOf(r) && Payload(r)[..kept] == old(Payload(p))[..kept]
      ensures forall q: nat :: q != p && old(Live(q)) ==> q != r && Live(q) && Payload(q) == old(Payload(q))
    {
      AlignUpRounds(n);
      r := Malloc(n);
      if r == 0 { return false, 0; }
      ok := MoveTo(p, r, if SizeOf(p) < n then SizeOf(p) else n);
    }

    /** realloc to size zero: free(p) and malloc(1). */
    method FreeAndAllocate(p: nat) returns (ok: bool, r: nat)
      requires Valid() && p != 0
      modifies this`freeList, this`brk, this`headers, this`order, this`chain
      ensures Valid()
      ensures ok <==> old(Known(p)) && ((old(Live(p)) && old(SizeOf(p)) >= ALIGN) || old(CanAllocate(ALIGN)))
      ensures ok ==> Live(r) && SizeOf(r) >= ALIGN && (r != p ==> !old(Live(r)))
      ensures forall q: nat :: q != p && old(Live(q)) ==> q != r && Live(q) && Payload(q) == old(Payload(q))
    {
      ok := FreeForAllocate(p);
      if !ok { return false, 0; }
      r := Malloc(1);
      ok := r != 0;
    }

    /** The free of that: the block itself may now be the one that fits. */
    method FreeForAllocate(p: nat) returns (ok: bool)
      requires Valid() && p != 0
      modifies this`freeList, this`headers, this`chain
      ensures Valid() && (ok <==> old(Known(p)))
      ensures ok ==> (CanAllocate(ALIGN) <==>
                      (old(Live(p)) && old(SizeOf(p)) >= ALIGN) || old(CanAllocate(ALIGN)))
      ensures forall q: nat :: q != p ==> Live(q) == old(Live(q))
      ensures forall q: nat :: q != p && old(Live(q)) ==> Live(q) && Payload(q) == old(Payload(q))
    {
      ghost var h, c := headers, chain;
      ok := Free(p);
      if old(Live(p)) { FirstFitAfterFree(h, c, headers, p - HDR_SIZE, ALIGN); }
    }

    /** Copies the prefix to the new block and frees the old one. */
    method MoveTo(p: nat, r: nat, kept: nat) returns (ok: bool)
      requires Valid() && Known(p) && Live(r) && p != r && kept <= SizeOf(p) && kept <= SizeOf(r)
      modifies this
      ensures ok && Valid() && |mem| == |old(mem)|
      ensures Live(r) && SizeOf(r) == old(SizeOf(r)) && Payload(r)[..kept] == old(Payload(p))[..kept]
      ensures !Live(p)
      ensures forall q: nat :: q != p && q != r && old(Live(q)) ==> Live(q) && Payload(q) == old(Payload(q))
    {
      CopyBlock(p, r, kept);
      ok := Free(p);
    }

    /** The memcpy of realloc. */
    method CopyBlock(p: nat, r: nat, kept: nat)
      requires Valid() && Known(p) && Live(r) && p != r && kept <= SizeOf(p) && kept <= SizeOf(r)
      modifies this`mem
      ensures Valid() && |mem| == |old(mem)| && Payload(r)[..kept] == old(Payload(p))[..kept]
      ensures forall q: nat :: q != r && Live(q) ==> Payload(q) == old(Payload(q))
    {
      LiveApart(p, r);
      PayloadInside(p);
      PayloadInside(r);
      ghost var m, block := mem, mem[p..p + kept];
      MemCopy(r, p, kept);
      SplicedSlices(m, r, block, r, r + kept);
      SlicePrefix(mem, r, SizeOf(r), kept);
      SlicePrefix(m, p, SizeOf(p), kept);
      forall q: nat | q != r && Live(q) ensures Payload(q) == old(Payload(q)) {
        OthersKept(m, r, block, q);
      }
    }
  }
}
