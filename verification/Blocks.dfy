/** The blocks of the guest heap: they tile it, and the free ones form a list. */
module Blocks {
  import opened Collections

  const HDR_SIZE: nat := 32

  const ALIGN: nat := 16

  const SIZE_RANGE: nat := 0x1_0000_0000_0000_0000

  /** A block header; `next` is meaningful on the free list only, and 0 is NULL. */
  datatype Header = Header(size: nat, next: nat, free: bool)

  /** ALIGN_UP on a size_t: the addition wraps. */
  function AlignUp(x: nat): (y: nat)
    ensures y % ALIGN == 0
  {
    ((x + 15) % SIZE_RANGE) / 16 * 16
  }

  /** A size, a pointer and two 32-bit fields, aligned. */
  lemma HeaderSize()
    ensures HDR_SIZE == AlignUp(8 + 8 + 4 + 4) == 32 && ALIGN == 16
  {
  }

  /** It rounds up unless it wraps. */
  lemma AlignUpRounds(x: nat)
    requires x < SIZE_RANGE
    ensures x <= SIZE_RANGE - ALIGN ==> x <= AlignUp(x) < x + ALIGN
    ensures x > SIZE_RANGE - ALIGN ==> AlignUp(x) == 0
  {
  }

  //////////////////////////////////////////////////////////////////////////////
  // Tiling
  //////////////////////////////////////////////////////////////////////////////

  /** Where block i of a tiling must start, and where the last one ends. */
  function StartOf(order: seq<nat>, i: nat, brk: nat): nat
    requires i <= |order|
  {
    if i < |order| then order[i] else brk
  }

  /** Block i ends where the next one starts. */
  ghost predicate Abuts(headers: map<nat, Header>, order: seq<nat>, brk: nat, i: nat)
    requires i < |order|
  {
    order[i] in headers && order[i] + HDR_SIZE + headers[order[i]].size == StartOf(order, i + 1, brk)
  }

  /** The blocks lie one behind the other from `start` to `brk`, without gap or overlap. */
  ghost predicate Tiles(headers: map<nat, Header>, order: seq<nat>, start: nat, brk: nat) {
    && StartOf(order, 0, brk) == start
    && (forall i :: 0 <= i < |order| ==> Abuts(headers, order, brk, i))
    && (forall a :: a in headers ==> a in order)
  }

  /** A later block starts behind the end of an earlier one. */
  lemma {:induction false} TilesApart(headers: map<nat, Header>, order: seq<nat>, start: nat, brk: nat, i: nat, j: nat)
    requires Tiles(headers, order, start, brk) && i < j <= |order|
    ensures order[i] in headers && start <= order[i] && order[i] + HDR_SIZE + headers[order[i]].size <= StartOf(order, j, brk)
    decreases i + j
  {
    assert Abuts(headers, order, brk, i);
    if i + 1 < j {
      assert Abuts(headers, order, brk, j - 1);
      TilesApart(headers, order, start, brk, i, j - 1);
    } else if i > 0 {
      TilesApart(headers, order, start, brk, i - 1, i);
      assert StartOf(order, i, brk) == order[i];
    }
  }

  lemma TilesStart(headers: map<nat, Header>, order: seq<nat>, start: nat, brk: nat)
    requires Tiles(headers, order, start, brk)
    ensures start <= brk
  {
    if order != [] { TilesApart(headers, order, start, brk, 0, |order|); }
  }

  /** Two payloads share no byte, and every payload lies below the frontier. */
  lemma PayloadsApart(headers: map<nat, Header>, order: seq<nat>, start: nat, brk: nat, a: nat, b: nat)
    requires Tiles(headers, order, start, brk) && a in headers && b in headers
    ensures start <= a && a + HDR_SIZE + headers[a].size <= brk
    ensures a != b ==> a + HDR_SIZE + headers[a].size <= b || b + HDR_SIZE + headers[b].size <= a
  {
    var i :| 0 <= i < |order| && order[i] == a;
    var j :| 0 <= j < |order| && order[j] == b;
    TilesApart(headers, order, start, brk, i, |order|);
    if i < j { TilesApart(headers, order, start, brk, i, j); }
    if j < i { TilesApart(headers, order, start, brk, j, i); }
  }

  /** The same sizes at the same places still tile. */
  lemma SameSizesTile(headers: map<nat, Header>, after: map<nat, Header>, order: seq<nat>, start: nat, brk: nat)
    requires Tiles(headers, order, start, brk) && after.Keys == headers.Keys
    requires forall a :: a in headers ==> after[a].size == headers[a].size
    ensures Tiles(after, order, start, brk)
  {
    forall i | 0 <= i < |order| ensures Abuts(after, order, brk, i) {
      assert Abuts(headers, order, brk, i);
    }
  }

  /** A block behind the frontier extends the tiling. */
  lemma BumpTiles(headers: map<nat, Header>, order: seq<nat>, start: nat, brk: nat, h: Header)
    requires Tiles(headers, order, start, brk)
    ensures brk !in headers
    ensures Tiles(headers[brk := h], order + [brk], start, brk + HDR_SIZE + h.size)
  {
    if brk in headers { PayloadsApart(headers, order, start, brk, brk, brk); }
    var longer, end, after := order + [brk], brk + HDR_SIZE + h.size, headers[brk := h];
    forall i | 0 <= i < |longer| ensures Abuts(after, longer, end, i) {
      if i < |order| {
        assert Abuts(headers, order, brk, i);
        assert longer[i] == order[i] && StartOf(longer, i + 1, end) == StartOf(order, i + 1, brk);
      }
    }
    forall a | a in after ensures a in longer {
      if a == brk { assert longer[|order|] == brk; } else { assert a in order; }
    }
  }

  //////////////////////////////////////////////////////////////////////////////
  // The free list
  //////////////////////////////////////////////////////////////////////////////

  /** The block at position i of the chain; NULL behind its end. */
  function LinkAt(chain: seq<nat>, i: nat): nat {
    if i < |chain| then chain[i] else 0
  }

  ghost predicate Links(headers: map<nat, Header>, chain: seq<nat>, i: nat)
    requires i < |chain|
  {
    chain[i] in headers && chain[i] != 0 && headers[chain[i]].next == LinkAt(chain, i + 1)
  }

  /** The links from `head` on are the chain. */
  ghost predicate Linked(headers: map<nat, Header>, head: nat, chain: seq<nat>) {
    && head == LinkAt(chain, 0)
    && (forall i :: 0 <= i < |chain| ==> Links(headers, chain, i))
  }

  /** The free list holds exactly the free blocks, once each. */
  ghost predicate FreeList(headers: map<nat, Header>, head: nat, chain: seq<nat>) {
    && Linked(headers, head, chain) && Distinct(chain)
    && (forall a :: a in headers ==> (headers[a].free <==> a in chain))
  }

  /** The chain without its k-th block. */
  function Without(chain: seq<nat>, k: nat): seq<nat>
    requires k < |chain|
  {
    chain[..k] + chain[k + 1..]
  }

  /** Unlinking block k: the pointer that led to it now leads past it. */
  function UnlinkedHeaders(headers: map<nat, Header>, chain: seq<nat>, k: nat): map<nat, Header>
    requires k < |chain| && chain[k] in headers && (k > 0 ==> chain[k - 1] in headers)
  {
    var b := chain[k];
    var skipped := if k == 0 then headers
                   else headers[chain[k - 1] := headers[chain[k - 1]].(next := headers[b].next)];
    skipped[b := skipped[b].(free := false, next := 0)]
  }

  /** One link of the shortened chain. */
  lemma UnlinkedLink(headers: map<nat, Header>, head: nat, chain: seq<nat>, k: nat, i: nat)
    requires Linked(headers, head, chain) && Distinct(chain) && k < |chain| && i < |chain| - 1
    requires Links(headers, chain, k) && (k > 0 ==> Links(headers, chain, k - 1))
    ensures Links(UnlinkedHeaders(headers, chain, k), Without(chain, k), i)
  {
    var was := if i < k then i else i + 1;
    assert Without(chain, k)[i] == chain[was] && Links(headers, chain, was);
    assert LinkAt(Without(chain, k), i + 1) == if i + 1 < k then LinkAt(chain, i + 1) else LinkAt(chain, i + 2);
  }

  lemma UnlinkMembers(chain: seq<nat>, k: nat)
    requires Distinct(chain) && k < |chain|
    ensures Distinct(Without(chain, k))
    ensures forall a :: a in Without(chain, k) <==> a in chain && a != chain[k]
  {
    var rest := Without(chain, k);
    forall a | a in chain && a != chain[k] ensures a in rest {
      var i :| 0 <= i < |chain| && chain[i] == a;
      assert rest[if i < k then i else i - 1] == a;
    }
  }

  lemma UnlinkFrees(headers: map<nat, Header>, head: nat, chain: seq<nat>, k: nat)
    requires FreeList(headers, head, chain) && k < |chain|
    requires Links(headers, chain, k) && (k > 0 ==> Links(headers, chain, k - 1))
    ensures var after := UnlinkedHeaders(headers, chain, k);
            && FreeList(after, if k == 0 then headers[chain[0]].next else head, Without(chain, k))
            && after.Keys == headers.Keys
            && (forall a :: a in headers ==> after[a].size == headers[a].size)
            && (forall a :: a in headers ==> (after[a].free <==> headers[a].free && a != chain[k]))
  {
    UnlinkMembers(chain, k);
    forall i | 0 <= i < |Without(chain, k)| ensures Links(UnlinkedHeaders(headers, chain, k), Without(chain, k), i) {
      UnlinkedLink(headers, head, chain, k, i);
    }
  }

  /** Pushing a block in front. */
  lemma PushFrees(headers: map<nat, Header>, head: nat, chain: seq<nat>, b: nat)
    requires FreeList(headers, head, chain) && b in headers && !headers[b].free && b != 0
    ensures FreeList(headers[b := headers[b].(free := true, next := head)], b, [b] + chain)
  {
    var after, longer := headers[b := headers[b].(free := true, next := head)], [b] + chain;
    assert b !in chain;
    forall i | 0 <= i < |longer| ensures Links(after, longer, i) {
      if i > 0 { assert longer[i] == chain[i - 1] && Links(headers, chain, i - 1); }
    }
  }

  /** A new block in use is not on the list. */
  lemma BumpLinks(headers: map<nat, Header>, head: nat, chain: seq<nat>, b: nat, h: Header)
    requires FreeList(headers, head, chain) && b !in headers && !h.free
    ensures FreeList(headers[b := h], head, chain)
  {
    var after := headers[b := h];
    forall i | 0 <= i < |chain| ensures Links(after, chain, i) && chain[i] != b {
      assert Links(headers, chain, i);
    }
  }

  /** The first block of the chain, from position k on, that is large enough. */
  function FirstFit(headers: map<nat, Header>, chain: seq<nat>, n: nat, k: nat): (i: nat)
    requires k <= |chain|
    ensures k <= i <= |chain|
    ensures i < |chain| ==> chain[i] in headers && headers[chain[i]].size >= n
    ensures forall j :: k <= j < i && chain[j] in headers ==> headers[chain[j]].size < n
    decreases |chain| - k
  {
    if k == |chain| then k
    else if chain[k] in headers && headers[chain[k]].size >= n then k
    else FirstFit(headers, chain, n, k + 1)
  }

  /** A block pushed in front is the first candidate; behind it nothing changes. */
  lemma FirstFitAfterFree(headers: map<nat, Header>, chain: seq<nat>, after: map<nat, Header>, b: nat, n: nat)
    requires b in headers && after.Keys == headers.Keys
    requires forall a :: a in headers ==> after[a].size == headers[a].size
    ensures FirstFit(after, [b] + chain, n, 0) < |chain| + 1 <==>
            headers[b].size >= n || FirstFit(headers, chain, n, 0) < |chain|
  {
    if headers[b].size < n { FirstFitBehind(headers, chain, after, b, n, 0); }
  }

  lemma {:induction false} FirstFitBehind(headers: map<nat, Header>, chain: seq<nat>, after: map<nat, Header>, b: nat,
                                          n: nat, k: nat)
    requires k <= |chain| && after.Keys == headers.Keys
    requires forall a :: a in headers ==> after[a].size == headers[a].size
    ensures FirstFit(after, [b] + chain, n, k + 1) == FirstFit(headers, chain, n, k) + 1
    decreases |chain| - k
  {
    if k < |chain| { FirstFitBehind(headers, chain, after, b, n, k + 1); }
  }
}
