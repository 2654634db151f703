/** Page headers and the intrusive singly linked free lists threaded through
    them.  A pointer to a header is its index in the region's pool; `NULL` is
    -1. */
module FreeLists {
  import opened Bits
  import opened Tiling

  const NULL: int := -1
  const NUM_ORDERS: nat := MAX_ORDER + 1
  const PAGE_SIZE: nat := 4096

  datatype Header = Header(address: nat, order: nat, isFree: bool, next: int)

  /** Following `next` from `head` visits exactly `l` and ends at `NULL`. */
  ghost predicate Chain(pool: seq<Header>, head: int, l: seq<nat>)
    decreases |l|
  {
    if |l| == 0 then head == NULL
    else head == l[0] && l[0] < |pool| && Chain(pool, pool[l[0]].next, l[1..])
  }

  ghost predicate NoRepeats(l: seq<nat>) {
    forall a, b :: 0 <= a < b < |l| ==> l[a] != l[b]
  }

  /** The eleven lists are chains without repetition and share no header. */
  ghost predicate ListsOk(pool: seq<Header>, heads: seq<int>, lists: seq<seq<nat>>) {
    && |heads| == NUM_ORDERS && |lists| == NUM_ORDERS
    && (forall k :: 0 <= k < NUM_ORDERS ==> Chain(pool, heads[k], lists[k]) && NoRepeats(lists[k]))
    && (forall k, m, i :: 0 <= k < NUM_ORDERS && 0 <= m < NUM_ORDERS && i in lists[k] && i in lists[m] ==> k == m)
  }

  /** List `k` holds exactly the free blocks of order `k`. */
  ghost predicate ListsTrack(own: seq<Tile>, lists: seq<seq<nat>>)
    requires |lists| == NUM_ORDERS
  {
    forall k, i {:trigger i in lists[k]} {:trigger IsFree(own, i, k)} ::
      0 <= k < NUM_ORDERS && 0 <= i ==> (i in lists[k] <==> IsFree(own, i, k))
  }

  /** Headers of block heads tell the truth, except for the free flag of `x`;
      headers of other pages may hold anything. */
  ghost predicate HeadsTrue(own: seq<Tile>, pool: seq<Header>, x: int)
    requires |pool| == |own|
  {
    forall i :: 0 <= i < |own| && own[i].idx == i ==>
      pool[i].order == own[i].ord && (i != x ==> pool[i].isFree == own[i].free)
  }

  ghost predicate Addressed(start: nat, pool: seq<Header>) {
    forall i :: 0 <= i < |pool| ==> pool[i].address == start + i * PAGE_SIZE
  }

  /** The representation invariant of a region, on values. */
  ghost predicate RegionInv(
    start: nat, pool: seq<Header>, heads: seq<int>, own: seq<Tile>, lists: seq<seq<nat>>, x: int)
  {
    && |pool| == |own|
    && Addressed(start, pool)
    && Canon(own)
    && HeadsTrue(own, pool, x)
    && ListsOk(pool, heads, lists)
    && ListsTrack(own, lists)
  }

  // ------------------------------------------------------------ chains

  lemma {:induction false} ChainFrame(a: seq<Header>, b: seq<Header>, head: int, l: seq<nat>)
    requires Chain(a, head, l) && |a| == |b|
    requires forall i :: i in l && i < |a| ==> b[i].next == a[i].next
    ensures Chain(b, head, l)
    decreases |l|
  {
    if |l| > 0 {
      assert l[0] in l;
      ChainFrame(a, b, a[l[0]].next, l[1..]);
    }
  }

  lemma {:induction false} ChainInPool(pool: seq<Header>, head: int, l: seq<nat>)
    requires Chain(pool, head, l)
    ensures forall i :: i in l ==> i < |pool|
    decreases |l|
  {
    if |l| > 0 {
      ChainInPool(pool, pool[l[0]].next, l[1..]);
      assert forall i :: i in l ==> i == l[0] || i in l[1..];
    }
  }

  function Detach(pool: seq<Header>, l: seq<nat>, j: nat): (r: seq<Header>)
    requires j < |l| && l[j] < |pool| && (j > 0 ==> l[j - 1] < |pool|)
    ensures |r| == |pool|
  {
    var linked := if j == 0 then pool else pool[l[j - 1] := pool[l[j - 1]].(next := pool[l[j]].next)];
    linked[l[j] := linked[l[j]].(next := NULL)]
  }

  function Cut(l: seq<nat>, j: nat): seq<nat>
    requires j < |l|
  {
    l[..j] + l[j + 1..]
  }

  /** Unlinking the `j`-th header from a chain leaves the chain without it. */
  lemma {:induction false} ChainRemove(pool: seq<Header>, head: int, l: seq<nat>, j: nat)
    requires Chain(pool, head, l) && NoRepeats(l) && j < |l|
    ensures l[j] < |pool| && (j > 0 ==> l[j - 1] < |pool|)
    ensures Chain(Detach(pool, l, j), if j == 0 then pool[l[j]].next else head, Cut(l, j))
    decreases j
  {
    ChainInPool(pool, head, l);
    assert l[j] in l;
    assert j > 0 ==> l[j - 1] in l;
    var t := l[1..];
    if j == 0 {
      assert Cut(l, 0) == t;
      ChainFrame(pool, Detach(pool, l, 0), pool[l[0]].next, t);
    } else {
      ChainRemove(pool, pool[l[0]].next, t, j - 1);
      assert Cut(l, j)[1..] == Cut(t, j - 1);
      DetachTail(pool, l, j);
      ChainFrame(Detach(pool, t, j - 1), Detach(pool, l, j), Detach(pool, l, j)[l[0]].next, Cut(t, j - 1));
    }
  }

  lemma DetachTail(pool: seq<Header>, l: seq<nat>, j: nat)
    requires NoRepeats(l) && 0 < j < |l| && l[j] < |pool| && l[j - 1] < |pool| && l[0] < |pool|
    ensures var d, e := Detach(pool, l, j), Detach(pool, l[1..], j - 1);
            && d[l[0]].next == (if j == 1 then pool[l[1]].next else pool[l[0]].next)
            && forall i :: i in Cut(l[1..], j - 1) && i < |pool| ==> d[i].next == e[i].next
  {
  }

  lemma CutElements(l: seq<nat>, j: nat)
    requires NoRepeats(l) && j < |l|
    ensures forall i :: i in Cut(l, j) <==> i in l && i != l[j]
    ensures NoRepeats(Cut(l, j))
  {
  }

  // ------------------------------------------------------- whole structures

  lemma ListsFrame(a: seq<Header>, b: seq<Header>, heads: seq<int>, lists: seq<seq<nat>>)
    requires ListsOk(a, heads, lists) && |a| == |b|
    requires forall k, i :: 0 <= k < NUM_ORDERS && i in lists[k] && i < |a| ==> b[i].next == a[i].next
    ensures ListsOk(b, heads, lists)
  {
    forall k | 0 <= k < NUM_ORDERS
      ensures Chain(b, heads[k], lists[k])
    {
      ChainFrame(a, b, heads[k], lists[k]);
    }
  }

  lemma ListsPush(pool: seq<Header>, heads: seq<int>, lists: seq<seq<nat>>, i: nat, k: nat)
    requires ListsOk(pool, heads, lists) && i < |pool| && k < NUM_ORDERS
    requires forall m :: 0 <= m < NUM_ORDERS ==> i !in lists[m]
    ensures ListsOk(pool[i := pool[i].(next := heads[k])], heads[k := i], lists[k := [i] + lists[k]])
  {
    var b := pool[i := pool[i].(next := heads[k])];
    forall m | 0 <= m < NUM_ORDERS
      ensures Chain(b, heads[m], lists[m])
    {
      ChainFrame(pool, b, heads[m], lists[m]);
    }
    assert ([i] + lists[k])[1..] == lists[k];
  }

  lemma ListsRemove(pool: seq<Header>, heads: seq<int>, lists: seq<seq<nat>>, k: nat, j: nat)
    requires ListsOk(pool, heads, lists) && k < NUM_ORDERS && j < |lists[k]|
    ensures var l := lists[k];
            && l[j] < |pool| && (j > 0 ==> l[j - 1] < |pool|)
            && ListsOk(Detach(pool, l, j), if j == 0 then heads[k := pool[l[j]].next] else heads, lists[k := Cut(l, j)])
  {
    var l := lists[k];
    ChainRemove(pool, heads[k], l, j);
    CutElements(l, j);
    assert l[j] in l && (j > 0 ==> l[j - 1] in l);
    forall m | 0 <= m < NUM_ORDERS && m != k
      ensures Chain(Detach(pool, l, j), heads[m], lists[m])
    {
      ChainFrame(pool, Detach(pool, l, j), heads[m], lists[m]);
    }
  }
}
