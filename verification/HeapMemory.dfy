/** The managed heap seen as raw memory: an array of equal cells. Only a ghost set says which cells
    are currently block headers; the program itself finds them by adding sizes to addresses. */
module HeapMemory {
  import opened NodeList

  const HB_MAX_SIZE: nat := 0xFFFF
  const NULL: nat := 0

  /** The data types the memory manager distinguishes (the other ones are Other). A Reference is a
      slot that holds one object pointer. */
  datatype DataType =
    | FreeBlock
    | CachedBlock
    | Reference
    | ClassOrValueType
    | SzArray(isReference: bool, numOfElements: nat)
    | DelegateHead
    | DelegateList(isWeak: bool, length: nat)
    | Other

  /** One heap block cell: the identifier word (type, flags, 16-bit size) and the pointer it may hold. */
  datatype Cell = Cell(dt: DataType, size: nat, alive: bool, event: bool, pinned: bool, ref: nat)
  {
    predicate IsFree() { dt.FreeBlock? }
    predicate Unmovable() { pinned || event }
  }

  /** Writes the identifier word; the size field keeps 16 bits only. */
  function SetDataId(c: Cell, dt: DataType, alive: bool, event: bool, pinned: bool, size: nat): Cell {
    Cell(dt, size % 0x1_0000, alive, event, pinned, c.ref)
  }

  function SetFree(c: Cell, size: nat): Cell {
    SetDataId(c, FreeBlock, false, false, true, size)
  }

  class Memory {
    const cells: array<Cell>
    ghost var heads: set<nat>

    constructor (n: nat, c: Cell)
      ensures cells.Length == n && fresh(cells) && heads == {}
    {
      cells := new Cell[n](_ => c);
      heads := {};
    }
  }

  /** The address just behind the block that starts at a. */
  ghost function EndOf(m: seq<Cell>, a: nat): nat {
    if a < |m| then a + m[a].size else a
  }

  ghost predicate Free(m: seq<Cell>, a: nat) {
    a < |m| && m[a].dt.FreeBlock?
  }

  /** The headers in [lo, hi) cut that range into consecutive blocks without gap or overlap. */
  ghost predicate Tiled(m: seq<Cell>, heads: set<nat>, lo: nat, hi: nat) {
    && lo <= hi <= |m|
    && (lo < hi ==> lo in heads)
    && (forall a {:trigger EndOf(m, a)} :: a in heads && lo <= a < hi ==>
          a < EndOf(m, a) <= hi && (EndOf(m, a) < hi ==> EndOf(m, a) in heads))
    && (forall a, b {:trigger EndOf(m, a), b in heads} :: a in heads && b in heads && lo <= a < b < hi ==>
          EndOf(m, a) <= b)
  }

  /** The headers of the free blocks of [lo, hi). */
  ghost function FreeHeads(m: seq<Cell>, heads: set<nat>, lo: nat, hi: nat): set<nat> {
    set x | x in heads && lo <= x < hi && Free(m, x)
  }

  /** Free headers carry the flags the program gives them: pinned, neither alive nor event. */
  ghost predicate FreeFlags(m: seq<Cell>, heads: set<nat>, lo: nat, hi: nat) {
    forall x {:trigger Free(m, x)} :: x in heads && lo <= x < hi && Free(m, x) ==> m[x].pinned && !m[x].alive && !m[x].event
  }

  /** No free block is directly followed by another one. */
  ghost predicate Coalesced(m: seq<Cell>, heads: set<nat>, lo: nat, hi: nat) {
    forall x {:trigger EndOf(m, x)} :: x in heads && lo <= x < hi && Free(m, x) && EndOf(m, x) < hi ==> !Free(m, EndOf(m, x))
  }

  /** The state of a cluster between two operations. */
  ghost predicate ClusterOk(m: seq<Cell>, heads: set<nat>, lo: nat, hi: nat, fl: seq<nat>) {
    && 0 < lo
    && hi - lo < HB_MAX_SIZE
    && Tiled(m, heads, lo, hi)
    && Lists(fl, FreeHeads(m, heads, lo, hi))
    && FreeFlags(m, heads, lo, hi)
    && Coalesced(m, heads, lo, hi)
  }

  /** The headers of [lo, hi) are the same in both memories, and so is what they say. */
  ghost predicate SameHeaders(m: seq<Cell>, heads: set<nat>, m': seq<Cell>, heads': set<nat>, lo: nat, hi: nat) {
    && |m'| == |m|
    && (forall a {:trigger a in heads'} :: lo <= a < hi ==> (a in heads' <==> a in heads))
    && (forall a {:trigger m'[a]} :: lo <= a < hi <= |m| && a in heads ==> m'[a] == m[a])
  }

  /** Nothing about a cluster depends on anything but its own headers. */
  lemma TiledFrame(m: seq<Cell>, heads: set<nat>, m': seq<Cell>, heads': set<nat>, lo: nat, hi: nat)
    requires Tiled(m, heads, lo, hi)
    requires SameHeaders(m, heads, m', heads', lo, hi)
    ensures Tiled(m', heads', lo, hi)
    ensures forall a {:trigger EndOf(m', a)} :: lo <= a < hi && a in heads ==> EndOf(m', a) == EndOf(m, a)
  {
    forall a {:trigger EndOf(m', a)} | a in heads && lo <= a < hi ensures EndOf(m', a) == EndOf(m, a) {}
  }

  lemma ClusterFrame(m: seq<Cell>, heads: set<nat>, m': seq<Cell>, heads': set<nat>, lo: nat, hi: nat, fl: seq<nat>)
    requires ClusterOk(m, heads, lo, hi, fl)
    requires SameHeaders(m, heads, m', heads', lo, hi)
    ensures ClusterOk(m', heads', lo, hi, fl)
  {
    TiledFrame(m, heads, m', heads', lo, hi);
    forall x {:trigger Free(m', x)} | x in heads && lo <= x < hi ensures Free(m', x) == Free(m, x) {}
    assert FreeHeads(m', heads', lo, hi) == FreeHeads(m, heads, lo, hi);
  }

  /** Cutting the block at src in two (or, when cut == src, rewriting its header) keeps the tiling. */
  lemma SplitTiled(m: seq<Cell>, heads: set<nat>, m': seq<Cell>, lo: nat, hi: nat, src: nat, cut: nat)
    requires Tiled(m, heads, lo, hi)
    requires src in heads && lo <= src < hi && src <= cut < EndOf(m, src)
    requires |m'| == |m|
    requires forall a {:trigger m'[a]} :: lo <= a < hi && !(src <= a < EndOf(m, src)) ==> m'[a] == m[a]
    requires EndOf(m', src) == if cut == src then EndOf(m, src) else cut
    requires cut < hi && EndOf(m', cut) == EndOf(m, src)
    ensures Tiled(m', heads + {cut}, lo, hi)
    ensures forall a {:trigger m'[a]} :: a in heads && lo <= a < hi && a != src ==> m'[a] == m[a] && EndOf(m', a) == EndOf(m, a)
  {
    forall a {:trigger m'[a]} | a in heads && lo <= a < hi && a != src ensures m'[a] == m[a] && EndOf(m', a) == EndOf(m, a) {
      assert a < src ==> EndOf(m, a) <= src;
    }
  }

  /** Merging all blocks of [src, end) into one keeps the tiling. */
  ghost function Merged(heads: set<nat>, src: nat, end: nat): set<nat> {
    set a | a in heads && !(src < a < end)
  }

  lemma MergeTiled(m: seq<Cell>, heads: set<nat>, m': seq<Cell>, lo: nat, hi: nat, src: nat, end: nat)
    requires Tiled(m, heads, lo, hi)
    requires src in heads && lo <= src < end <= hi && (end < hi ==> end in heads)
    requires |m'| == |m|
    requires forall a {:trigger m'[a]} :: lo <= a < hi && !(src <= a < end) ==> m'[a] == m[a]
    requires EndOf(m', src) == end
    ensures Tiled(m', Merged(heads, src, end), lo, hi)
    ensures forall a {:trigger EndOf(m', a)} :: a in Merged(heads, src, end) && lo <= a < hi && a != src ==> EndOf(m', a) == EndOf(m, a)
  {
    forall a {:trigger EndOf(m', a)} | a in Merged(heads, src, end) && lo <= a < hi && a != src
      ensures EndOf(m', a) == EndOf(m, a) && (a < src ==> EndOf(m, a) <= src)
    {
      assert m'[a] == m[a];
    }
  }
}
