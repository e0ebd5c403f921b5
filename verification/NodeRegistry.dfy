/** registry.go: a lossy table from frozen nodes to the addresses they were encoded at. */
module NodeRegistry {
  import opened Keys
  import opened Transducer
  import opened NodePool

  datatype RegistryCell = RegistryCell(addr: nat, node: BuilderNode?)

  ghost function CellNodes(cells: seq<RegistryCell>): set<BuilderNode> {
    set c | c in cells && c.node != null :: c.node
  }

  /** No node sits in two cells. */
  ghost predicate DistinctNodes(cells: seq<RegistryCell>) {
    forall i, j :: 0 <= i < j < |cells| && cells[i].node != null ==> cells[i].node != cells[j].node
  }

  /** Each cell but the one skipped names the address its node is encoded at. */
  ghost predicate CellsShow(g: Graph, cells: seq<RegistryCell>, skip: int)
    reads CellNodes(cells)
  {
    forall i :: 0 <= i < |cells| && i != skip && cells[i].node != null ==>
      cells[i].addr in g && g[cells[i].addr] == cells[i].node.View()
  }

  /** Cell i moved to s, those between moved up by one. */
  function Rotated(cells: seq<RegistryCell>, s: nat, i: nat): (r: seq<RegistryCell>)
    requires s <= i < |cells|
    ensures |r| == |cells|
  {
    cells[..s] + [cells[i]] + cells[s..i] + cells[i + 1..]
  }

  /** The place a cell of the rotated table comes from. */
  function Source(s: nat, i: nat, k: nat): nat
    requires s <= i
  {
    if k == s then i else if s < k <= i then k - 1 else k
  }

  lemma RotatedFirst(cells: seq<RegistryCell>, s: nat, i: nat)
    requires s <= i < |cells|
    ensures Rotated(cells, s, i)[s] == cells[i]
  {
    RotatedAt(cells, s, i, s);
  }

  lemma RotatedAt(cells: seq<RegistryCell>, s: nat, i: nat, k: nat)
    requires s <= i < |cells| && k < |cells|
    ensures Rotated(cells, s, i)[k] == cells[Source(s, i, k)]
  {
  }

  lemma RotatedKeeps(g: Graph, cells: seq<RegistryCell>, s: nat, i: nat, skip: int)
    requires s <= i < |cells| && DistinctNodes(cells)
    requires skip == -1 || skip == i
    requires CellsShow(g, cells, skip)
    ensures DistinctNodes(Rotated(cells, s, i))
    ensures CellsShow(g, Rotated(cells, s, i), if skip == i then s else -1)
    ensures CellNodes(Rotated(cells, s, i)) == CellNodes(cells)
  {
    hide Rotated;
    var r := Rotated(cells, s, i);
    forall k | 0 <= k < |r| ensures r[k] == cells[Source(s, i, k)] {
      RotatedAt(cells, s, i, k);
    }
    forall k | 0 <= k < |cells| ensures cells[k] in r {
      var to := if k == i then s else if s <= k < i then k + 1 else k;
      assert Source(s, i, to) == k;
      assert r[to] == cells[k];
    }
    forall a, b | 0 <= a < b < |r| && r[a].node != null ensures r[a].node != r[b].node {
      var x, y := Source(s, i, a), Source(s, i, b);
      assert x != y;
    }
  }

  lemma RotatedNot(cells: seq<RegistryCell>, i: nat)
    requires i < |cells|
    ensures Rotated(cells, i, i) == cells
  {
  }

  /** One swap takes a rotation one place further. */
  lemma RotatedOnce(cells: seq<RegistryCell>, k: nat, i: nat)
    requires 0 < k <= i < |cells|
    ensures var r := Rotated(cells, k, i); r[k - 1 := r[k]][k := r[k - 1]] == Rotated(cells, k - 1, i)
  {
  }

  const FNV_PRIME: bv64 := 1099511628211
  const FNV_BASIS: bv64 := 14695981039346656037

  function Bits(x: U64): bv64 {
    x as bv64
  }

  function Mixed(h: bv64, x: bv64): bv64 {
    (h ^ x) * FNV_PRIME
  }

  function HashTrans(h: bv64, t: Trans): bv64 {
    Mixed(Mixed(Mixed(h, Bits(t.input)), Bits(t.out)), Bits(t.addr % U64_LIMIT))
  }

  function Number(h: bv64): nat {
    h as nat
  }

  function BucketOf(h: nat, tableSize: nat): (bucket: nat)
    requires tableSize > 0
    ensures bucket < tableSize
  {
    h % tableSize
  }

  class Registry {
    const pool: BuilderNodePool
    const table: array<RegistryCell>
    const tableSize: nat
    const mruSize: nat

    ghost predicate Valid()
      reads this, table
    {
      && tableSize > 0 && mruSize > 0 && table.Length == tableSize * mruSize
      && DistinctNodes(table[..])
    }

    ghost function Nodes(): set<BuilderNode>
      reads this, table
    {
      CellNodes(table[..])
    }

    /** A table without cells has no place to answer with, so both sizes have to be positive. */
    constructor (p: BuilderNodePool, tableSize: nat, mruSize: nat)
      requires tableSize > 0 && mruSize > 0
      ensures Valid() && fresh(table) && pool == p && forall i :: 0 <= i < |table[..]| ==> table[..][i].node == null
    {
      pool := p;
      this.tableSize := tableSize;
      this.mruSize := mruSize;
      table := new RegistryCell[tableSize * mruSize](_ => RegistryCell(0, null));
      new;
    }

    /** The bucket of a node. Nothing but its range matters to correctness. */
    method Hash(b: BuilderNode) returns (bucket: nat)
      requires tableSize > 0
      ensures bucket < tableSize
    {
      hide Bits, Mixed, Number, BucketOf;
      var h := Mixed(Mixed(FNV_BASIS, if b.final then 1 else 0), Bits(b.finalOutput));
      for i := 0 to |b.trans| {
        h := HashTrans(h, b.trans[i]);
      }
      return BucketOf(Number(h), tableSize);
    }

    /**
     * Looks the node up. A hit answers the address of an encoded state equal to it; a miss leaves
     * the node in the cell answered, whose address the caller still has to fill in, and hands the
     * least recently used node of the bucket to the pool.
     */
    method Entry(node: BuilderNode, ghost g: Graph) returns (found: bool, addr: nat, cell: nat)
      requires Ready(node, g)
      modifies table, pool, Nodes()
      ensures Answered(node, g, found, addr, cell)
      ensures Nodes() <= old(Nodes()) + {node}
      ensures found ==> Nodes() == old(Nodes()) && pool.members == old(pool.members)
      ensures pool.members <= old(Nodes()) + old(pool.members)
    {
      var bucket := Hash(node);
      var start := mruSize * bucket;
      BucketInTable(bucket, tableSize, mruSize);
      var end := start + mruSize;
      if mruSize == 1 {
        found, addr, cell := OneCell(start, node, g);
      } else {
        found, addr, cell := ManyCells(start, end, node, g);
      }
    }

    ghost predicate Ready(node: BuilderNode, g: Graph)
      reads this, table, pool, pool.members, Nodes()
    {
      && Valid() && pool.Valid()
      && node !in Nodes() && node !in pool.members
      && pool.members !! Nodes()
      && CellsShow(g, table[..], -1)
    }

    ghost predicate Answered(node: BuilderNode, g: Graph, found: bool, addr: nat, cell: nat)
      reads this, table, pool, pool.members, Nodes(), node
    {
      && Valid() && pool.Valid() && node !in pool.members
      && pool.members !! Nodes()
      && CellsShow(g, table[..], if found then -1 else cell)
      && if found then addr in g && g[addr] == node.View() && node !in Nodes()
         else cell < table.Length && table[cell].node == node
    }

    /** The node in one cell is evicted to the pool and replaced. */
    method Replace(i: nat, node: BuilderNode, ghost g: Graph)
      requires i < table.Length && Ready(node, g)
      modifies table, pool, Nodes()
      ensures Answered(node, g, false, 0, i)
      ensures Nodes() <= old(Nodes()) + {node}
      ensures pool.members <= old(Nodes()) + old(pool.members)
    {
      var gone := table[i].node;
      assert gone != null ==> table[i] in table[..];
      pool.Put(gone);
      table[i] := table[i].(node := node);
      assert table[..] == old(table[..])[i := old(table[i]).(node := node)];
      ReplacedKeeps(old(table[..]), i, node);
      forall k | 0 <= k < table.Length && k != i && table[k].node != null
        ensures table[k].addr in g && g[table[k].addr] == table[k].node.View()
      {
        assert table[k] == old(table[..])[k] && table[k].node != gone;
      }
    }

    method OneCell(i: nat, node: BuilderNode, ghost g: Graph) returns (found: bool, addr: nat, cell: nat)
      requires i < table.Length && Ready(node, g)
      modifies table, pool, Nodes()
      ensures Answered(node, g, found, addr, cell)
      ensures Nodes() <= old(Nodes()) + {node}
      ensures found ==> Nodes() == old(Nodes()) && pool.members == old(pool.members)
      ensures pool.members <= old(Nodes()) + old(pool.members)
    {
      if table[i].node != null {
        var same := table[i].node.Equiv(node);
        if same {
          return true, table[i].addr, 0;
        }
      }
      Replace(i, node, g);
      return false, 0, i;
    }

    method ManyCells(start: nat, end: nat, node: BuilderNode, ghost g: Graph)
      returns (found: bool, addr: nat, cell: nat)
      requires start < end <= table.Length && Ready(node, g)
      modifies table, pool, Nodes()
      ensures Answered(node, g, found, addr, cell)
      ensures Nodes() <= old(Nodes()) + {node}
      ensures found ==> Nodes() == old(Nodes()) && pool.members == old(pool.members)
      ensures pool.members <= old(Nodes()) + old(pool.members)
    {
      for i := start to end
        invariant table[..] == old(table[..]) && pool.members == old(pool.members) && Ready(node, g)
      {
        if table[i].node != null {
          var same := table[i].node.Equiv(node);
          if same {
            addr := Hit(start, i, node, g);
            return true, addr, 0;
          }
        }
      }
      Miss(start, end - 1, node, g);
      return false, 0, start;
    }

    /** A cell that holds an equal node, promoted. */
    method Hit(start: nat, i: nat, node: BuilderNode, ghost g: Graph) returns (addr: nat)
      requires start <= i < table.Length && Ready(node, g)
      requires table[i].node != null && table[i].node.View() == node.View()
      modifies table
      ensures Answered(node, g, true, addr, 0) && Nodes() == old(Nodes())
    {
      hide Rotated;
      addr := table[i].addr;
      RotatedKeeps(g, table[..], start, i, -1);
      Promote(start, i);
    }

    /** The last cell of the bucket given to the node, and promoted. */
    method Miss(start: nat, last: nat, node: BuilderNode, ghost g: Graph)
      requires start <= last < table.Length && Ready(node, g)
      modifies table, pool, Nodes()
      ensures Answered(node, g, false, 0, start)
      ensures Nodes() <= old(Nodes()) + {node}
      ensures pool.members <= old(Nodes()) + old(pool.members)
    {
      hide Rotated;
      Replace(last, node, g);
      RotatedKeeps(g, table[..], start, last, last);
      RotatedFirst(table[..], start, last);
      Promote(start, last);
    }

    /** Bubbles cell i of the bucket that begins at start to the bucket's front. */
    method Promote(start: nat, i: nat)
      requires start <= i < table.Length
      modifies table
      ensures table[..] == Rotated(old(table[..]), start, i)
    {
      hide Rotated;
      var k := i;
      RotatedNot(table[..], i);
      while k > start
        invariant start <= k <= i
        invariant table[..] == Rotated(old(table[..]), k, i)
      {
        RotatedOnce(old(table[..]), k, i);
        Swap(k - 1, k);
        k := k - 1;
      }
    }

    method Swap(i: nat, j: nat)
      requires i < table.Length && j < table.Length
      modifies table
      ensures table[..] == old(table[..])[i := old(table[j])][j := old(table[i])]
    {
      table[i], table[j] := table[j], table[i];
    }
  }

  lemma BucketInTable(bucket: nat, tableSize: nat, mruSize: nat)
    requires bucket < tableSize
    ensures mruSize * bucket + mruSize <= tableSize * mruSize
  {
    assert mruSize * (bucket + 1) <= mruSize * tableSize;
  }

  lemma ReplacedKeeps(cells: seq<RegistryCell>, i: nat, node: BuilderNode)
    requires i < |cells| && DistinctNodes(cells) && node !in CellNodes(cells)
    ensures var r := cells[i := cells[i].(node := node)];
      && DistinctNodes(r) && CellNodes(r) <= CellNodes(cells) + {node}
      && (cells[i].node != null ==> cells[i].node !in CellNodes(r))
  {
    var r := cells[i := cells[i].(node := node)];
    forall c | c in cells && c.node != null ensures c.node != node {
      assert c.node in CellNodes(cells);
    }
    forall n | n in CellNodes(r) ensures n in CellNodes(cells) + {node} && n != cells[i].node {
      var c :| c in r && c.node == n;
      var k :| 0 <= k < |r| && r[k] == c;
      if k != i { assert cells[k] in cells; }
      else { assert cells[i].node != null ==> cells[i].node in CellNodes(cells); }
    }
  }
}
