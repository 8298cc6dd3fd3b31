// module/lpm_trie.h: a binary trie for longest-prefix match whose nodes are cells of a
// chain of fixed-size blocks.

module LpmTrie {
  import opened Machine
  import opened Prefixes

  /** TRIE_MEMORY_CELL_SIZE */
  const CELLS: int := 32768

  class Node {
    var l: Node?
    var r: Node?
    var asn: int
    var asIn: bool

    constructor ()
      ensures l == null && r == null && !asIn
    {
      l, r, asn, asIn := null, null, 0, false;
    }
  }

  /** trie_memory_t */
  class Block {
    var ln: nat
    var next: Block?
    const cells: seq<Node>

    constructor ()
      ensures ln == 0 && next == null && |cells| == CELLS && DistinctCells(cells)
      ensures forall n :: n in cells ==> fresh(n)
    {
      var s: seq<Node> := [];
      while |s| < CELLS
        invariant |s| <= CELLS && DistinctCells(s)
        invariant forall n :: n in s ==> fresh(n)
      {
        var n := new Node();
        s := s + [n];
      }
      ln, next, cells := 0, null, s;
    }
  }

  ghost predicate DistinctCells(s: seq<Node>) {
    forall i, j :: 0 <= i < j < |s| ==> s[i] != s[j]
  }

  ghost predicate DistinctBlocks(s: seq<Block>) {
    forall i, j :: 0 <= i < j < |s| ==> s[i] != s[j]
  }

  /** The blocks are distinct and each one's `next` is the following one. */
  ghost predicate Chained(blocks: seq<Block>)
    reads blocks`next
  {
    && DistinctBlocks(blocks)
    && forall i :: 0 <= i < |blocks| ==> blocks[i].next == Following(blocks, i)
  }

  ghost function Following(blocks: seq<Block>, i: nat): Block? {
    if i + 1 < |blocks| then blocks[i + 1] else null
  }

  /** The cells of the blocks are among the given nodes. */
  ghost predicate CellsIn(blocks: seq<Block>, cells: set<Node>) {
    forall b :: b in blocks ==> |b.cells| == CELLS && forall n :: n in b.cells ==> n in cells
  }

  /** The cells of a block from `ln` on are distinct and unused. */
  ghost predicate RoomIn(b: Block, used: set<Node>)
    reads b`ln
  {
    && b.ln < CELLS == |b.cells| && DistinctCells(b.cells)
    && forall i :: b.ln <= i < CELLS ==> b.cells[i] !in used
  }

  /** No two blocks have a cell in common. */
  ghost predicate Disjoint(blocks: seq<Block>) {
    forall b, c, n :: b in blocks && c in blocks && n in b.cells && n in c.cells ==> b == c
  }

  /** The last cell of every block is never handed out. */
  ghost predicate LastUnused(blocks: seq<Block>, used: set<Node>) {
    forall b :: b in blocks && |b.cells| == CELLS ==> b.cells[CELLS - 1] !in used
  }

  /** A cell of one block, not its last, is no block's last cell. */
  lemma NotALast(blocks: seq<Block>, used: set<Node>, b: Block, i: nat)
    requires Disjoint(blocks) && LastUnused(blocks, used) && b in blocks
    requires |b.cells| == CELLS && DistinctCells(b.cells) && i < CELLS - 1
    ensures LastUnused(blocks, used + {b.cells[i]})
  {
    forall c | c in blocks && |c.cells| == CELLS ensures c.cells[CELLS - 1] != b.cells[i] {
      assert c.cells[CELLS - 1] in c.cells && b.cells[i] in b.cells;
    }
  }

  /** Every node handed out is a cell of one of the blocks. */
  ghost predicate Housed(blocks: seq<Block>, used: set<Node>) {
    forall n :: n in used ==> exists b :: b in blocks && n in b.cells
  }

  /** The nodes are a tree: one node for each path, and a path's prefixes are paths. */
  ghost predicate IsTree(paths: map<Bits, Node>) {
    && [] in paths
    && (forall p :: p in paths && p != [] ==> p[..|p| - 1] in paths)
    && (forall p, q :: p in paths && q in paths && paths[p] == paths[q] ==> p == q)
  }

  ghost predicate Within(paths: map<Bits, Node>, used: set<Node>) {
    forall p :: p in paths ==> paths[p] in used
  }

  ghost function ChildOf(paths: map<Bits, Node>, p: Bits, bit: bool): Node? {
    if p + [bit] in paths then paths[p + [bit]] else null
  }

  lemma ExtensionsDiffer(p: Bits, b: bool, q: Bits, c: bool)
    requires p != q || b != c
    ensures p + [b] != q + [c]
  {
    if |p| == |q| && b == c {
      var i :| 0 <= i < |p| && p[i] != q[i];
      assert (p + [b])[i] != (q + [c])[i];
    } else if |p| == |q| {
      assert (p + [b])[|p|] != (q + [c])[|p|];
    }
  }

  /** A new node at the end of a missing link leaves a tree whose other links are the same. */
  lemma TreeGrows(paths: map<Bits, Node>, p: Bits, bit: bool, n: Node)
    requires IsTree(paths) && p in paths && p + [bit] !in paths && (forall q :: q in paths ==> paths[q] != n)
    ensures IsTree(paths[p + [bit] := n])
    ensures ChildOf(paths[p + [bit] := n], p, bit) == n
    ensures ChildOf(paths[p + [bit] := n], p + [bit], false) == null
    ensures ChildOf(paths[p + [bit] := n], p + [bit], true) == null
    ensures forall q, b: bool :: q in paths && (q != p || b != bit) ==>
      ChildOf(paths[p + [bit] := n], q, b) == ChildOf(paths, q, b)
  {
    var grown := paths[p + [bit] := n];
    assert (p + [bit])[..|p|] == p;
    forall b: bool ensures p + [bit] + [b] !in grown {
      assert (p + [bit] + [b])[..|p| + 1] == p + [bit];
      assert |p + [bit] + [b]| != |p + [bit]|;
    }
    forall q, b: bool | q in paths && (q != p || b != bit)
      ensures ChildOf(grown, q, b) == ChildOf(paths, q, b)
    {
      ExtensionsDiffer(q, b, p, bit);
    }
  }

  lemma SingleNode(paths: map<Bits, Node>, n: Node)
    requires paths == map[[] := n]
    ensures IsTree(paths) && Within(paths, {n})
    ensures ChildOf(paths, [], false) == null && ChildOf(paths, [], true) == null
  {
    assert paths[[]] == n;
  }

  /** What happens to a block when the arena is destroyed. */
  datatype Access = Reads(b: Block) | Frees(b: Block)

  ghost function FreedBy(trace: seq<Access>): seq<Block> {
    if trace == [] then []
    else FreedBy(trace[..|trace| - 1]) + if trace[|trace| - 1].Frees? then [trace[|trace| - 1].b] else []
  }

  /** Nothing is read or freed after it was freed. */
  ghost predicate UntouchedAfterFree(trace: seq<Access>) {
    forall i, j :: 0 <= i < j < |trace| && trace[i].Frees? ==> trace[j].b != trace[i].b
  }

  lemma NothingFreed()
    ensures FreedBy([]) == [] && UntouchedAfterFree([])
  {
  }

  lemma OneMoreFreed(trace: seq<Access>, b: Block)
    requires UntouchedAfterFree(trace) && forall a :: a in trace ==> a.b != b
    ensures FreedBy(trace + [Reads(b)] + [Frees(b)]) == FreedBy(trace) + [b]
    ensures UntouchedAfterFree(trace + [Reads(b)] + [Frees(b)])
  {
    var read := trace + [Reads(b)];
    assert read[..|trace|] == trace && (read + [Frees(b)])[..|read|] == read;
    assert forall i :: 0 <= i < |trace| ==> trace[i] in trace;
  }

  datatype View = View(l: Node?, r: Node?, asn: int, asIn: bool)

  ghost function Look(n: Node): View
    reads n
  {
    View(n.l, n.r, n.asn, n.asIn)
  }

  ghost function WithLink(v: View, bit: bool, n: Node): View {
    if bit then v.(r := n) else v.(l := n)
  }

  /** The node of a path has the links and the value that the paths and the table say. */
  ghost predicate Agrees(v: View, paths: map<Bits, Node>, table: map<Bits, int>, p: Bits) {
    && v.l == ChildOf(paths, p, false) && v.r == ChildOf(paths, p, true)
    && (v.asIn <==> p in table) && (p in table ==> v.asn == table[p])
  }

  lemma AgreesAfterGrowth(paths: map<Bits, Node>, table: map<Bits, int>, p: Bits, bit: bool, n: Node, q: Bits,
                          v: View, w: View)
    requires IsTree(paths) && p in paths && p + [bit] !in paths && table.Keys <= paths.Keys
    requires forall r :: r in paths ==> paths[r] != n
    requires q in paths ==> Agrees(v, paths, table, q)
    requires w == if q == p + [bit] then View(null, null, w.asn, false)
      else if q == p then WithLink(v, bit, n) else v
    requires q in paths || q == p + [bit]
    ensures Agrees(w, paths[p + [bit] := n], table, q)
  {
    TreeGrows(paths, p, bit, n);
    hide IsTree, ChildOf;
  }

  lemma {:induction false} PathsAreClosed(paths: map<Bits, Node>, bits: Bits, n: nat, k: nat)
    requires IsTree(paths) && n <= k <= |bits| && bits[..n] !in paths
    ensures bits[..k] !in paths
  {
    hide IsTree;
    if n < k {
      PathsAreClosed(paths, bits, n, k - 1);
      assert bits[..k][..k - 1] == bits[..k - 1];
      ParentIsPath(paths, bits[..k]);
    }
  }

  lemma ParentIsPath(paths: map<Bits, Node>, p: Bits)
    requires IsTree(paths) && p != []
    ensures p in paths ==> p[..|p| - 1] in paths
  {
  }

  /** What a search that has passed the nodes of an address holds. */
  ghost predicate Passed(table: map<Bits, int>, bits: Bits, found: bool, asn: int, as0: int) {
    match Longest(table, bits)
    case None => !found && asn == as0
    case Some(k) => found && k <= |bits| && bits[..k] in table && asn == table[bits[..k]]
  }

  lemma NothingPassed(table: map<Bits, int>, as0: int)
    ensures Passed(table, [], false, as0, as0)
  {
  }

  lemma Reached(table: map<Bits, int>, bits: Bits, n: nat)
    requires n < |bits|
    ensures bits[..n + 1][..n + 1] == bits[..n + 1]
    ensures forall k :: 0 <= k <= n ==> bits[..n + 1][..k] == bits[..n][..k]
  {
  }

  lemma PassedAnswers(puts: seq<PutRec>, bits: Bits, as0: int)
    ensures forall found, asn :: Passed(TableAfter(puts), bits, found, asn, as0) ==>
      && (found <==> exists i :: 0 <= i < |puts| && puts[i].prefix != [] && puts[i].prefix <= bits)
      && (found ==> exists j: nat :: Answers(puts, bits, j) && asn == puts[j].value)
      && (!found ==> asn == as0)
  {
    hide Longest, TableAfter, FirstPut;
    LongestAnswers(puts, bits);
  }

  class Trie {
    var root: Node?
    var first: Block?
    var last: Block?
    ghost var blocks: seq<Block>
    ghost var cells: set<Node>
    ghost var used: set<Node>
    ghost var paths: map<Bits, Node>
    ghost var table: map<Bits, int>
    ghost var puts: seq<PutRec>
    ghost var routes: seq<Route>

    /** The arena: the blocks are chained in order, the cells from `ln` on are unused. */
    ghost predicate Arena()
      reads this`blocks, this`cells, this`used, this`last, blocks`next, blocks`ln
    {
      && CellsIn(blocks, cells) && used <= cells && Housed(blocks, used) && Chained(blocks)
      && last == (if blocks == [] then null else blocks[|blocks| - 1])
      && (last != null ==> RoomIn(last, used))
      && Disjoint(blocks) && LastUnused(blocks, used)
    }

    /** The cell that the current block hands out next, if it has one. */
    ghost function NextCell(): (s: set<Node>)
      requires Arena()
      reads this`blocks, this`cells, this`used, this`last, blocks`next, blocks`ln
      ensures s <= cells && s !! used
    {
      if last == null || last.ln + 1 == CELLS then {} else {last.cells[last.ln]}
    }

    ghost function CurrentBlock(): (s: set<Block>)
      requires Arena()
      reads this`blocks, this`cells, this`used, this`last, blocks`next, blocks`ln
      ensures forall b :: b in s ==> b in blocks
    {
      if last == null then {} else {last}
    }

    /** Starts another block when there is none or the current one has a single cell left,
        which is never used. */
    method AddBlock()
      requires Arena()
      modifies this`last, this`blocks, this`cells, CurrentBlock()
      ensures Arena() && last != null && last.ln + 1 < CELLS
      ensures old(cells) <= cells
      ensures fresh(cells - old(cells)) && forall b :: b in blocks ==> b in old(blocks) || fresh(b)
      ensures last == old(last) || fresh(last)
      ensures forall n :: n in NextCell() ==> fresh(n) || n in old(NextCell())
      ensures blocks == if old(last == null || last.ln + 1 == CELLS) then old(blocks) + [last] else old(blocks)
    {
      if last == null || last.ln + 1 == CELLS {
        var b := new Block();
        Append(b);
      }
    }

    method Append(b: Block)
      requires Arena() && b !in blocks && b.ln == 0 && b.next == null
      requires |b.cells| == CELLS && DistinctCells(b.cells) && forall n :: n in b.cells ==> n !in cells
      modifies this`last, this`blocks, this`cells, CurrentBlock()`next, b`next
      ensures Arena() && last == b && blocks == old(blocks) + [b] && b.ln == 0
      ensures cells == old(cells) + set n | n in b.cells
    {
      hide DistinctCells, Disjoint, LastUnused, Housed;
      AppendKeeps(b);
      var pom := last;
      last := b;
      if pom != null {
        pom.next := last;
      }
      cells := cells + set n | n in b.cells;
      blocks := blocks + [b];
    }

    lemma AppendKeeps(b: Block)
      requires Arena() && |b.cells| == CELLS && forall n :: n in b.cells ==> n !in cells
      ensures Disjoint(blocks + [b]) && LastUnused(blocks + [b], used) && Housed(blocks + [b], used)
    {
      assert b.cells[CELLS - 1] in b.cells;
    }

    /** Hands out and clears the next cell of the current block. */
    method TakeCell() returns (n: Node)
      requires Arena() && last != null && last.ln + 1 < CELLS
      modifies this`used, last`ln, NextCell()
      ensures Arena() && NextCell() !! {n}
      ensures n in old(NextCell()) && n !in old(used) && used == old(used) + {n} && n in cells
      ensures n.l == null && n.r == null && !n.asIn
    {
      hide Chained, CellsIn, Disjoint, LastUnused, DistinctCells;
      InCells(last);
      LastIsABlock();
      NextIsFree();
      NotALast(blocks, used, last, last.ln);
      n := last.cells[last.ln];
      last.ln := last.ln + 1;
      n.asIn := false;
      n.l := null;
      n.r := null;
      used := used + {n};
      assert Housed(blocks, used);
    }

    lemma InCells(b: Block)
      requires Arena() && b in blocks
      ensures |b.cells| == CELLS && forall n :: n in b.cells ==> n in cells
    {
    }

    lemma NextIsFree()
      requires Arena() && last != null && last.ln + 1 < CELLS
      ensures |last.cells| == CELLS && forall i :: last.ln < i < CELLS ==> last.cells[i] != last.cells[last.ln]
    {
    }

    lemma LastIsABlock()
      requires Arena() && last != null
      ensures blocks != [] && last in blocks
    {
    }

    /** _node_malloc: an empty node that nobody holds. */
    method NodeMalloc() returns (n: Node)
      requires Arena()
      modifies this`last, this`blocks, this`cells, this`used, CurrentBlock(), NextCell()
      ensures Arena() && last != null && blocks != []
      ensures n !in old(used) && used == old(used) + {n} && n in cells
      ensures n.l == null && n.r == null && !n.asIn
      ensures blocks == if old(last == null || last.ln + 1 == CELLS) then old(blocks) + [last] else old(blocks)
      ensures old(cells) <= cells
      ensures fresh(cells - old(cells)) && forall b :: b in blocks ==> b in old(blocks) || fresh(b)
    {
      hide Arena, NextCell;
      AddBlock();
      n := TakeCell();
      LastIsABlock();
    }

    ghost predicate NodeAt(p: Bits)
      requires p in paths
      reads this`paths, this`table, paths[p]
    {
      Agrees(Look(paths[p]), paths, table, p)
    }

    ghost predicate Inv()
      reads this`root, this`first, this`last, this`blocks, this`cells, this`used, this`paths, this`table
      reads cells, blocks`next, blocks`ln
    {
      && Arena()
      && IsTree(paths) && root == paths[[]] && Within(paths, used)
      && table.Keys <= paths.Keys && [] !in table
      && (forall p {:trigger NodeAt(p)} :: p in paths ==> paths[p] in cells && NodeAt(p))
      && blocks != [] && first == blocks[0]
    }

    ghost predicate Valid()
      reads this, cells, blocks
    {
      Inv() && table == TableAfter(puts) && Recorded(routes, puts)
    }

    lemma EmptyArena()
      requires last == null && blocks == [] && cells == {} && used == {}
      ensures Arena()
    {
    }

    lemma LoneRoot(n: Node)
      requires Arena() && blocks != [] && first == blocks[0]
      requires root == n && paths == map[[] := n] && used == {n} && n in cells
      requires table == map[] && n.l == null && n.r == null && !n.asIn
      ensures Inv()
    {
      hide Arena, IsTree, ChildOf;
      SingleNode(paths, n);
      assert NodeAt([]);
    }

    /** trie_init */
    constructor ()
      ensures Valid() && puts == [] && routes == []
      ensures fresh(cells) && forall b :: b in blocks ==> fresh(b)
    {
      first, last, root := null, null, null;
      blocks, cells, used := [], {}, {};
      new;
      EmptyArena();
      MakeRoot();
    }

    method MakeRoot()
      requires Arena() && blocks == [] && cells == {} && used == {}
      modifies this
      ensures Valid() && puts == [] && routes == []
      ensures fresh(cells) && forall b :: b in blocks ==> fresh(b)
    {
      hide Inv, Arena, IsTree, ChildOf, NextCell, CurrentBlock;
      var n := NodeMalloc();
      root := n;
      first := last;
      paths, table, puts, routes := map[[] := n], map[], [], [];
      assert blocks == [last];
      LoneRoot(n);
    }

    method SetLink(current: Node, bit: bool, n: Node)
      modifies current`l, current`r
      ensures Look(current) == old(WithLink(Look(current), bit, n))
    {
      if bit {
        current.r := n;
      } else {
        current.l := n;
      }
    }

    /** Puts a new node on a missing link of one of the nodes. */
    method LinkNew(current: Node, bit: bool, ghost others: set<Node>) returns (n: Node)
      requires Arena() && current in used && others <= used && current !in others
      modifies this`last, this`blocks, this`cells, this`used, CurrentBlock(), NextCell(), current`l, current`r
      ensures Arena() && n !in old(used) && used == old(used) + {n} && n in cells
      ensures Look(current) == WithLink(old(Look(current)), bit, n) && Look(n) == View(null, null, n.asn, false)
      ensures forall o :: o in others ==> Look(o) == old(Look(o))
      ensures blocks == old(blocks) || blocks == old(blocks) + [last]
      ensures old(cells) <= cells
      ensures fresh(cells - old(cells)) && forall b :: b in blocks ==> b in old(blocks) || fresh(b)
    {
      hide Arena, NextCell, CurrentBlock;
      n := NodeMalloc();
      SetLink(current, bit, n);
    }

    /** What a tree with one more node needs to be valid. */
    lemma Grown(before: map<Bits, Node>, was: map<Bits, View>, p: Bits, bit: bool, n: Node)
      requires Arena() && IsTree(before) && p in before && p + [bit] !in before && n in used
      requires forall q :: q in before ==> before[q] != n && before[q] in used
      requires table.Keys <= before.Keys && [] !in table && used <= cells
      requires was.Keys == before.Keys && forall q :: q in before ==> Agrees(was[q], before, table, q)
      requires paths == before[p + [bit] := n] && root == before[[]] && blocks != [] && first == blocks[0]
      requires Look(before[p]) == WithLink(was[p], bit, n) && Look(n) == View(null, null, n.asn, false)
      requires forall q :: q in before && q != p ==> Look(before[q]) == was[q]
      ensures Inv()
    {
      hide Arena, IsTree, ChildOf, Agrees;
      TreeGrows(before, p, bit, n);
      forall q | q in paths ensures paths[q] in cells && NodeAt(q) {
        assert paths[q] in used;
        AgreesAfterGrowth(before, table, p, bit, n, q, if q in before then was[q] else Look(n), Look(paths[q]));
      }
    }

    /** Hangs a new node on a missing link of the node at p. */
    method AddChild(current: Node, ghost p: Bits, bit: bool) returns (n: Node)
      requires Inv() && p in paths && paths[p] == current && p + [bit] !in paths
      modifies this`last, this`blocks, this`cells, this`used, this`paths, (set b | b in blocks), cells
      ensures Inv() && paths == old(paths)[p + [bit] := n]
      ensures old(cells) <= cells
      ensures fresh(cells - old(cells)) && forall b :: b in blocks ==> b in old(blocks) || fresh(b)
    {
      hide Inv, Arena, IsTree, ChildOf, NextCell, CurrentBlock, Agrees, WithLink;
      Parts();
      OtherNodes(p);
      ghost var before, was := paths, map q | q in paths :: Look(paths[q]);
      ghost var others := used - {current};
      n := LinkNew(current, bit, others);
      paths := paths[p + [bit] := n];
      Grown(before, was, p, bit, n);
    }

    /** The parts of the invariant. */
    lemma Parts()
      requires Inv()
      ensures Arena() && IsTree(paths) && root == paths[[]] && Within(paths, used) && used <= cells
      ensures table.Keys <= paths.Keys && [] !in table && blocks != [] && first == blocks[0]
      ensures forall q :: q in paths ==> Agrees(Look(paths[q]), paths, table, q) && paths[q] in used
    {
      hide Agrees;
      assert forall q :: q in paths ==> NodeAt(q);
    }

    lemma OtherNodes(p: Bits)
      requires Inv() && p in paths
      ensures forall q :: q in paths && q != p ==> paths[q] != paths[p]
    {
    }

    lemma At(p: Bits)
      requires Inv() && p in paths
      ensures paths[p] in cells && Agrees(Look(paths[p]), paths, table, p)
    {
      hide Agrees;
      assert NodeAt(p);
    }

    /** Goes one bit down from the node at p, making the node below if it is missing. */
    method Step(current: Node, ghost p: Bits, bit: bool) returns (next: Node)
      requires Inv() && p in paths && paths[p] == current
      modifies this`last, this`blocks, this`cells, this`used, this`paths, (set b | b in blocks), cells
      ensures Inv() && p + [bit] in paths && next == paths[p + [bit]] && next in cells
      ensures old(cells) <= cells
      ensures fresh(cells - old(cells)) && forall b :: b in blocks ==> b in old(blocks) || fresh(b)
    {
      hide Inv;
      At(p);
      var child := if bit then current.r else current.l;
      if child == null {
        next := AddChild(current, p, bit);
      } else {
        next := child;
      }
      At(p + [bit]);
    }

    lemma Stored(before: map<Bits, int>, was: map<Bits, View>, p: Bits, asn: int)
      requires Arena() && IsTree(paths) && root == paths[[]] && Within(paths, used) && used <= cells
      requires before.Keys <= paths.Keys && [] !in before && blocks != [] && first == blocks[0]
      requires was.Keys == paths.Keys && forall q :: q in paths ==> Agrees(was[q], paths, before, q)
      requires p in paths && p != [] && table == before[p := asn]
      requires Look(paths[p]) == was[p].(asn := asn, asIn := true)
      requires forall q :: q in paths && q != p ==> Look(paths[q]) == was[q]
      ensures Inv()
    {
      hide Arena, IsTree, ChildOf;
      forall q | q in paths ensures paths[q] in cells && NodeAt(q) {
        assert paths[q] in used;
      }
    }

    method SetValue(current: Node, ghost p: Bits, asn: int)
      requires Inv() && p in paths && paths[p] == current && p != []
      modifies this`table, current`asIn, current`asn
      ensures Inv() && table == old(table)[p := asn]
    {
      hide Inv, Arena, IsTree, Agrees;
      Parts();
      OtherNodes(p);
      ghost var before, was := table, map q | q in paths :: Look(paths[q]);
      current.asIn := true;
      current.asn := asn;
      table := table[p := asn];
      Stored(before, was, p, asn);
    }

    /** The last bit of a put: the first value of a node stays. */
    method Store(current: Node, ghost p: Bits, asn: int) returns (collides: bool)
      requires Inv() && p in paths && paths[p] == current && p != []
      modifies this`table, current`asIn, current`asn
      ensures Inv() && table == PutInto(old(table), PutRec(p, asn))
      ensures collides <==> p in old(table) && old(table)[p] != asn
    {
      hide Inv;
      At(p);
      collides := false;
      if !current.asIn {
        SetValue(current, p, asn);
      } else if current.asn != asn {
        collides := true;
      }
    }

    lemma Root()
      requires Inv()
      ensures root != null && [] in paths && root == paths[[]] && [] !in table
    {
    }

    /** trie_node_put. `collides` says that the prefix already had another value, which stays. */
    method Put(ip: seq<byte>, cidr: byte, asn: int) returns (collides: bool)
      requires Valid() && cidr <= 8 * |ip|
      modifies this, (set b | b in blocks), cells
      ensures Valid() && routes == old(routes) + [Route(ip, cidr, asn)]
      ensures puts == old(puts) + [PutRec(BitsOf(ip, cidr), asn)]
      ensures table == PutInto(old(table), PutRec(BitsOf(ip, cidr), asn))
      ensures collides <==> BitsOf(ip, cidr) in old(table) && old(table)[BitsOf(ip, cidr)] != asn
      ensures old(cells) <= cells
      ensures fresh(cells - old(cells)) && forall b :: b in blocks ==> b in old(blocks) || fresh(b)
    {
      hide Inv, Arena, IsTree, Agrees, TableAfter, PutInto, Bit, BitsOf;
      ghost var bits, was := BitsOf(ip, cidr), table;
      Root();
      var current: Node := root;
      collides := false;
      var i := 0;
      while i < cidr
        invariant 0 <= i <= cidr && Inv() && bits[..i] in paths && current == paths[bits[..i]]
        invariant puts == old(puts) && routes == old(routes) && old(cells) <= cells
        invariant fresh(cells - old(cells)) && forall b :: b in blocks ==> b in old(blocks) || fresh(b)
        invariant table == if 0 < i == cidr then PutInto(was, PutRec(bits, asn)) else was
        invariant collides <==> 0 < i == cidr && bits in was && was[bits] != asn
      {
        assert bits[..i] + [bits[i]] == bits[..i + 1];
        current := Step(current, bits[..i], Bit(ip, i));
        if i + 1 == cidr {
          assert bits[..i + 1] == bits;
          collides := Store(current, bits, asn);
        }
        i := i + 1;
      }
      EmptyPut(was, PutRec(bits, asn));
      puts := puts + [PutRec(bits, asn)];
      routes := routes + [Route(ip, cidr, asn)];
      TableStep(old(puts), PutRec(bits, asn));
    }

    /** The search after n bits: the node reached and the last value passed. */
    ghost predicate SoFar(bits: Bits, n: nat, current: Node?, found: bool, asn: int, as0: int)
      requires n <= |bits|
      reads this`paths, this`table
    {
      && bits[..n] in paths && current == paths[bits[..n]]
      && Passed(table, bits[..n], found, asn, as0)
    }

    /** One bit of the search: `next` is the child's node or the end of the road. */
    lemma SearchStep(bits: Bits, n: nat, current: Node, next: Node?, found: bool, asn: int, as0: int)
      requires Inv() && n < |bits| && SoFar(bits, n, current, found, asn, as0)
      requires next == if bits[n] then current.r else current.l
      ensures next == null ==> Passed(table, bits, found, asn, as0)
      ensures next != null ==>
        SoFar(bits, n + 1, next, next.asIn || found, if next.asIn then next.asn else asn, as0)
    {
      hide Arena, IsTree, Longest;
      At(bits[..n]);
      assert bits[..n] + [bits[n]] == bits[..n + 1];
      if next == null {
        NoLonger(bits, n);
        LongestStops(table, bits, n);
        assert forall k :: 0 <= k <= n ==> bits[..n][..k] == bits[..k];
      } else {
        At(bits[..n + 1]);
        LongestStep(table, bits, n);
        Reached(table, bits, n);
      }
    }

    lemma NoLonger(bits: Bits, n: nat)
      requires Inv() && n < |bits| && bits[..n + 1] !in paths
      ensures forall k :: n < k <= |bits| ==> bits[..k] !in table
    {
      hide Arena, Agrees;
      forall k | n < k <= |bits| ensures bits[..k] !in paths {
        PathsAreClosed(paths, bits, n + 1, k);
      }
    }

    /** trie_node_search: the value of the longest network that was put and has the address, as
        the first put of that network gave it. `as0` is what the caller's variable holds before. */
    method Search(ip: seq<byte>, ln: byte, as0: int) returns (found: bool, asn: int)
      requires Valid() && ln <= |ip|
      ensures forall r :: r in routes ==> r.cidr <= 8 * |r.ip|
      ensures found <==> exists r :: r in routes && r.cidr > 0 && InNetwork(r, ip, ln)
      ensures found ==> exists j: nat :: BestRoute(routes, ip, ln, j) && asn == routes[j].asn
      ensures !found ==> asn == as0
    {
      hide Inv, Answers, BestRoute, InNetwork, BitsOf, Bit;
      RecordedFits(routes, puts);
      found, asn := SearchBits(ip, ln, as0);
      RoutesFound(routes, puts, ip, ln);
      if found {
        ghost var j: nat :| Answers(puts, BitsOf(ip, 8 * ln), j) && asn == puts[j].value;
        AnswersIsBestRoute(routes, puts, ip, ln, j);
      }
    }

    /** The loops of trie_node_search, on bit strings. */
    method SearchBits(ip: seq<byte>, ln: byte, as0: int) returns (found: bool, asn: int)
      requires Valid() && ln <= |ip|
      ensures found <==>
        exists i :: 0 <= i < |puts| && puts[i].prefix != [] && puts[i].prefix <= BitsOf(ip, 8 * ln)
      ensures found ==> exists j: nat :: Answers(puts, BitsOf(ip, 8 * ln), j) && asn == puts[j].value
      ensures !found ==> asn == as0
    {
      hide Inv, Answers, Longest, TableAfter;
      ghost var bits := BitsOf(ip, 8 * ln);
      Root();
      PassedAnswers(puts, bits, as0);
      NothingPassed(table, as0);
      assert bits[..0] == [];
      var current: Node := root;
      found, asn := false, as0;
      var i := 0;
      while i < ln
        invariant 0 <= i <= ln && SoFar(bits, 8 * i, current, found, asn, as0)
      {
        var u := 7;
        while u >= 0
          invariant -1 <= u <= 7 && SoFar(bits, 8 * i + 7 - u, current, found, asn, as0)
        {
          BitAt(ip, i, u);
          var next: Node? := if ip[i] / Pow2(u) % 2 > 0 then current.r else current.l;
          SearchStep(bits, 8 * i + 7 - u, current, next, found, asn, as0);
          if next == null {
            return;
          }
          current := next;
          if current.asIn {
            asn := current.asn;
            found := true;
          }
          u := u - 1;
        }
        i := i + 1;
      }
      assert bits[..8 * i] == bits;
    }

    /** In every reachable trie the last cell of each block is unused: no path leads to it. */
    lemma LastCellsUnused(b: Block, p: Bits)
      requires Inv() && b in blocks && p in paths
      ensures |b.cells| == 32768 && b.cells[32767] != paths[p]
    {
      hide IsTree, Chained, Housed, RoomIn, Disjoint;
    }

    /** trie_destroy: what it does to the blocks. Each block is freed once, none is touched after
        it was freed, and together they hold every node of the tree. */
    method Destroy() returns (trace: seq<Access>)
      requires Valid()
      ensures FreedBy(trace) == blocks && UntouchedAfterFree(trace)
      ensures DistinctBlocks(blocks) && Housed(blocks, set p | p in paths :: paths[p])
    {
      hide IsTree, TableAfter, RoomIn, CellsIn, Disjoint, LastUnused, FreedBy, UntouchedAfterFree;
      trace := [];
      NothingFreed();
      ghost var n := 0;
      var current := first;
      while current != null
        invariant n <= |blocks| && FreedBy(trace) == blocks[..n] && UntouchedAfterFree(trace)
        invariant forall a :: a in trace ==> a.b in blocks[..n]
        invariant current == if n < |blocks| then blocks[n] else null
        decreases |blocks| - n
      {
        assert current !in blocks[..n];
        OneMoreFreed(trace, current);
        trace := trace + [Reads(current)];
        var pom := current.next;
        trace := trace + [Frees(current)];
        n := n + 1;
        current := pom;
      }
    }
  }
}
