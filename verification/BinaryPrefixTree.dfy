/** The binary tree that spells out a prefix code.

    `Trie` is the shape of a tree as a value; `Node` is the tree of the source, allocated node by
    node. Every node carries its shape as ghost state.
 */
module BinaryPrefixTree {
  import opened CodeSymbols

  datatype Trie = Vacant | Leaf(value: nat) | Branch(zero: Trie, one: Trie) {
    function Child(b: bool): Trie {
      if Branch? then (if b then one else zero) else Vacant
    }
  }

  /** The slot at the end of `path` is reached through branches and is vacant. */
  predicate CanInsert(t: Trie, path: seq<bool>) {
    match t
    case Vacant => true
    case Leaf(_) => false
    case Branch(_, _) => path != [] && CanInsert(t.Child(path[0]), path[1..])
  }

  function Insert(t: Trie, path: seq<bool>, value: nat): Trie
    requires CanInsert(t, path)
    decreases path
  {
    if path == [] then Leaf(value)
    else
      var child := Insert(t.Child(path[0]), path[1..], value);
      if path[0] then Branch(t.Child(false), child) else Branch(child, t.Child(true))
  }

  /** There is a leaf with `value` at the end of `path`. */
  predicate HasLeaf(t: Trie, path: seq<bool>, value: nat) {
    match t
    case Vacant => false
    case Leaf(v) => path == [] && v == value
    case Branch(_, _) => path != [] && HasLeaf(t.Child(path[0]), path[1..], value)
  }

  /** Every branch leads somewhere. */
  predicate Grown(t: Trie) {
    t.Branch? ==> (t.zero != Vacant || t.one != Vacant) && Grown(t.zero) && Grown(t.one)
  }

  function Down(t: Trie, path: seq<bool>): Trie {
    if path == [] then t
    else if t.Branch? then Down(t.Child(path[0]), path[1..])
    else Vacant
  }

  // ----- tries

  lemma {:induction false} InsertAddsOneLeaf(t: Trie, path: seq<bool>, value: nat, p: seq<bool>, v: nat)
    requires CanInsert(t, path)
    ensures HasLeaf(Insert(t, path, value), p, v) <==> (p == path && v == value) || HasLeaf(t, p, v)
    decreases path
  {
    if path != [] && p != [] {
      assert p == path <==> p[0] == path[0] && p[1..] == path[1..] by {
        if p[0] == path[0] && p[1..] == path[1..] {
          assert p == [p[0]] + p[1..] && path == [path[0]] + path[1..];
        }
      }
      InsertAddsOneLeaf(t.Child(path[0]), path[1..], value, p[1..], v);
    }
  }

  lemma {:induction false} InsertGrows(t: Trie, path: seq<bool>, value: nat)
    requires CanInsert(t, path) && Grown(t)
    ensures Grown(Insert(t, path, value)) && Insert(t, path, value) != Vacant
    decreases path
  {
    if path != [] {
      InsertGrows(t.Child(path[0]), path[1..], value);
    }
  }

  /** A grown tree has a leaf. */
  lemma {:induction false} SomeLeaf(t: Trie) returns (p: seq<bool>, v: nat)
    requires Grown(t) && t != Vacant
    ensures HasLeaf(t, p, v)
    ensures t.Branch? ==> p != []
  {
    if t.Leaf? {
      p, v := [], t.value;
    } else {
      var b := t.one != Vacant;
      var q;
      q, v := SomeLeaf(t.Child(b));
      p := [b] + q;
    }
  }

  /** A path that no leaf is on, and that is not inside a leaf's path, is free. */
  lemma {:induction false} ApartCanInsert(t: Trie, path: seq<bool>)
    requires Grown(t)
    requires forall p, v :: HasLeaf(t, p, v) ==> !(p <= path) && !(path <= p)
    ensures CanInsert(t, path)
  {
    if t != Vacant {
      var q, x := SomeLeaf(t);
      if t.Branch? {
        var child := t.Child(path[0]);
        forall p, v | HasLeaf(child, p, v)
          ensures !(p <= path[1..]) && !(path[1..] <= p)
        {
          LeafBelow(t, path, p, v);
        }
        ApartCanInsert(child, path[1..]);
      }
    }
  }

  lemma LeafBelow(t: Trie, path: seq<bool>, p: seq<bool>, v: nat)
    requires t.Branch? && path != [] && HasLeaf(t.Child(path[0]), p, v)
    ensures HasLeaf(t, [path[0]] + p, v)
    ensures p <= path[1..] <==> [path[0]] + p <= path
    ensures path[1..] <= p <==> path <= [path[0]] + p
  {
    var q := [path[0]] + p;
    assert q[1..] == p && path == [path[0]] + path[1..];
  }

  lemma {:induction false} DownOneMore(t: Trie, path: seq<bool>, b: bool)
    ensures Down(t, path + [b]) == Down(t, path).Child(b)
  {
    if path == [] {
      assert path + [b] == [b] && [b][1..] == [];
    } else {
      assert (path + [b])[1..] == path[1..] + [b];
      if t.Branch? {
        DownOneMore(t.Child(path[0]), path[1..], b);
      }
    }
  }

  lemma {:induction false} LeavesBelow(t: Trie, path: seq<bool>, rest: seq<bool>, v: nat)
    requires path != [] || rest != [] || t.Leaf?
    ensures HasLeaf(t, path + rest, v) <==> HasLeaf(Down(t, path), rest, v)
  {
    if path == [] {
      assert path + rest == rest;
    } else if t.Branch? {
      assert (path + rest)[1..] == path[1..] + rest;
      if path[1..] == [] {
        assert path[1..] + rest == rest;
      } else {
        LeavesBelow(t.Child(path[0]), path[1..], rest, v);
      }
    }
  }

  lemma {:induction false} DownGrown(t: Trie, path: seq<bool>)
    requires Grown(t)
    ensures Grown(Down(t, path))
  {
    if path != [] && t.Branch? {
      DownGrown(t.Child(path[0]), path[1..]);
    }
  }

  // ----- the tree of a code

  /** The leaves are exactly the first `k` symbols with their values. */
  ghost predicate SpellsOut(t: Trie, symbols: seq<CodeSymbol>, values: seq<nat>, k: nat)
    requires k <= |symbols| == |values|
  {
    && Grown(t)
    && (k > 0 ==> t.Branch?)
    && forall p, v :: HasLeaf(t, p, v) <==> exists i :: 0 <= i < k && p == symbols[i].Bits() && v == values[i]
  }

  lemma NextSymbolIsApart(t: Trie, symbols: seq<CodeSymbol>, values: seq<nat>, k: nat)
    requires k < |symbols| == |values| && PrefixFree(symbols) && SpellsOut(t, symbols, values, k)
    ensures CanInsert(t, symbols[k].Bits())
  {
    ApartCanInsert(t, symbols[k].Bits());
  }

  lemma NextSymbolSpelled(t: Trie, symbols: seq<CodeSymbol>, values: seq<nat>, k: nat)
    requires k < |symbols| == |values| && symbols[k].len > 0
    requires SpellsOut(t, symbols, values, k) && CanInsert(t, symbols[k].Bits())
    ensures SpellsOut(Insert(t, symbols[k].Bits(), values[k]), symbols, values, k + 1)
  {
    var path := symbols[k].Bits();
    InsertGrows(t, path, values[k]);
    forall p, v
      ensures HasLeaf(Insert(t, path, values[k]), p, v) <==>
              exists i :: 0 <= i < k + 1 && p == symbols[i].Bits() && v == values[i]
    {
      InsertAddsOneLeaf(t, path, values[k], p, v);
    }
  }

  // ----- nodes

  class Node {
    const isLeaf: bool
    const value: nat
    var bud0: Node?
    var bud1: Node?

    ghost var Repr: set<Node>
    ghost var shape: Trie

    ghost predicate Valid()
      reads this, Repr
      decreases Repr
    {
      && this in Repr
      && (bud0 != null ==> bud0 in Repr && bud0.Repr < Repr && this !in bud0.Repr && bud0.Valid())
      && (bud1 != null ==> bud1 in Repr && bud1.Repr < Repr && this !in bud1.Repr && bud1.Valid())
      && (bud0 != null && bud1 != null ==> bud0.Repr !! bud1.Repr)
      && (isLeaf ==> bud0 == null && bud1 == null)
      && shape == if isLeaf then Leaf(value) else Branch(ShapeOf(bud0), ShapeOf(bud1))
    }

    constructor NewLeaf(value: nat)
      ensures Valid() && Repr == {this} && shape == Leaf(value)
    {
      isLeaf, this.value := true, value;
      bud0, bud1 := null, null;
      Repr, shape := {this}, Leaf(value);
    }

    constructor NewBranch()
      ensures Valid() && Repr == {this} && shape == Branch(Vacant, Vacant)
    {
      isLeaf, value := false, 0;
      bud0, bud1 := null, null;
      Repr, shape := {this}, Branch(Vacant, Vacant);
    }

    /** `buds[bit]` of a branch. */
    function Bud(bit: bool): Node?
      reads this
    {
      if bit then bud1 else bud0
    }
  }

  ghost function ShapeOf(bud: Node?): Trie
    reads bud
  {
    if bud == null then Vacant else bud.shape
  }

  /** Walks down `path` from `bud`, allocating branches where there are none, and puts a leaf at
      its end. The loop of the source is a recursion here. */
  method AddAt(bud: Node?, path: seq<bool>, value: nat) returns (node: Node)
    requires bud != null ==> bud.Valid()
    requires CanInsert(ShapeOf(bud), path)
    modifies if bud == null then {} else bud.Repr
    ensures node.Valid() && node.shape == Insert(old(ShapeOf(bud)), path, value)
    ensures bud == null ==> fresh(node.Repr)
    ensures bud != null ==> node == bud && fresh(node.Repr - old(bud.Repr))
    decreases path
  {
    if path == [] {
      node := new Node.NewLeaf(value);
      return;
    }
    if bud == null {
      node := new Node.NewBranch();
    } else {
      node := bud;
    }
    var child := AddAt(node.Bud(path[0]), path[1..], value);
    Attach(node, path[0], child);
  }

  /** Hangs `child` into a branch whose other bud is in order. */
  method Attach(node: Node, bit: bool, child: Node)
    requires !node.isLeaf && child.Valid() && node !in child.Repr
    requires
      var other := node.Bud(!bit);
      other != null ==> other.Valid() && node !in other.Repr && other.Repr !! child.Repr && other.Repr <= node.Repr
    modifies node
    ensures node.Valid() && node.Repr == old(node.Repr) + {node} + child.Repr
    ensures
      var other := old(ShapeOf(node.Bud(!bit)));
      node.shape == if bit then Branch(other, child.shape) else Branch(child.shape, other)
  {
    if bit {
      node.bud1 := child;
    } else {
      node.bud0 := child;
    }
    node.Repr := node.Repr + {node} + child.Repr;
    node.shape := Branch(ShapeOf(node.bud0), ShapeOf(node.bud1));
  }

  class Tree {
    var root: Node?
    ghost var shape: Trie

    ghost predicate Valid()
      reads this, root, if root == null then {} else root.Repr
    {
      && shape == ShapeOf(root)
      && (root != null ==> root.Valid())
    }

    constructor ()
      ensures Valid() && root == null && shape == Vacant
    {
      root := null;
      shape := Vacant;
    }

    /** Adds one symbol. Its place must be free. */
    method Add(symbol: CodeSymbol, value: nat)
      requires Valid() && CanInsert(shape, symbol.Bits())
      modifies this, if root == null then {} else root.Repr
      ensures Valid() && shape == Insert(old(shape), symbol.Bits(), value) && root != null
      ensures old(root) == null ==> fresh(root.Repr)
      ensures old(root) != null ==> fresh(root.Repr - old(root.Repr))
    {
      root := AddAt(root, symbol.Bits(), value);
      shape := root.shape;
    }
  }
}
