/** The decoder that walks a binary tree, one branch per bit. */
module TreeDecoder {
  import opened Bits
  import opened BitStreamer
  import opened CodeSymbols
  import opened PrefixCodes
  import opened BinaryPrefixTree
  import opened Decoding
  import opened Results

  // ----- what a position in the tree says about the code

  /** A leaf on the way of `w` is the matching symbol. */
  lemma LeafIsMatch(code: PrefixCode, t: Trie, w: seq<bool>, l: nat, v: nat) returns (i: nat)
    requires code.Valid() && SpellsOut(t, code.symbols, code.codeValues, |code.symbols|)
    requires 0 < l <= |w| && Down(t, w[..l]) == Leaf(v)
    ensures Matches(code.symbols, w, i) && code.symbols[i].len == l && code.codeValues[i] == v
  {
    LeavesBelow(t, w[..l], [], v);
    assert w[..l] + [] == w[..l];
    i :| 0 <= i < |code.symbols| && w[..l] == code.symbols[i].Bits() && v == code.codeValues[i];
  }

  /** Every matching symbol is a leaf on the way of `w`. */
  lemma MatchIsLeaf(code: PrefixCode, t: Trie, w: seq<bool>, i: nat, l: nat)
    requires code.Valid() && SpellsOut(t, code.symbols, code.codeValues, |code.symbols|)
    requires Matches(code.symbols, w, i) && 0 < l <= code.symbols[i].len
    ensures
      var bits := code.symbols[i].Bits();
      l <= |w| && bits[..l] == w[..l] && HasLeaf(Down(t, w[..l]), bits[l..], code.codeValues[i])
  {
    var bits := code.symbols[i].Bits();
    assert HasLeaf(t, bits, code.codeValues[i]);
    assert bits[..l] + bits[l..] == bits;
    LeavesBelow(t, bits[..l], bits[l..], code.codeValues[i]);
  }

  /** A branch on the way of `w` rules out the symbols seen so far, and there is more to read. */
  lemma BranchGoesOn(code: PrefixCode, t: Trie, w: seq<bool>, l: nat)
    requires code.Valid() && SpellsOut(t, code.symbols, code.codeValues, |code.symbols|)
    requires l <= |w| && Down(t, w[..l]).Branch? && (l > 0 ==> NoneUpTo(code.symbols, w, l - 1))
    ensures NoneUpTo(code.symbols, w, l) && l < code.MaxCodeLength()
  {
    NothingEmpty(code, w);
    forall i: nat | Matches(code.symbols, w, i)
      ensures code.symbols[i].len > l
    {
      if l > 0 && code.symbols[i].len == l {
        MatchIsLeaf(code, t, w, i, l);
      }
    }
    DownGrown(t, w[..l]);
    var q, v := SomeLeaf(Down(t, w[..l]));
    var path := w[..l] + q;
    LeavesBelow(t, w[..l], q, v);
    var i :| 0 <= i < |code.symbols| && path == code.symbols[i].Bits() && v == code.codeValues[i];
    CountOfSymbol(code.symbols, code.tag.MaxCodeLength(), i);
  }

  /** Running out of the tree means that no symbol matches. */
  lemma VacantIsNoMatch(code: PrefixCode, t: Trie, w: seq<bool>, l: nat)
    requires code.Valid() && SpellsOut(t, code.symbols, code.codeValues, |code.symbols|)
    requires 0 < l <= |w| && Down(t, w[..l]) == Vacant && NoneUpTo(code.symbols, w, l - 1)
    ensures NoMatch(code.symbols, w)
  {
    forall i: nat
      ensures !Matches(code.symbols, w, i)
    {
      if Matches(code.symbols, w, i) {
        MatchIsLeaf(code, t, w, i, l);
      }
    }
  }

  lemma NextDown(t: Trie, w: seq<bool>, l: nat)
    requires l < |w|
    ensures Down(t, w[..l + 1]) == Down(t, w[..l]).Child(w[l])
  {
    assert w[..l + 1] == w[..l] + [w[l]];
    DownOneMore(t, w[..l], w[l]);
  }

  /** What one step down the tree finds. */
  datatype Walked = Nothing | FoundLeaf(value: nat) | GoOn(next: Node)

  class PrefixCodeTreeDecoder {
    const code: PrefixCode
    const tree: Tree
    var mode: Mode

    ghost predicate Valid()
      reads this, tree, tree.root, if tree.root == null then {} else tree.root.Repr
    {
      && Usable(code, mode)
      && tree.Valid() && tree.root != null
      && SpellsOut(tree.shape, code.symbols, code.codeValues, |code.symbols|)
    }

    constructor (code: PrefixCode)
      requires code.Valid()
      ensures this.code == code
      ensures fresh(tree) && tree.Valid() && tree.root == null
    {
      this.code := code;
      mode := Mode(true, false);
      tree := new Tree();
    }

    /** Adds the symbols in order. No place is ever taken, no leaf is ever in the way. */
    method Setup(fullDecode: bool, fixDNGBug16: bool) returns (r: Result<(), SetupError>)
      requires code.Valid() && (fullDecode ==> code.tag.SupportsFullDecode())
      requires tree.Valid() && tree.root == null
      modifies this, tree
      ensures mode == Mode(fullDecode, fixDNGBug16)
      ensures r.Ok? <==> Usable(code, mode)
      ensures r.Ok? ==> Valid() && fresh(tree.root.Repr)
    {
      mode := Mode(fullDecode, fixDNGBug16);
      r := CheckSetup(code, mode);
      if r.Err? {
        return;
      }
      NothingSpelled(code);
      var codeIndex := 0;
      while codeIndex != |code.symbols|
        invariant 0 <= codeIndex <= |code.symbols|
        invariant mode == Mode(fullDecode, fixDNGBug16)
        invariant tree.Valid() && (tree.root != null ==> fresh(tree.root.Repr))
        invariant codeIndex > 0 ==> tree.root != null
        invariant SpellsOut(tree.shape, code.symbols, code.codeValues, codeIndex)
      {
        hide SpellsOut, Usable;
        assert code.symbols[codeIndex].Fits(code.tag.MaxCodeLength());
        NextSymbolIsApart(tree.shape, code.symbols, code.codeValues, codeIndex);
        NextSymbolSpelled(tree.shape, code.symbols, code.codeValues, codeIndex);
        tree.Add(code.symbols[codeIndex], code.codeValues[codeIndex]);
        codeIndex := codeIndex + 1;
      }
    }

    lemma NothingSpelled(code: PrefixCode)
      requires code.Valid()
      ensures SpellsOut(Vacant, code.symbols, code.codeValues, 0)
    {
    }

    /** `top` is the branch reached after the first `l` bits of `w`. */
    ghost predicate At(top: Node, w: seq<bool>, l: nat)
      reads this, tree, tree.root, if tree.root == null then {} else tree.root.Repr
    {
      && tree.root != null
      && l <= |w| && top in tree.root.Repr && top.Repr <= tree.root.Repr && top.Valid()
      && top.shape == Down(tree.shape, w[..l]) && top.shape.Branch?
    }

    lemma RootIsBranch(w: seq<bool>)
      requires Valid()
      ensures At(tree.root, w, 0)
    {
      assert w[..0] == [];
      assert code.symbols[0].Fits(code.tag.MaxCodeLength());
    }

    /** One step of the walk: what `walkBinaryTree` finds in the direction of the next bit. */
    lemma StepFacts(top: Node, w: seq<bool>, l: nat)
      requires Valid() && At(top, w, l) && l < |w| && NoneUpTo(code.symbols, w, l)
      ensures !top.isLeaf
      ensures top.Bud(w[l]) == null ==> NoMatch(code.symbols, w)
      ensures top.Bud(w[l]) != null && !top.Bud(w[l]).isLeaf ==>
                At(top.Bud(w[l]), w, l + 1) && NoneUpTo(code.symbols, w, l + 1) && l + 1 < code.MaxCodeLength()
    {
      NextDown(tree.shape, w, l);
      var bud := top.Bud(w[l]);
      if bud == null {
        VacantIsNoMatch(code, tree.shape, w, l + 1);
      } else if !bud.isLeaf {
        assert bud.Valid() && bud.shape.Branch?;
        BranchGoesOn(code, tree.shape, w, l + 1);
      }
    }

    lemma LeafFacts(top: Node, w: seq<bool>, l: nat) returns (i: nat)
      requires Valid() && At(top, w, l) && l < |w|
      requires top.Bud(w[l]) != null && top.Bud(w[l]).isLeaf
      ensures Matches(code.symbols, w, i)
      ensures code.symbols[i].len == l + 1 && code.codeValues[i] == top.Bud(w[l]).value
    {
      NextDown(tree.shape, w, l);
      assert top.Bud(w[l]).Valid() && top.Bud(w[l]).shape.Leaf?;
      i := LeafIsMatch(code, tree.shape, w, l + 1, top.Bud(w[l]).value);
    }

    /** One step in the direction of the next bit. */
    method WalkBinaryTree(top: Node, bit: bool, ghost w: seq<bool>, ghost l: nat)
      returns (walked: Walked, ghost i: nat)
      requires Valid() && At(top, w, l) && l < |w| && bit == w[l]
      requires NoneUpTo(code.symbols, w, l)
      ensures walked.Nothing? ==> NoMatch(code.symbols, w)
      ensures walked.FoundLeaf? ==> Matches(code.symbols, w, i)
                                    && code.symbols[i].len == l + 1 && code.codeValues[i] == walked.value
      ensures walked.GoOn? ==> At(walked.next, w, l + 1) && NoneUpTo(code.symbols, w, l + 1)
                               && l + 1 < code.MaxCodeLength()
    {
      StepFacts(top, w, l);
      i := 0;
      var newNode := top.Bud(bit);
      if newNode == null {
        return Nothing, i;
      }
      if newNode.isLeaf {
        i := LeafFacts(top, w, l);
        return FoundLeaf(newNode.value), i;
      }
      return GoOn(newNode), i;
    }

    method FinishReadingPartialSymbol(bs: BitStreamer, initialPartial: CodeSymbol, ghost w: seq<bool>, ghost from: nat)
      returns (r: Option<Found>, ghost i: nat)
      requires Valid() && Reading(bs, w, from, initialPartial)
      requires code.MaxCodeLength() <= |w|
      requires NoneUpTo(code.symbols, w, initialPartial.len)
      modifies bs`cache
      ensures Valid() && Finished(bs, code, w, from, r, i)
    {
      BitsRead(bs, w, from, initialPartial);
      i := 0;
      var start := TranslateBits(MsbBits(initialPartial.code, initialPartial.len), w);
      if start.Nothing? {
        return None, i;
      }
      r, i := ReadOn(bs, start.next, initialPartial, w, from);
    }

    /** Translates the bits that have been read before. */
    method TranslateBits(initialBits: seq<bool>, ghost w: seq<bool>) returns (start: Walked)
      requires Valid() && initialBits <= w && NoneUpTo(code.symbols, w, |initialBits|)
      ensures start.Nothing? ==> NoMatch(code.symbols, w)
      ensures !start.FoundLeaf?
      ensures start.GoOn? ==> At(start.next, w, |initialBits|) && |initialBits| < code.MaxCodeLength()
    {
      RootIsBranch(w);
      NothingEmpty(code, w);
      BranchGoesOn(code, tree.shape, w, 0);
      hide Matches, SpellsOut, NoMatch, PrefixCode.Valid;
      start := GoOn(tree.root);
      var len := 0;
      while len != |initialBits|
        invariant 0 <= len <= |initialBits|
        invariant start.GoOn? && At(start.next, w, len) && NoneUpTo(code.symbols, w, len)
        invariant len < code.MaxCodeLength()
      {
        ghost var i;
        var top := start.next;
        start, i := WalkBinaryTree(top, initialBits[len], w, len);
        if start.Nothing? {
          return;
        }
        if start.FoundLeaf? {
          // The caller has ruled out all symbols as short as this one.
          assert false;
        }
        len := len + 1;
      }
    }

    /** Reads one bit and takes one step in its direction. */
    method ReadAndWalk(bs: BitStreamer, top: Node, partial: CodeSymbol, ghost w: seq<bool>, ghost from: nat)
      returns (longer: CodeSymbol, walked: Walked, ghost i: nat)
      requires Valid() && bs.Valid() && Reading(bs, w, from, partial) && partial.len < |w|
      requires At(top, w, partial.len) && NoneUpTo(code.symbols, w, partial.len)
      modifies bs`cache
      ensures Valid() && bs.Valid() && Reading(bs, w, from, longer) && longer.len == partial.len + 1
      ensures walked.Nothing? ==> NoMatch(code.symbols, w)
      ensures walked.FoundLeaf? ==> Matches(code.symbols, w, i)
                                    && code.symbols[i].len == longer.len && code.codeValues[i] == walked.value
      ensures walked.GoOn? ==> At(walked.next, w, longer.len) && NoneUpTo(code.symbols, w, longer.len)
                               && longer.len < code.MaxCodeLength()
    {
      hide Reading, Matches, SpellsOut, NoneUpTo, NoMatch, PrefixCode.Valid, At, Node.Valid, Tree.Valid, Valid;
      hide Usable, BitStreamer.Valid;
      longer := ReadBit(bs, partial, w, from);
      LastBit(bs, w, from, longer);
      walked, i := WalkBinaryTree(top, longer.code % 2 == 1, w, partial.len);
    }

    /** Reads bits until either the code is found or there is nothing in their direction. */
    method ReadOn(bs: BitStreamer, start: Node, initialPartial: CodeSymbol, ghost w: seq<bool>, ghost from: nat)
      returns (r: Option<Found>, ghost i: nat)
      requires Valid() && Reading(bs, w, from, initialPartial)
      requires initialPartial.len < code.MaxCodeLength() <= |w|
      requires At(start, w, initialPartial.len) && NoneUpTo(code.symbols, w, initialPartial.len)
      modifies bs`cache
      ensures Valid() && Finished(bs, code, w, from, r, i)
    {
      ReadingIsValid(bs, w, from, initialPartial);
      hide *;
      var top: Node := start;
      var partial := initialPartial;
      while true
        invariant Valid() && At(top, w, partial.len) && NoneUpTo(code.symbols, w, partial.len)
        invariant bs.Valid() && Reading(bs, w, from, partial) && partial.len < code.MaxCodeLength()
        decreases |w| - partial.len
      {
        var walked;
        partial, walked, i := ReadAndWalk(bs, top, partial, w, from);
        match walked {
          case Nothing =>
            NothingFound(bs, w, from, i);
            return None, i;
          case FoundLeaf(value) =>
            FoundIsSymbol(bs, w, from, partial, i);
            return Some(Found(partial, value)), i;
          case GoOn(next) =>
            top := next;
        }
      }
    }

    lemma NothingFound(bs: BitStreamer, w: seq<bool>, from: nat, i: nat)
      requires Valid() && bs.Valid() && NoMatch(code.symbols, w)
      ensures |code.symbols| == |code.codeValues| && Finished(bs, code, w, from, None, i)
    {
    }

    lemma FoundIsSymbol(bs: BitStreamer, w: seq<bool>, from: nat, partial: CodeSymbol, i: nat)
      requires Valid() && Reading(bs, w, from, partial)
      requires Matches(code.symbols, w, i) && code.symbols[i].len == partial.len
      ensures i < |code.symbols| == |code.codeValues| && partial == code.symbols[i]
      ensures Finished(bs, code, w, from, Some(Found(partial, code.codeValues[i])), i)
    {
      assert code.symbols[i].Fits(code.tag.MaxCodeLength());
      EqualIsMatch(code.symbols[i], w, partial);
    }

    method Decode(bs: BitStreamer) returns (d: Decoded)
      requires Valid() && bs.Valid() && CanUseWithPrefixCodes(bs.order)
      modifies bs
      ensures Valid() && bs.Valid()
      ensures DecodesTo(code, mode, old(bs.Upcoming(32)), old(bs.CanFill(32)), old(bs.Cursor()), d, bs.Cursor())
    {
      hide DecodeSpec, Reading, BitOrder.StreamBit;
      var ok := bs.Fill(32);
      if !ok {
        return OverRead;
      }
      ghost var w := bs.Upcoming(32);
      StartReading(bs, w);
      NothingEmpty(code, w);
      var r;
      ghost var i;
      r, i := FinishReadingPartialSymbol(bs, CodeSymbol(0, 0), w, bs.Cursor());
      d := FinishDecode(bs, code, mode, r, w, old(bs.Cursor()), i);
    }
  }

  /** The bits of a partial symbol are the ones that were read. */
  lemma BitsRead(bs: BitStreamer, w: seq<bool>, from: nat, partial: CodeSymbol)
    requires Reading(bs, w, from, partial)
    ensures bs.Valid() && partial.len <= |w| && MsbBits(partial.code, partial.len) == w[..partial.len]
  {
    MsbBitsOfValue(w[..partial.len]);
  }

  lemma ReadingIsValid(bs: BitStreamer, w: seq<bool>, from: nat, partial: CodeSymbol)
    requires Reading(bs, w, from, partial)
    ensures bs.Valid()
  {
  }

  lemma LastBit(bs: BitStreamer, w: seq<bool>, from: nat, partial: CodeSymbol)
    requires Reading(bs, w, from, partial) && partial.len > 0
    ensures partial.len <= |w| && (partial.code % 2 == 1 <==> w[partial.len - 1])
  {
    hide BitStreamer.Valid, BitOrder.StreamBit;
    var head := w[..partial.len];
    assert head[|head| - 1] == w[partial.len - 1];
  }
}
