/** Prefix codes: construction from a list of symbols, with every check of the constructor. */
module PrefixCodes {
  import opened Bits
  import opened CodeSymbols
  import opened Kraft
  import opened Results

  datatype CodeError = EmptyAlphabet | MalformedCode | TooManyCodes | NotOrdered | NotPrefixCodes

  /** The value of a constructed `PrefixCode`. `nCodesPerLength` is indexed by code length. */
  datatype PrefixCode = PrefixCode(
    tag: CodeTag, symbols: seq<CodeSymbol>, codeValues: seq<nat>, nCodesPerLength: seq<nat>)
  {
    ghost predicate Valid() {
      && symbols != [] && |symbols| == |codeValues|
      && AllFit(symbols, tag.MaxCodeLength())
      && Ordered(symbols) && PrefixFree(symbols)
      && (forall v :: v in codeValues ==> v <= tag.MaxCodeValue())
      && |nCodesPerLength| > 1
      && IsTrimmed(Counts(symbols, tag.MaxCodeLength()), nCodesPerLength)
    }

    function MaxCodeLength(): int {
      |nCodesPerLength| - 1
    }
  }

  ghost function Words(symbols: seq<CodeSymbol>): (w: seq<seq<bool>>)
    ensures |w| == |symbols|
    ensures forall i :: 0 <= i < |w| ==> w[i] == symbols[i].Bits()
  {
    seq(|symbols|, i requires 0 <= i < |symbols| => symbols[i].Bits())
  }

  // ----- counting

  lemma {:induction false} UsedBump(n: seq<nat>, k: nat, l: nat)
    requires 0 < k < |n|
    ensures Used(n[k := n[k] + 1], l) == Used(n, l) + (if k <= l then Pow2(l - k) else 0)
  {
    if l > 0 {
      UsedBump(n, k, l - 1);
    }
  }

  lemma {:induction false} UsedOfZeros(n: seq<nat>, l: nat)
    requires forall i :: 0 <= i < |n| ==> n[i] == 0
    ensures Used(n, l) == 0
  {
    if l > 0 {
      UsedOfZeros(n, l - 1);
    }
  }

  lemma {:induction false} KraftSumSnoc(words: seq<seq<bool>>, x: seq<bool>, n: nat)
    requires |x| <= n && forall i :: 0 <= i < |words| ==> |words[i]| <= n
    ensures KraftSum(words + [x], n) == KraftSum(words, n) + Pow2(n - |x|)
  {
    if words == [] {
      assert (words + [x])[1..] == [];
    } else {
      assert (words + [x])[1..] == words[1..] + [x];
      KraftSumSnoc(words[1..], x, n);
    }
  }

  /** The table of counts carries all that Kraft's sum depends on. */
  lemma {:induction false} KraftSumIsUsed(symbols: seq<CodeSymbol>, maxLen: nat)
    requires AllFit(symbols, maxLen)
    ensures KraftSum(Words(symbols), maxLen) == Used(Counts(symbols, maxLen), maxLen)
  {
    if symbols == [] {
      UsedOfZeros(Counts(symbols, maxLen), maxLen);
    } else {
      var init, last := symbols[..|symbols| - 1], symbols[|symbols| - 1];
      assert last.Fits(maxLen);
      KraftSumIsUsed(init, maxLen);
      assert Words(symbols) == Words(init) + [last.Bits()];
      KraftSumSnoc(Words(init), last.Bits(), maxLen);
      UsedBump(Counts(init, maxLen), last.len, maxLen);
    }
  }

  lemma {:induction false} PrefixFreeIsApart(symbols: seq<CodeSymbol>)
    requires PrefixFree(symbols)
    ensures PairwiseApart(Words(symbols))
  {
    if symbols != [] {
      var words := Words(symbols);
      assert words[1..] == Words(symbols[1..]);
      PrefixFreeIsApart(symbols[1..]);
      forall y | y in words[1..]
        ensures !(words[0] <= y) && !(y <= words[0])
      {
        var i :| 0 < i < |words| && words[i] == y;
      }
    }
  }

  /** Whatever has been used up on one level is used up on all later ones. */
  lemma {:induction false} OverfullStaysOverfull(n: seq<nat>, l: nat, m: nat)
    requires l <= m && Used(n, l) > Pow2(l)
    ensures Used(n, m) > Pow2(m)
  {
    if l < m {
      OverfullStaysOverfull(n, l, m - 1);
    }
  }

  lemma {:induction false} UsedPastEnd(n: seq<nat>, l: nat, m: nat)
    requires |n| - 1 <= l <= m && Used(n, l) <= Pow2(l)
    ensures Used(n, m) <= Pow2(m)
  {
    if l < m {
      UsedPastEnd(n, l, m - 1);
    }
  }

  // ----- the constructor

  method CountCodes(tag: CodeTag, symbols: seq<CodeSymbol>) returns (n: seq<nat>)
    requires symbols != [] && AllFit(symbols, tag.MaxCodeLength())
    ensures |n| > 1 && IsTrimmed(Counts(symbols, tag.MaxCodeLength()), n)
  {
    n := seq<nat>(1 + tag.MaxCodeLength(), _ => 0);
    var i := 0;
    while i != |symbols|
      invariant 0 <= i <= |symbols|
      invariant n == Counts(symbols[..i], tag.MaxCodeLength())
    {
      var l := symbols[i].len;
      CountsNext(symbols, i, tag.MaxCodeLength());
      n := n[l := n[l] + 1];
      i := i + 1;
    }
    assert symbols[..i] == symbols;
    SomeCountIsPositive(symbols, tag.MaxCodeLength());
    n := TrimRight(n);
  }

  lemma CountsNext(symbols: seq<CodeSymbol>, i: nat, maxLen: nat)
    requires AllFit(symbols, maxLen) && i < |symbols|
    ensures
      var n := Counts(symbols[..i], maxLen);
      var l := symbols[i].len;
      0 < l <= maxLen && Counts(symbols[..i + 1], maxLen) == n[l := n[l] + 1]
  {
    assert symbols[i].Fits(maxLen);
    assert symbols[..i + 1][..i] == symbols[..i];
  }

  lemma SomeCountIsPositive(symbols: seq<CodeSymbol>, maxLen: nat)
    requires AllFit(symbols, maxLen) && symbols != []
    ensures exists l :: 0 < l <= maxLen && Counts(symbols, maxLen)[l] > 0
  {
    var last := symbols[|symbols| - 1];
    assert last.Fits(maxLen);
    assert Counts(symbols, maxLen)[last.len] > 0;
  }

  method TrimRight(full: seq<nat>) returns (n: seq<nat>)
    requires exists l :: 0 < l < |full| && full[l] > 0
    ensures |n| > 1 && IsTrimmed(full, n)
  {
    ghost var used :| 0 < used < |full| && full[used] > 0;
    n := full;
    while n[|n| - 1] == 0
      invariant used < |n| <= |full| && n <= full
      invariant forall l :: |n| <= l < |full| ==> full[l] == 0
      decreases |n|
    {
      n := n[..|n| - 1];
    }
  }

  /** The budget of code words on each level of the tree: `true` when it is never exceeded. */
  method FitsBudget(n: seq<nat>) returns (ok: bool)
    requires |n| > 1
    ensures ok <==> Used(n, |n| - 1) <= Pow2(|n| - 1)
  {
    var maxCodes := 2;
    var codeLen := 1;
    while codeLen < |n|
      invariant 1 <= codeLen <= |n|
      invariant Used(n, codeLen - 1) <= Pow2(codeLen - 1)
      invariant maxCodes == Pow2(codeLen) - 2 * Used(n, codeLen - 1)
    {
      var nCodes := n[codeLen];
      if nCodes > maxCodes {
        OverfullStaysOverfull(n, codeLen, |n| - 1);
        return false;
      }
      maxCodes := maxCodes - nCodes;
      maxCodes := maxCodes * 2;
      codeLen := codeLen + 1;
    }
    return true;
  }

  /** Looks for two neighbours in the wrong order. */
  method LengthsOrdered(symbols: seq<CodeSymbol>) returns (ok: bool)
    ensures ok <==> Ordered(symbols)
  {
    var i := 1;
    while i < |symbols|
      invariant 1 <= i && (i <= |symbols| || |symbols| == 0)
      invariant Ordered(symbols[..if i <= |symbols| then i else 0])
    {
      if !(symbols[i - 1].len <= symbols[i].len) {
        return false;
      }
      i := i + 1;
    }
    assert |symbols| > 0 ==> symbols[..|symbols|] == symbols;
    return true;
  }

  /** Compares every symbol with all earlier, hence not longer, ones. */
  method NoCommonPrefixes(symbols: seq<CodeSymbol>, ghost maxLen: nat) returns (ok: bool)
    requires AllFit(symbols, maxLen) && Ordered(symbols)
    ensures ok <==> PrefixFree(symbols)
  {
    var sId := 0;
    while sId < |symbols|
      invariant 0 <= sId <= |symbols|
      invariant forall i, j :: 0 <= i < j < sId ==> !(symbols[i].Bits() <= symbols[j].Bits())
    {
      var pId := 0;
      while pId < sId
        invariant 0 <= pId <= sId
        invariant forall i :: 0 <= i < pId ==> !(symbols[i].Bits() <= symbols[sId].Bits())
      {
        assert symbols[sId].Fits(maxLen) && symbols[pId].Fits(maxLen);
        CommonPrefixIsPrefix(symbols[sId], symbols[pId]);
        if HaveCommonPrefix(symbols[sId], symbols[pId]) {
          return false;
        }
        pId := pId + 1;
      }
      sId := sId + 1;
    }
    LowerTriangleSuffices(symbols);
    return true;
  }

  /** With ordered lengths a later symbol is a prefix of an earlier one only if both are equal. */
  lemma LowerTriangleSuffices(symbols: seq<CodeSymbol>)
    requires Ordered(symbols)
    requires forall i, j :: 0 <= i < j < |symbols| ==> !(symbols[i].Bits() <= symbols[j].Bits())
    ensures PrefixFree(symbols)
  {
    forall i, j | 0 <= i < |symbols| && 0 <= j < |symbols| && i != j
      ensures !(symbols[i].Bits() <= symbols[j].Bits())
    {
      if j < i {
        assert !(symbols[j].Bits() <= symbols[i].Bits());
        assert symbols[j].len <= symbols[i].len;
      }
    }
  }

  /** The constructor. It accepts exactly the ordered prefix-free lists, and it complains
      about the budget exactly when Kraft's sum exceeds one. */
  method MakePrefixCode(tag: CodeTag, symbols: seq<CodeSymbol>, codeValues: seq<nat>)
    returns (r: Result<PrefixCode, CodeError>)
    requires AllFit(symbols, tag.MaxCodeLength())
    requires forall v :: v in codeValues ==> v < if tag.Baseline? then 0x100 else 0x8_0000
    ensures r.Ok? <==> symbols != [] && |symbols| == |codeValues| && Ordered(symbols) && PrefixFree(symbols)
    ensures r.Ok? ==> r.value.Valid()
    ensures r.Ok? ==> r.value.tag == tag && r.value.symbols == symbols && r.value.codeValues == codeValues
    ensures r == Err(EmptyAlphabet) <==> codeValues == []
    ensures r == Err(MalformedCode) <==> codeValues != [] && |symbols| != |codeValues|
    ensures r == Err(TooManyCodes) <==>
            && codeValues != [] && |symbols| == |codeValues|
            && KraftSum(Words(symbols), tag.MaxCodeLength()) > Pow2(tag.MaxCodeLength())
    ensures r == Err(NotOrdered) ==> !Ordered(symbols)
    ensures r == Err(NotPrefixCodes) ==> Ordered(symbols) && !PrefixFree(symbols)
  {
    if codeValues == [] {
      return Err(EmptyAlphabet);
    }
    if symbols == [] || |symbols| != |codeValues| {
      return Err(MalformedCode);
    }
    var n := CountCodes(tag, symbols);
    var fits := FitsBudget(n);
    BudgetIsKraft(symbols, tag.MaxCodeLength(), n);
    if !fits {
      return Err(TooManyCodes);
    }
    var ordered := LengthsOrdered(symbols);
    if !ordered {
      return Err(NotOrdered);
    }
    var prefixFree := NoCommonPrefixes(symbols, tag.MaxCodeLength());
    if !prefixFree {
      return Err(NotPrefixCodes);
    }
    return Ok(PrefixCode(tag, symbols, codeValues, n));
  }

  /** The last level of the budget says whether Kraft's sum exceeds one, and for a
      prefix-free list it never does. */
  lemma BudgetIsKraft(symbols: seq<CodeSymbol>, maxLen: nat, n: seq<nat>)
    requires AllFit(symbols, maxLen) && |n| > 1 && IsTrimmed(Counts(symbols, maxLen), n)
    ensures Used(n, |n| - 1) <= Pow2(|n| - 1) <==> KraftSum(Words(symbols), maxLen) <= Pow2(maxLen)
    ensures PrefixFree(symbols) ==> KraftSum(Words(symbols), maxLen) <= Pow2(maxLen)
  {
    KraftSumIsUsed(symbols, maxLen);
    UsedOfTrimmed(Counts(symbols, maxLen), n, maxLen);
    if Used(n, |n| - 1) <= Pow2(|n| - 1) {
      UsedPastEnd(n, |n| - 1, maxLen);
    } else {
      OverfullStaysOverfull(n, |n| - 1, maxLen);
    }
    if PrefixFree(symbols) {
      PrefixFreeIsApart(symbols);
      KraftInequality(Words(symbols), maxLen);
    }
  }
}
