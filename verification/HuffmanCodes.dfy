/** Canonical Huffman codes from a table of code lengths (ITU-T T.81, Annex C.2). */
module HuffmanCodes {
  import opened Bits
  import opened CodeSymbols
  import opened PrefixCodes
  import opened Results

  datatype TableError = TableIsEmpty | TooManyValues | TooManyCodesOfLength | CodesDoNotFit | ValueTooLarge

  /** The codes of one length are consecutive numbers. */
  function Run(first: nat, len: nat, count: nat): (s: seq<CodeSymbol>)
    ensures |s| == count
  {
    seq(count, (i: nat) => CodeSymbol(first + i, len))
  }

  /** All code words of 1 to `l` bits: each length starts with twice the first free code of
      the length before. */
  function CanonicalSymbols(n: seq<nat>, l: nat): (s: seq<CodeSymbol>)
    ensures |s| == NumUpTo(n, l)
  {
    if l == 0 then []
    else CanonicalSymbols(n, l - 1) + Run(2 * Used(n, l - 1), l, CodesOfLength(n, l))
  }

  /** A table that `SetNCodesPerLength` accepts. */
  ghost predicate Acceptable(tag: CodeTag, n: seq<nat>) {
    && 1 < |n| <= tag.MaxCodeLength() + 1 && n[0] == 0 && n[|n| - 1] > 0
    && NumUpTo(n, |n| - 1) <= tag.MaxNumCodeValues()
    && Used(n, |n| - 1) <= Pow2(|n| - 1)
  }

  // ----- where a symbol is in the list

  /** Symbol `i` is number `i - NumUpTo(n, l - 1)` of the run of its length `l`. */
  lemma {:induction false} SymbolInRun(n: seq<nat>, l: nat, i: nat)
    requires i < NumUpTo(n, l)
    ensures
      var s := CanonicalSymbols(n, l)[i];
      && 0 < s.len <= l && NumUpTo(n, s.len - 1) <= i < NumUpTo(n, s.len)
      && s.code == 2 * Used(n, s.len - 1) + (i - NumUpTo(n, s.len - 1)) < Used(n, s.len)
  {
    if i < NumUpTo(n, l - 1) {
      SymbolInRun(n, l - 1, i);
    }
  }

  lemma {:induction false} RunInSymbols(n: seq<nat>, l: nat, m: nat, k: nat)
    requires 0 < m <= l && k < CodesOfLength(n, m)
    ensures
      var i := NumUpTo(n, m - 1) + k;
      i < NumUpTo(n, l) && CanonicalSymbols(n, l)[i] == CodeSymbol(2 * Used(n, m - 1) + k, m)
  {
    if m < l {
      RunInSymbols(n, l - 1, m, k);
    }
  }

  lemma {:induction false} NumMonotone(n: seq<nat>, l: nat, m: nat)
    requires l <= m
    ensures NumUpTo(n, l) <= NumUpTo(n, m)
  {
    if l < m {
      NumMonotone(n, l, m - 1);
    }
  }

  lemma {:induction false} UsedFits(n: seq<nat>, l: nat, m: nat)
    requires l <= m && Used(n, m) <= Pow2(m)
    ensures Used(n, l) <= Pow2(l)
  {
    if Used(n, l) > Pow2(l) {
      OverfullStaysOverfull(n, l, m);
    }
  }

  // ----- matching is comparing numbers

  /** Once a symbol has matched, the number read stays below the first free code. */
  lemma {:induction false} MatchIsBelow(n: seq<nat>, maxLen: nat, w: seq<bool>, i: nat, l: nat)
    requires Used(n, maxLen) <= Pow2(maxLen) && l <= maxLen && l <= |w|
    requires Matches(CanonicalSymbols(n, maxLen), w, i) && CanonicalSymbols(n, maxLen)[i].len <= l
    ensures MsbValue(w[..l]) < Used(n, l)
  {
    SymbolInRun(n, maxLen, i);
    var s := CanonicalSymbols(n, maxLen)[i];
    if s.len == l {
      UsedFits(n, l, maxLen);
      assert w[..l] == s.Bits();
      MsbValueOfBits(s.code, l);
      TruncSmall(s.code, l);
    } else {
      MatchIsBelow(n, maxLen, w, i, l - 1);
      assert w[..l][..l - 1] == w[..l - 1];
    }
  }

  /** Conversely, a number below the first free code starts with a symbol. */
  lemma {:induction false} BelowIsMatch(n: seq<nat>, maxLen: nat, w: seq<bool>, l: nat) returns (i: nat)
    requires l <= maxLen && l <= |w| && MsbValue(w[..l]) < Used(n, l)
    ensures Matches(CanonicalSymbols(n, maxLen), w, i) && CanonicalSymbols(n, maxLen)[i].len <= l
    ensures l > 0 && (MsbValue(w[..l]) >= 2 * Used(n, l - 1) ==>
                        i == NumUpTo(n, l - 1) + (MsbValue(w[..l]) - 2 * Used(n, l - 1)))
  {
    var v := MsbValue(w[..l]);
    assert l > 0;
    if v >= 2 * Used(n, l - 1) {
      var k := v - 2 * Used(n, l - 1);
      RunInSymbols(n, maxLen, l, k);
      i := NumUpTo(n, l - 1) + k;
      MsbBitsOfValue(w[..l]);
    } else {
      assert w[..l][..l - 1] == w[..l - 1];
      i := BelowIsMatch(n, maxLen, w, l - 1);
    }
  }

  // ----- canonical codes are prefix codes

  lemma CanonicalFits(tag: CodeTag, n: seq<nat>)
    requires Acceptable(tag, n)
    ensures AllFit(CanonicalSymbols(n, |n| - 1), tag.MaxCodeLength())
    ensures Ordered(CanonicalSymbols(n, |n| - 1))
  {
    hide CanonicalSymbols, NumUpTo, Used, Pow2, CodeSymbol.Fits;
    var symbols := CanonicalSymbols(n, |n| - 1);
    forall i | 0 <= i < |symbols|
      ensures symbols[i].Fits(tag.MaxCodeLength())
    {
      CanonicalSymbolFits(n, |n| - 1, i, tag.MaxCodeLength());
    }
    forall i, j | 0 <= i <= j < |symbols|
      ensures symbols[i].len <= symbols[j].len
    {
      CanonicalSymbolsOrdered(n, |n| - 1, i, j);
    }
  }

  lemma CanonicalSymbolFits(n: seq<nat>, l: nat, i: nat, maxLen: nat)
    requires i < NumUpTo(n, l) && Used(n, l) <= Pow2(l) && l <= maxLen
    ensures CanonicalSymbols(n, l)[i].Fits(maxLen)
  {
    hide CanonicalSymbols, NumUpTo, Used, Pow2;
    SymbolInRun(n, l, i);
    UsedFits(n, CanonicalSymbols(n, l)[i].len, l);
  }

  lemma CanonicalSymbolsOrdered(n: seq<nat>, l: nat, i: nat, j: nat)
    requires i <= j < NumUpTo(n, l)
    ensures CanonicalSymbols(n, l)[i].len <= CanonicalSymbols(n, l)[j].len
  {
    hide CanonicalSymbols, NumUpTo, Used;
    SymbolInRun(n, l, i);
    SymbolInRun(n, l, j);
    var s, t := CanonicalSymbols(n, l)[i], CanonicalSymbols(n, l)[j];
    if t.len < s.len {
      NumMonotone(n, t.len, s.len - 1);
    }
  }

  lemma CanonicalIsPrefixFree(tag: CodeTag, n: seq<nat>)
    requires Acceptable(tag, n)
    ensures PrefixFree(CanonicalSymbols(n, |n| - 1))
  {
    var symbols := CanonicalSymbols(n, |n| - 1);
    forall i, j | 0 <= i < |symbols| && 0 <= j < |symbols| && i != j
      ensures !(symbols[i].Bits() <= symbols[j].Bits())
    {
      if symbols[i].Bits() <= symbols[j].Bits() {
        CanonicalClash(tag, n, i, j);
      }
    }
  }

  lemma CanonicalClash(tag: CodeTag, n: seq<nat>, i: nat, j: nat)
    requires Acceptable(tag, n) && i < NumUpTo(n, |n| - 1) && j < NumUpTo(n, |n| - 1)
    requires CanonicalSymbols(n, |n| - 1)[i].Bits() <= CanonicalSymbols(n, |n| - 1)[j].Bits()
    ensures i == j
  {
    hide CanonicalSymbols, CodeSymbol.Bits, MsbBits, MsbValue, Pow2, Used, NumUpTo;
    var symbols := CanonicalSymbols(n, |n| - 1);
    var s, t := symbols[i], symbols[j];
    SymbolInRun(n, |n| - 1, i);
    SymbolInRun(n, |n| - 1, j);
    UsedFits(n, s.len, |n| - 1);
    UsedFits(n, t.len, |n| - 1);
    if s.len == t.len {
      EqualLengthClash(s, t);
    } else {
      NothingShorter(n, |n| - 1, i, t);
    }
  }

  lemma EqualLengthClash(s: CodeSymbol, t: CodeSymbol)
    requires s.len == t.len && s.code < Pow2(s.len) && t.code < Pow2(t.len)
    requires s.Bits() <= t.Bits()
    ensures s.code == t.code
  {
    hide MsbBits, Pow2;
    MsbBitsInjective(s.code, t.code, s.len);
  }

  /** A code word that starts with a shorter symbol lies below those of its own length. */
  lemma NothingShorter(n: seq<nat>, maxLen: nat, i: nat, t: CodeSymbol)
    requires Used(n, maxLen) <= Pow2(maxLen) && i < NumUpTo(n, maxLen)
    requires CanonicalSymbols(n, maxLen)[i].len < t.len <= maxLen && t.code < Pow2(t.len)
    requires CanonicalSymbols(n, maxLen)[i].Bits() <= t.Bits()
    ensures t.code < 2 * Used(n, t.len - 1)
  {
    hide CanonicalSymbols, MsbBits, MsbValue, Pow2, Used, NumUpTo;
    MatchIsBelow(n, maxLen, t.Bits(), i, t.len - 1);
    HeadOfBits(t.code, t.len);
  }

  lemma HeadOfBits(v: nat, n: nat)
    requires 0 < n && v < Pow2(n)
    ensures MsbValue(MsbBits(v, n)[..n - 1]) == v / 2
  {
    assert MsbBits(v, n)[..n - 1] == MsbBits(v / 2, n - 1);
    MsbValueOfBits(v / 2, n - 1);
    TruncSmall(v / 2, n - 1);
  }

  /** The key invariant of the two loops: first code of a length plus remaining budget. */
  function Budget(n: seq<nat>, l: nat): int {
    if l <= 1 then 2 else 2 * (Budget(n, l - 1) - CodesOfLength(n, l - 1))
  }

  lemma {:induction false} FirstPlusBudget(n: seq<nat>, l: nat)
    requires l > 0
    ensures 2 * Used(n, l - 1) + Budget(n, l) == Pow2(l)
  {
    if l > 1 {
      FirstPlusBudget(n, l - 1);
    }
  }

  // ----- the lengths of the symbols give the table back

  lemma {:induction false} CountsOfRun(symbols: seq<CodeSymbol>, first: nat, len: nat, count: nat, maxLen: nat)
    requires AllFit(symbols + Run(first, len, count), maxLen) && AllFit(symbols, maxLen)
    requires 0 < len <= maxLen
    ensures
      var n := Counts(symbols, maxLen);
      Counts(symbols + Run(first, len, count), maxLen) == n[len := n[len] + count]
  {
    var all := symbols + Run(first, len, count);
    if count == 0 {
      assert all == symbols;
    } else {
      assert all[..|all| - 1] == symbols + Run(first, len, count - 1);
      CountsOfRun(symbols, first, len, count - 1, maxLen);
    }
  }

  lemma {:induction false} CountsOfCanonical(n: seq<nat>, l: nat, maxLen: nat)
    requires l <= maxLen && AllFit(CanonicalSymbols(n, l), maxLen)
    ensures forall k :: 0 <= k <= maxLen ==>
                          Counts(CanonicalSymbols(n, l), maxLen)[k] == if 0 < k <= l then CodesOfLength(n, k) else 0
  {
    if l > 0 {
      var init := CanonicalSymbols(n, l - 1);
      assert forall i :: 0 <= i < |init| ==> init[i] == CanonicalSymbols(n, l)[i];
      CountsOfCanonical(n, l - 1, maxLen);
      CountsOfRun(init, 2 * Used(n, l - 1), l, CodesOfLength(n, l), maxLen);
    }
  }

  lemma TableOfCanonical(tag: CodeTag, n: seq<nat>, m: seq<nat>)
    requires Acceptable(tag, n) && AllFit(CanonicalSymbols(n, |n| - 1), tag.MaxCodeLength())
    requires |m| > 1 && IsTrimmed(Counts(CanonicalSymbols(n, |n| - 1), tag.MaxCodeLength()), m)
    ensures m == n
  {
    var full := Counts(CanonicalSymbols(n, |n| - 1), tag.MaxCodeLength());
    CountsOfCanonical(n, |n| - 1, tag.MaxCodeLength());
    assert full[|n| - 1] == n[|n| - 1] > 0;
    assert full[|m| - 1] == m[|m| - 1] != 0;
    assert |m| == |n|;
  }

  /** Checks level by level that the codes of each length fit into the tree. */
  method CheckBudget(n: seq<nat>) returns (problem: Option<TableError>)
    requires |n| > 1
    ensures problem.None? <==> Used(n, |n| - 1) <= Pow2(|n| - 1)
    ensures problem.Some? ==> problem.value == TooManyCodesOfLength || problem.value == CodesDoNotFit
    ensures problem == Some(TooManyCodesOfLength) ==> exists l :: 1 <= l < |n| && n[l] > Pow2(l)
  {
    var maxCodes := 2;
    var codeLen := 1;
    while codeLen < |n|
      invariant 1 <= codeLen <= |n|
      invariant Used(n, codeLen - 1) <= Pow2(codeLen - 1)
      invariant maxCodes == Budget(n, codeLen)
    {
      FirstPlusBudget(n, codeLen);
      var maxCodesInCurrLen := Pow2(codeLen);
      var nCodes := n[codeLen];
      if nCodes > maxCodesInCurrLen {
        OverfullStaysOverfull(n, codeLen, |n| - 1);
        return Some(TooManyCodesOfLength);
      }
      if nCodes > maxCodes {
        OverfullStaysOverfull(n, codeLen, |n| - 1);
        return Some(CodesDoNotFit);
      }
      maxCodes := maxCodes - nCodes;
      maxCodes := maxCodes * 2;
      codeLen := codeLen + 1;
    }
    return None;
  }

  // ----- which tables are accepted

  /** How many values go with a table. */
  function Total(counts: seq<byte>): nat {
    NumUpTo([0] + counts, |counts|)
  }

  /** There are codes of these lengths: some, and no more than there is room for. */
  ghost predicate CodesFit(counts: seq<byte>) {
    && (exists i :: 0 <= i < |counts| && counts[i] != 0)
    && Used([0] + counts, |counts|) <= Pow2(|counts|)
  }

  /** A table describes a code: the codes fit, and there are not too many values. That is 16 run lengths
      by 10 sizes and two more for Baseline. */
  ghost predicate TableIsAccepted(tag: CodeTag, counts: seq<byte>) {
    CodesFit(counts) && Total(counts) <= if tag.Baseline? then 16 * 10 + 2 else 264
  }

  /** In particular there is room for a code of all difference categories. */
  lemma CategoriesAreAccepted(tag: CodeTag, counts: seq<byte>)
    requires CodesFit(counts) && Total(counts) <= 17
    ensures TableIsAccepted(tag, counts)
  {
  }

  lemma {:induction false} NumPastEnd(n: seq<nat>, l: nat, m: nat)
    requires |n| - 1 <= l <= m
    ensures NumUpTo(n, m) == NumUpTo(n, l)
  {
    if l < m {
      NumPastEnd(n, l, m - 1);
    }
  }

  /** Trimming decides nothing: the checks of the trimmed table are those of the whole one. */
  lemma AcceptableIff(tag: CodeTag, counts: seq<byte>, n: seq<nat>)
    requires |counts| == tag.MaxCodeLength() && IsTrimmed([0] + counts, n)
    ensures Acceptable(tag, n) <==> TableIsAccepted(tag, counts)
    ensures n != [] ==> NumUpTo(n, |n| - 1) == Total(counts)
  {
    hide IsTrimmed, NumUpTo, Used, Pow2;
    SomethingLeft(counts, n);
    if n != [] {
      UsedOfTrimmed([0] + counts, n, |counts|);
      NumPastEnd(n, |n| - 1, |counts|);
      FitsPastEnd(n, |counts|);
    }
  }

  lemma FitsPastEnd(n: seq<nat>, m: nat)
    requires n != [] && |n| - 1 <= m
    ensures Used(n, |n| - 1) <= Pow2(|n| - 1) <==> Used(n, m) <= Pow2(m)
  {
    hide Used, Pow2;
    if Used(n, |n| - 1) <= Pow2(|n| - 1) {
      UsedPastEnd(n, |n| - 1, m);
    } else {
      OverfullStaysOverfull(n, |n| - 1, m);
    }
  }

  lemma SomethingLeft(counts: seq<byte>, n: seq<nat>)
    requires IsTrimmed([0] + counts, n)
    ensures |n| <= |counts| + 1
    ensures n != [] ==> 1 < |n| && n[0] == 0 && n[|n| - 1] > 0
    ensures n != [] <==> exists i :: 0 <= i < |counts| && counts[i] != 0
  {
    var full := [0] + counts;
    forall i | 0 <= i < |counts|
      ensures counts[i] == full[i + 1]
    {
    }
    if n != [] {
      assert n[0] == full[0] == 0;
      assert counts[|n| - 2] == full[|n| - 1] == n[|n| - 1];
    }
  }

  class HuffmanCode {
    const tag: CodeTag
    var nCodesPerLength: seq<nat>
    var codeValues: seq<nat>

    ghost predicate Valid()
      reads this
    {
      nCodesPerLength == [] || nCodesPerLength[0] == 0
    }

    constructor (tag: CodeTag)
      ensures this.tag == tag && Valid() && nCodesPerLength == [] && codeValues == []
    {
      this.tag := tag;
      nCodesPerLength := [];
      codeValues := [];
    }

    /** `maxCodesCount`. */
    method MaxCodesCount() returns (count: nat)
      requires Valid() && nCodesPerLength != []
      ensures count == NumUpTo(nCodesPerLength, |nCodesPerLength| - 1)
    {
      count := 0;
      var l := 0;
      while l < |nCodesPerLength|
        invariant 0 <= l <= |nCodesPerLength|
        invariant count == if l == 0 then 0 else NumUpTo(nCodesPerLength, l - 1)
      {
        count := count + nCodesPerLength[l];
        l := l + 1;
      }
    }

    /** Takes over a table of counts, one byte per length, and checks that a code with these
        lengths exists. The table is kept, trimmed, even when it is refused. */
    method SetNCodesPerLength(counts: seq<byte>) returns (r: Result<nat, TableError>)
      requires Valid() && |counts| == if tag.Baseline? then 16 else 26
      modifies this`nCodesPerLength
      ensures Valid() && IsTrimmed([0] + counts, nCodesPerLength)
      ensures r.Ok? <==> Acceptable(tag, nCodesPerLength)
      ensures r.Ok? <==> CodesFit(counts) && Total(counts) <= if tag.Baseline? then 16 * 10 + 2 else 264
      ensures r.Ok? ==> r.value == NumUpTo(nCodesPerLength, |nCodesPerLength| - 1) == Total(counts)
      ensures r == Err(TableIsEmpty) <==> forall i :: 0 <= i < |counts| ==> counts[i] == 0
    {
      nCodesPerLength := [0] + counts;
      while nCodesPerLength != [] && nCodesPerLength[|nCodesPerLength| - 1] == 0
        invariant nCodesPerLength <= [0] + counts
        invariant forall l :: |nCodesPerLength| <= l < |[0] + counts| ==> ([0] + counts)[l] == 0
        decreases |nCodesPerLength|
      {
        nCodesPerLength := nCodesPerLength[..|nCodesPerLength| - 1];
      }
      AcceptableIff(tag, counts, nCodesPerLength);
      hide CodesFit;
      if nCodesPerLength == [] {
        assert forall i :: 0 <= i < |counts| ==> counts[i] == ([0] + counts)[i + 1];
        return Err(TableIsEmpty);
      }
      var last := |nCodesPerLength| - 1;
      assert nCodesPerLength[last] == ([0] + counts)[last] == counts[last - 1];
      var count := MaxCodesCount();
      if count > tag.MaxNumCodeValues() {
        return Err(TooManyValues);
      }
      var problem := CheckBudget(nCodesPerLength);
      if problem.Some? {
        return Err(problem.value);
      }
      return Ok(count);
    }

    method SetCodeValues(values: seq<nat>) returns (r: Result<(), TableError>)
      requires Valid() && Acceptable(tag, nCodesPerLength)
      requires |values| == NumUpTo(nCodesPerLength, |nCodesPerLength| - 1)
      modifies this`codeValues
      ensures codeValues == values
      ensures r.Ok? <==> forall v :: v in values ==> v < if tag.Baseline? then 0x100 else 0x8_0000
      ensures r.Err? ==> r.error == ValueTooLarge
    {
      codeValues := values;
      var i := 0;
      while i < |values|
        invariant 0 <= i <= |values|
        invariant codeValues == values
        invariant forall k :: 0 <= k < i ==> values[k] <= tag.MaxCodeValue()
      {
        if !(values[i] <= tag.MaxCodeValue()) {
          assert values[i] in values;
          return Err(ValueTooLarge);
        }
        i := i + 1;
      }
      return Ok(());
    }

    /** Figures C.1 and C.2: code words in the order of their lengths, counting upwards. */
    method GenerateCodeSymbols() returns (symbols: seq<CodeSymbol>)
      requires Valid() && Acceptable(tag, nCodesPerLength)
      ensures symbols == CanonicalSymbols(nCodesPerLength, |nCodesPerLength| - 1)
    {
      symbols := [];
      var code := 0;
      var l := 1;
      while l <= |nCodesPerLength| - 1
        invariant 1 <= l <= |nCodesPerLength|
        invariant symbols == CanonicalSymbols(nCodesPerLength, l - 1)
        invariant code == 2 * Used(nCodesPerLength, l - 1)
      {
        var i := 0;
        while i < nCodesPerLength[l]
          invariant 0 <= i <= nCodesPerLength[l]
          invariant code == 2 * Used(nCodesPerLength, l - 1) + i
          invariant symbols == CanonicalSymbols(nCodesPerLength, l - 1)
                               + Run(2 * Used(nCodesPerLength, l - 1), l, i)
        {
          symbols := symbols + [CodeSymbol(code, l)];
          code := code + 1;
          i := i + 1;
        }
        code := code * 2;
        l := l + 1;
      }
    }

    /** Conversion to a prefix code. No check of its constructor ever fails. */
    method ToPrefixCode() returns (r: Result<PrefixCode, CodeError>)
      requires Valid() && Acceptable(tag, nCodesPerLength)
      requires |codeValues| == NumUpTo(nCodesPerLength, |nCodesPerLength| - 1)
      requires forall v :: v in codeValues ==> v < if tag.Baseline? then 0x100 else 0x8_0000
      modifies this`codeValues
      ensures r.Ok? && r.value.Valid() && IsHuffman(r.value)
      ensures r.value.tag == tag && r.value.codeValues == old(codeValues)
      ensures r.value.nCodesPerLength == nCodesPerLength
    {
      hide IsTrimmed, CanonicalSymbols, Acceptable, PrefixFree, Ordered, AllFit, Counts, NumUpTo, Pow2;
      var symbols := GenerateCodeSymbols();
      CanonicalFits(tag, nCodesPerLength);
      CanonicalIsPrefixFree(tag, nCodesPerLength);
      SomeCode(tag, nCodesPerLength);
      r := MakePrefixCode(tag, symbols, codeValues);
      TableOfCanonical(tag, nCodesPerLength, r.value.nCodesPerLength);
      codeValues := [];
    }
  }

  /** A prefix code that came out of a Huffman table. */
  ghost predicate IsHuffman(code: PrefixCode) {
    && Acceptable(code.tag, code.nCodesPerLength)
    && code.symbols == CanonicalSymbols(code.nCodesPerLength, |code.nCodesPerLength| - 1)
  }

  lemma SomeCode(tag: CodeTag, n: seq<nat>)
    requires Acceptable(tag, n)
    ensures NumUpTo(n, |n| - 1) > 0
  {
  }
}
