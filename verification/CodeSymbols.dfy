/** Code words, what makes a list of them a prefix code, and how a bit stream selects one. */
module CodeSymbols {
  import opened Bits

  /** The two families of codes of the library and their limits. */
  datatype CodeTag = Baseline | VC5 {
    function MaxCodeLength(): (n: nat)
      ensures 16 <= n <= 26
    {
      if Baseline? then 16 else 26
    }

    function MaxNumCodeValues(): nat {
      if Baseline? then 162 else 264
    }

    function MaxCodeValue(): nat {
      if Baseline? then 255 else 524287
    }

    predicate SupportsFullDecode() {
      Baseline?
    }
  }

  const MAX_DIFF_LENGTH: nat := 16

  /** The code words (the high bits of) which a decoder compares with its input. */
  datatype CodeSymbol = CodeSymbol(code: nat, len: nat) {
    predicate Fits(maxLen: nat) {
      0 < len <= maxLen && code < Pow2(len)
    }

    /** `getBitsMSB`. */
    function Bits(): (s: seq<bool>)
      ensures |s| == len
    {
      MsbBits(code, len)
    }
  }

  predicate HaveCommonPrefix(symbol: CodeSymbol, partial: CodeSymbol)
    requires partial.len <= symbol.len
  {
    ExtractHighBits(symbol.code, partial.len, symbol.len) == partial.code
  }

  /** The arithmetic test decides whether one bit string is a prefix of the other. */
  lemma CommonPrefixIsPrefix(symbol: CodeSymbol, partial: CodeSymbol)
    requires partial.len <= symbol.len
    requires symbol.code < Pow2(symbol.len) && partial.code < Pow2(partial.len)
    ensures HaveCommonPrefix(symbol, partial) <==> partial.Bits() <= symbol.Bits()
  {
    var k := symbol.len - partial.len;
    HighPart(symbol.code, symbol.len, k);
    var s0 := Shr(symbol.code, k);
    if partial.Bits() <= symbol.Bits() {
      assert partial.Bits() == symbol.Bits()[..partial.len] == MsbBits(s0, partial.len);
      MsbBitsInjective(s0, partial.code, partial.len);
    } else {
      assert MsbBits(s0, partial.len) == symbol.Bits()[..partial.len];
    }
  }

  /** Shifting right drops bits at the end. */
  lemma {:induction false} HighPart(v: nat, n: nat, k: nat)
    requires k <= n && v < Pow2(n)
    ensures Shr(v, k) < Pow2(n - k)
    ensures MsbBits(Shr(v, k), n - k) == MsbBits(v, n)[..n - k]
  {
    if k > 0 {
      HighPart(v / 2, n - 1, k - 1);
    }
  }

  // ----- lists of symbols

  ghost predicate AllFit(symbols: seq<CodeSymbol>, maxLen: nat) {
    forall i :: 0 <= i < |symbols| ==> symbols[i].Fits(maxLen)
  }

  /** Lengths do not decrease. */
  ghost predicate Ordered(symbols: seq<CodeSymbol>) {
    forall i, j :: 0 <= i <= j < |symbols| ==> symbols[i].len <= symbols[j].len
  }

  /** No symbol is a prefix of another one, in particular all are different. */
  ghost predicate PrefixFree(symbols: seq<CodeSymbol>) {
    forall i, j :: 0 <= i < |symbols| && 0 <= j < |symbols| && i != j ==>
                     !(symbols[i].Bits() <= symbols[j].Bits())
  }

  /** The bits of symbol `i` come next in `w`. */
  predicate Matches(symbols: seq<CodeSymbol>, w: seq<bool>, i: nat) {
    i < |symbols| && symbols[i].Bits() <= w
  }

  ghost predicate NoMatch(symbols: seq<CodeSymbol>, w: seq<bool>) {
    forall i: nat :: !Matches(symbols, w, i)
  }

  lemma PrefixesOfOne(a: seq<bool>, b: seq<bool>, w: seq<bool>)
    requires a <= w && b <= w && |a| <= |b|
    ensures a <= b
  {
    assert a == w[..|a|] && b == w[..|b|];
  }

  /** At most one symbol of a prefix code matches. */
  lemma MatchIsUnique(symbols: seq<CodeSymbol>, w: seq<bool>, i: nat, j: nat)
    requires PrefixFree(symbols) && Matches(symbols, w, i) && Matches(symbols, w, j)
    ensures i == j
  {
    if symbols[i].len <= symbols[j].len {
      PrefixesOfOne(symbols[i].Bits(), symbols[j].Bits(), w);
    } else {
      PrefixesOfOne(symbols[j].Bits(), symbols[i].Bits(), w);
    }
  }

  // ----- how many codes of each length there are

  /** Length tables are indexed by the code length, entry 0 is not used. */
  ghost function Counts(symbols: seq<CodeSymbol>, maxLen: nat): (n: seq<nat>)
    requires AllFit(symbols, maxLen)
    ensures |n| == maxLen + 1
  {
    if symbols == [] then seq<nat>(maxLen + 1, _ => 0)
    else
      var n := Counts(symbols[..|symbols| - 1], maxLen);
      var l := symbols[|symbols| - 1].len;
      n[l := n[l] + 1]
  }

  /** Entries past the end of a table count as zero. */
  function CodesOfLength(n: seq<nat>, l: nat): nat {
    if l < |n| then n[l] else 0
  }

  /** How many of the 2^l bit strings of length `l` start with a symbol of at most `l` bits;
      in a canonical code, the first code of length `l` that is not in use. */
  function Used(n: seq<nat>, l: nat): nat {
    if l == 0 then 0 else 2 * Used(n, l - 1) + CodesOfLength(n, l)
  }

  /** The number of code words of 1 to `l` bits. */
  function NumUpTo(n: seq<nat>, l: nat): nat {
    if l == 0 then 0 else NumUpTo(n, l - 1) + CodesOfLength(n, l)
  }

  /** The table without the zeros at its end. */
  ghost predicate IsTrimmed(full: seq<nat>, n: seq<nat>) {
    && n <= full
    && (n == [] || n[|n| - 1] != 0)
    && forall l :: |n| <= l < |full| ==> full[l] == 0
  }

  lemma {:induction false} UsedOfTrimmed(full: seq<nat>, n: seq<nat>, l: nat)
    requires IsTrimmed(full, n)
    ensures Used(n, l) == Used(full, l) && NumUpTo(n, l) == NumUpTo(full, l)
  {
    if l > 0 {
      UsedOfTrimmed(full, n, l - 1);
    }
  }

  lemma {:induction false} NumBump(n: seq<nat>, k: nat, l: nat)
    requires 0 < k < |n|
    ensures NumUpTo(n[k := n[k] + 1], l) == NumUpTo(n, l) + (if k <= l then 1 else 0)
  {
    if l > 0 {
      NumBump(n, k, l - 1);
    }
  }

  lemma {:induction false} NumOfZeros(n: seq<nat>, l: nat)
    requires forall i :: 0 <= i < |n| ==> n[i] == 0
    ensures NumUpTo(n, l) == 0
  {
    if l > 0 {
      NumOfZeros(n, l - 1);
    }
  }

  /** In an ordered list the symbols of at most `l` bits come first, and the table says
      how many they are. */
  lemma {:induction false} SymbolsOfLength(symbols: seq<CodeSymbol>, maxLen: nat, l: nat)
    requires AllFit(symbols, maxLen) && Ordered(symbols)
    ensures NumUpTo(Counts(symbols, maxLen), l) <= |symbols|
    ensures forall i :: 0 <= i < |symbols| ==>
                          (symbols[i].len <= l <==> i < NumUpTo(Counts(symbols, maxLen), l))
  {
    if symbols == [] {
      NumOfZeros(Counts(symbols, maxLen), l);
    } else {
      var init, last := symbols[..|symbols| - 1], symbols[|symbols| - 1];
      assert last.Fits(maxLen);
      SymbolsOfLength(init, maxLen, l);
      NumBump(Counts(init, maxLen), last.len, l);
      if last.len <= l && init != [] {
        assert init[|init| - 1].len <= last.len;
      }
    }
  }
}
