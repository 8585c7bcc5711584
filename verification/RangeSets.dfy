/** Sets of ranges that do not overlap. An insertion looks at two neighbours only. */
module RangeSets {

  /** `base` and `size`; the end is exclusive. A range may be empty. */
  datatype Range = Range(base: int, size: nat) {
    function Begin(): int {
      base
    }

    function End(): int {
      base + size
    }

    /** The order of the sorted set: by begin, then by end. */
    predicate Less(that: Range) {
      Begin() < that.Begin() || (Begin() == that.Begin() && End() < that.End())
    }
  }

  predicate RangeContains(r: Range, pos: int) {
    if pos < r.Begin() then false else r.End() > pos
  }

  predicate RangesOverlap(lhs: Range, rhs: Range) {
    if lhs.Begin() == rhs.Begin() then true
    else if lhs.Begin() < rhs.Begin() then RangeContains(lhs, rhs.Begin())
    else RangeContains(rhs, lhs.Begin())
  }

  ghost predicate Has(r: Range, x: int) {
    r.base <= x < r.base + r.size
  }

  /** They begin at the same place, or one begins strictly inside the other. */
  ghost predicate Meet(a: Range, b: Range) {
    a.base == b.base || a.base < b.base < a.base + a.size || b.base < a.base < b.base + b.size
  }

  /** Non-empty ranges overlap when they have an element in common. */
  lemma OverlapIsCommonElement(a: Range, b: Range)
    requires a.size > 0 && b.size > 0
    ensures RangesOverlap(a, b) <==> exists x :: Has(a, x) && Has(b, x)
  {
    if RangesOverlap(a, b) {
      var x := if a.base < b.base then b.base else a.base;
      assert Has(a, x) && Has(b, x);
    }
  }

  /** An empty range overlaps what begins where it is, and what it is strictly inside of. */
  lemma OverlapOfEmpty(a: Range, b: Range)
    requires a.size == 0
    ensures RangesOverlap(a, b) <==> b.base == a.base || b.base < a.base < b.base + b.size
  {
  }

  // ----- what the set looks like

  /** Every range begins after the earlier ones, and not before they end. */
  ghost predicate Disjoint(elts: seq<Range>) {
    forall i, j :: 0 <= i < j < |elts| ==>
                     elts[i].base < elts[j].base && elts[i].base + elts[i].size <= elts[j].base
  }

  ghost predicate OverlapsNone(elts: seq<Range>, r: Range) {
    forall e :: e in elts ==> !Meet(r, e)
  }

  /** By begin, then by end. */
  ghost predicate Before(a: Range, b: Range) {
    a.base < b.base || (a.base == b.base && a.size < b.size)
  }

  /** `p` is where `r` belongs. */
  ghost predicate IsPartitionPoint(elts: seq<Range>, r: Range, p: nat) {
    && p <= |elts|
    && (forall i :: 0 <= i < p ==> Before(elts[i], r))
    && (forall i :: p <= i < |elts| ==> !Before(elts[i], r))
  }

  /** The two neighbours speak for all ranges of the set: everything before them ends before they
      begin, and everything after them begins after they end. */
  lemma NeighboursDecide(elts: seq<Range>, r: Range, p: nat)
    requires Disjoint(elts) && IsPartitionPoint(elts, r, p)
    ensures OverlapsNone(elts, r) <==>
            (p < |elts| ==> !RangesOverlap(r, elts[p])) && (p > 0 ==> !RangesOverlap(r, elts[p - 1]))
  {
    assert p < |elts| ==> elts[p] in elts;
    assert p > 0 ==> elts[p - 1] in elts;
    if (p < |elts| ==> !Meet(r, elts[p])) && (p > 0 ==> !Meet(r, elts[p - 1])) {
      forall i | 0 <= i < |elts|
        ensures !Meet(r, elts[i])
      {
        if i < p - 1 {
          assert !Meet(elts[i], elts[p - 1]);
        } else if i > p {
          assert !Meet(elts[p], elts[i]);
        }
      }
    }
  }

  /** Inserting in order keeps the set what it is. */
  lemma InsertedIsDisjoint(elts: seq<Range>, r: Range, p: nat)
    requires Disjoint(elts) && IsPartitionPoint(elts, r, p) && OverlapsNone(elts, r)
    ensures Disjoint(elts[..p] + [r] + elts[p..])
  {
    var more := elts[..p] + [r] + elts[p..];
    forall i, j | 0 <= i < j < |more|
      ensures more[i].base < more[j].base && more[i].base + more[i].size <= more[j].base
    {
      if i == p {
        LaterRange(elts, r, p, j - 1);
      } else if j == p {
        assert more[i] == elts[i] && elts[i] in elts;
      } else {
        var k, l := if i < p then i else i - 1, if j < p then j else j - 1;
        assert more[i] == elts[k] && more[j] == elts[l] && k < l;
      }
    }
  }

  lemma LaterRange(elts: seq<Range>, r: Range, p: nat, k: nat)
    requires IsPartitionPoint(elts, r, p) && OverlapsNone(elts, r) && p <= k < |elts|
    ensures r.base < elts[k].base && r.base + r.size <= elts[k].base
  {
    assert elts[k] in elts;
  }

  class NORangesSet {
    var elts: seq<Range>

    ghost predicate Valid()
      reads this
    {
      Disjoint(elts)
    }

    constructor ()
      ensures Valid() && elts == []
    {
      elts := [];
    }

    /** `std::partition_point`. */
    method PartitionPoint(newElt: Range) returns (p: nat)
      requires Valid()
      ensures IsPartitionPoint(elts, newElt, p)
    {
      p := 0;
      var hi := |elts|;
      while p < hi
        invariant 0 <= p <= hi <= |elts|
        invariant forall i :: 0 <= i < p ==> Before(elts[i], newElt)
        invariant forall i :: hi <= i < |elts| ==> !Before(elts[i], newElt)
      {
        var mid := (p + hi) / 2;
        if elts[mid].Less(newElt) {
          p := mid + 1;
        } else {
          hi := mid;
        }
      }
    }

    method RangeIsOverlappingExistingElementOfSortedSet(newElt: Range) returns (overlaps: bool)
      requires Valid()
      ensures overlaps <==> !OverlapsNone(elts, newElt)
    {
      if |elts| == 0 {
        return false;
      }
      var p := PartitionPoint(newElt);
      NeighboursDecide(elts, newElt, p);
      if p != |elts| && RangesOverlap(newElt, elts[p]) {
        return true;
      }
      if p == 0 {
        return false;
      }
      return RangesOverlap(newElt, elts[p - 1]);
    }

    /** Refused exactly when some range of the set overlaps the new one. */
    method Insert(newElt: Range) returns (inserted: bool)
      requires Valid()
      modifies this
      ensures Valid()
      ensures inserted <==> OverlapsNone(old(elts), newElt)
      ensures multiset(elts) == multiset(old(elts)) + if inserted then multiset{newElt} else multiset{}
      ensures !inserted ==> elts == old(elts)
    {
      var overlaps := RangeIsOverlappingExistingElementOfSortedSet(newElt);
      if overlaps {
        return false;
      }
      var p := PartitionPoint(newElt);
      InsertedIsDisjoint(elts, newElt, p);
      assert elts == elts[..p] + elts[p..];
      elts := elts[..p] + [newElt] + elts[p..];
      return true;
    }

  }

  // ----- whole runs

  /** The ranges that a run keeps: first come, first served. */
  ghost function Kept(ranges: seq<Range>): seq<Range> {
    if ranges == [] then []
    else
      var kept, r := Kept(ranges[..|ranges| - 1]), ranges[|ranges| - 1];
      if OverlapsNone(kept, r) then kept + [r] else kept
  }

  lemma SameElements(a: seq<Range>, b: seq<Range>, r: Range)
    requires multiset(a) == multiset(b)
    ensures OverlapsNone(a, r) == OverlapsNone(b, r)
  {
    assert forall e :: e in a <==> e in multiset(a);
    assert forall e :: e in b <==> e in multiset(b);
  }

  /** After any run of insertions the set holds what a comparison with all ranges would keep. */
  method InsertAll(ranges: seq<Range>) returns (s: NORangesSet)
    ensures s.Valid() && multiset(s.elts) == multiset(Kept(ranges))
  {
    s := new NORangesSet();
    var i := 0;
    while i < |ranges|
      invariant 0 <= i <= |ranges|
      invariant s.Valid() && fresh(s) && multiset(s.elts) == multiset(Kept(ranges[..i]))
    {
      assert ranges[..i + 1][..i] == ranges[..i];
      SameElements(s.elts, Kept(ranges[..i]), ranges[i]);
      var inserted := s.Insert(ranges[i]);
      i := i + 1;
    }
    assert ranges[..|ranges|] == ranges;
  }

  /** Whatever the order of arrival, kept ranges do not overlap, and every range that was not kept
      overlaps one that was. */
  lemma {:induction false} KeptIsMaximal(ranges: seq<Range>)
    ensures forall i, j :: 0 <= i < j < |Kept(ranges)| ==> !Meet(Kept(ranges)[i], Kept(ranges)[j])
    ensures forall r :: r in ranges ==> r in Kept(ranges) || !OverlapsNone(Kept(ranges), r)
  {
    if ranges != [] {
      var init, r := ranges[..|ranges| - 1], ranges[|ranges| - 1];
      KeptIsMaximal(init);
      assert ranges == init + [r];
      var kept := Kept(init);
      forall q | q in ranges
        ensures q in Kept(ranges) || !OverlapsNone(Kept(ranges), q)
      {
        if q in init && q !in kept {
          var e :| e in kept && Meet(q, e);
          assert e in Kept(ranges);
        }
      }
      forall i, j | 0 <= i < j < |Kept(ranges)|
        ensures !Meet(Kept(ranges)[i], Kept(ranges)[j])
      {
        if j == |kept| {
          assert kept[i] in kept;
        }
      }
    }
  }
}
