/** The byte searches with which a new release is compared with the patches of
    an approved one. */
module MaskedSearch {
  import opened Basics

  /** The bytes of one patch; a manifest holds only patches that change a byte
      and keep the length. */
  datatype Patch = Patch(offset: nat, original: seq<Byte>, replacement: seq<Byte>)

  predicate WellFormed(p: Patch) {
    p.original != [] && |p.original| == |p.replacement| && p.original != p.replacement
  }

  predicate Increasing(s: seq<nat>) {
    forall i, j :: 0 <= i < j < |s| ==> s[i] < s[j]
  }

  lemma IncreasingSnoc(s: seq<nat>, v: nat)
    requires Increasing(s) && forall x <- s :: x < v
    ensures Increasing(s + [v])
  {
    forall i | 0 <= i < |s| ensures s[i] < v {
      assert s[i] in s;
    }
  }

  // ----- bytes.find and all_occurrences -----

  predicate Occurs(data: seq<Byte>, needle: seq<Byte>, p: nat) {
    p + |needle| <= |data| && forall k :: 0 <= k < |needle| ==> data[p + k] == needle[k]
  }

  /** The first occurrence at or behind `from`. */
  function Find(data: seq<Byte>, needle: seq<Byte>, from: nat): (r: Option<nat>)
    ensures r.Some? ==> from <= r.value && Occurs(data, needle, r.value)
    ensures forall p: nat :: from <= p && Occurs(data, needle, p) ==> r.Some? && r.value <= p
    decreases |data| - from
  {
    if from + |needle| > |data| then None
    else if Occurs(data, needle, from) then Some(from)
    else Find(data, needle, from + 1)
  }

  method AllOccurrences(data: seq<Byte>, needle: seq<Byte>) returns (positions: seq<nat>)
    ensures Increasing(positions)
    ensures forall p: nat :: p in positions <==> Occurs(data, needle, p)
  {
    positions := [];
    var start := 0;
    var position := Find(data, needle, start);
    while position.Some?
      invariant start <= |data| + 1
      invariant position == Find(data, needle, start)
      invariant Increasing(positions)
      invariant forall p: nat :: p in positions <==> p < start && Occurs(data, needle, p)
      decreases |data| + 1 - start
    {
      IncreasingSnoc(positions, position.value);
      positions := positions + [position.value];
      start := position.value + 1;
      position := Find(data, needle, start);
    }
  }

  // ----- Runs of positions -----

  datatype Range = Range(start: nat, end: nat)

  predicate Covers(runs: seq<Range>, k: nat) {
    exists r <- runs :: r.start <= k < r.end
  }

  /** Nonempty ranges in order with a gap between any two. */
  predicate Separated(runs: seq<Range>) {
    && (forall i :: 0 <= i < |runs| ==> runs[i].start < runs[i].end)
    && (forall i, j :: 0 <= i < j < |runs| ==> runs[i].end < runs[j].start)
  }

  /** The maximal ranges of consecutive positions. */
  method Coalesce(indices: seq<nat>) returns (runs: seq<Range>)
    requires Increasing(indices)
    ensures Separated(runs) && (runs == [] <==> indices == [])
    ensures forall k: nat :: Covers(runs, k) <==> k in indices
  {
    runs := [];
    for i := 0 to |indices|
      invariant Separated(runs) && (runs == [] <==> i == 0)
      invariant runs != [] ==> runs[|runs| - 1].end == indices[i - 1] + 1
      invariant forall k: nat :: Covers(runs, k) <==> k in indices[..i]
    {
      var index := indices[i];
      ghost var before := runs;
      if runs == [] || index != runs[|runs| - 1].end {
        runs := runs + [Range(index, index + 1)];
        CoversSnoc(before, Range(index, index + 1));
      } else {
        var last := runs[|runs| - 1];
        runs := runs[..|runs| - 1] + [Range(last.start, index + 1)];
        CoversSnoc(before[..|before| - 1], last);
        assert before == before[..|before| - 1] + [last];
        CoversSnoc(before[..|before| - 1], Range(last.start, index + 1));
      }
      assert indices[..i + 1] == indices[..i] + [index];
    }
    assert indices[..|indices|] == indices;
  }

  lemma CoversSnoc(runs: seq<Range>, r: Range)
    ensures forall k: nat :: Covers(runs + [r], k) <==> Covers(runs, k) || r.start <= k < r.end
  {
    forall k: nat ensures Covers(runs + [r], k) <==> Covers(runs, k) || r.start <= k < r.end {
      assert (runs + [r])[|runs|] == r;
    }
  }

  /** The first of the longest runs. */
  method Longest(runs: seq<Range>) returns (best: Range)
    requires runs != [] && Separated(runs)
    ensures exists b :: 0 <= b < |runs| && best == runs[b]
              && (forall i :: 0 <= i < b ==> runs[i].end - runs[i].start < best.end - best.start)
              && (forall i :: b <= i < |runs| ==> runs[i].end - runs[i].start <= best.end - best.start)
  {
    best := runs[0];
    ghost var b := 0;
    for n := 1 to |runs|
      invariant 0 <= b < n && best == runs[b]
      invariant forall i :: 0 <= i < b ==> runs[i].end - runs[i].start < best.end - best.start
      invariant forall i :: b <= i < n ==> runs[i].end - runs[i].start <= best.end - best.start
    {
      if runs[n].end - runs[n].start > best.end - best.start {
        best, b := runs[n], n;
      }
    }
  }

  // ----- masked_candidates -----

  predicate Fixed(p: Patch, k: nat) {
    k < |p.original| && k < |p.replacement| && p.original[k] == p.replacement[k]
  }

  /** Every byte that the patch leaves alone is found at `start`. */
  ghost predicate MaskedMatch(data: seq<Byte>, p: Patch, start: nat) {
    start + |p.original| <= |data| && forall k: nat :: Fixed(p, k) ==> data[start + k] == p.original[k]
  }

  method FixedIndices(p: Patch) returns (fixed: seq<nat>)
    requires WellFormed(p)
    ensures Increasing(fixed) && forall k: nat :: k in fixed <==> Fixed(p, k)
  {
    fixed := [];
    for i := 0 to |p.original|
      invariant Increasing(fixed) && forall k: nat :: k in fixed <==> k < i && Fixed(p, k)
    {
      if p.original[i] == p.replacement[i] {
        IncreasingSnoc(fixed, i);
        fixed := fixed + [i];
      }
    }
  }

  method AllFixedMatch(data: seq<Byte>, p: Patch, fixed: seq<nat>, start: nat) returns (all: bool)
    requires WellFormed(p) && start + |p.original| <= |data| && forall k: nat :: k in fixed <==> Fixed(p, k)
    ensures all <==> MaskedMatch(data, p, start)
  {
    assert forall j :: 0 <= j < |fixed| ==> Fixed(p, fixed[j]) by {
      assert forall j :: 0 <= j < |fixed| ==> fixed[j] in fixed;
    }
    for i := 0 to |fixed|
      invariant forall j :: 0 <= j < i ==> data[start + fixed[j]] == p.original[fixed[j]]
    {
      if data[start + fixed[i]] != p.original[fixed[i]] {
        return false;
      }
    }
    return true;
  }

  /** Keeps the first of equal entries, like a dictionary built from the list. */
  function Unique(s: seq<nat>): seq<nat> {
    if s == [] then []
    else
      var before := Unique(s[..|s| - 1]);
      if s[|s| - 1] in before then before else before + [s[|s| - 1]]
  }

  lemma {:induction false} UniqueOfIncreasing(s: seq<nat>)
    requires Increasing(s)
    ensures Unique(s) == s
  {
    if s != [] {
      UniqueOfIncreasing(s[..|s| - 1]);
      assert s == s[..|s| - 1] + [s[|s| - 1]];
    }
  }

  /** Where the whole mask matches, the anchor occurs. */
  lemma AnchorOccurs(data: seq<Byte>, p: Patch, anchor: Range, start: nat)
    requires anchor.start <= anchor.end <= |p.original|
    requires forall k: nat :: anchor.start <= k < anchor.end ==> Fixed(p, k)
    requires MaskedMatch(data, p, start)
    ensures Occurs(data, p.original[anchor.start..anchor.end], start + anchor.start)
  {
    forall k | 0 <= k < anchor.end - anchor.start
      ensures data[start + anchor.start + k] == p.original[anchor.start..anchor.end][k]
    {
      assert Fixed(p, anchor.start + k);
    }
  }

  /** The search by the longest anchor finds what a search at every position
      would, in order; a patch without fixed bytes has no candidates. */
  method MaskedCandidates(data: seq<Byte>, p: Patch) returns (candidates: seq<nat>)
    requires WellFormed(p)
    ensures Increasing(candidates)
    ensures forall start: nat :: start in candidates <==> (exists k: nat :: Fixed(p, k)) && MaskedMatch(data, p, start)
  {
    var fixed := FixedIndices(p);
    if fixed == [] {
      return [];
    }
    assert Fixed(p, fixed[0]) by { assert fixed[0] in fixed; }
    var runs := Coalesce(fixed);
    var anchor := Longest(runs);
    assert forall k: nat :: anchor.start <= k < anchor.end ==> Fixed(p, k) by {
      forall k: nat | anchor.start <= k < anchor.end ensures Fixed(p, k) {
        assert Covers(runs, k);
      }
    }
    assert Fixed(p, anchor.end - 1);
    candidates := SearchAnchor(data, p, fixed, anchor);
    UniqueOfIncreasing(candidates);
    candidates := Unique(candidates);
  }

  method SearchAnchor(data: seq<Byte>, p: Patch, fixed: seq<nat>, anchor: Range) returns (candidates: seq<nat>)
    requires WellFormed(p) && forall k: nat :: k in fixed <==> Fixed(p, k)
    requires anchor.start < anchor.end <= |p.original|
    requires forall k: nat :: anchor.start <= k < anchor.end ==> Fixed(p, k)
    ensures Increasing(candidates)
    ensures forall start: nat :: start in candidates <==> MaskedMatch(data, p, start)
  {
    candidates := [];
    var needle := p.original[anchor.start..anchor.end];
    var searchFrom := 0;
    var position := Find(data, needle, searchFrom);
    while position.Some?
      invariant searchFrom <= |data| && position == Find(data, needle, searchFrom)
      invariant Increasing(candidates)
      invariant forall start: nat ::
                  start in candidates <==> start + anchor.start < searchFrom && MaskedMatch(data, p, start)
      decreases |data| - searchFrom
    {
      var start: int := position.value - anchor.start;
      if start >= 0 && start + |p.original| <= |data| {
        var all := AllFixedMatch(data, p, fixed, start);
        if all {
          IncreasingSnoc(candidates, start);
          candidates := candidates + [start];
        }
      }
      forall s: nat | searchFrom <= s + anchor.start && MaskedMatch(data, p, s)
        ensures position.value <= s + anchor.start
      {
        AnchorOccurs(data, p, anchor, s);
      }
      searchFrom := position.value + 1;
      position := Find(data, needle, searchFrom);
    }
    forall s: nat | MaskedMatch(data, p, s) ensures s + anchor.start < searchFrom {
      AnchorOccurs(data, p, anchor, s);
    }
  }

  // ----- changed_byte_ranges and proposed_replacement -----

  method ChangedByteRanges(p: Patch) returns (ranges: seq<Range>)
    requires WellFormed(p)
    ensures Separated(ranges)
    ensures forall k: nat :: Covers(ranges, k) <==> k < |p.original| && !Fixed(p, k)
  {
    var changed: seq<nat> := [];
    for i := 0 to |p.original|
      invariant Increasing(changed) && forall k: nat :: k in changed <==> k < i && !Fixed(p, k)
    {
      if p.original[i] != p.replacement[i] {
        IncreasingSnoc(changed, i);
        changed := changed + [i];
      }
    }
    ranges := Coalesce(changed);
  }

  /** The found bytes with the changed ranges taken from the baseline. */
  method ProposedReplacement(data: seq<Byte>, position: nat, baseline: Patch) returns (result: seq<Byte>)
    requires WellFormed(baseline) && position + |baseline.original| <= |data|
    ensures |result| == |baseline.original|
    ensures forall k: nat :: k < |result| ==>
              result[k] == if Fixed(baseline, k) then data[position + k] else baseline.replacement[k]
    ensures MaskedMatch(data, baseline, position) ==> result == baseline.replacement
  {
    var ranges := ChangedByteRanges(baseline);
    result := data[position..position + |baseline.original|];
    assert forall i :: 0 <= i < |ranges| ==> ranges[i].end <= |baseline.original| by {
      forall i | 0 <= i < |ranges| ensures ranges[i].end <= |baseline.original| {
        assert Covers(ranges, ranges[i].end - 1);
      }
    }
    for i := 0 to |ranges|
      invariant |result| == |baseline.original|
      invariant forall k: nat :: k < |result| ==>
                  result[k] == if Covers(ranges[..i], k) then baseline.replacement[k] else data[position + k]
    {
      var r := ranges[i];
      CoversSnoc(ranges[..i], r);
      assert ranges[..i + 1] == ranges[..i] + [r];
      result := result[..r.start] + baseline.replacement[r.start..r.end] + result[r.end..];
    }
    assert ranges[..|ranges|] == ranges;
  }
}
