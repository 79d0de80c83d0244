/** Disjoint patches of an approved release, applied to a program file and
    taken back from its backup. */
module ReleasePatch {
  import opened Basics
  import opened MaskedSearch

  // ----- The overlap check -----

  predicate Disjoint(p: Patch, q: Patch) {
    p.offset + |p.original| <= q.offset || q.offset + |q.original| <= p.offset
  }

  predicate PairwiseDisjoint(ps: seq<Patch>) {
    forall i, j :: 0 <= i < j < |ps| ==> Disjoint(ps[i], ps[j])
  }

  predicate ByOffset(ps: seq<Patch>) {
    forall i, j :: 0 <= i < j < |ps| ==> ps[i].offset <= ps[j].offset
  }

  predicate AllWellFormed(ps: seq<Patch>) {
    forall i :: 0 <= i < |ps| ==> WellFormed(ps[i])
  }

  /** Puts p behind the patches with an offset that is not larger. */
  function Insert(ps: seq<Patch>, p: Patch): seq<Patch> {
    if ps == [] || ps[|ps| - 1].offset <= p.offset then ps + [p]
    else Insert(ps[..|ps| - 1], p) + [ps[|ps| - 1]]
  }

  /** The stable sort by offset. */
  function SortedByOffset(ps: seq<Patch>): seq<Patch> {
    if ps == [] then [] else Insert(SortedByOffset(ps[..|ps| - 1]), ps[|ps| - 1])
  }

  lemma {:induction false} InsertKeepsOrder(ps: seq<Patch>, p: Patch)
    requires ByOffset(ps)
    ensures ByOffset(Insert(ps, p)) && |Insert(ps, p)| == |ps| + 1
    ensures forall i :: 0 <= i <= |ps| ==>
              Insert(ps, p)[i].offset <= p.offset || (|ps| > 0 && Insert(ps, p)[i].offset <= ps[|ps| - 1].offset)
  {
    if ps != [] && ps[|ps| - 1].offset > p.offset {
      InsertKeepsOrder(ps[..|ps| - 1], p);
    }
  }

  /** Insertion neither creates nor hides an overlap. */
  lemma {:induction false} InsertKeepsDisjointness(ps: seq<Patch>, p: Patch)
    ensures PairwiseDisjoint(Insert(ps, p))
            <==> PairwiseDisjoint(ps) && forall i :: 0 <= i < |ps| ==> Disjoint(ps[i], p)
    ensures forall q: Patch :: Meets(Insert(ps, p), q) <==> Meets(ps, q) || !Disjoint(p, q)
    ensures AllWellFormed(Insert(ps, p)) <==> AllWellFormed(ps) && WellFormed(p)
    decreases |ps|
  {
    if ps == [] || ps[|ps| - 1].offset <= p.offset {
      SnocDisjoint(ps, p);
    } else {
      var front, last := ps[..|ps| - 1], ps[|ps| - 1];
      assert ps == front + [last];
      InsertKeepsDisjointness(front, p);
      SnocDisjoint(front, last);
      SnocDisjoint(Insert(front, p), last);
    }
  }

  predicate Meets(ps: seq<Patch>, q: Patch) {
    exists i :: 0 <= i < |ps| && !Disjoint(ps[i], q)
  }

  lemma SnocDisjoint(ps: seq<Patch>, p: Patch)
    ensures PairwiseDisjoint(ps + [p]) <==> PairwiseDisjoint(ps) && !Meets(ps, p)
    ensures forall q: Patch :: Meets(ps + [p], q) <==> Meets(ps, q) || !Disjoint(p, q)
    ensures AllWellFormed(ps + [p]) <==> AllWellFormed(ps) && WellFormed(p)
  {
    var more := ps + [p];
    assert more[|ps|] == p;
    assert forall i :: 0 <= i < |ps| ==> more[i] == ps[i];
    if PairwiseDisjoint(more) {
      assert forall i :: 0 <= i < |ps| ==> Disjoint(more[i], more[|ps|]);
    }
  }

  lemma {:induction false} SortKeepsDisjointness(ps: seq<Patch>)
    ensures ByOffset(SortedByOffset(ps))
    ensures PairwiseDisjoint(SortedByOffset(ps)) <==> PairwiseDisjoint(ps)
    ensures forall q: Patch :: Meets(SortedByOffset(ps), q) <==> Meets(ps, q)
    ensures AllWellFormed(SortedByOffset(ps)) <==> AllWellFormed(ps)
  {
    if ps != [] {
      var front, last := ps[..|ps| - 1], ps[|ps| - 1];
      assert ps == front + [last];
      SortKeepsDisjointness(front);
      InsertKeepsOrder(SortedByOffset(front), last);
      InsertKeepsDisjointness(SortedByOffset(front), last);
      SnocDisjoint(front, last);
    }
  }

  /** Among sorted nonempty ranges only neighbours need to be compared. */
  lemma {:induction false} NeighboursSuffice(ps: seq<Patch>, i: nat, j: nat)
    requires ByOffset(ps) && AllWellFormed(ps) && i < j < |ps|
    requires forall k :: 0 <= k < |ps| - 1 ==> ps[k].offset + |ps[k].original| <= ps[k + 1].offset
    ensures ps[i].offset + |ps[i].original| <= ps[j].offset
  {
    if i + 1 < j {
      NeighboursSuffice(ps, i, j - 1);
    }
  }

  /** The check of manifest_from_dict: neighbours in offset order. */
  method OverlapCheck(ps: seq<Patch>) returns (ok: bool)
    requires AllWellFormed(ps)
    ensures ok <==> PairwiseDisjoint(ps)
  {
    var ordered := SortedByOffset(ps);
    SortKeepsDisjointness(ps);
    if ordered == [] {
      return true;
    }
    for k := 1 to |ordered|
      invariant forall i :: 0 <= i < k - 1 ==> ordered[i].offset + |ordered[i].original| <= ordered[i + 1].offset
    {
      if ordered[k - 1].offset + |ordered[k - 1].original| > ordered[k].offset {
        assert WellFormed(ordered[k]) && !Disjoint(ordered[k - 1], ordered[k]);
        return false;
      }
    }
    forall i, j | 0 <= i < j < |ordered| ensures Disjoint(ordered[i], ordered[j]) {
      NeighboursSuffice(ordered, i, j);
    }
    return true;
  }

  // ----- Applying patches -----

  /** Every patch is well-formed and lies within a file of this size. */
  predicate Applicable(ps: seq<Patch>, size: nat) {
    forall p <- ps :: WellFormed(p) && p.offset + |p.original| <= size
  }

  predicate Hits(p: Patch, k: nat) {
    p.offset <= k < p.offset + |p.original|
  }

  function Put(data: seq<Byte>, p: Patch): (r: seq<Byte>)
    requires WellFormed(p) && p.offset + |p.original| <= |data|
    ensures |r| == |data|
  {
    data[..p.offset] + p.replacement + data[p.offset + |p.original|..]
  }

  lemma PutAt(data: seq<Byte>, p: Patch, k: nat)
    requires WellFormed(p) && p.offset + |p.original| <= |data| && k < |data|
    ensures Put(data, p)[k] == if Hits(p, k) then p.replacement[k - p.offset] else data[k]
  {
  }

  /** The first n patches, one after the other. */
  function Rendered(data: seq<Byte>, ps: seq<Patch>, n: nat): (r: seq<Byte>)
    requires Applicable(ps, |data|) && n <= |ps|
    ensures |r| == |data|
  {
    if n == 0 then data else Put(Rendered(data, ps, n - 1), ps[n - 1])
  }

  method PutInPlace(output: array<Byte>, p: Patch)
    requires WellFormed(p) && p.offset + |p.original| <= output.Length
    modifies output
    ensures output[..] == Put(old(output[..]), p)
  {
    for k := 0 to |p.original|
      invariant forall i :: 0 <= i < output.Length ==>
                  output[i] == if p.offset <= i < p.offset + k then p.replacement[i - p.offset] else old(output[i])
    {
      output[p.offset + k] := p.replacement[k];
    }
    forall i: nat | i < output.Length ensures output[i] == Put(old(output[..]), p)[i] {
      PutAt(old(output[..]), p, i);
    }
  }

  method ApplyPatches(output: array<Byte>, ps: seq<Patch>)
    requires Applicable(ps, output.Length)
    modifies output
    ensures output[..] == Rendered(old(output[..]), ps, |ps|)
  {
    for n := 0 to |ps|
      invariant output[..] == Rendered(old(output[..]), ps, n)
    {
      PutInPlace(output, ps[n]);
    }
  }

  /** Patches of the list are disjoint or the same. */
  predicate Apart(ps: seq<Patch>) {
    forall p, q :: p in ps && q in ps && p != q ==> Disjoint(p, q)
  }

  lemma DisjointIsApart(ps: seq<Patch>)
    requires PairwiseDisjoint(ps)
    ensures Apart(ps)
  {
  }

  /** Byte k of r is the one the patch that hits it puts there, or the old one. */
  predicate ByteOf(r: seq<Byte>, data: seq<Byte>, ps: seq<Patch>, k: nat)
    requires Applicable(ps, |data|) && |r| == |data| && k < |data|
  {
    && (forall p <- ps :: Hits(p, k) ==> r[k] == p.replacement[k - p.offset])
    && ((forall p <- ps :: !Hits(p, k)) ==> r[k] == data[k])
  }

  predicate IsRendering(r: seq<Byte>, data: seq<Byte>, ps: seq<Patch>)
    requires Applicable(ps, |data|)
  {
    |r| == |data| && forall k: nat :: k < |data| ==> ByteOf(r, data, ps, k)
  }

  lemma {:induction false} RenderedHit(data: seq<Byte>, ps: seq<Patch>, n: nat, i: nat, k: nat)
    requires Applicable(ps, |data|) && Apart(ps) && i < n <= |ps| && k < |data| && Hits(ps[i], k)
    ensures Rendered(data, ps, n)[k] == ps[i].replacement[k - ps[i].offset]
    decreases n
  {
    PutAt(Rendered(data, ps, n - 1), ps[n - 1], k);
    assert ps[i] in ps && ps[n - 1] in ps;
    if !Hits(ps[n - 1], k) {
      RenderedHit(data, ps, n - 1, i, k);
    }
  }

  lemma {:induction false} RenderedMiss(data: seq<Byte>, ps: seq<Patch>, n: nat, k: nat)
    requires Applicable(ps, |data|) && n <= |ps| && k < |data| && forall p <- ps :: !Hits(p, k)
    ensures Rendered(data, ps, n)[k] == data[k]
    decreases n
  {
    if n > 0 {
      PutAt(Rendered(data, ps, n - 1), ps[n - 1], k);
      RenderedMiss(data, ps, n - 1, k);
    }
  }

  lemma OnlyHit(ps: seq<Patch>, i: nat, k: nat)
    requires Apart(ps) && i < |ps| && Hits(ps[i], k)
    ensures forall p <- ps :: Hits(p, k) ==> p == ps[i]
  {
    assert ps[i] in ps;
  }

  lemma {:induction false} RenderedByte(data: seq<Byte>, ps: seq<Patch>, r: seq<Byte>, k: nat)
    requires Applicable(ps, |data|) && Apart(ps) && k < |data| && r == Rendered(data, ps, |ps|)
    ensures ByteOf(r, data, ps, k)
  {
    if i :| 0 <= i < |ps| && Hits(ps[i], k) {
      RenderedHit(data, ps, |ps|, i, k);
      OnlyHit(ps, i, k);
    } else {
      RenderedMiss(data, ps, |ps|, k);
    }
  }

  /** Applying disjoint patches one after the other sets every byte as the patch
      that covers it says. */
  lemma {:induction false} RenderedIsRendering(data: seq<Byte>, ps: seq<Patch>)
    requires Applicable(ps, |data|) && Apart(ps)
    ensures IsRendering(Rendered(data, ps, |ps|), data, ps)
  {
    forall k: nat | k < |data| ensures ByteOf(Rendered(data, ps, |ps|), data, ps, k) {
      RenderedByte(data, ps, Rendered(data, ps, |ps|), k);
    }
  }

  lemma SameElements(ps: seq<Patch>, qs: seq<Patch>)
    requires multiset(ps) == multiset(qs)
    ensures forall p :: p in ps <==> p in qs
  {
    assert forall p :: p in ps <==> p in multiset(ps);
    assert forall p :: p in qs <==> p in multiset(qs);
  }

  lemma OneRendering(r: seq<Byte>, s: seq<Byte>, data: seq<Byte>, ps: seq<Patch>, qs: seq<Patch>)
    requires Applicable(ps, |data|) && Applicable(qs, |data|) && (forall p :: p in ps <==> p in qs)
    requires IsRendering(r, data, ps) && IsRendering(s, data, qs)
    ensures r == s
  {
    forall k: nat | k < |data| ensures r[k] == s[k] {
      assert ByteOf(r, data, ps, k) && ByteOf(s, data, qs, k);
    }
  }

  /** The order of the patches does not matter. */
  lemma {:induction false} OrderDoesNotMatter(data: seq<Byte>, ps: seq<Patch>, qs: seq<Patch>)
    requires Applicable(ps, |data|) && PairwiseDisjoint(ps) && multiset(ps) == multiset(qs)
    ensures Applicable(qs, |data|) && Rendered(data, ps, |ps|) == Rendered(data, qs, |qs|)
  {
    SameElements(ps, qs);
    DisjointIsApart(ps);
    RenderedIsRendering(data, ps);
    RenderedIsRendering(data, qs);
    OneRendering(Rendered(data, ps, |ps|), Rendered(data, qs, |qs|), data, ps, qs);
  }

  predicate Holds(data: seq<Byte>, p: Patch) {
    Occurs(data, p.original, p.offset)
  }

  lemma HeldByte(data: seq<Byte>, p: Patch, k: nat)
    requires Holds(data, p) && Hits(p, k)
    ensures k < |data| && data[k] == p.original[k - p.offset]
  {
    assert data[p.offset + (k - p.offset)] == p.original[k - p.offset];
  }

  /** The bytes that change are exactly those that their patch changes. */
  lemma ChangesExactly(r: seq<Byte>, data: seq<Byte>, ps: seq<Patch>, k: nat)
    requires Applicable(ps, |data|) && IsRendering(r, data, ps) && k < |data| && forall p <- ps :: Holds(data, p)
    ensures r[k] != data[k] <==> exists p <- ps :: Hits(p, k) && !Fixed(p, k - p.offset)
  {
    assert ByteOf(r, data, ps, k);
    forall p | p in ps && Hits(p, k) ensures data[k] == p.original[k - p.offset] {
      HeldByte(data, p, k);
    }
  }

  function Swapped(p: Patch): Patch {
    Patch(p.offset, p.replacement, p.original)
  }

  function SwapAll(ps: seq<Patch>): (qs: seq<Patch>)
    ensures |qs| == |ps| && forall q :: q in qs <==> Swapped(q) in ps
  {
    var qs := seq(|ps|, i requires 0 <= i < |ps| => Swapped(ps[i]));
    assert forall i :: 0 <= i < |ps| ==> Swapped(qs[i]) == ps[i] && qs[i] in qs;
    assert forall q :: Swapped(q) in ps ==> q in qs by {
      forall q | Swapped(q) in ps ensures q in qs {
        var i :| 0 <= i < |ps| && ps[i] == Swapped(q);
        assert qs[i] == q;
      }
    }
    qs
  }

  lemma SwapKeepsShape(ps: seq<Patch>, size: nat)
    requires Applicable(ps, size) && Apart(ps)
    ensures Applicable(SwapAll(ps), size) && Apart(SwapAll(ps))
  {
    var qs := SwapAll(ps);
    forall q | q in qs ensures WellFormed(q) && q.offset + |q.original| <= size {
      assert WellFormed(Swapped(q));
    }
    forall p, q | p in qs && q in qs && p != q ensures Disjoint(p, q) {
      assert Swapped(p) != Swapped(q) && Disjoint(Swapped(p), Swapped(q));
      assert WellFormed(Swapped(p)) && WellFormed(Swapped(q));
    }
  }

  /** Where the originals stood, the replacements stand. */
  lemma RenderingHolds(r: seq<Byte>, data: seq<Byte>, ps: seq<Patch>, p: Patch)
    requires Applicable(ps, |data|) && IsRendering(r, data, ps) && p in ps
    ensures Holds(r, Swapped(p))
  {
    forall k | 0 <= k < |p.replacement| ensures r[p.offset + k] == p.replacement[k] {
      assert ByteOf(r, data, ps, p.offset + k) && Hits(p, p.offset + k);
    }
  }

  lemma SwapRestores(data: seq<Byte>, patched: seq<Byte>, ps: seq<Patch>, qs: seq<Patch>)
    requires Applicable(ps, |data|) && IsRendering(patched, data, ps) && forall p <- ps :: Holds(data, p)
    requires Applicable(qs, |data|) && forall q :: q in qs <==> Swapped(q) in ps
    ensures IsRendering(data, patched, qs)
  {
    forall k: nat | k < |data| ensures ByteOf(data, patched, qs, k) {
      assert ByteOf(patched, data, ps, k);
      forall q | q in qs && Hits(q, k) ensures data[k] == q.replacement[k - q.offset] {
        assert WellFormed(q);
        HeldByte(data, Swapped(q), k);
      }
      forall p | p in ps && Hits(p, k) ensures Swapped(p) in qs && Hits(Swapped(p), k) {
        assert Swapped(Swapped(p)) == p;
      }
    }
  }

  /** Exchanging original and replacement takes the patches back. */
  lemma {:induction false} SwapUndoes(data: seq<Byte>, ps: seq<Patch>)
    requires Applicable(ps, |data|) && PairwiseDisjoint(ps) && forall p <- ps :: Holds(data, p)
    ensures Applicable(SwapAll(ps), |data|)
    ensures Rendered(Rendered(data, ps, |ps|), SwapAll(ps), |ps|) == data
  {
    var patched, qs := Rendered(data, ps, |ps|), SwapAll(ps);
    DisjointIsApart(ps);
    SwapKeepsShape(ps, |data|);
    RenderedIsRendering(data, ps);
    RenderedIsRendering(patched, qs);
    SwapRestores(data, patched, ps, qs);
    OneRendering(Rendered(patched, qs, |qs|), data, patched, qs, qs);
  }
}
