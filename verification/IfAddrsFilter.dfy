/** The preloaded getifaddrs and freeifaddrs: a filtered copy of the system's
    list, its registry, and who owns which allocation. Lists are linked nodes;
    the ghost ledger knows every allocation that has not been freed. */
module IfAddrsFilter {
  import opened Basics
  import opened NameFilter

  class IfAddrs {
    const name: Option<string>
    const info: nat          // addresses, flags and all the rest
    var next: IfAddrs?

    constructor (name: Option<string>, info: nat)
      ensures this.name == name && this.info == info && next == null
    {
      this.name, this.info, next := name, info, null;
    }
  }

  function NameOf(node: IfAddrs): Option<string> { node.name }

  class AddrsRecord {
    var visible: IfAddrs?
    var original: IfAddrs?
    var next: AddrsRecord?

    constructor ()
      ensures visible == null && original == null && next == null
    {
      visible, original, next := null, null, null;
    }
  }

  // ----- Linked lists and their contents -----

  function At(nodes: seq<IfAddrs>, i: nat): IfAddrs? {
    if i < |nodes| then nodes[i] else null
  }

  ghost predicate Chain(nodes: seq<IfAddrs>, head: IfAddrs?)
    reads nodes
  {
    && (if nodes == [] then head == null else head == nodes[0] && nodes[|nodes| - 1].next == null)
    && (forall i, j :: 0 <= i < j < |nodes| && j == i + 1 ==> nodes[i].next == nodes[j])
  }

  predicate Distinct(nodes: seq<IfAddrs>) {
    forall i, j :: 0 <= i < j < |nodes| ==> nodes[i] != nodes[j]
  }

  /** Copies carry what the nodes carry. */
  predicate Same(copies: seq<IfAddrs>, nodes: seq<IfAddrs>) {
    |copies| == |nodes| && forall i :: 0 <= i < |copies| ==>
      copies[i].name == nodes[i].name && copies[i].info == nodes[i].info
  }

  function Set(nodes: seq<IfAddrs>): set<IfAddrs> {
    set n | n in nodes
  }

  lemma SetAppend(nodes: seq<IfAddrs>, node: IfAddrs)
    ensures Set(nodes + [node]) == Set(nodes) + {node}
  {
  }

  lemma SetSnoc(nodes: seq<IfAddrs>, i: nat)
    requires i < |nodes| && Distinct(nodes)
    ensures Set(nodes[..i + 1]) == Set(nodes[..i]) + {nodes[i]} && nodes[i] !in Set(nodes[..i])
            && nodes[i] in Set(nodes)
  {
    assert nodes[..i + 1] == nodes[..i] + [nodes[i]];
  }

  /** What stands behind a pointer handed to the caller: the list it may walk
      and, for a filtered one, the original list and the record. */
  datatype Holding = Holding(nodes: seq<IfAddrs>, originals: seq<IfAddrs>, record: AddrsRecord?)

  function All(h: Holding): seq<IfAddrs> {
    h.nodes + h.originals
  }

  /** Where a node is: in the holding of which pointer, at which place. */
  datatype Place = Place(holder: IfAddrs, index: nat)

  /** Every node of a holding has its place there. */
  ghost predicate Placed(owner: map<IfAddrs, Place>, v: IfAddrs, nodes: seq<IfAddrs>) {
    (forall n <- nodes :: n in owner) && forall i :: 0 <= i < |nodes| ==> owner[nodes[i]] == Place(v, i)
  }

  /** The live nodes and the places in the holdings correspond one to one. */
  ghost predicate Partition(owner: map<IfAddrs, Place>, held: map<IfAddrs, Holding>) {
    && (forall v <- held :: held[v].nodes != [] && held[v].nodes[0] == v && Placed(owner, v, All(held[v])))
    && (forall n <- owner :: owner[n].holder in held && At(All(held[owner[n].holder]), owner[n].index) == n)
  }

  ghost function Extended(owner: map<IfAddrs, Place>, v: IfAddrs, nodes: seq<IfAddrs>,
                          n: nat): (o: map<IfAddrs, Place>)
    requires n <= |nodes| && Distinct(nodes)
    ensures o.Keys == owner.Keys + Set(nodes[..n])
    ensures forall m <- owner :: m !in nodes ==> o[m] == owner[m]
    ensures forall i :: 0 <= i < n ==> o[nodes[i]] == Place(v, i)
  {
    if n == 0 then owner
    else
      SetSnoc(nodes, n - 1);
      Extended(owner, v, nodes, n - 1)[nodes[n - 1] := Place(v, n - 1)]
  }

  lemma HolderIsOwned(owner: map<IfAddrs, Place>, held: map<IfAddrs, Holding>, v: IfAddrs)
    requires Partition(owner, held) && v in held
    ensures v in owner
  {
    assert All(held[v])[0] == v;
  }

  lemma {:induction false} AddHolding(owner: map<IfAddrs, Place>, held: map<IfAddrs, Holding>, v: IfAddrs, h: Holding)
    requires Partition(owner, held) && h.nodes != [] && h.nodes[0] == v && Distinct(All(h))
             && Set(All(h)) !! owner.Keys
    ensures v !in held && Partition(Extended(owner, v, All(h), |All(h)|), held[v := h])
  {
    hide Extended, Distinct;
    var all := All(h);
    var o := Extended(owner, v, all, |all|);
    assert all[0] == v && all[..|all|] == all;
    if v in held {
      HolderIsOwned(owner, held, v);
    }
    forall n | n in owner ensures n !in all {
      assert n in all ==> n in Set(all);
    }
    forall n | n in o && n !in owner ensures o[n].holder == v && At(all, o[n].index) == n {
      assert n in all;
    }
  }

  lemma PlacedDistinct(owner: map<IfAddrs, Place>, v: IfAddrs, h: Holding)
    requires Placed(owner, v, All(h))
    ensures Distinct(h.nodes) && Distinct(h.originals) && Set(h.nodes) !! Set(h.originals)
  {
    assert forall i :: 0 <= i < |h.nodes| ==> All(h)[i] == h.nodes[i];
    assert forall i :: 0 <= i < |h.originals| ==> All(h)[|h.nodes| + i] == h.originals[i];
  }

  lemma HoldingLists(owner: map<IfAddrs, Place>, held: map<IfAddrs, Holding>, v: IfAddrs)
    requires Partition(owner, held) && v in held
    ensures var h := held[v];
            && Distinct(h.nodes) && Distinct(h.originals) && Set(h.nodes) !! Set(h.originals)
            && Set(h.nodes) <= owner.Keys && Set(h.originals) <= owner.Keys
            && Set(All(h)) == Set(h.nodes) + Set(h.originals)
  {
    hide Distinct;
    PlacedDistinct(owner, v, held[v]);
  }

  ghost function Reduced(owner: map<IfAddrs, Place>, v: IfAddrs): map<IfAddrs, Place> {
    map n | n in owner && owner[n].holder != v :: owner[n]
  }

  lemma RemoveHolding(owner: map<IfAddrs, Place>, held: map<IfAddrs, Holding>, v: IfAddrs)
    requires Partition(owner, held) && v in held
    ensures Partition(Reduced(owner, v), held - {v}) && Reduced(owner, v).Keys == owner.Keys - Set(All(held[v]))
  {
    forall n | n in owner ensures owner[n].holder == v <==> n in All(held[v]) {
      if owner[n].holder == v {
        assert At(All(held[v]), owner[n].index) == n;
      }
    }
  }

  function RecordsOf(h: Holding): set<AddrsRecord> {
    if h.record == null then {} else {h.record}
  }

  /** A holding's lists in memory: both end where a walk along them stops. */
  ghost predicate Shaped(v: IfAddrs, h: Holding)
    reads RecordsOf(h)`visible, RecordsOf(h)`original, h.nodes, h.originals
  {
    && Chain(h.nodes, v)
    && (h.record == null ==> h.originals == [])
    && (h.record != null ==> h.record.visible == v && Chain(h.originals, h.record.original))
  }

  predicate Recorded(held: map<IfAddrs, Holding>, registry: seq<AddrsRecord>) {
    forall v <- held :: held[v].record != null ==> held[v].record in registry
  }

  ghost predicate AllShaped(owner: map<IfAddrs, Place>, held: map<IfAddrs, Holding>, registry: seq<AddrsRecord>)
    requires Partition(owner, held) && Recorded(held, registry)
    reads owner.Keys, registry`visible, registry`original
  {
    forall v <- held :: Shaped(v, held[v])
  }

  /** Each record is found by the pointer the caller holds. */
  ghost predicate Findable(registry: seq<AddrsRecord>, held: map<IfAddrs, Holding>)
    reads registry`visible
  {
    forall r <- registry :: r.visible != null && r.visible in held && held[r.visible].record == r
  }

  /** With these allocations, nothing is lost and nothing is shared: every one
      belongs to exactly one pointer that the caller still holds. */
  ghost predicate Consistent(nodes: set<IfAddrs>, recordSet: set<AddrsRecord>, owner: map<IfAddrs, Place>,
                             held: map<IfAddrs, Holding>, registry: seq<AddrsRecord>, head: AddrsRecord?)
    reads owner.Keys, registry
  {
    && nodes == owner.Keys && recordSet == (set r | r in registry)
    && Partition(owner, held) && Recorded(held, registry)
    && AllShaped(owner, held, registry) && Findable(registry, held) && RecordChain(registry, head)
  }

  lemma {:induction false} ShapedAdd(owner: map<IfAddrs, Place>, held: map<IfAddrs, Holding>,
                                     registry: seq<AddrsRecord>,
                  more: seq<AddrsRecord>, v: IfAddrs, h: Holding)
    requires Partition(owner, held) && Recorded(held, registry) && AllShaped(owner, held, registry)
    requires h.nodes != [] && h.nodes[0] == v && Distinct(All(h)) && Set(All(h)) !! owner.Keys
    requires Shaped(v, h) && (h.record != null ==> h.record in more) && forall r <- registry :: r in more
    ensures var o, all := Extended(owner, v, All(h), |All(h)|), held[v := h];
            v !in held && Partition(o, all) && Recorded(all, more) && AllShaped(o, all, more)
            && o.Keys == owner.Keys + Set(All(h))
  {
    AddHolding(owner, held, v, h);
    assert All(h)[..|All(h)|] == All(h);
  }

  lemma {:induction false} HandOutLemma(base: set<IfAddrs>, recordSet: set<AddrsRecord>, owner: map<IfAddrs, Place>,
                                        held: map<IfAddrs, Holding>,
                     registry: seq<AddrsRecord>, head: AddrsRecord?, original: IfAddrs, list: seq<IfAddrs>)
    requires Consistent(base, recordSet, owner, held, registry, head) && base !! Set(list)
    requires list != [] && Chain(list, original) && Distinct(list)
    ensures Consistent(base + Set(list), recordSet, Extended(owner, original, list, |list|),
                       held[original := Holding(list, [], null)], registry, head)
  {
    var h := Holding(list, [], null);
    assert All(h) == list;
    ShapedAdd(owner, held, registry, registry, original, h);
    forall r | r in registry ensures r.visible != original {
      assert r.visible in held;
    }
  }

  lemma {:induction false} RegisterLemma(base: set<IfAddrs>, recordSet: set<AddrsRecord>, owner: map<IfAddrs, Place>,
                                         held: map<IfAddrs, Holding>,
                      before: seq<AddrsRecord>, record: AddrsRecord, first: IfAddrs, original: IfAddrs?,
                      copies: seq<IfAddrs>, list: seq<IfAddrs>)
    requires base == owner.Keys && recordSet == (set r | r in before) && Partition(owner, held)
             && Recorded(held, before)
    requires AllShaped(owner, held, before) && Findable(before, held)
    requires RecordChain([record] + before, record) && record.visible == first && record.original == original
    requires base !! Set(copies + list) && Distinct(copies + list) && copies != [] && Chain(copies, first)
             && Chain(list, original)
    ensures Consistent(base + Set(copies + list), recordSet + {record},
                       Extended(owner, first, copies + list, |copies + list|),
                       held[first := Holding(copies, list, record)], [record] + before, record)
  {
    hide Partition, AllShaped, Distinct, Extended, RecordChain, Recorded;
    ShapedAdd(owner, held, before, [record] + before, first, Holding(copies, list, record));
  }

  /** The registry leads to the record of the holding, if it has one. */
  lemma {:induction false} FoundRecord(owner: map<IfAddrs, Place>, held: map<IfAddrs, Holding>,
                                       registry: seq<AddrsRecord>,
                    v: IfAddrs, record: AddrsRecord?)
    requires Partition(owner, held) && Recorded(held, registry) && AllShaped(owner, held, registry)
    requires Findable(registry, held) && v in held
    requires record == null ==> forall r <- registry :: r.visible != v
    requires record != null ==> record in registry && record.visible == v
    ensures record == held[v].record && Shaped(v, held[v]) && RecordsOf(held[v]) <= set r | r in registry
  {
    hide Partition;
    assert Shaped(v, held[v]);
  }

  lemma NullIsNotRegistered(registry: seq<AddrsRecord>, held: map<IfAddrs, Holding>)
    requires Findable(registry, held)
    ensures forall r <- registry :: r.visible != null
  {
  }

  lemma {:induction false} ReleaseLemma(nodes: set<IfAddrs>, recordSet: set<AddrsRecord>, owner: map<IfAddrs, Place>,
                                        held: map<IfAddrs, Holding>,
                     before: seq<AddrsRecord>, registry: seq<AddrsRecord>, head: AddrsRecord?, v: IfAddrs)
    requires nodes == owner.Keys && recordSet == (set r | r in before) && Partition(owner, held)
             && Recorded(held, before)
    requires AllShaped(owner, held, before) && Findable(before, held) && v in held
    requires RecordChain(registry, head) && forall r :: r in registry <==> r in before && r != held[v].record
    ensures Consistent(nodes - Set(All(held[v])), recordSet - RecordsOf(held[v]), Reduced(owner, v), held - {v},
                       registry, head)
  {
    hide Partition, RecordChain, Reduced;
    RemoveHolding(owner, held, v);
    assert forall u <- held :: Shaped(u, held[u]);
  }

  ghost predicate RecordChain(registry: seq<AddrsRecord>, head: AddrsRecord?)
    reads registry
  {
    && (if registry == [] then head == null else head == registry[0] && registry[|registry| - 1].next == null)
    && (forall i, j :: 0 <= i < j < |registry| && j == i + 1 ==> registry[i].next == registry[j])
    && (forall i, j :: 0 <= i < j < |registry| ==> registry[i] != registry[j])
  }

  function RecordAt(registry: seq<AddrsRecord>, i: nat): AddrsRecord? {
    if i < |registry| then registry[i] else null
  }

  class Preload {
    const symbols: bool                        // whether the system's functions were found
    var records: AddrsRecord?                  // ifaddrs_allocations
    ghost var registry: seq<AddrsRecord>
    ghost var held: map<IfAddrs, Holding>
    ghost var owner: map<IfAddrs, Place>
    ghost var liveNodes: set<IfAddrs>
    ghost var liveRecords: set<AddrsRecord>
    ghost var denials: nat                     // allocations refused so far

    // ----- malloc, calloc and free -----

    method Malloc(name: Option<string>, info: nat) returns (node: IfAddrs?)
      modifies this`liveNodes, this`denials
      ensures node == null ==> liveNodes == old(liveNodes)
      ensures denials == old(denials) + if node == null then 1 else 0
      ensures node != null ==> fresh(node) && liveNodes == old(liveNodes) + {node}
      ensures node != null ==> node.name == name && node.info == info && node.next == null
    {
      var denied: bool := *;
      if denied {
        denials := denials + 1;
        return null;
      }
      node := new IfAddrs(name, info);
      liveNodes := liveNodes + {node};
    }

    method Free(node: IfAddrs)
      requires node in liveNodes
      modifies this`liveNodes
      ensures liveNodes == old(liveNodes) - {node}
    {
      liveNodes := liveNodes - {node};
    }

    /** Frees a whole list, reading each link before its node goes. */
    method FreeList(head: IfAddrs?, ghost nodes: seq<IfAddrs>)
      requires Chain(nodes, head) && Distinct(nodes) && Set(nodes) <= liveNodes
      modifies this`liveNodes
      ensures liveNodes == old(liveNodes) - Set(nodes)
    {
      var current := head;
      ghost var i := 0;
      while current != null
        invariant i <= |nodes| && current == At(nodes, i)
        invariant liveNodes == old(liveNodes) - Set(nodes[..i])
        decreases |nodes| - i
      {
        var next := current.next;
        SetSnoc(nodes, i);
        Free(current);
        current, i := next, i + 1;
      }
      assert nodes[..i] == nodes;
    }

    /** The system's function: a new list of any length, or a failure. */
    method RealGetIfAddrs() returns (status: int, original: IfAddrs?, ghost list: seq<IfAddrs>)
      modifies this`liveNodes
      ensures fresh(list) && Chain(list, original) && Distinct(list) && liveNodes == old(liveNodes) + Set(list)
      ensures status != 0 ==> list == []
    {
      status, original, list := *, null, [];
      if status != 0 { return; }
      var length: int := *;
      for n := 0 to if length < 0 then 0 else length
        invariant fresh(list) && Chain(list, original) && Distinct(list) && liveNodes == old(liveNodes) + Set(list)
      {
        var name: Option<string>, info: int := *, *;
        var node := new IfAddrs(name, if info < 0 then 0 else info);
        node.next := original;
        original, list, liveNodes := node, [node] + list, liveNodes + {node};
      }
    }

    ghost predicate Valid()
      reads this, registry, owner.Keys
    {
      Consistent(liveNodes, liveRecords, owner, held, registry, records)
    }

    constructor (symbols: bool)
      ensures Valid() && held == map[] && this.symbols == symbols
    {
      this.symbols, records := symbols, null;
      registry, held, owner, liveNodes, liveRecords, denials := [], map[], map[], {}, {}, 0;
    }

    // ----- getifaddrs -----

    /** The copies made so far of the nodes in `kept`, on top of `base`. */
    ghost predicate Built(base: set<IfAddrs>, first: IfAddrs?, last: IfAddrs?, copies: seq<IfAddrs>,
                          kept: seq<IfAddrs>)
      reads this`liveNodes, copies
    {
      && Chain(copies, first) && Distinct(copies) && Same(copies, kept)
      && last == (if copies == [] then null else copies[|copies| - 1])
      && liveNodes == base + Set(copies) && base !! Set(copies)
    }

    /** One more copy behind the last one. */
    method AppendCopy(entry: IfAddrs, first: IfAddrs?, last: IfAddrs?,
                      ghost base: set<IfAddrs>, ghost copies: seq<IfAddrs>, ghost kept: seq<IfAddrs>)
    returns (copy: IfAddrs?)
      requires Built(base, first, last, copies, kept)
      modifies this`liveNodes, this`denials, copies`next
      ensures denials == old(denials) + if copy == null then 1 else 0
      ensures copy == null ==> Built(base, first, last, copies, kept)
      ensures copy != null ==>
                fresh(copy) && Built(base, if first == null then copy else first, copy, copies + [copy], kept + [entry])
    {
      copy := Malloc(entry.name, entry.info);
      if copy != null {
        if last != null {
          last.next := copy;
        }
        SetAppend(copies, copy);
      }
    }

    /** The loop that copies what is kept, or gives everything back when one
        allocation is denied. */
    method CopyKept(original: IfAddrs?, selected: string, ghost list: seq<IfAddrs>)
      returns (ok: bool, first: IfAddrs?, ghost copies: seq<IfAddrs>)
      requires Chain(list, original)
      modifies this`liveNodes, this`denials
      ensures ok <==> denials == old(denials)
      ensures fresh(copies) && Chain(copies, first) && Distinct(copies) && Set(copies) !! old(liveNodes)
      ensures if ok then Same(copies, Kept(list, NameOf, selected, |list|)) && liveNodes == old(liveNodes) + Set(copies)
              else copies == [] && liveNodes == old(liveNodes)
    {
      ghost var base := liveNodes;
      var entry, last: IfAddrs? := original, null;
      first, copies := null, [];
      ghost var i := 0;
      while entry != null
        invariant i <= |list| && entry == At(list, i) && Chain(list, original)
        invariant denials == old(denials) && fresh(copies)
                  && Built(base, first, last, copies, Kept(list, NameOf, selected, i))
        decreases |list| - i
      {
        if Keep(entry.name, selected) {
          var copy := AppendCopy(entry, first, last, base, copies, Kept(list, NameOf, selected, i));
          if copy == null {
            FreeList(first, copies);
            return false, null, [];
          }
          if first == null {
            first := copy;
          }
          last := copy;
          copies := copies + [copy];
        }
        entry, i := entry.next, i + 1;
      }
      ok := true;
    }

    /** The caller gets the original list itself. */
    ghost method HandOut(original: IfAddrs, list: seq<IfAddrs>, base: set<IfAddrs>)
      requires Consistent(base, liveRecords, owner, held, registry, records)
      requires liveNodes == base + Set(list) && base !! Set(list)
      requires list != [] && Chain(list, original) && Distinct(list)
      modifies this`held, this`owner
      ensures Valid() && held == old(held)[original := Holding(list, [], null)]
    {
      hide AllShaped, Partition, Findable, Recorded, Distinct, Extended;
      HandOutLemma(base, liveRecords, owner, held, registry, records, original, list);
      owner, held := Extended(owner, original, list, |list|), held[original := Holding(list, [], null)];
    }

    /** The new record becomes the first one. */
    method Push(record: AddrsRecord, first: IfAddrs, original: IfAddrs?)
      requires RecordChain(registry, records) && record !in registry
      modifies record, this`records, this`registry
      ensures registry == [record] + old(registry) && RecordChain(registry, records)
      ensures record.visible == first && record.original == original
    {
      record.visible := first;
      record.original := original;
      record.next := records;
      records := record;
      registry := [record] + registry;
    }

    /** The caller gets the copies; the record remembers the original list. */
    method Register(record: AddrsRecord, first: IfAddrs, original: IfAddrs?,
                    ghost copies: seq<IfAddrs>, ghost list: seq<IfAddrs>, ghost base: set<IfAddrs>,
                    ghost recordBase: set<AddrsRecord>)
      requires Consistent(base, recordBase, owner, held, registry, records)
      requires liveNodes == base + Set(copies + list) && base !! Set(copies + list)
      requires copies != [] && Chain(copies, first) && Distinct(copies + list) && Chain(list, original)
      requires record !in registry && liveRecords == recordBase + {record}
      modifies record, this`records, this`registry, this`held, this`owner
      ensures Valid() && held == old(held)[first := Holding(copies, list, record)]
      ensures registry == [record] + old(registry)
    {
      hide AllShaped, Partition, Recorded, Distinct, Extended;
      ghost var before := registry;
      Push(record, first, original);
      RegisterLemma(base, recordBase, owner, held, before, record, first, original, copies, list);
      owner := Extended(owner, first, copies + list, |copies + list|);
      held := held[first := Holding(copies, list, record)];
    }

    method CallocRecord() returns (record: AddrsRecord?)
      modifies this`liveRecords, this`denials
      ensures record == null ==> liveRecords == old(liveRecords)
      ensures denials == old(denials) + if record == null then 1 else 0
      ensures record != null ==> fresh(record) && liveRecords == old(liveRecords) + {record}
    {
      var denied: bool := *;
      if denied {
        denials := denials + 1;
        return null;
      }
      record := new AddrsRecord();
      liveRecords := liveRecords + {record};
    }

    method FreeRecord(record: AddrsRecord)
      requires record in liveRecords
      modifies this`liveRecords
      ensures liveRecords == old(liveRecords) - {record}
    {
      liveRecords := liveRecords - {record};
    }

    method FindSelected(original: IfAddrs?, selected: string, ghost list: seq<IfAddrs>) returns (found: bool)
      requires Chain(list, original)
      ensures found <==> Mentions(list, NameOf, selected, |list|)
    {
      var entry := original;
      ghost var i := 0;
      while entry != null
        invariant i <= |list| && entry == At(list, i) && !Mentions(list, NameOf, selected, i)
        decreases |list| - i
      {
        if entry.name == Some(selected) {
          return true;
        }
        entry, i := entry.next, i + 1;
      }
      return false;
    }

    /** Builds and registers the filtered copy; false if it gave up. */
    method TryFilter(original: IfAddrs?, selected: string, ghost list: seq<IfAddrs>, ghost base: set<IfAddrs>)
      returns (first: IfAddrs?)
      requires Consistent(base, liveRecords, owner, held, registry, records) && liveNodes == base + Set(list)
               && base !! Set(list)
      requires Chain(list, original) && Distinct(list) && Mentions(list, NameOf, selected, |list|)
      modifies this`liveNodes, this`liveRecords, this`denials, this`records, this`registry, this`held, this`owner
      ensures first == null <==> denials != old(denials)
      ensures first == null ==>
                unchanged(this`liveNodes, this`liveRecords, this`records, this`registry, this`held, this`owner)
      ensures forall r <- registry :: r in old(registry) || fresh(r)
      ensures first != null ==>
                Valid() && fresh(first) && first in held && held == old(held)[first := held[first]]
                && Same(held[first].nodes, Kept(list, NameOf, selected, |list|)) && held[first].originals == list
                && held[first].record != null
    {
      hide Consistent, Distinct, Same, Mentions, Set;
      ghost var recordBase := liveRecords;
      var record := CallocRecord();
      if record == null {
        return null;
      }
      var ok, copy, copies := CopyKept(original, selected, list);
      if !ok {
        FreeRecord(record);
        return null;
      }
      KeptMentions(list, NameOf, selected, |list|);
      CopiesApart(copies, list, base);
      first := copy;
      Register(record, first, original, copies, list, base, recordBase);
    }

    /** getifaddrs: the system's list untouched, or exactly its kept entries in
        order. It is filtered whenever the selected interface is there and no
        allocation is denied. */
    method GetIfAddrs(resultGiven: bool, variable: Option<string>)
      returns (status: int, result: IfAddrs?, ghost listed: seq<IfAddrs>)
      requires Valid()
      modifies this
      ensures Valid()
      ensures !resultGiven || !symbols ==> status == -1
      ensures status != 0 ==> result == null && unchanged(this)
      ensures result != null ==> fresh(result)
      ensures forall r <- registry :: r in old(registry) || fresh(r)
      ensures status == 0 ==>
                if Available(listed, NameOf, Selected(variable)) && denials == old(denials)
                then Filtered(result, listed, old(held), Selected(variable).value)
                else Untouched(result, listed, old(held))
    {
      hide Consistent, Distinct, Same, Mentions;
      listed := [];
      if !resultGiven || !symbols {
        return -1, null, [];
      }
      ghost var base := liveNodes;
      var original;
      status, original, listed := RealGetIfAddrs();
      if status != 0 {
        assert Set(listed) == {} && liveNodes == old(liveNodes);
        return status, null, [];
      }
      result := original;
      var selected := Selected(variable);
      var found := false;
      if selected.Some? {
        found := FindSelected(original, selected.value, listed);
      }
      if found {
        var first := TryFilter(original, selected.value, listed, base);
        if first != null {
          return 0, first, listed;
        }
      }
      if original != null {
        HandOut(original, listed, base);
      } else {
        assert Set(listed) == {} && liveNodes == base;
      }
    }

    // ----- freeifaddrs -----

    /** Takes the record out by rewriting the link that leads to it. */
    method Unlink(visible: IfAddrs?) returns (record: AddrsRecord?)
      requires RecordChain(registry, records)
      modifies this`records, this`registry, registry`next
      ensures RecordChain(registry, records)
      ensures record == null ==> registry == old(registry) && forall r <- registry :: r.visible != visible
      ensures record != null ==>
                record in old(registry) && record.visible == visible && record !in registry
                && forall r <- old(registry) :: r == record || r in registry
      ensures forall r <- registry :: r in old(registry)
    {
      var link, current: AddrsRecord? := null, records;
      ghost var k := 0;
      while current != null && current.visible != visible
        invariant k <= |registry| && current == RecordAt(registry, k)
                  && link == (if k == 0 then null else registry[k - 1])
        invariant forall i :: 0 <= i < k ==> registry[i].visible != visible
        decreases |registry| - k
      {
        link, current, k := current, current.next, k + 1;
      }
      record := current;
      if record != null {
        if link == null {
          records := record.next;
        } else {
          link.next := record.next;
        }
        registry := registry[..k] + registry[k + 1..];
      }
    }

    /** The system's function: frees a list that it made itself. */
    method RealFreeIfAddrs(head: IfAddrs?, ghost nodes: seq<IfAddrs>)
      requires Chain(nodes, head) && Distinct(nodes) && Set(nodes) <= liveNodes
      modifies this`liveNodes
      ensures liveNodes == old(liveNodes) - Set(nodes)
    {
      liveNodes := liveNodes - Set(nodes);
    }

    method FreeHolding(visible: IfAddrs, record: AddrsRecord?, ghost h: Holding)
      requires Shaped(visible, h) && record == h.record && RecordsOf(h) <= liveRecords
      requires Distinct(h.nodes) && Distinct(h.originals) && Set(h.nodes) !! Set(h.originals)
      requires Set(h.nodes) <= liveNodes && Set(h.originals) <= liveNodes
      modifies this`liveNodes, this`liveRecords
      ensures liveNodes == old(liveNodes) - (Set(h.nodes) + Set(h.originals))
              && liveRecords == old(liveRecords) - RecordsOf(h)
    {
      if record != null {
        FreeList(visible, h.nodes);
        RealFreeIfAddrs(record.original, h.originals);
        FreeRecord(record);
      } else {
        RealFreeIfAddrs(visible, h.nodes);
      }
    }

    /** freeifaddrs: everything behind the pointer is freed, once, and nothing
        else. */
    method FreeIfAddrs(visible: IfAddrs?)
      requires Valid() && (visible == null || visible in held)
      modifies this`records, this`registry, this`held, this`owner, this`liveNodes, this`liveRecords, registry`next
      ensures Valid()
      ensures !symbols || visible == null ==>
                held == old(held) && liveNodes == old(liveNodes) && liveRecords == old(liveRecords)
      ensures symbols && visible != null ==> visible in old(held) && held == old(held) - {visible}
      ensures symbols && visible != null ==>
                liveNodes == old(liveNodes) - Set(All(old(held)[visible]))
                && liveRecords == old(liveRecords) - RecordsOf(old(held)[visible])
      ensures forall r <- registry :: r in old(registry)
    {
      hide Partition, RecordChain, Reduced, Recorded, AllShaped, Findable, Shaped, Distinct, Set;
      if !symbols {
        return;
      }
      ghost var before := registry;
      var record := Unlink(visible);
      if visible == null {
        NullIsNotRegistered(before, held);
        return;
      }
      FoundRecord(owner, held, before, visible, record);
      HoldingLists(owner, held, visible);
      FreeHolding(visible, record, held[visible]);
      ReleaseLemma(old(liveNodes), old(liveRecords), owner, held, before, registry, records, visible);
      owner, held := Reduced(owner, visible), held - {visible};
    }

    /** Any calls by one caller, who frees what it was given, in any order, and
        in the end all of it: every allocation is then freed, and since free
        demands a live one, each was freed once. */
    method AnyRun(calls: seq<Call>)
      requires Valid() && symbols && held == map[] && registry == []
      modifies this
      ensures liveNodes == {} && liveRecords == {}
    {
      hide Consistent, Mine, Same, Kept;
      var mine: seq<IfAddrs> := [];
      NothingMine();
      for i := 0 to |calls|
        invariant Valid() && Mine(mine, held) && fresh(registry)
      {
        ghost var before := held;
        match calls[i] {
        case Get(resultGiven, variable) =>
          var status, result, listed := GetIfAddrs(resultGiven, variable);
          if result != null {
            MineMore(mine, before, result, held[result]);
            mine := mine + [result];
          }
        case Free(k) =>
          if k < |mine| {
            MineLess(mine, held, k);
            FreeIfAddrs(mine[k]);
            mine := mine[..k] + mine[k + 1..];
          } else {
            FreeIfAddrs(null);
          }
        }
        assert forall j :: 0 <= j < |registry| ==> registry[j] in registry;
      }
      while mine != []
        invariant Valid() && Mine(mine, held) && fresh(registry)
        decreases |mine|
      {
        MineLess(mine, held, 0);
        assert mine[..0] + mine[1..] == mine[1..];
        FreeIfAddrs(mine[0]);
        assert forall j :: 0 <= j < |registry| ==> registry[j] in registry;
        mine := mine[1..];
      }
      AllGone(held);
      NothingLeft(liveNodes, liveRecords, owner, held, registry, records);
    }

    ghost predicate Untouched(result: IfAddrs?, listed: seq<IfAddrs>, before: map<IfAddrs, Holding>)
      reads this`held
    {
      if listed == [] then result == null && held == before
      else result == listed[0] && held == before[listed[0] := Holding(listed, [], null)]
    }

    ghost predicate Filtered(result: IfAddrs?, listed: seq<IfAddrs>, before: map<IfAddrs, Holding>, selected: string)
      reads this`held
    {
      && result != null && result in held && held == before[result := held[result]]
      && Same(held[result].nodes, Kept(listed, NameOf, selected, |listed|))
      && held[result].originals == listed && held[result].record != null
    }
  }

  datatype Call = Get(resultGiven: bool, variable: Option<string>) | Free(k: nat)

  /** The caller's pointers are the holdings, each once. */
  ghost predicate Mine(mine: seq<IfAddrs>, held: map<IfAddrs, Holding>) {
    Distinct(mine) && Set(mine) == held.Keys
  }

  lemma NothingLeft(nodes: set<IfAddrs>, recordSet: set<AddrsRecord>, owner: map<IfAddrs, Place>,
                    held: map<IfAddrs, Holding>, registry: seq<AddrsRecord>, head: AddrsRecord?)
    requires Consistent(nodes, recordSet, owner, held, registry, head) && held == map[]
    ensures nodes == {} && recordSet == {}
  {
    assert forall r <- registry :: r.visible in held;
  }

  lemma NothingMine()
    ensures Mine([], map[])
  {
  }

  lemma AllGone(held: map<IfAddrs, Holding>)
    requires Mine([], held)
    ensures held == map[]
  {
  }

  lemma MineLess(mine: seq<IfAddrs>, held: map<IfAddrs, Holding>, k: nat)
    requires Mine(mine, held) && k < |mine|
    ensures mine[k] in held && Mine(mine[..k] + mine[k + 1..], held - {mine[k]})
  {
    var rest := mine[..k] + mine[k + 1..];
    assert mine[k] in Set(mine);
    forall v | v in mine && v != mine[k] ensures v in rest {
      var i :| 0 <= i < |mine| && mine[i] == v;
      assert rest[if i < k then i else i - 1] == v;
    }
  }

  lemma MineMore(mine: seq<IfAddrs>, held: map<IfAddrs, Holding>, v: IfAddrs, h: Holding)
    requires Mine(mine, held) && v !in held
    ensures Mine(mine + [v], held[v := h])
  {
    assert v !in Set(mine);
    SetAppend(mine, v);
  }

  lemma CopiesApart(copies: seq<IfAddrs>, list: seq<IfAddrs>, base: set<IfAddrs>)
    requires Distinct(copies) && Distinct(list) && Set(copies) !! base + Set(list) && base !! Set(list)
    ensures Distinct(copies + list) && base !! Set(copies + list) && Set(copies + list) == Set(copies) + Set(list)
  {
    forall i, j | 0 <= i < |copies| && 0 <= j < |list| ensures copies[i] != list[j] {
      assert copies[i] in Set(copies) && list[j] in Set(list);
    }
  }
}
