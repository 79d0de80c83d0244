/** The preloaded if_nameindex and if_freenameindex: the system's array is
    replaced by a filtered one with duplicated names, unless an allocation is
    denied on the way. */
module NameIndexFilter {
  import opened Basics
  import opened NameFilter

  class Name {
    const text: string

    constructor (text: string)
      ensures this.text == text
    {
      this.text := text;
    }
  }

  /** An array of these ends with index 0. */
  datatype NameEntry = NameEntry(index: nat, name: Name?)

  const END := NameEntry(0, null)

  class NameRecord {
    var visible: array?<NameEntry>
    var next: NameRecord?

    constructor ()
      ensures visible == null && next == null
    {
      visible, next := null, null;
    }
  }

  // ----- Contents -----

  function Text(e: NameEntry): Option<string> {
    if e.name == null then None else Some(e.name.text)
  }

  predicate Same(copies: seq<NameEntry>, entries: seq<NameEntry>) {
    |copies| == |entries|
    && forall i :: 0 <= i < |copies| ==>
         copies[i].index == entries[i].index && copies[i].name != null && Some(copies[i].name.text) == Text(entries[i])
  }

  /** The array holds these entries and the end mark. */
  ghost predicate Holds(block: array<NameEntry>, entries: seq<NameEntry>)
    reads block
  {
    block[..] == entries + [END] && forall e <- entries :: e.index != 0
  }

  function Names(entries: seq<NameEntry>): set<Name> {
    set e | e in entries && e.name != null :: e.name
  }

  predicate DistinctNames(entries: seq<NameEntry>) {
    forall i, j :: 0 <= i < j < |entries| && entries[i].name != null ==> entries[i].name != entries[j].name
  }

  // ----- Ownership -----

  datatype Holding = Holding(entries: seq<NameEntry>, record: NameRecord?)

  datatype Place = Place(holder: array<NameEntry>, index: nat)

  /** The live names and the places in the arrays correspond one to one. */
  ghost predicate Partition(owner: map<Name, Place>, held: map<array<NameEntry>, Holding>) {
    && (forall b, i :: b in held && 0 <= i < |held[b].entries| && held[b].entries[i].name != null ==>
          held[b].entries[i].name in owner && owner[held[b].entries[i].name] == Place(b, i))
    && (forall n <- owner ::
          owner[n].holder in held && owner[n].index < |held[owner[n].holder].entries|
          && held[owner[n].holder].entries[owner[n].index].name == n)
  }

  ghost function Extended(owner: map<Name, Place>, b: array<NameEntry>, entries: seq<NameEntry>,
                          n: nat): (o: map<Name, Place>)
    requires n <= |entries| && DistinctNames(entries)
    ensures o.Keys == owner.Keys + Names(entries[..n])
    ensures forall m <- owner :: m !in Names(entries[..n]) ==> o[m] == owner[m]
    ensures forall i :: 0 <= i < n && entries[i].name != null ==> o[entries[i].name] == Place(b, i)
  {
    if n == 0 then owner
    else
      NamesSnoc(entries[..n - 1], entries[n - 1]);
      assert entries[..n] == entries[..n - 1] + [entries[n - 1]];
      var before := Extended(owner, b, entries, n - 1);
      if entries[n - 1].name == null then before else before[entries[n - 1].name := Place(b, n - 1)]
  }

  lemma NamesSnoc(entries: seq<NameEntry>, e: NameEntry)
    ensures Names(entries + [e]) == Names(entries) + (if e.name == null then {} else {e.name})
  {
    if e.name != null {
      assert e in entries + [e];
    }
  }

  lemma {:induction false} NamesAt(entries: seq<NameEntry>)
    ensures forall i :: 0 <= i < |entries| && entries[i].name != null ==> entries[i].name in Names(entries)
  {
    forall i | 0 <= i < |entries| && entries[i].name != null ensures entries[i].name in Names(entries) {
      assert entries[i] in entries;
    }
  }

  lemma {:induction false} AddHolding(owner: map<Name, Place>, held: map<array<NameEntry>, Holding>,
                                      b: array<NameEntry>, h: Holding)
    requires Partition(owner, held) && b !in held && DistinctNames(h.entries) && Names(h.entries) !! owner.Keys
    ensures Partition(Extended(owner, b, h.entries, |h.entries|), held[b := h])
    ensures Extended(owner, b, h.entries, |h.entries|).Keys == owner.Keys + Names(h.entries)
  {
    hide Extended, DistinctNames;
    NamesAt(h.entries);
    assert h.entries[..|h.entries|] == h.entries;
  }

  ghost function Reduced(owner: map<Name, Place>, b: array<NameEntry>): map<Name, Place> {
    map n | n in owner && owner[n].holder != b :: owner[n]
  }

  lemma {:induction false} RemoveHolding(owner: map<Name, Place>, held: map<array<NameEntry>, Holding>,
                                         b: array<NameEntry>)
    requires Partition(owner, held) && b in held
    ensures Partition(Reduced(owner, b), held - {b}) && Reduced(owner, b).Keys == owner.Keys - Names(held[b].entries)
    ensures Names(held[b].entries) <= owner.Keys && DistinctNames(held[b].entries)
  {
    var entries := held[b].entries;
    NamesAt(entries);
    forall n | n in Names(entries) ensures n in owner && owner[n].holder == b {
      var e :| e in entries && e.name == n;
      var i :| 0 <= i < |entries| && entries[i] == e;
    }
  }

  // ----- The registry -----

  function RecordAt(registry: seq<NameRecord>, i: nat): NameRecord? {
    if i < |registry| then registry[i] else null
  }

  ghost predicate RecordChain(registry: seq<NameRecord>, head: NameRecord?)
    reads registry`next
  {
    && (if registry == [] then head == null else head == registry[0] && registry[|registry| - 1].next == null)
    && (forall i, j :: 0 <= i < j < |registry| && j == i + 1 ==> registry[i].next == registry[j])
    && (forall i, j :: 0 <= i < j < |registry| ==> registry[i] != registry[j])
  }

  /** A record for every filtered array, found by its pointer. */
  ghost predicate Findable(registry: seq<NameRecord>, held: map<array<NameEntry>, Holding>)
    reads registry`visible
  {
    && (forall r <- registry :: r.visible != null && r.visible in held && held[r.visible].record == r)
    && (forall b <- held :: held[b].record != null ==> held[b].record in registry && held[b].record.visible == b)
  }

  ghost predicate AllHold(held: map<array<NameEntry>, Holding>)
    reads held.Keys
  {
    forall b <- held :: Holds(b, held[b].entries)
  }

  /** With these allocations, nothing is lost and nothing is shared: every array
      is held by the caller, and every name belongs to one of them. */
  ghost predicate Consistent(blocks: set<array<NameEntry>>, names: set<Name>, recordSet: set<NameRecord>,
                             owner: map<Name, Place>,
                             held: map<array<NameEntry>, Holding>, registry: seq<NameRecord>, head: NameRecord?)
    reads held.Keys, registry
  {
    && blocks == held.Keys && names == owner.Keys && recordSet == (set r | r in registry)
    && Partition(owner, held) && AllHold(held) && Findable(registry, held) && RecordChain(registry, head)
  }

  lemma {:induction false} HandOutLemma(blocks: set<array<NameEntry>>, names: set<Name>, recordSet: set<NameRecord>,
                                        owner: map<Name, Place>,
                     held: map<array<NameEntry>, Holding>, registry: seq<NameRecord>, head: NameRecord?,
                     b: array<NameEntry>, entries: seq<NameEntry>)
    requires Consistent(blocks, names, recordSet, owner, held, registry, head) && b !in blocks
    requires Holds(b, entries) && DistinctNames(entries) && Names(entries) !! names
    ensures Consistent(blocks + {b}, names + Names(entries), recordSet, Extended(owner, b, entries, |entries|),
                       held[b := Holding(entries, null)], registry, head)
  {
    hide Partition, Extended, DistinctNames, Holds, RecordChain, Names;
    AddHolding(owner, held, b, Holding(entries, null));
  }

  lemma {:induction false} RegisterLemma(blocks: set<array<NameEntry>>, names: set<Name>, recordSet: set<NameRecord>,
                                         owner: map<Name, Place>,
                      held: map<array<NameEntry>, Holding>, before: seq<NameRecord>, record: NameRecord,
                      b: array<NameEntry>, entries: seq<NameEntry>)
    requires blocks == held.Keys && names == owner.Keys && recordSet == (set r | r in before)
    requires Partition(owner, held) && AllHold(held) && Findable(before, held) && b !in blocks && record !in before
    requires RecordChain([record] + before, record) && record.visible == b
    requires Holds(b, entries) && DistinctNames(entries) && Names(entries) !! names
    ensures Consistent(blocks + {b}, names + Names(entries), recordSet + {record},
                       Extended(owner, b, entries, |entries|),
                       held[b := Holding(entries, record)], [record] + before, record)
  {
    hide Partition, Extended, DistinctNames, Holds, RecordChain, Names;
    AddHolding(owner, held, b, Holding(entries, record));
  }

  function RecordsOf(h: Holding): set<NameRecord> {
    if h.record == null then {} else {h.record}
  }

  lemma {:induction false} ReleaseLemma(blocks: set<array<NameEntry>>, names: set<Name>, recordSet: set<NameRecord>,
                                        owner: map<Name, Place>,
                     held: map<array<NameEntry>, Holding>, before: seq<NameRecord>, registry: seq<NameRecord>,
                     head: NameRecord?,
                     b: array<NameEntry>)
    requires blocks == held.Keys && names == owner.Keys && recordSet == (set r | r in before)
    requires Partition(owner, held) && AllHold(held) && Findable(before, held) && b in held
    requires RecordChain(registry, head)
    requires (forall r <- registry :: r in before && r != held[b].record)
    requires (forall r <- before :: r in registry || r == held[b].record)
    ensures Consistent(blocks - {b}, names - Names(held[b].entries), recordSet - RecordsOf(held[b]), Reduced(owner, b),
                       held - {b}, registry, head)
  {
    hide Partition, Reduced, Holds, RecordChain, Names;
    RemoveHolding(owner, held, b);
  }

  /** The count of the first pass over an array, and whether the selected name
      is there. */
  method Survey(original: array<NameEntry>, selected: string, ghost entries: seq<NameEntry>)
    returns (count: nat, found: bool)
    requires Holds(original, entries)
    ensures count == |Kept(entries, Text, selected, |entries|)|
            && (found <==> Mentions(entries, Text, selected, |entries|))
  {
    var k := 0;
    count, found := 0, false;
    assert original[|entries|] == END;
    assert forall i :: 0 <= i < |entries| ==> original[i] == entries[i] && entries[i] in entries;
    while original[k].index != 0
      invariant k <= |entries|
      invariant count == |Kept(entries, Text, selected, k)| && (found <==> Mentions(entries, Text, selected, k))
      decreases |entries| - k
    {
      if Text(original[k]) == Some(selected) {
        found := true;
      }
      if Keep(Text(original[k]), selected) {
        count := count + 1;
      }
      k := k + 1;
    }
  }

  class NamePreload {
    const symbols: bool                                    // whether the system's functions were found
    var records: NameRecord?                               // nameindex_allocations
    ghost var registry: seq<NameRecord>
    ghost var held: map<array<NameEntry>, Holding>
    ghost var owner: map<Name, Place>
    ghost var liveBlocks: set<array<NameEntry>>
    ghost var liveNames: set<Name>
    ghost var liveRecords: set<NameRecord>
    ghost var denials: nat                                 // allocations refused so far

    ghost predicate Valid()
      reads this, held.Keys, registry
    {
      Consistent(liveBlocks, liveNames, liveRecords, owner, held, registry, records)
    }

    constructor (symbols: bool)
      ensures Valid() && held == map[] && registry == [] && this.symbols == symbols
    {
      this.symbols, records := symbols, null;
      registry, held, owner := [], map[], map[];
      liveBlocks, liveNames, liveRecords, denials := {}, {}, {}, 0;
    }

    // ----- calloc, strdup and free -----

    method CallocBlock(length: nat) returns (block: array?<NameEntry>)
      modifies this`liveBlocks, this`denials
      ensures denials == old(denials) + if block == null then 1 else 0
      ensures block == null ==> liveBlocks == old(liveBlocks)
      ensures block != null ==> fresh(block) && liveBlocks == old(liveBlocks) + {block} && block.Length == length
      ensures block != null ==> forall i :: 0 <= i < length ==> block[i] == END
    {
      var denied: bool := *;
      if denied {
        denials := denials + 1;
        return null;
      }
      block := new NameEntry[length](_ => END);
      liveBlocks := liveBlocks + {block};
    }

    method CallocRecord() returns (record: NameRecord?)
      modifies this`liveRecords, this`denials
      ensures denials == old(denials) + if record == null then 1 else 0
      ensures record == null ==> liveRecords == old(liveRecords)
      ensures record != null ==> fresh(record) && liveRecords == old(liveRecords) + {record}
    {
      var denied: bool := *;
      if denied {
        denials := denials + 1;
        return null;
      }
      record := new NameRecord();
      liveRecords := liveRecords + {record};
    }

    method StrDup(name: Name) returns (copy: Name?)
      modifies this`liveNames, this`denials
      ensures denials == old(denials) + if copy == null then 1 else 0
      ensures copy == null ==> liveNames == old(liveNames)
      ensures copy != null ==> fresh(copy) && copy.text == name.text && liveNames == old(liveNames) + {copy}
    {
      var denied: bool := *;
      if denied {
        denials := denials + 1;
        return null;
      }
      copy := new Name(name.text);
      liveNames := liveNames + {copy};
    }

    method FreeName(name: Name?)
      requires name != null ==> name in liveNames
      modifies this`liveNames
      ensures liveNames == old(liveNames) - (if name == null then {} else {name})
    {
      if name != null {
        liveNames := liveNames - {name};
      }
    }

    method FreeBlock(block: array?<NameEntry>)
      requires block != null ==> block in liveBlocks
      modifies this`liveBlocks
      ensures liveBlocks == old(liveBlocks) - (if block == null then {} else {block})
    {
      if block != null {
        liveBlocks := liveBlocks - {block};
      }
    }

    method FreeRecord(record: NameRecord?)
      requires record != null ==> record in liveRecords
      modifies this`liveRecords
      ensures liveRecords == old(liveRecords) - (if record == null then {} else {record})
    {
      if record != null {
        liveRecords := liveRecords - {record};
      }
    }

    /** Frees the names of the first n entries. */
    method FreeNames(block: array<NameEntry>, n: nat, ghost entries: seq<NameEntry>)
      requires n == |entries| && n <= block.Length && block[..n] == entries && DistinctNames(entries)
               && Names(entries) <= liveNames
      modifies this`liveNames
      ensures liveNames == old(liveNames) - Names(entries)
    {
      NamesAt(entries);
      assert entries[..0] == [];
      for i := 0 to n
        invariant liveNames == old(liveNames) - Names(entries[..i])
      {
        if entries[i].name != null {
          NotYetFreed(entries, i);
        }
        NamesSnoc(entries[..i], entries[i]);
        assert entries[..i + 1] == entries[..i] + [entries[i]] && block[i] == block[..n][i];
        FreeName(block[i].name);
      }
      assert entries[..n] == entries;
    }

    // ----- The system's functions -----

    method RealIfNameIndex() returns (block: array?<NameEntry>, ghost entries: seq<NameEntry>)
      modifies this`liveBlocks, this`liveNames
      ensures block == null ==> entries == [] && liveBlocks == old(liveBlocks) && liveNames == old(liveNames)
      ensures block != null ==>
                fresh(block) && Holds(block, entries) && DistinctNames(entries) && fresh(Names(entries))
                && liveBlocks == old(liveBlocks) + {block} && liveNames == old(liveNames) + Names(entries)
    {
      block, entries := null, [];
      var fails: bool := *;
      if fails { return; }
      var list: seq<NameEntry> := [];
      var length: int := *;
      for n := 0 to if length < 0 then 0 else length
        invariant DistinctNames(list) && fresh(Names(list)) && (forall e <- list :: e.index != 0)
        invariant liveNames == old(liveNames) + Names(list) && liveBlocks == old(liveBlocks)
      {
        var index: int := *;
        var e := NameEntry(if index <= 0 then 1 else index, null);
        var named: bool := *;
        if named {
          var text: string := *;
          var name := new Name(text);
          NamesAt(list);
          liveNames := liveNames + {name};
          e := e.(name := name);
        }
        NamesSnoc(list, e);
        list := list + [e];
      }
      block := new NameEntry[|list| + 1](i requires 0 <= i <= |list| => if i < |list| then list[i] else END);
      entries := list;
      assert block[..] == list + [END];
      liveBlocks := liveBlocks + {block};
    }

    /** Frees an array of its own with all its names. */
    method RealIfFreeNameIndex(block: array?<NameEntry>, ghost entries: seq<NameEntry>)
      requires block != null ==>
                 block in liveBlocks && Holds(block, entries) && DistinctNames(entries) && Names(entries) <= liveNames
      modifies this`liveBlocks, this`liveNames
      ensures block == null ==> liveBlocks == old(liveBlocks) && liveNames == old(liveNames)
      ensures block != null ==> liveBlocks == old(liveBlocks) - {block} && liveNames == old(liveNames) - Names(entries)
    {
      if block != null {
        liveBlocks, liveNames := liveBlocks - {block}, liveNames - Names(entries);
      }
    }

    // ----- if_nameindex -----

    /** The copies made so far stand at the front of the new array. */
    ghost predicate Built(base: set<Name>, visible: array<NameEntry>, copies: seq<NameEntry>, kept: seq<NameEntry>)
      reads this`liveNames, visible
    {
      && |copies| < visible.Length && visible[..|copies|] == copies
      && (forall i :: |copies| <= i < visible.Length ==> visible[i] == END)
      && Same(copies, kept) && DistinctNames(copies)
      && liveNames == base + Names(copies) && base !! Names(copies)
    }

    lemma NothingBuilt(visible: array<NameEntry>)
      requires visible.Length > 0 && forall i :: 0 <= i < visible.Length ==> visible[i] == END
      ensures Built(liveNames, visible, [], []) && Names([]) == {}
    {
    }

    /** One more copy; the array stays ended. */
    method AppendCopy(visible: array<NameEntry>, position: nat, entry: NameEntry, ghost base: set<Name>,
                      ghost copies: seq<NameEntry>, ghost kept: seq<NameEntry>) returns (copy: NameEntry)
      requires Built(base, visible, copies, kept) && position == |copies| && position + 1 < visible.Length
               && entry.name != null
      modifies visible, this`liveNames, this`denials
      ensures denials == old(denials) + if copy.name == null then 1 else 0
      ensures copy.name == null ==> liveNames == old(liveNames) && visible[..position] == copies
      ensures copy.name != null ==>
                fresh(copy.name) && copy.index == entry.index && Built(base, visible, copies + [copy], kept + [entry])
    {
      var name := StrDup(entry.name);
      copy := NameEntry(entry.index, name);
      visible[position] := copy;
      NamesSnoc(copies, copy);
      NamesAt(copies);
    }

    /** The copying pass; when a name cannot be duplicated, those made are freed. */
    method CopyKept(original: array<NameEntry>, visible: array<NameEntry>, selected: string,
                    ghost entries: seq<NameEntry>)
      returns (ok: bool, ghost copies: seq<NameEntry>)
      requires Holds(original, entries) && original != visible
      requires visible.Length == |Kept(entries, Text, selected, |entries|)| + 1
               && forall i :: 0 <= i < visible.Length ==> visible[i] == END
      modifies visible, this`liveNames, this`denials
      ensures ok <==> denials == old(denials)
      ensures !ok ==> liveNames == old(liveNames)
      ensures ok ==>
                Built(old(liveNames), visible, copies, Kept(entries, Text, selected, |entries|)) && fresh(Names(copies))
    {
      hide DistinctNames, Names;
      ghost var base := liveNames;
      var position, k := 0, 0;
      copies := [];
      NothingBuilt(visible);
      assert original[|entries|] == END && original.Length == |entries| + 1;
      assert forall i :: 0 <= i < |entries| ==> original[i] == entries[i] && entries[i] in entries;
      while original[k].index != 0
        invariant k <= |entries| && position == |copies| && denials == old(denials)
        invariant Built(base, visible, copies, Kept(entries, Text, selected, k)) && fresh(Names(copies))
        invariant forall i :: 0 <= i < |entries| ==> original[i] == entries[i]
        invariant original[|entries|] == END
        decreases |entries| - k
      {
        KeptGrows(entries, Text, selected, k, |entries|);
        if Keep(Text(original[k]), selected) {
          var copy := AppendCopy(visible, position, original[k], base, copies, Kept(entries, Text, selected, k));
          if copy.name == null {
            FreeNames(visible, position, copies);
            return false, copies;
          }
          NamesSnoc(copies, copy);
          copies := copies + [copy];
          position := position + 1;
        }
        k := k + 1;
      }
      return true, copies;
    }

    ghost method HandOut(b: array<NameEntry>, entries: seq<NameEntry>, blocks: set<array<NameEntry>>,
                         names: set<Name>)
      requires Consistent(blocks, names, liveRecords, owner, held, registry, records)
      requires b !in blocks && Holds(b, entries) && DistinctNames(entries) && Names(entries) !! names
      requires liveBlocks == blocks + {b} && liveNames == names + Names(entries)
      modifies this`held, this`owner
      ensures Valid() && held == old(held)[b := Holding(entries, null)]
    {
      hide Partition, Extended, DistinctNames, Holds, Names, RecordChain, Findable, AllHold;
      HandOutLemma(blocks, names, liveRecords, owner, held, registry, records, b, entries);
      owner, held := Extended(owner, b, entries, |entries|), held[b := Holding(entries, null)];
    }

    method Register(record: NameRecord, visible: array<NameEntry>, ghost copies: seq<NameEntry>,
                    ghost blocks: set<array<NameEntry>>, ghost names: set<Name>, ghost recordSet: set<NameRecord>)
      requires Consistent(blocks, names, recordSet, owner, held, registry, records)
      requires visible !in blocks && Holds(visible, copies) && DistinctNames(copies) && Names(copies) !! names
      requires liveBlocks == blocks + {visible} && liveNames == names + Names(copies)
      requires record !in registry && liveRecords == recordSet + {record}
      modifies record, this`records, this`registry, this`held, this`owner
      ensures Valid() && held == old(held)[visible := Holding(copies, record)] && registry == [record] + old(registry)
    {
      hide Partition, Extended, DistinctNames, Holds, Names, Findable, AllHold;
      ghost var before := registry;
      record.visible := visible;
      record.next := records;
      records := record;
      registry := [record] + registry;
      RegisterLemma(blocks, names, recordSet, owner, held, before, record, visible, copies);
      owner, held := Extended(owner, visible, copies, |copies|), held[visible := Holding(copies, record)];
    }

    /** The filtered array, or null if an allocation was denied, in which case
        nothing has changed. */
    method TryFilter(original: array<NameEntry>, selected: string, count: nat, ghost entries: seq<NameEntry>,
                     ghost blocks: set<array<NameEntry>>, ghost names: set<Name>) returns (visible: array?<NameEntry>)
      requires Consistent(blocks, names, liveRecords, owner, held, registry, records)
      requires original !in blocks && Holds(original, entries) && DistinctNames(entries) && Names(entries) !! names
      requires liveBlocks == blocks + {original} && liveNames == names + Names(entries)
      requires count == |Kept(entries, Text, selected, |entries|)|
      modifies this`liveBlocks, this`liveNames, this`liveRecords, this`denials, this`records, this`registry,
               this`held, this`owner
      ensures visible == null <==> denials != old(denials)
      ensures visible == null ==>
                && unchanged(this`liveBlocks, this`liveNames, this`liveRecords)
                && unchanged(this`records, this`registry, this`held, this`owner)
      ensures forall r <- registry :: r in old(registry) || fresh(r)
      ensures visible != null ==>
                Valid() && fresh(visible) && visible in held && held == old(held)[visible := held[visible]]
                && Same(held[visible].entries, Kept(entries, Text, selected, |entries|)) && held[visible].record != null
    {
      hide Consistent, DistinctNames, Same, Kept, Names;
      ghost var recordSet := liveRecords;
      visible := CallocBlock(count + 1);
      var record := CallocRecord();
      if visible == null || record == null {
        FreeBlock(visible);
        FreeRecord(record);
        assert liveBlocks == old(liveBlocks) && liveRecords == old(liveRecords);
        return null;
      }
      var ok, copies := CopyKept(original, visible, selected, entries);
      if !ok {
        FreeBlock(visible);
        FreeRecord(record);
        return null;
      }
      assert Holds(visible, copies) by {
        FinishedArray(visible, copies, Kept(entries, Text, selected, |entries|), entries, selected);
      }
      RealIfFreeNameIndex(original, entries);
      Register(record, visible, copies, blocks, names, recordSet);
    }

    /** if_nameindex: the system's array untouched, or an array with exactly its
        kept entries in order, whenever the selected interface is there and no
        allocation is denied. */
    method IfNameIndex(variable: Option<string>) returns (result: array?<NameEntry>, ghost listed: seq<NameEntry>)
      requires Valid()
      modifies this
      ensures Valid()
      ensures result == null ==> held == old(held)
      ensures !symbols ==> result == null
      ensures forall r <- registry :: r in old(registry) || fresh(r)
      ensures result != null ==>
                fresh(result) && result in held && held == old(held)[result := held[result]]
                && if Available(listed, Text, Selected(variable)) && denials == old(denials)
                   then held[result].record != null
                        && Same(held[result].entries, Kept(listed, Text, Selected(variable).value, |listed|))
                   else held[result] == Holding(listed, null)
    {
      hide Consistent, DistinctNames, Same, Kept, Mentions;
      listed := [];
      if !symbols {
        return null, [];
      }
      ghost var blocks, names := liveBlocks, liveNames;
      var original;
      original, listed := RealIfNameIndex();
      var selected := Selected(variable);
      if original == null {
        return null, [];
      }
      if selected.Some? {
        var count, found := Survey(original, selected.value, listed);
        if found {
          result := TryFilter(original, selected.value, count, listed, blocks, names);
          if result != null { return; }
        }
      }
      HandOut(original, listed, blocks, names);
      result := original;
    }

    // ----- if_freenameindex -----

    /** Takes the record out by rewriting the link that leads to it. */
    method Unlink(visible: array?<NameEntry>) returns (record: NameRecord?)
      requires RecordChain(registry, records)
      modifies this`records, this`registry, registry`next
      ensures RecordChain(registry, records)
      ensures record == null ==> registry == old(registry) && forall r <- registry :: r.visible != visible
      ensures record != null ==>
                record in old(registry) && record.visible == visible && record !in registry
                && forall r <- old(registry) :: r == record || r in registry
      ensures forall r <- registry :: r in old(registry)
    {
      var link, current: NameRecord? := null, records;
      ghost var k := 0;
      while current != null && current.visible != visible
        invariant k <= |registry| && current == RecordAt(registry, k)
                  && link == (if k == 0 then null else registry[k - 1])
        invariant forall i :: 0 <= i < k ==> registry[i].visible != visible
        decreases |registry| - k
      {
        link, current, k := current, current.next, k + 1;
      }
      record := current;
      if record != null {
        if link == null {
          records := record.next;
        } else {
          link.next := record.next;
        }
        registry := registry[..k] + registry[k + 1..];
      }
    }

    /** The loop over a registered array up to its end mark, then the array. */
    method FreeCopies(visible: array<NameEntry>, ghost entries: seq<NameEntry>)
      requires Holds(visible, entries) && DistinctNames(entries) && Names(entries) <= liveNames
               && visible in liveBlocks
      modifies this`liveNames, this`liveBlocks
      ensures liveNames == old(liveNames) - Names(entries) && liveBlocks == old(liveBlocks) - {visible}
    {
      var k := 0;
      assert visible[|entries|] == END;
      assert forall i :: 0 <= i < |entries| ==> visible[i] == entries[i] && entries[i] in entries;
      assert entries[..0] == [];
      while visible[k].index != 0
        invariant k <= |entries| && liveNames == old(liveNames) - Names(entries[..k]) && liveBlocks == old(liveBlocks)
        decreases |entries| - k
      {
        if entries[k].name != null {
          NotYetFreed(entries, k);
        }
        NamesSnoc(entries[..k], entries[k]);
        assert entries[..k + 1] == entries[..k] + [entries[k]];
        FreeName(visible[k].name);
        k := k + 1;
      }
      assert entries[..k] == entries;
      FreeBlock(visible);
    }

    /** if_freenameindex: the array and its names are freed, once, and nothing
        else. */
    method IfFreeNameIndex(visible: array?<NameEntry>)
      requires Valid() && (visible == null || visible in held)
      modifies this`records, this`registry, this`held, this`owner, this`liveBlocks, this`liveNames, this`liveRecords,
               registry`next
      ensures Valid()
      ensures !symbols || visible == null ==>
                held == old(held) && liveBlocks == old(liveBlocks) && liveNames == old(liveNames)
                && liveRecords == old(liveRecords)
      ensures symbols && visible != null ==>
                && visible in old(held) && held == old(held) - {visible}
                && liveBlocks == old(liveBlocks) - {visible}
                && liveNames == old(liveNames) - Names(old(held)[visible].entries)
                && liveRecords == old(liveRecords) - RecordsOf(old(held)[visible])
      ensures forall r <- registry :: r in old(registry)
    {
      hide Partition, RecordChain, Reduced, AllHold, Findable, Holds, DistinctNames, Names;
      if !symbols {
        return;
      }
      ghost var before := registry;
      var record := Unlink(visible);
      if visible == null {
        NullIsNotRegistered(before, held);
        return;
      }
      FoundRecord(held, before, visible, record);
      RemoveHolding(owner, held, visible);
      if record == null {
        RealIfFreeNameIndex(visible, held[visible].entries);
      } else {
        FreeCopies(visible, held[visible].entries);
        FreeRecord(record);
      }
      ReleaseLemma(old(liveBlocks), old(liveNames), old(liveRecords), owner, held, before, registry, records, visible);
      owner, held := Reduced(owner, visible), held - {visible};
    }

    /** Any calls by one caller, who frees what it was given, in any order, and
        in the end all of it: every allocation is then freed, and since free
        demands a live one, each was freed once. */
    method AnyRun(calls: seq<Call>)
      requires Valid() && symbols && held == map[] && registry == []
      modifies this
      ensures liveBlocks == {} && liveNames == {} && liveRecords == {}
    {
      hide Consistent, Mine, Same, Kept;
      var mine: seq<array<NameEntry>> := [];
      NothingMine();
      for i := 0 to |calls|
        invariant Valid() && Mine(mine, held) && fresh(registry)
      {
        ghost var before := held;
        match calls[i] {
        case Get(variable) =>
          var result, listed := IfNameIndex(variable);
          if result != null {
            MineMore(mine, before, result, held[result]);
            mine := mine + [result];
          }
        case Free(k) =>
          if k < |mine| {
            MineLess(mine, held, k);
            IfFreeNameIndex(mine[k]);
            mine := mine[..k] + mine[k + 1..];
          } else {
            IfFreeNameIndex(null);
          }
        }
        assert forall j :: 0 <= j < |registry| ==> registry[j] in registry;
      }
      while mine != []
        invariant Valid() && Mine(mine, held) && fresh(registry)
        decreases |mine|
      {
        MineLess(mine, held, 0);
        assert mine[..0] + mine[1..] == mine[1..];
        IfFreeNameIndex(mine[0]);
        assert forall j :: 0 <= j < |registry| ==> registry[j] in registry;
        mine := mine[1..];
      }
      NothingLeft(liveBlocks, liveNames, liveRecords, owner, held, registry, records, mine);
    }
  }

  lemma NotYetFreed(entries: seq<NameEntry>, i: nat)
    requires i < |entries| && DistinctNames(entries) && entries[i].name != null
    ensures entries[i].name in Names(entries) && entries[i].name !in Names(entries[..i])
  {
    assert entries[i] in entries;
  }

  lemma FinishedArray(visible: array<NameEntry>, copies: seq<NameEntry>, kept: seq<NameEntry>,
                      entries: seq<NameEntry>, selected: string)
    requires visible.Length == |kept| + 1 && Same(copies, kept) && kept == Kept(entries, Text, selected, |entries|)
    requires visible[..|copies|] == copies && visible[|copies|] == END && forall e <- entries :: e.index != 0
    ensures Holds(visible, copies)
  {
    assert visible[..] == visible[..|copies|] + [END];
    forall e | e in copies ensures e.index != 0 {
      var i :| 0 <= i < |copies| && copies[i] == e;
      assert kept[i] == entries[Position(entries, Text, selected, |entries|, i)];
    }
  }

  lemma {:induction false} FoundRecord(held: map<array<NameEntry>, Holding>, registry: seq<NameRecord>,
                                       b: array<NameEntry>, record: NameRecord?)
    requires Findable(registry, held) && AllHold(held) && b in held
    requires record == null ==> forall r <- registry :: r.visible != b
    requires record != null ==> record in registry && record.visible == b
    ensures record == held[b].record && RecordsOf(held[b]) <= (set r | r in registry) && Holds(b, held[b].entries)
  {
  }

  lemma NullIsNotRegistered(registry: seq<NameRecord>, held: map<array<NameEntry>, Holding>)
    requires Findable(registry, held)
    ensures forall r <- registry :: r.visible != null
  {
  }

  datatype Call = Get(variable: Option<string>) | Free(k: nat)

  /** The caller's pointers are the holdings, each once. */
  ghost predicate Mine(mine: seq<array<NameEntry>>, held: map<array<NameEntry>, Holding>) {
    && (forall i, j :: 0 <= i < j < |mine| ==> mine[i] != mine[j])
    && (set b | b in mine) == held.Keys
  }

  lemma NothingMine()
    ensures Mine([], map[])
  {
  }

  lemma MineLess(mine: seq<array<NameEntry>>, held: map<array<NameEntry>, Holding>, k: nat)
    requires Mine(mine, held) && k < |mine|
    ensures mine[k] in held && Mine(mine[..k] + mine[k + 1..], held - {mine[k]})
  {
    var rest := mine[..k] + mine[k + 1..];
    assert mine[k] in mine;
    forall b | b in mine && b != mine[k] ensures b in rest {
      var i :| 0 <= i < |mine| && mine[i] == b;
      assert rest[if i < k then i else i - 1] == b;
    }
  }

  lemma MineMore(mine: seq<array<NameEntry>>, held: map<array<NameEntry>, Holding>, b: array<NameEntry>, h: Holding)
    requires Mine(mine, held) && b !in held
    ensures Mine(mine + [b], held[b := h])
  {
    assert b !in mine;
  }

  lemma NothingLeft(blocks: set<array<NameEntry>>, names: set<Name>, recordSet: set<NameRecord>,
                    owner: map<Name, Place>,
                    held: map<array<NameEntry>, Holding>, registry: seq<NameRecord>, head: NameRecord?,
                    mine: seq<array<NameEntry>>)
    requires Consistent(blocks, names, recordSet, owner, held, registry, head) && Mine(mine, held) && mine == []
    ensures blocks == {} && names == {} && recordSet == {}
  {
    assert held == map[];
    assert forall r <- registry :: r.visible in held;
  }
}
