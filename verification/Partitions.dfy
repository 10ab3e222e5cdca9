/** The partition map: every table loaded so far, and an index from names to entries kept beside them. */
module Partitions {
  import opened Bytes
  import opened Gpt
  import opened Names

  type Slot = (nat, nat) // (table, entry)

  /** A search the map answers: an exact name, or a name after folding case. */
  datatype Query = Exact(name: string) | Folded(name: string)

  predicate Matches(q: Query, lower: string -> string, e: Entry)
  {
    match q
    case Exact(name) => Normal(e.name) == name
    case Folded(name) => lower(Normal(e.name)) == name
  }

  function FirstIn(entries: seq<Entry>, q: Query, lower: string -> string): (r: Option<Entry>)
    ensures r.Some? ==> r.value in entries && Matches(q, lower, r.value)
    ensures r.None? ==> forall e :: e in entries ==> !Matches(q, lower, e)
  {
    if entries == [] then None
    else if Matches(q, lower, entries[0]) then Some(entries[0])
    else FirstIn(entries[1..], q, lower)
  }

  /** All entries, table by table. */
  function AllEntries(tables: seq<Table>): (entries: seq<Entry>)
  {
    if tables == [] then [] else tables[0].entries + AllEntries(tables[1..])
  }

  /** What a search for a name means: the first entry with exactly this name, and failing that the first
      whose name agrees when case is folded. An empty name has no exact match. */
  function Lookup(entries: seq<Entry>, name: string, lower: string -> string): (r: Option<Entry>)
  {
    var exact := if name == "" then None else FirstIn(entries, Exact(name), lower);
    if exact.Some? then exact else FirstIn(entries, Folded(lower(Trim(name, Space))), lower)
  }

  // ----- The index -----

  predicate At(tables: seq<Table>, s: Slot, key: string)
  {
    s.0 < |tables| && s.1 < |tables[s.0].entries| && Normal(tables[s.0].entries[s.1].name) == key
  }

  predicate Before(a: Slot, b: Slot)
  {
    a.0 < b.0 || (a.0 == b.0 && a.1 < b.1)
  }

  ghost predicate IsFirst(tables: seq<Table>, s: Slot, key: string)
  {
    At(tables, s, key) && forall s': Slot :: At(tables, s', key) ==> !Before(s', s)
  }

  /** The index knows exactly the non-empty names, each at its first entry. */
  ghost predicate IndexOk(tables: seq<Table>, index: map<string, Slot>)
  {
    && (forall key :: key in index ==> key != "" && IsFirst(tables, index[key], key))
    && (forall key, s: Slot :: key != "" && At(tables, s, key) ==> key in index)
  }

  /** One more entry in the last table: the index gains its name unless it is empty or already there. */
  lemma IndexOneMore(tables: seq<Table>, last: Table, e: Entry, index: map<string, Slot>, index': map<string, Slot>)
    requires IndexOk(tables + [last], index)
    requires var key := Normal(e.name);
             index' == if key == "" || key in index then index else index[key := (|tables|, |last.entries|)]
    ensures IndexOk(tables + [last.(entries := last.entries + [e])], index')
  {
    hide Normal;
    var key := Normal(e.name);
    var was, now := tables + [last], tables + [last.(entries := last.entries + [e])];
    var here := (|tables|, |last.entries|);
    forall k, s: Slot
      ensures At(now, s, k) <==> At(was, s, k) || (s == here && k == key)
    {
    }
    forall k | k in index'
      ensures k != "" && IsFirst(now, index'[k], k)
    {
      if k in index {
        assert IsFirst(was, index[k], k);
      }
    }
  }

  lemma IndexNewTable(tables: seq<Table>, table: Table, index: map<string, Slot>)
    requires IndexOk(tables, index) && table.entries == []
    ensures IndexOk(tables + [table], index)
  {
    hide Normal;
    forall k, s: Slot
      ensures At(tables + [table], s, k) <==> At(tables, s, k)
    {
    }
    forall k | k in index
      ensures k != "" && IsFirst(tables + [table], index[k], k)
    {
      assert IsFirst(tables, index[k], k);
    }
  }

  lemma {:induction false} FirstInAppend(a: seq<Entry>, b: seq<Entry>, q: Query, lower: string -> string)
    ensures FirstIn(a + b, q, lower) == if FirstIn(a, q, lower).Some? then FirstIn(a, q, lower) else FirstIn(b, q,
        lower)
  {
    if a == [] {
      assert a + b == b;
    } else {
      assert (a + b)[1..] == a[1..] + b;
      FirstInAppend(a[1..], b, q, lower);
    }
  }

  /** The first entry of a list with a name is what the scan finds. */
  lemma {:induction false} ScanFinds(entries: seq<Entry>, i: nat, q: Query, lower: string -> string)
    requires i < |entries| && Matches(q, lower, entries[i])
    requires forall j :: 0 <= j < i ==> !Matches(q, lower, entries[j])
    ensures FirstIn(entries, q, lower) == Some(entries[i])
  {
    hide Matches;
    if i > 0 {
      ScanFinds(entries[1..], i - 1, q, lower);
    }
  }

  /** The entry the index points at is the one a scan of all entries would find first. */
  lemma {:induction false} IndexAgrees(tables: seq<Table>, s: Slot, key: string, lower: string -> string)
    requires IsFirst(tables, s, key)
    ensures FirstIn(AllEntries(tables), Exact(key), lower) == Some(tables[s.0].entries[s.1])
    decreases |tables|
  {
    hide Normal;
    var head, rest := tables[0].entries, tables[1..];
    FirstInAppend(head, AllEntries(rest), Exact(key), lower);
    if s.0 == 0 {
      forall j | 0 <= j < s.1
        ensures !Matches(Exact(key), lower, head[j])
      {
        assert Before((0, j), s);
      }
      ScanFinds(head, s.1, Exact(key), lower);
    } else {
      forall j | 0 <= j < |head|
        ensures !Matches(Exact(key), lower, head[j])
      {
        assert Before((0, j), s);
      }
      forall s': Slot | At(rest, s', key)
        ensures !Before(s', (s.0 - 1, s.1))
      {
        assert At(tables, (s'.0 + 1, s'.1), key);
      }
      IndexAgrees(rest, (s.0 - 1, s.1), key, lower);
    }
  }

  /** A name the index does not know has no exact match anywhere. */
  lemma {:induction false} IndexMisses(tables: seq<Table>, key: string, lower: string -> string)
    requires forall s: Slot :: !At(tables, s, key)
    ensures FirstIn(AllEntries(tables), Exact(key), lower) == None
  {
    hide Normal;
    if tables != [] {
      var head, rest := tables[0].entries, tables[1..];
      forall s: Slot
        ensures !At(rest, s, key)
      {
        assert !At(tables, (s.0 + 1, s.1), key);
      }
      IndexMisses(rest, key, lower);
      FirstInAppend(head, AllEntries(rest), Exact(key), lower);
      forall j | 0 <= j < |head|
        ensures !Matches(Exact(key), lower, head[j])
      {
        assert !At(tables, (0, j), key);
      }
    }
  }

  lemma {:induction false} AllEntriesAppend(a: seq<Table>, b: seq<Table>)
    ensures AllEntries(a + b) == AllEntries(a) + AllEntries(b)
  {
    if a == [] {
      assert a + b == b;
    } else {
      assert (a + b)[1..] == a[1..] + b;
      AllEntriesAppend(a[1..], b);
    }
  }

  lemma AllEntriesOneMore(tables: seq<Table>, t: Table)
    ensures AllEntries(tables + [t]) == AllEntries(tables) + t.entries
  {
    AllEntriesAppend(tables, [t]);
    assert [t][1..] == [];
  }

  lemma FoundEarly(a: seq<Table>, b: seq<Table>, q: Query, lower: string -> string)
    requires FirstIn(AllEntries(a), q, lower).Some?
    ensures FirstIn(AllEntries(a + b), q, lower) == FirstIn(AllEntries(a), q, lower)
  {
    hide FirstIn, AllEntries;
    AllEntriesAppend(a, b);
    FirstInAppend(AllEntries(a), AllEntries(b), q, lower);
  }

  lemma SplitAt(tables: seq<Table>, i: nat)
    requires i < |tables|
    ensures tables[..i + 1] == tables[..i] + [tables[i]]
    ensures tables == tables[..i + 1] + tables[i + 1..]
  {
  }

  /** A scan of table after table: nothing so far, then one more table. */
  lemma ScanOneMore(tables: seq<Table>, i: nat, q: Query, lower: string -> string)
    requires i < |tables| && FirstIn(AllEntries(tables[..i]), q, lower) == None
    ensures FirstIn(AllEntries(tables[..i + 1]), q, lower) == FirstIn(tables[i].entries, q, lower)
    ensures FirstIn(tables[i].entries, q, lower).Some? ==>
              FirstIn(AllEntries(tables), q, lower) == FirstIn(tables[i].entries, q, lower)
  {
    hide FirstIn, AllEntries;
    var a, b := tables[..i], tables[i + 1..];
    SplitAt(tables, i);
    AllEntriesOneMore(a, tables[i]);
    FirstInAppend(AllEntries(a), tables[i].entries, q, lower);
    if FirstIn(tables[i].entries, q, lower).Some? {
      FoundEarly(a + [tables[i]], b, q, lower);
    }
  }

  lemma NoTables(q: Query, lower: string -> string)
    ensures FirstIn(AllEntries([]), q, lower) == None
  {
  }

  /** How one table is searched: the first entry that agrees with the name after trimming and folding. */
  function FindInTable(t: Table, name: string, lower: string -> string): (r: Option<Entry>)
  {
    FirstIn(t.entries, Folded(lower(Trim(name, Space))), lower)
  }

  class PartitionMap {
    const lower: string -> string // Unicode lower-casing
    var tables: seq<Table>
    var nameIndex: map<string, Slot>

    ghost predicate Valid()
      reads this
    {
      IndexOk(tables, nameIndex)
    }

    constructor (lower: string -> string)
      ensures Valid() && this.lower == lower && tables == []
    {
      this.lower, tables, nameIndex := lower, [], map[];
    }

    method AddTable(table: Table)
      requires Valid()
      modifies this
      ensures Valid() && tables == old(tables) + [table]
    {
      hide IndexOk, Normal;
      var tableIdx := |tables|;
      var entries := table.entries;
      IndexNewTable(tables, table.(entries := []), nameIndex);
      for i := 0 to |entries|
        invariant tables == old(tables)
        invariant IndexOk(tables + [table.(entries := entries[..i])], nameIndex)
      {
        var name := Normal(entries[i].name);
        ghost var was := nameIndex;
        if name != "" {
          nameIndex := if name in nameIndex then nameIndex else nameIndex[name := (tableIdx, i)];
        }
        IndexOneMore(tables, table.(entries := entries[..i]), entries[i], was, nameIndex);
        assert entries[..i + 1] == entries[..i] + [entries[i]];
      }
      assert table.(entries := entries[..|entries|]) == table;
      tables := tables + [table];
    }

    /** The index, and failing that a scan of table after table, finds what a plain scan of all entries
        defines. */
    method FindPartition(name: string) returns (r: Option<Entry>)
      requires Valid()
      ensures r == Lookup(AllEntries(tables), name, lower)
    {
      hide Normal, Trim, FirstIn, AllEntries;
      if name in nameIndex {
        var s := nameIndex[name];
        assert IsFirst(tables, s, name);
        IndexAgrees(tables, s, name, lower);
        return Some(tables[s.0].entries[s.1]);
      }
      if name != "" {
        IndexMisses(tables, name, lower);
      }
      ghost var q := Folded(lower(Trim(name, Space)));
      NoTables(q, lower);
      for i := 0 to |tables|
        invariant FirstIn(AllEntries(tables[..i]), q, lower) == None
      {
        ScanOneMore(tables, i, q, lower);
        var found := FindInTable(tables[i], name, lower);
        if found.Some? {
          return found;
        }
      }
      assert tables[..|tables|] == tables;
      return None;
    }

    method ListEntries() returns (entries: seq<Entry>)
      ensures entries == AllEntries(tables)
    {
      entries := [];
      for i := 0 to |tables|
        invariant entries == AllEntries(tables[..i])
      {
        AllEntriesOneMore(tables[..i], tables[i]);
        assert tables[..i + 1] == tables[..i] + [tables[i]];
        entries := entries + tables[i].entries;
      }
      assert tables[..|tables|] == tables;
    }

    /** The number of partitions is the length of their listing. */
    method TotalPartitions() returns (n: nat)
      ensures n == |AllEntries(tables)|
    {
      n := 0;
      for i := 0 to |tables|
        invariant n == |AllEntries(tables[..i])|
      {
        AllEntriesOneMore(tables[..i], tables[i]);
        assert tables[..i + 1] == tables[..i] + [tables[i]];
        n := n + |tables[i].entries|;
      }
      assert tables[..|tables|] == tables;
    }
  }

  /** An exact name always wins over one that differs in case, wherever the two stand. */
  lemma ExactNameWins(entries: seq<Entry>, e: Entry, lower: string -> string)
    requires e in entries && Normal(e.name) != ""
    ensures var r := Lookup(entries, Normal(e.name), lower);
            r.Some? && Normal(r.value.name) == Normal(e.name)
  {
    hide Normal;
    assert Matches(Exact(Normal(e.name)), lower, e);
  }

  lemma {:induction false} FirstInIsFirst(entries: seq<Entry>, q: Query, lower: string -> string)
    ensures match FirstIn(entries, q, lower)
            case None => forall i :: 0 <= i < |entries| ==> !Matches(q, lower, entries[i])
            case Some(e) =>
              exists i :: 0 <= i < |entries| && entries[i] == e && Matches(q, lower, e) &&
                forall k :: 0 <= k < i ==> !Matches(q, lower, entries[k])
  {
    hide Matches;
    if entries != [] && !Matches(q, lower, entries[0]) {
      FirstInIsFirst(entries[1..], q, lower);
      match FirstIn(entries, q, lower)
      case None =>
        assert forall i :: 0 < i < |entries| ==> entries[i] == entries[1..][i - 1];
      case Some(e) =>
        var i :| 0 <= i < |entries[1..]| && entries[1..][i] == e && Matches(q, lower, e) &&
          forall k :: 0 <= k < i ==> !Matches(q, lower, entries[1..][k]);
        assert forall k :: 0 < k < i + 1 ==> entries[k] == entries[1..][k - 1];
        assert entries[i + 1] == e;
    }
  }

  /** Asked for by name, this is the first entry whose normal name is exactly that. */
  ghost predicate FirstExact(entries: seq<Entry>, asked: string, e: Entry)
  {
    asked != "" &&
    exists i :: 0 <= i < |entries| && entries[i] == e && Normal(e.name) == asked &&
      forall k :: 0 <= k < i ==> Normal(entries[k].name) != asked
  }

  predicate NoExact(entries: seq<Entry>, asked: string)
  {
    asked == "" || forall i :: 0 <= i < |entries| ==> Normal(entries[i].name) != asked
  }

  /** This is the first entry whose normal name agrees with the name when case is folded. */
  ghost predicate FirstFolded(entries: seq<Entry>, name: string, e: Entry, lower: string -> string)
  {
    exists i :: 0 <= i < |entries| && entries[i] == e && lower(Normal(e.name)) == lower(name) &&
      forall k :: 0 <= k < i ==> lower(Normal(entries[k].name)) != lower(name)
  }

  predicate NoFolded(entries: seq<Entry>, name: string, lower: string -> string)
  {
    forall i :: 0 <= i < |entries| ==> lower(Normal(entries[i].name)) != lower(name)
  }

  /** What is looked up, spaces around the name and all: the first exact match of what was asked, and failing that the
      first match of the name without the spaces when case is folded. */
  lemma LookupFindsFirst(entries: seq<Entry>, before: string, name: string, after: string, lower: string -> string)
    requires AllOf(before, Space) && AllOf(after, Space) && KeptEnds(name, Space)
    ensures var asked := before + (name + after);
            match Lookup(entries, asked, lower)
            case None => NoExact(entries, asked) && NoFolded(entries, name, lower)
            case Some(e) =>
              FirstExact(entries, asked, e) || (NoExact(entries, asked) && FirstFolded(entries, name, e, lower))
  {
    hide Normal, Trim, Space, AllOf, KeptEnds, FirstIn;
    var asked := before + (name + after);
    TrimExactly(before, name, after, Space);
    FirstInIsFirst(entries, Exact(asked), lower);
    FirstInIsFirst(entries, Folded(lower(name)), lower);
  }
}
