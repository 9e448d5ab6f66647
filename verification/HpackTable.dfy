// The HPACK dynamic table: a ring of 124 entries over one packed content buffer, against the
// first-in first-out list of section 2.3.2 and section 4 of RFC 7541.

module HpackTable {
  import opened Bytes

  const MAX_TABLE_SIZE: nat := 4096
  const MAX_ENTRIES: nat := 124
  const CONTENT_SIZE: nat := MAX_TABLE_SIZE - 32

  // ----- The list of RFC 7541 -----

  datatype Field = Field(name: seq<byte>, value: seq<byte>) {
    function Size(): nat { |name| + |value| + 32 }
  }

  /** The size of a table (section 4.1): entries are listed newest first. */
  function Total(fields: seq<Field>): nat {
    if fields == [] then 0 else Total(fields[..|fields| - 1]) + fields[|fields| - 1].Size()
  }

  /** Evicts from the end until at most `bound` is used (section 4.3 and section 4.4). */
  function Keep(fields: seq<Field>, bound: nat): (kept: seq<Field>)
    ensures kept <= fields && Total(kept) <= bound
  {
    if Total(fields) <= bound then fields else Keep(fields[..|fields| - 1], bound)
  }

  lemma KeepStep(fields: seq<Field>, bound: nat)
    ensures Keep(fields, bound) == if Total(fields) <= bound then fields else Keep(fields[..|fields| - 1], bound)
    ensures Total(fields) > bound ==> fields != []
  {
  }

  lemma {:induction false} TotalGrows(fields: seq<Field>, n: nat)
    requires n <= |fields|
    ensures Total(fields[..n]) <= Total(fields)
  {
    if n < |fields| {
      var shorter := fields[..|fields| - 1];
      assert shorter[..n] == fields[..n];
      TotalGrows(shorter, n);
    } else {
      assert fields[..n] == fields;
    }
  }

  /** Eviction takes the oldest entries only, and no more of them than needed. */
  lemma {:induction false} KeepsAllItCan(fields: seq<Field>, bound: nat, n: nat)
    requires n <= |fields|
    ensures n <= |Keep(fields, bound)| <==> Total(fields[..n]) <= bound
  {
    if Total(fields) <= bound {
      TotalGrows(fields, n);
    } else if n == |fields| {
      assert fields[..n] == fields;
    } else {
      var shorter := fields[..|fields| - 1];
      assert shorter[..n] == fields[..n];
      KeepsAllItCan(shorter, bound, n);
    }
  }

  /** Section 4.4 of RFC 7541: a field that cannot fit at all empties the table. */
  function Insert(fields: seq<Field>, max: nat, f: Field): (r: seq<Field>)
    requires Total(fields) <= max
  {
    if f.Size() > max then [] else [f] + Keep(fields, max - f.Size())
  }

  lemma {:induction false} TotalOfInsert(f: Field, kept: seq<Field>)
    ensures Total([f] + kept) == f.Size() + Total(kept)
  {
    if kept == [] {
      assert [f] + kept == [f];
      assert Total([f][..0]) == 0;
    } else {
      assert ([f] + kept)[..|kept|] == [f] + kept[..|kept| - 1];
      TotalOfInsert(f, kept[..|kept| - 1]);
    }
  }

  // ----- What the table does -----

  /** The table, abstractly: its fields, its size limit, and where its newest content ends. */
  datatype State = State(fields: seq<Field>, max: nat, edge: nat)

  datatype AddResult = Added(state: State) | Full | Overrun

  /** add(name, value). New content always goes behind the newest entry, and back to the start of
      the buffer only when the table has become empty: what would end past the buffer makes the slicing panic. */
  function AddTo(s: State, f: Field): AddResult {
    if |s.fields| == MAX_ENTRIES then Full
    else if f.Size() > s.max then Added(State([], s.max, 0)) else
    var kept := Keep(s.fields, s.max - f.Size());
    var from := if kept == [] then 0 else s.edge;
    var edge := from + |f.name| + |f.value|;
    if edge > CONTENT_SIZE then Overrun else Added(State([f] + kept, s.max, edge))
  }

  function ResizeTo(s: State, max: nat): State {
    var kept := Keep(s.fields, max);
    State(kept, max, if kept == [] then 0 else s.edge)
  }

  // ----- The ring -----

  datatype AddStatus = Stored | NoSlot | PastEnd

  datatype Entry = Entry(nameFrom: uint16, nameSize: byte, valueEdge: uint16)

  /** The ring slot of the k-th newest entry. */
  function Slot(iNewest: nat, k: nat): (i: nat)
    requires iNewest < MAX_ENTRIES && k < MAX_ENTRIES
    ensures i < MAX_ENTRIES
  {
    if k <= iNewest then iNewest - k else MAX_ENTRIES + iNewest - k
  }

  function Next(i: nat): (j: nat)
    requires i < MAX_ENTRIES
    ensures j < MAX_ENTRIES
  {
    if i + 1 == MAX_ENTRIES then 0 else i + 1
  }

  function Read(content: seq<byte>, e: Entry): Field {
    var nameEdge := e.nameFrom as int + e.nameSize as int;
    if nameEdge <= e.valueEdge as int <= |content| then
      Field(content[e.nameFrom..nameEdge], content[nameEdge..e.valueEdge])
    else Field([], [])
  }

  function FieldsOf(entries: seq<Entry>, content: seq<byte>, iNewest: nat, n: nat): (fields: seq<Field>)
    requires |entries| == MAX_ENTRIES && iNewest < MAX_ENTRIES && n <= MAX_ENTRIES
    ensures |fields| == n
  {
    seq(n, k requires 0 <= k < n => Read(content, entries[Slot(iNewest, k)]))
  }

  /** The k-th newest entry lies in the content buffer, right behind the next older one. */
  ghost predicate PackedAt(entries: seq<Entry>, iNewest: nat, n: nat, k: nat)
    requires |entries| == MAX_ENTRIES && iNewest < MAX_ENTRIES && k < n <= MAX_ENTRIES
  {
    var e := entries[Slot(iNewest, k)];
    && e.nameFrom as int + e.nameSize as int <= e.valueEdge as int <= CONTENT_SIZE
    && (k + 1 < n ==> entries[Slot(iNewest, k + 1)].valueEdge == e.nameFrom)
  }

  ghost predicate Packed(entries: seq<Entry>, iNewest: nat, n: nat)
    requires |entries| == MAX_ENTRIES && iNewest < MAX_ENTRIES && n <= MAX_ENTRIES
  {
    forall k | 0 <= k < n :: PackedAt(entries, iNewest, n, k)
  }

  /** The ring without its oldest entry. */
  lemma Shortened(entries: seq<Entry>, content: seq<byte>, iNewest: nat, n: nat)
    requires |entries| == MAX_ENTRIES && |content| == CONTENT_SIZE && iNewest < MAX_ENTRIES && 0 < n <= MAX_ENTRIES
    requires Packed(entries, iNewest, n)
    ensures Packed(entries, iNewest, n - 1)
    ensures
      var oldest, fields := entries[Slot(iNewest, n - 1)], FieldsOf(entries, content, iNewest, n);
      && FieldsOf(entries, content, iNewest, n - 1) == fields[..n - 1]
      && oldest.nameFrom <= oldest.valueEdge
      && Total(fields) == Total(fields[..n - 1]) + (oldest.valueEdge - oldest.nameFrom + 32)
  {
    assert PackedAt(entries, iNewest, n, n - 1);
    assert FieldsOf(entries, content, iNewest, n)[n - 1] == Read(content, entries[Slot(iNewest, n - 1)]);
    var m := n - 1;
    forall k | 0 <= k < m
      ensures PackedAt(entries, iNewest, m, k)
    {
      assert PackedAt(entries, iNewest, n, k);
    }
  }

  lemma NothingLeft(entries: seq<Entry>, content: seq<byte>, i: nat, j: nat)
    requires |entries| == MAX_ENTRIES && i < MAX_ENTRIES && j < MAX_ENTRIES
    ensures Packed(entries, i, 0) && FieldsOf(entries, content, i, 0) == FieldsOf(entries, content, j, 0) == []
  {
  }

  class Table {
    var tableSize: uint32
    var freeSize: uint32
    var iNewest: uint32
    var iOldest: uint32
    var numEntries: uint32
    const entries: array<Entry>
    const content: array<byte>

    constructor ()
      ensures Valid() && fresh(entries) && fresh(content)
      ensures Abstract() == State([], MAX_TABLE_SIZE, 0)
    {
      tableSize := MAX_TABLE_SIZE;
      freeSize := MAX_TABLE_SIZE;
      iNewest, iOldest, numEntries := 0, 0, 0;
      entries := new Entry[MAX_ENTRIES](_ => Entry(0, 0, 0));
      content := new byte[CONTENT_SIZE](_ => 0);
    }

    ghost predicate Shaped()
      reads this
    {
      && entries.Length == MAX_ENTRIES && content.Length == CONTENT_SIZE
      && iNewest < MAX_ENTRIES && numEntries <= MAX_ENTRIES
      && freeSize <= tableSize <= MAX_TABLE_SIZE
      && iOldest == if numEntries == 0 then iNewest else Slot(iNewest, numEntries - 1)
    }

    ghost function Fields(): seq<Field>
      requires Shaped()
      reads this, entries, content
    {
      FieldsOf(entries[..], content[..], iNewest, numEntries)
    }

    ghost predicate Valid()
      reads this, entries, content
    {
      && Shaped()
      && Packed(entries[..], iNewest, numEntries)
      && tableSize - freeSize == Total(Fields())
    }

    ghost function Abstract(): State
      requires Valid()
      reads this, entries, content
    {
      State(Fields(), tableSize, if numEntries == 0 then 0 else entries[iNewest].valueEdge)
    }

    /** The index-th newest field; a miss exactly for indexes beyond the table. */
    method Get(index: uint32) returns (name: seq<byte>, value: seq<byte>, ok: bool)
      requires Valid()
      ensures ok == (index < |Fields()|)
      ensures ok ==> Field(name, value) == Fields()[index]
    {
      if index >= numEntries {
        return [], [], false;
      }
      var i: uint32 := index;
      if iNewest <= iOldest && i > iNewest {
        i := i - iNewest;
        i := MAX_ENTRIES - i;
      } else {
        i := iNewest - i;
      }
      assert i == Slot(iNewest, index);
      var entry := entries[i];
      assert PackedAt(entries[..], iNewest, numEntries, index);
      var nameEdge: int := entry.nameFrom as int + entry.nameSize as int;
      return content[entry.nameFrom..nameEdge], content[nameEdge..entry.valueEdge], true;
    }

    /** Drops the oldest entry. */
    method EvictOne()
      requires Valid() && numEntries > 0
      modifies this`freeSize, this`iNewest, this`iOldest, this`numEntries
      ensures Valid() && tableSize == old(tableSize)
      ensures Fields() == old(Fields())[..old(numEntries) - 1]
      ensures Abstract().edge == if numEntries == 0 then 0 else old(Abstract().edge)
    {
      hide Total, FieldsOf, Packed, Read;
      Shortened(entries[..], content[..], iNewest, numEntries);
      NothingLeft(entries[..], content[..], iNewest, iOldest);
      var evictee := entries[iOldest];
      freeSize := freeSize + (evictee.valueEdge - evictee.nameFrom + 32);
      iOldest := Next(iOldest);
      numEntries := numEntries - 1;
      if numEntries == 0 {
        iNewest := iOldest;
        NothingLeft(entries[..], content[..], iNewest, iOldest);
      }
    }

    /** Evicts until at most `bound` is used. */
    method EvictTo(bound: nat)
      requires Valid() && bound <= tableSize
      modifies this`freeSize, this`iNewest, this`iOldest, this`numEntries
      ensures Valid() && tableSize == old(tableSize)
      ensures Fields() == Keep(old(Fields()), bound)
      ensures Abstract().edge == if numEntries == 0 then 0 else old(Abstract().edge)
    {
      hide Total, Keep, FieldsOf, Packed;
      while tableSize - freeSize > bound
        invariant Valid() && tableSize == old(tableSize)
        invariant Keep(Fields(), bound) == Keep(old(Fields()), bound)
        invariant Abstract().edge == if numEntries == 0 then 0 else old(Abstract().edge)
        decreases numEntries
      {
        KeepStep(Fields(), bound);
        EvictOne();
      }
      KeepStep(Fields(), bound);
    }

    /** Makes tableSize the new limit, evicting what no longer fits. */
    method Resize(newMaxSize: uint32)
      requires Valid() && newMaxSize <= MAX_TABLE_SIZE
      modifies this`tableSize, this`freeSize, this`iNewest, this`iOldest, this`numEntries
      ensures Valid() && Abstract() == ResizeTo(old(Abstract()), newMaxSize)
    {
      if newMaxSize >= tableSize {
        freeSize := freeSize + (newMaxSize - tableSize);
      } else {
        EvictTo(newMaxSize);
        freeSize := freeSize - (tableSize - newMaxSize);
      }
      tableSize := newMaxSize;
    }

    /** Puts a field behind the newest entry. The entries that stay are not touched. */
    method Append(name: seq<byte>, value: seq<byte>)
      requires Valid() && numEntries < MAX_ENTRIES && 0 < |name| <= 255
      requires Field(name, value).Size() <= freeSize
      requires Abstract().edge + |name| + |value| <= CONTENT_SIZE
      modifies this`freeSize, this`iNewest, this`iOldest, this`numEntries, entries, content
      ensures Valid() && tableSize == old(tableSize)
      ensures Fields() == [Field(name, value)] + old(Fields())
      ensures Abstract().edge == old(Abstract().edge) + |name| + |value|
    {
      hide PackedAt, Read, Keep, Total;
      ghost var n, was, es, cs, newest := numEntries, Fields(), entries[..], content[..], iNewest;
      freeSize := freeSize - (|name| + |value| + 32);
      var from: int := 0;
      if numEntries > 0 {
        from := entries[iNewest].valueEdge as int;
        iNewest := Next(iNewest);
      }
      var nameEdge := from + |name|;
      var edge := nameEdge + |value|;
      CopyInto(content, from, name);
      CopyInto(content, nameEdge, value);
      assert content[..] == Written(cs, from, name, value);
      hide Written;
      numEntries := numEntries + 1;
      entries[iNewest] := Entry(from, |name|, edge);
      AppendedFields(es, cs, newest, n, Entry(from, |name|, edge), name, value);
      TotalOfInsert(Field(name, value), was);
    }

    /** Adds a field as the newest one. `NoSlot` is the source's false; on `PastEnd` it slices its content
        buffer out of range, which panics before anything is written there. */
    method Add(name: seq<byte>, value: seq<byte>) returns (r: AddStatus)
      requires Valid() && 0 < |name| <= 255
      modifies this, entries, content
      ensures match AddTo(old(Abstract()), Field(name, value))
        case Added(s) => r == Stored && Valid() && Abstract() == s
        case Full => r == NoSlot && Valid() && Abstract() == old(Abstract())
        case Overrun => r == PastEnd
    {
      hide Keep, FieldsOf, Packed;
      if numEntries == MAX_ENTRIES {
        return NoSlot;
      }
      var entrySize := |name| + |value| + 32;
      if entrySize > tableSize {
        Clear();
        return Stored;
      }
      EvictTo(tableSize - entrySize);
      var from: int := if numEntries == 0 then 0 else entries[iNewest].valueEdge;
      if from + |name| + |value| > CONTENT_SIZE {
        return PastEnd;
      }
      Append(name, value);
      r := Stored;
    }

    method Clear()
      requires Valid()
      modifies this`freeSize, this`iOldest, this`numEntries
      ensures Valid() && Abstract() == State([], old(tableSize), 0)
    {
      freeSize := tableSize;
      numEntries := 0;
      iOldest := iNewest;
    }
  }

  /** The content buffer after a field was written at `from`. */
  function Written(content: seq<byte>, from: nat, name: seq<byte>, value: seq<byte>): seq<byte>
    requires from + |name| + |value| <= |content|
  {
    Pasted(Pasted(content, from, name), from + |name|, value)
  }

  lemma AppendedContent(content: seq<byte>, from: nat, name: seq<byte>, value: seq<byte>)
    requires from + |name| + |value| <= |content|
    ensures var now := Written(content, from, name, value);
      && |now| == |content| && now[..from] == content[..from]
      && now[from..from + |name|] == name && now[from + |name|..from + |name| + |value|] == value
  {
  }

  lemma AppendedFields(entries: seq<Entry>, content: seq<byte>, iNewest: nat, n: nat, e: Entry, name: seq<byte>,
    value: seq<byte>)
    requires |entries| == MAX_ENTRIES && iNewest < MAX_ENTRIES && n < MAX_ENTRIES && |content| == CONTENT_SIZE
    requires Packed(entries, iNewest, n) && |name| <= 255
    requires e.nameFrom == if n == 0 then 0 else entries[iNewest].valueEdge
    requires e.nameSize == |name| && e.nameFrom as int + |name| + |value| == e.valueEdge as int <= CONTENT_SIZE
    ensures
      var newest := if n == 0 then iNewest else Next(iNewest);
      var now := Written(content, e.nameFrom, name, value);
      && Packed(entries[newest := e], newest, n + 1)
      && FieldsOf(entries[newest := e], now, newest, n + 1) ==
           [Field(name, value)] + FieldsOf(entries, content, iNewest, n)
  {
    var newest := if n == 0 then iNewest else Next(iNewest);
    var now, es, m := Written(content, e.nameFrom, name, value), entries[newest := e], n + 1;
    AppendedContent(content, e.nameFrom, name, value);
    hide Written;
    assert Read(now, e) == Field(name, value);
    forall k | 0 <= k < m
      ensures PackedAt(es, newest, m, k)
      ensures k > 0 ==> Read(now, es[Slot(newest, k)]) == Read(content, entries[Slot(iNewest, k - 1)])
    {
      if k > 0 {
        assert Slot(newest, k) == Slot(iNewest, k - 1) != newest;
        assert PackedAt(entries, iNewest, n, k - 1);
        BelowNewest(entries, iNewest, n, k - 1);
        var old_ := entries[Slot(iNewest, k - 1)];
        SameBelow(content, now, e.nameFrom, old_);
      }
    }
  }

  /** No live entry lies above the newest one. */
  lemma {:induction false} BelowNewest(entries: seq<Entry>, iNewest: nat, n: nat, k: nat)
    requires |entries| == MAX_ENTRIES && iNewest < MAX_ENTRIES && k < n <= MAX_ENTRIES
    requires Packed(entries, iNewest, n)
    ensures entries[Slot(iNewest, k)].valueEdge <= entries[iNewest].valueEdge
  {
    if k > 0 {
      BelowNewest(entries, iNewest, n, k - 1);
      assert PackedAt(entries, iNewest, n, k - 1);
    }
  }

  lemma SameBelow(content: seq<byte>, now: seq<byte>, from: nat, e: Entry)
    requires |now| == |content| && from <= |content| && now[..from] == content[..from]
    requires e.nameFrom as int + e.nameSize as int <= e.valueEdge as int <= from
    ensures Read(now, e) == Read(content, e)
  {
    var nameEdge := e.nameFrom as int + e.nameSize as int;
    assert content[0..from] == now[0..from];
    SubSlice(content, 0, from, e.nameFrom, nameEdge);
    SubSlice(now, 0, from, e.nameFrom, nameEdge);
    SubSlice(content, 0, from, nameEdge, e.valueEdge);
    SubSlice(now, 0, from, nameEdge, e.valueEdge);
  }

  // ----- Against RFC 7541 -----

  /** Exactly when add does what section 4.4 of RFC 7541 asks: the table has a slot left, and the
      content fits behind the newest entry unless everything is evicted. */
  predicate Roomy(s: State, f: Field)
    requires Total(s.fields) <= s.max
  {
    |s.fields| != MAX_ENTRIES &&
    (f.Size() <= s.max && Keep(s.fields, s.max - f.Size()) != [] ==> s.edge + |f.name| + |f.value| <= CONTENT_SIZE)
  }

  lemma AddMeetsRfc(s: State, f: Field)
    requires Total(s.fields) <= s.max <= MAX_TABLE_SIZE
    ensures var r := AddTo(s, f);
      r.Added? && r.state.fields == Insert(s.fields, s.max, f) && r.state.max == s.max <==> Roomy(s, f)
  {
    if f.Size() <= s.max {
      var kept := Keep(s.fields, s.max - f.Size());
      assert |f.name| + |f.value| <= CONTENT_SIZE;
      assert AddTo(s, f).Added? <==>
        |s.fields| != MAX_ENTRIES && (kept == [] || s.edge + |f.name| + |f.value| <= CONTENT_SIZE);
    }
  }

  datatype Op = AddOp(field: Field) | ResizeOp(max: nat)

  lemma InsertFits(fields: seq<Field>, max: nat, f: Field)
    requires Total(fields) <= max
    ensures Total(Insert(fields, max, f)) <= max
  {
    if f.Size() <= max {
      TotalOfInsert(f, Keep(fields, max - f.Size()));
    }
  }

  /** The list of RFC 7541 after a run of operations. */
  function RfcRun(fields: seq<Field>, max: nat, ops: seq<Op>): seq<Field>
    requires Total(fields) <= max
    decreases |ops|
  {
    if ops == [] then fields
    else match ops[0]
      case AddOp(f) => InsertFits(fields, max, f); RfcRun(Insert(fields, max, f), max, ops[1..])
      case ResizeOp(m) => RfcRun(Keep(fields, m), m, ops[1..])
  }

  ghost predicate Sound(s: State) {
    Total(s.fields) <= s.max <= MAX_TABLE_SIZE
  }

  ghost predicate Admissible(s: State, op: Op)
    requires Sound(s)
  {
    match op
    case AddOp(f) => Roomy(s, f)
    case ResizeOp(m) => m <= MAX_TABLE_SIZE
  }

  /** One operation on the table. */
  ghost function Step(s: State, op: Op): (t: State)
    requires Sound(s) && Admissible(s, op)
    ensures Sound(t)
  {
    match op
    case AddOp(f) => InsertFits(s.fields, s.max, f); AddMeetsRfc(s, f); AddTo(s, f).state
    case ResizeOp(m) => ResizeTo(s, m)
  }

  ghost predicate AllAdmissible(s: State, ops: seq<Op>)
    requires Sound(s)
    decreases |ops|
  {
    ops != [] ==> Admissible(s, ops[0]) && AllAdmissible(Step(s, ops[0]), ops[1..])
  }

  ghost function TableRun(s: State, ops: seq<Op>): State
    requires Sound(s) && AllAdmissible(s, ops)
    decreases |ops|
  {
    if ops == [] then s else TableRun(Step(s, ops[0]), ops[1..])
  }

  /** After any run of adds with room and resizes, the table is the list RFC 7541 prescribes. */
  lemma {:induction false} TableRefinesList(s: State, ops: seq<Op>)
    requires Sound(s) && AllAdmissible(s, ops)
    ensures TableRun(s, ops).fields == RfcRun(s.fields, s.max, ops)
    decreases |ops|
  {
    if ops != [] {
      if ops[0].AddOp? {
        AddMeetsRfc(s, ops[0].field);
      }
      TableRefinesList(Step(s, ops[0]), ops[1..]);
    }
  }

  // ----- Where it does not hold -----

  /** n copies of a field of 1000 content bytes. */
  function Thousands(n: nat): (fields: seq<Field>)
    ensures |fields| == n && forall k | 0 <= k < n :: fields[k] == Field([97], seq(999, _ => 98))
  {
    seq(n, _ => Field([97], seq(999, _ => 98)))
  }

  lemma ThousandsTotal(n: nat)
    ensures Total(Thousands(n)) == 1032 * n
    ensures n > 0 ==> Thousands(n)[..n - 1] == Thousands(n - 1)
  {
    TotalOfEqual(Field([97], seq(999, _ => 98)), n);
  }

  /** Fields of 1000 content bytes keep evicting each other, three live at a time; the fourth is the
      last one the content buffer takes, although the list of RFC 7541 goes on as before: nothing
      moves back to the start of the buffer while entries live. */
  lemma FifthAddOverruns(n: nat)
    requires n <= 4
    ensures
      var f := Thousands(1)[0];
      var live := if n <= 3 then n else 3;
      var s := State(Thousands(live), MAX_TABLE_SIZE, 1000 * n);
      && Total(s.fields) <= s.max
      && Insert(s.fields, s.max, f) == Thousands(if n <= 2 then n + 1 else 3)
      && AddTo(s, f) == if n == 4 then Overrun else Added(State(Insert(s.fields, s.max, f), s.max, 1000 * (n + 1)))
  {
    hide Total, Thousands;
    var f := Thousands(1)[0];
    var live := if n <= 3 then n else 3;
    ThousandsTotal(live);
    KeepStep(Thousands(live), 3064);
    if live == 3 {
      ThousandsTotal(2);
      KeepStep(Thousands(2), 3064);
    }
    var kept := if live == 3 then 2 else live;
    hide Keep;
    assert Keep(Thousands(live), 3064) == Thousands(kept);
    assert [f] + Thousands(kept) == Thousands(kept + 1);
  }

  /** A table of 124 shortest fields refuses the next one, though evicting the oldest would do. */
  lemma FullTableRefuses()
    ensures
      var fields := seq(MAX_ENTRIES, _ => Field([97], []));
      var f := Field([98], []);
      && Total(fields) <= MAX_TABLE_SIZE
      && AddTo(State(fields, MAX_TABLE_SIZE, MAX_ENTRIES), f) == Full
      && Insert(fields, MAX_TABLE_SIZE, f) == [f] + fields[..MAX_ENTRIES - 1]
  {
    hide Total, Keep;
    var short := Field([97], []);
    var fields := seq(MAX_ENTRIES, _ => short);
    TotalOfEqual(short, MAX_ENTRIES);
    TotalOfEqual(short, MAX_ENTRIES - 1);
    assert fields[..MAX_ENTRIES - 1] == seq(MAX_ENTRIES - 1, _ => short);
    KeepStep(fields, MAX_TABLE_SIZE - 33);
    KeepStep(fields[..MAX_ENTRIES - 1], MAX_TABLE_SIZE - 33);
  }

  lemma {:induction false} TotalOfEqual(f: Field, n: nat)
    ensures Total(seq(n, _ => f)) == n * f.Size()
  {
    if n > 0 {
      assert seq(n, _ => f)[..n - 1] == seq(n - 1, _ => f);
      TotalOfEqual(f, n - 1);
    }
  }

  // ----- The sizes, counted from the front -----

  /** What section 4.1 of RFC 7541 counts for these fields. */
  function Weight(fields: seq<Field>): nat {
    if fields == [] then 0 else |fields[0].name| + |fields[0].value| + 32 + Weight(fields[1..])
  }

  lemma {:induction false} WeightIsTotal(fields: seq<Field>)
    ensures Weight(fields) == Total(fields)
  {
    if fields != [] {
      WeightIsTotal(fields[1..]);
      assert fields == [fields[0]] + fields[1..];
      TotalOfInsert(fields[0], fields[1..]);
    }
  }

  /** Resizing keeps the newest fields, and as many of them as weigh no more than the new maximum. */
  lemma ResizeKeepsMost(s: State, max: nat, n: nat)
    requires n <= |s.fields|
    ensures ResizeTo(s, max).fields <= s.fields
    ensures n <= |ResizeTo(s, max).fields| <==> Weight(s.fields[..n]) <= max
  {
    WeightIsTotal(s.fields[..n]);
    KeepsAllItCan(s.fields, max, n);
  }

  /** Inserting puts the new field in front, and keeps as many of the newest as weigh no more than the maximum
      together with it: none, not even the new one, if that alone weighs more. */
  lemma InsertKeepsMost(fields: seq<Field>, max: nat, f: Field, n: nat)
    requires Total(fields) <= max && n <= |fields|
    ensures Insert(fields, max, f) <= [f] + fields
    ensures n + 1 <= |Insert(fields, max, f)| <==> Weight([f] + fields[..n]) <= max
  {
    hide Keep, Total;
    WeightIsTotal([f] + fields[..n]);
    TotalOfInsert(f, fields[..n]);
    if f.Size() <= max {
      KeepsAllItCan(fields, max - f.Size(), n);
    }
  }
}
