/**
 The compressed index from field and enum numbers to positions: the table that WriteIntRanges
 (c_helpers.cc) emits and the binary search of int_range_lookup (protobuf-c.c) over it.
 */
module IntRanges {
  import opened Bytes

  datatype IntRange = IntRange(start: int, origIndex: nat)

  /** Strictly increasing ints with room for one more above each. */
  ghost predicate Indexable(values: seq<int>) {
    && (forall i :: 0 <= i < |values| ==> -0x8000_0000 <= values[i] < INT_MAX)
    && forall i, j :: 0 <= i < j < |values| ==> values[i] < values[j]
  }

  /** Does position `i` start a run of consecutive values? */
  predicate StartsRun(values: seq<int>, i: nat)
    requires i < |values|
  {
    i == 0 || values[i - 1] + 1 != values[i]
  }

  /** Entry `e` describes the maximal run of consecutive values from its position up to `end`. */
  ghost predicate DescribesRun(e: IntRange, values: seq<int>, end: nat) {
    && e.origIndex < end <= |values|
    && StartsRun(values, e.origIndex)
    && forall i :: e.origIndex <= i < end ==> values[i] == e.start + (i - e.origIndex)
  }

  /** The entries of a table, without its sentinel, for the values before position `n`. */
  ghost predicate Describes(entries: seq<IntRange>, values: seq<int>, n: nat) {
    && n <= |values|
    && (if entries == [] then n == 0 else entries[0].origIndex == 0)
    && forall r :: 0 <= r < |entries| ==> EntryIsRight(entries, values, n, r)
  }

  ghost predicate EntryIsRight(entries: seq<IntRange>, values: seq<int>, n: nat, r: nat)
    requires r < |entries|
  {
    DescribesRun(entries[r], values, EndOf(entries, r, n))
  }

  function EndOf(entries: seq<IntRange>, r: nat, n: nat): nat
    requires r < |entries|
  {
    if r + 1 < |entries| then entries[r + 1].origIndex else n
  }

  /** A complete table: entries for all values, then a sentinel that holds their number. */
  ghost predicate Indexes(table: seq<IntRange>, values: seq<int>) {
    && |table| >= 2
    && table[|table| - 1] == IntRange(0, |values|)
    && Describes(table[..|table| - 1], values, |values|)
  }

  // ---- WriteIntRanges -------------------------------------------------------------------------

  /** How often the values jump by more than one. */
  function Breaks(values: seq<int>): nat {
    if |values| <= 1 then 0
    else Breaks(values[..|values| - 1]) + (if values[|values| - 2] + 1 != values[|values| - 1] then 1 else 0)
  }

  lemma BreaksStep(values: seq<int>, i: nat)
    requires 1 <= i < |values|
    ensures Breaks(values[..i + 1]) == Breaks(values[..i]) + (if values[i - 1] + 1 != values[i] then 1 else 0)
  {
    assert values[..i + 1][..i] == values[..i];
  }

  /** The run that starts at `start` reaches at least to `i`. */
  ghost predicate Running(values: seq<int>, start: nat, i: nat) {
    start < i <= |values| && StartsRun(values, start) && forall k :: start < k < i ==> !StartsRun(values, k)
  }

  lemma {:induction false} RunIsConsecutive(values: seq<int>, start: nat, i: nat, k: nat)
    requires Running(values, start, i) && start <= k < i
    ensures values[k] == values[start] + (k - start)
  {
    if k > start {
      RunIsConsecutive(values, start, i, k - 1);
      assert !StartsRun(values, k);
    }
  }

  /** The entry printed at position `i`, computed as the source does from the value before `i`. */
  lemma EmitEntry(entries: seq<IntRange>, values: seq<int>, start: nat, i: nat)
    requires Describes(entries, values, start) && Running(values, start, i)
    ensures Describes(entries + [IntRange(values[i - 1] + 1 - (i - start), start)], values, i)
  {
    RunIsConsecutive(values, start, i, i - 1);
    var e := IntRange(values[i - 1] + 1 - (i - start), start);
    var t := entries + [e];
    forall k | start <= k < i
      ensures values[k] == e.start + (k - start)
    {
      RunIsConsecutive(values, start, i, k);
    }
    forall r | 0 <= r < |t|
      ensures EntryIsRight(t, values, i, r)
    {
      if r < |entries| {
        assert EntryIsRight(entries, values, start, r);
        assert EndOf(t, r, i) == EndOf(entries, r, start);
      }
    }
  }

  method CountRanges(values: array<int>) returns (nRanges: nat)
    requires values.Length > 0
    ensures nRanges == 1 + Breaks(values[..])
  {
    nRanges := 1;
    for i := 1 to values.Length
      invariant nRanges == 1 + Breaks(values[..i])
    {
      assert values[..][..i + 1] == values[..i + 1] && values[..][..i] == values[..i];
      BreaksStep(values[..], i);
      if values[i - 1] + 1 != values[i] {
        nRanges := nRanges + 1;
      }
    }
    assert values[..values.Length] == values[..];
  }

  /**
   WriteIntRanges: the entries it prints and the number of ranges that it returns and prints as the
   size of the table.
   */
  method WriteIntRanges(values: array<int>) returns (table: seq<IntRange>, nRanges: nat)
    requires Indexable(values[..])
    ensures values.Length == 0 ==> table == [] && nRanges == 0
    ensures values.Length > 0 ==> Indexes(table, values[..]) && nRanges == |table| - 1
  {
    hide Describes, Running;
    if values.Length == 0 {
      return [], 0;
    }
    nRanges := CountRanges(values);
    ghost var all := values[..];
    table := [];
    var lastRangeStart := 0;
    StartEmitting(all);
    for i := 1 to values.Length
      invariant 0 <= lastRangeStart < i
      invariant Describes(table, all, lastRangeStart) && Running(all, lastRangeStart, i)
      invariant |table| == Breaks(all[..i])
    {
      BreaksStep(all, i);
      if values[i - 1] + 1 != values[i] {
        var count := i - lastRangeStart;
        var expected := values[i - 1] + 1;
        EmitEntry(table, all, lastRangeStart, i);
        table := table + [IntRange(expected - count, lastRangeStart)];
        lastRangeStart := i;
      }
      KeepRunning(all, lastRangeStart, i);
    }
    // write last real entry
    var count := values.Length - lastRangeStart;
    var expected := values[values.Length - 1] + 1;
    EmitEntry(table, all, lastRangeStart, values.Length);
    table := table + [IntRange(expected - count, lastRangeStart)];
    // write sentinel entry
    assert (table + [IntRange(0, values.Length)])[..|table|] == table;
    table := table + [IntRange(0, values.Length)];
    assert all[..values.Length] == all;
  }

  lemma StartEmitting(values: seq<int>)
    requires |values| > 0
    ensures Describes([], values, 0) && Running(values, 0, 1) && Breaks(values[..1]) == 0
  {}

  lemma KeepRunning(values: seq<int>, start: nat, i: nat)
    requires 0 < i < |values|
    requires if start == i then StartsRun(values, i) else !StartsRun(values, i) && Running(values, start, i)
    ensures Running(values, start, i + 1)
  {}

  // ---- int_range_lookup -----------------------------------------------------------------------

  /** The position of `key`, or -1: what a linear search over the values finds. */
  function LinearLookup(values: seq<int>, key: int): (i: int)
    ensures -1 <= i < |values|
    ensures i >= 0 ==> values[i] == key
    ensures i < 0 ==> key !in values
  {
    if values == [] then -1
    else if values[|values| - 1] == key then |values| - 1
    else LinearLookup(values[..|values| - 1], key)
  }

  lemma LookupIsUnique(values: seq<int>, key: int, i: int)
    requires Indexable(values) && -1 <= i < |values|
    requires if i < 0 then key !in values else values[i] == key
    ensures LinearLookup(values, key) == i
  {}

  lemma EntryFacts(table: seq<IntRange>, values: seq<int>, r: nat)
    requires Indexes(table, values) && r < |table| - 1
    ensures DescribesRun(table[r], values, table[r + 1].origIndex)
  {
    assert EntryIsRight(table[..|table| - 1], values, |values|, r);
    assert table[..|table| - 1][r] == table[r];
    if r + 1 < |table| - 1 { assert table[..|table| - 1][r + 1] == table[r + 1]; }
    assert EndOf(table[..|table| - 1], r, |values|) == table[r + 1].origIndex;
  }

  /**
   int_range_lookup: binary search over the ranges. The invariant is that a position holding the key
   lies in the ranges that remain.
   */
  method IntRangeLookup(nRanges: nat, ranges: seq<IntRange>, value: int, ghost values: seq<int>) returns (i: int)
    requires Indexable(values)
    requires if nRanges == 0 then values == [] else Indexes(ranges, values) && nRanges == |ranges| - 1
    ensures i == LinearLookup(values, value)
  {
    if nRanges == 0 {
      return -1;
    }
    NarrowedAtFirst(ranges, values, value);
    hide Indexes, Narrowed, Indexable, LinearLookup;
    var start: nat, n: nat := 0, nRanges;
    ghost var end: nat := nRanges;
    while n > 1
      invariant start + n == end <= nRanges
      invariant Narrowed(ranges, values, value, start, end)
      decreases n
    {
      var mid := start + n / 2;
      if value < ranges[mid].start {
        CutAbove(ranges, values, value, start, mid, end);
        n := mid - start;
        end := mid;
      } else if value >= ranges[mid].start + (ranges[mid + 1].origIndex - ranges[mid].origIndex) {
        CutBelow(ranges, values, value, start, mid, end);
        var newStart := mid + 1;
        n := start + n - newStart;
        start := newStart;
      } else {
        FoundIn(ranges, values, value, mid);
        return value - ranges[mid].start + ranges[mid].origIndex;
      }
    }
    if n > 0 {
      i := LookupInOne(ranges, start, value, values);
    } else {
      NarrowedToNothing(ranges, values, value, start);
      i := -1;
    }
  }

  /** The comparisons after the loop of int_range_lookup, in the one range that remains. */
  method LookupInOne(ranges: seq<IntRange>, start: nat, value: int, ghost values: seq<int>) returns (i: int)
    requires Indexable(values) && Indexes(ranges, values) && Narrowed(ranges, values, value, start, start + 1)
    ensures i == LinearLookup(values, value)
  {
    NarrowedToOne(ranges, values, value, start);
    var startOrigIndex := ranges[start].origIndex;
    var rangeSize := ranges[start + 1].origIndex - startOrigIndex;
    if ranges[start].start <= value < ranges[start].start + rangeSize {
      return value - ranges[start].start + startOrigIndex;
    }
    return -1;
  }

  lemma FoundIn(ranges: seq<IntRange>, values: seq<int>, value: int, r: nat)
    requires Indexable(values) && Indexes(ranges, values) && r + 1 < |ranges|
    requires ranges[r].start <= value < ranges[r].start + (ranges[r + 1].origIndex - ranges[r].origIndex)
    ensures LinearLookup(values, value) == value - ranges[r].start + ranges[r].origIndex
  {
    EntryFacts(ranges, values, r);
    LookupIsUnique(values, value, value - ranges[r].start + ranges[r].origIndex);
  }

  /** Position `k` lies in the entries from `from` to before `to`. */
  ghost predicate Within(ranges: seq<IntRange>, from: nat, to: nat, k: nat) {
    from <= to < |ranges| && ranges[from].origIndex <= k < ranges[to].origIndex
  }

  /** If the key is anywhere, then in the entries from `from` to before `to`. */
  ghost predicate Narrowed(ranges: seq<IntRange>, values: seq<int>, value: int, from: nat, to: nat) {
    from <= to < |ranges| && forall k :: 0 <= k < |values| && values[k] == value ==> Within(ranges, from, to, k)
  }

  lemma NarrowedAtFirst(ranges: seq<IntRange>, values: seq<int>, value: int)
    requires Indexes(ranges, values)
    ensures Narrowed(ranges, values, value, 0, |ranges| - 1)
  {
    TableShape(ranges, values);
  }

  lemma NarrowedToNothing(ranges: seq<IntRange>, values: seq<int>, value: int, from: nat)
    requires Indexable(values) && Narrowed(ranges, values, value, from, from)
    ensures LinearLookup(values, value) == -1
  {
    LookupIsUnique(values, value, -1);
  }

  /** The last comparison: one entry remains, and the key is in it or nowhere. */
  lemma NarrowedToOne(ranges: seq<IntRange>, values: seq<int>, value: int, r: nat)
    requires Indexable(values) && Indexes(ranges, values) && Narrowed(ranges, values, value, r, r + 1)
    ensures var size := ranges[r + 1].origIndex - ranges[r].origIndex;
            LinearLookup(values, value)
            == if ranges[r].start <= value < ranges[r].start + size
               then value - ranges[r].start + ranges[r].origIndex else -1
  {
    EntryFacts(ranges, values, r);
    var size := ranges[r + 1].origIndex - ranges[r].origIndex;
    assert forall k :: 0 <= k < |values| && values[k] == value ==> Within(ranges, r, r + 1, k);
    if ranges[r].start <= value < ranges[r].start + size {
      LookupIsUnique(values, value, value - ranges[r].start + ranges[r].origIndex);
    } else {
      LookupIsUnique(values, value, -1);
    }
  }

  lemma TableShape(table: seq<IntRange>, values: seq<int>)
    requires Indexes(table, values)
    ensures |table| >= 2 && table[0].origIndex == 0 && table[|table| - 1].origIndex == |values|
  {
    assert table[..|table| - 1][0] == table[0];
  }

  lemma CutAbove(ranges: seq<IntRange>, values: seq<int>, value: int, from: nat, mid: nat, to: nat)
    requires Indexable(values) && Indexes(ranges, values) && from <= mid < to < |ranges| && value < ranges[mid].start
    requires Narrowed(ranges, values, value, from, to)
    ensures Narrowed(ranges, values, value, from, mid)
  {
    EntryFacts(ranges, values, mid);
    var o := ranges[mid].origIndex;
    assert values[o] == ranges[mid].start;
    forall k | 0 <= k < |values| && values[k] == value
      ensures Within(ranges, from, mid, k)
    {
      assert Within(ranges, from, to, k);
      assert k < o;
    }
  }

  lemma CutBelow(ranges: seq<IntRange>, values: seq<int>, value: int, from: nat, mid: nat, to: nat)
    requires Indexable(values) && Indexes(ranges, values) && from <= mid < to < |ranges|
    requires value >= ranges[mid].start + (ranges[mid + 1].origIndex - ranges[mid].origIndex)
    requires Narrowed(ranges, values, value, from, to)
    ensures Narrowed(ranges, values, value, mid + 1, to)
  {
    EntryFacts(ranges, values, mid);
    var last := ranges[mid + 1].origIndex - 1;
    assert values[last] == ranges[mid].start + (last - ranges[mid].origIndex);
    forall k | 0 <= k < |values| && values[k] == value
      ensures Within(ranges, mid + 1, to, k)
    {
      assert Within(ranges, from, to, k);
      assert k > last;
    }
  }
}

/** The range tables of a schema's descriptors, through which fields are looked up by number. */
module FieldTables {
  import opened Bytes
  import opened Schema
  import opened IntRanges

  /** The fields n_field_ranges and field_ranges of a descriptor. */
  datatype FieldTable = FieldTable(nRanges: nat, ranges: seq<IntRange>)

  function Ids(fields: seq<FieldDescriptor>): (r: seq<int>)
    ensures |r| == |fields|
  {
    seq(|fields|, i requires 0 <= i < |fields| => fields[i].id)
  }

  ghost predicate TableFor(table: FieldTable, fields: seq<FieldDescriptor>) {
    if table.nRanges == 0 then fields == []
    else Indexes(table.ranges, Ids(fields)) && table.nRanges == |table.ranges| - 1
  }

  ghost predicate TablesFor(tables: seq<FieldTable>, sch: Schema) {
    |tables| == |sch| && forall d :: 0 <= d < |sch| ==> TableFor(tables[d], sch[d].fields)
  }

  /** A search among the numbers is a search for the field, although the number is passed as an int. */
  lemma {:induction false} LookupFindsField(fields: seq<FieldDescriptor>, tag: u32)
    requires forall i :: 0 <= i < |fields| ==> 1 <= fields[i].id < INT_MAX
    ensures LinearLookup(Ids(fields), ToInt32(tag)) == FindField(fields, tag)
  {
    if fields != [] {
      var n := |fields| - 1;
      assert Ids(fields)[..n] == Ids(fields[..n]);
      LookupFindsField(fields[..n], tag);
    }
  }

  lemma IdsAreIndexable(sch: Schema, d: nat)
    requires ValidSchema(sch) && d < |sch|
    ensures Indexable(Ids(sch[d].fields))
    ensures forall i :: 0 <= i < |sch[d].fields| ==> 1 <= sch[d].fields[i].id < INT_MAX
  {
    forall i | 0 <= i < |sch[d].fields|
      ensures 1 <= sch[d].fields[i].id < INT_MAX
    {
      assert ValidField(sch, sch[d], sch[d].fields[i]);
    }
  }

  /** Looking a field up through the table of its descriptor is a linear search. */
  method FieldIndex(sch: Schema, tables: seq<FieldTable>, d: nat, tag: u32) returns (i: int)
    requires ValidSchema(sch) && TablesFor(tables, sch) && d < |sch|
    ensures i == FindField(sch[d].fields, tag)
  {
    IdsAreIndexable(sch, d);
    LookupFindsField(sch[d].fields, tag);
    i := IntRangeLookup(tables[d].nRanges, tables[d].ranges, ToInt32(tag), Ids(sch[d].fields));
  }
}

/** qsort with a comparison function, and strcmp. */
module Sorting {
  import opened Bytes

  ghost predicate TotalOrder<T(!new)>(le: (T, T) -> bool) {
    && (forall a, b :: le(a, b) || le(b, a))
    && (forall a, b, c :: le(a, b) && le(b, c) ==> le(a, c))
  }

  ghost predicate SortedBy<T>(le: (T, T) -> bool, s: seq<T>) {
    forall i, j :: 0 <= i < j < |s| ==> le(s[i], s[j])
  }

  /** `x` put behind the elements that are not above it. */
  function Insert<T>(le: (T, T) -> bool, s: seq<T>, x: T): (r: seq<T>)
    ensures multiset(r) == multiset(s) + multiset{x}
  {
    if s == [] then [x]
    else
      var n := |s| - 1;
      assert s == s[..n] + [s[n]];
      if le(s[n], x) then s + [x] else Insert(le, s[..n], x) + [s[n]]
  }

  function Sort<T>(le: (T, T) -> bool, s: seq<T>): (r: seq<T>)
    ensures multiset(r) == multiset(s)
  {
    if s == [] then []
    else
      assert s == s[..|s| - 1] + [s[|s| - 1]];
      Insert(le, Sort(le, s[..|s| - 1]), s[|s| - 1])
  }

  lemma InsertMembers<T>(le: (T, T) -> bool, s: seq<T>, x: T, i: nat)
    requires i < |Insert(le, s, x)|
    ensures Insert(le, s, x)[i] in s || Insert(le, s, x)[i] == x
  {
    assert Insert(le, s, x)[i] in multiset(s) + multiset{x};
  }

  lemma {:induction false} InsertSorted<T(!new)>(le: (T, T) -> bool, s: seq<T>, x: T)
    requires TotalOrder(le) && SortedBy(le, s)
    ensures SortedBy(le, Insert(le, s, x))
  {
    if s != [] && !le(s[|s| - 1], x) {
      var n := |s| - 1;
      InsertSorted(le, s[..n], x);
      var r := Insert(le, s[..n], x);
      assert Insert(le, s, x) == r + [s[n]];
      hide Insert;
      forall i | 0 <= i < |r|
        ensures le(r[i], s[n])
      {
        InsertMembers(le, s[..n], x, i);
      }
    }
  }

  lemma {:induction false} SortSorts<T(!new)>(le: (T, T) -> bool, s: seq<T>)
    requires TotalOrder(le)
    ensures SortedBy(le, Sort(le, s))
  {
    if s != [] {
      SortSorts(le, s[..|s| - 1]);
      InsertSorted(le, Sort(le, s[..|s| - 1]), s[|s| - 1]);
    }
  }

  /** qsort of the C library, of which no more is used than that it sorts. */
  method QSort<T(!new)>(a: array<T>, le: (T, T) -> bool)
    requires TotalOrder(le)
    modifies a
    ensures SortedBy(le, a[..])
    ensures multiset(a[..]) == multiset(old(a[..]))
  {
    SortSorts(le, a[..]);
    var s := Sort(le, a[..]);
    assert |s| == |multiset(s)| == |multiset(a[..])| == a.Length;
    for i := 0 to a.Length
      invariant a[..i] == s[..i]
    {
      a[i] := s[i];
    }
    assert a[..] == s;
  }

  // ---- strcmp ---------------------------------------------------------------------------------

  /** The sign of strcmp, for strings given without their NUL. */
  function Strcmp(a: seq<byte>, b: seq<byte>): (r: int)
    ensures -1 <= r <= 1
  {
    if a == [] then (if b == [] then 0 else -1)
    else if b == [] then 1
    else if a[0] != b[0] then (if a[0] < b[0] then -1 else 1)
    else Strcmp(a[1..], b[1..])
  }

  lemma {:induction false} StrcmpZero(a: seq<byte>, b: seq<byte>)
    ensures Strcmp(a, b) == 0 <==> a == b
  {
    if a != [] && b != [] && a[0] == b[0] {
      StrcmpZero(a[1..], b[1..]);
      assert a == [a[0]] + a[1..] && b == [b[0]] + b[1..];
    }
  }

  lemma {:induction false} StrcmpFlips(a: seq<byte>, b: seq<byte>)
    ensures Strcmp(a, b) == -Strcmp(b, a)
  {
    if a != [] && b != [] && a[0] == b[0] { StrcmpFlips(a[1..], b[1..]); }
  }

  lemma {:induction false} StrcmpTransitive(a: seq<byte>, b: seq<byte>, c: seq<byte>)
    requires Strcmp(a, b) <= 0 && Strcmp(b, c) <= 0
    ensures Strcmp(a, c) <= 0
    ensures Strcmp(a, b) < 0 || Strcmp(b, c) < 0 ==> Strcmp(a, c) < 0
  {
    if a != [] && b != [] && c != [] && a[0] == b[0] == c[0] { StrcmpTransitive(a[1..], b[1..], c[1..]); }
  }
}

/**
 The part of GenerateMessageDescriptor (c_message.cc) that sorts the fields by number and prints the
 range table from which unpacking looks them up.
 */
module FieldGenerator {
  import opened Bytes
  import opened Schema
  import opened IntRanges
  import opened FieldTables
  import opened Sorting

  /** compare_pfields_by_number */
  predicate ByNumber(a: FieldDescriptor, b: FieldDescriptor) {
    a.id <= b.id
  }

  lemma ByNumberIsTotal()
    ensures TotalOrder(ByNumber)
  {}

  ghost predicate DistinctNumbers(fields: seq<FieldDescriptor>) {
    && (forall i :: 0 <= i < |fields| ==> 1 <= fields[i].id < INT_MAX)
    && (forall i, j :: 0 <= i < j < |fields| ==> fields[i].id != fields[j].id)
  }

  /** As distinct numbers are no property of the order, each field is there once. */
  lemma DistinctFields(fields: seq<FieldDescriptor>)
    requires DistinctNumbers(fields)
    ensures forall f :: multiset(fields)[f] <= 1
    ensures forall f, g :: f in fields && g in fields && f.id == g.id ==> f == g
  {
    forall f
      ensures multiset(fields)[f] <= 1
    {
      Once(fields, f);
    }
  }

  lemma {:induction false} Once(fields: seq<FieldDescriptor>, f: FieldDescriptor)
    requires DistinctNumbers(fields)
    ensures multiset(fields)[f] <= 1
  {
    if fields != [] {
      var n := |fields| - 1;
      assert fields == fields[..n] + [fields[n]];
      Once(fields[..n], f);
      if f == fields[n] { assert f !in fields[..n]; }
    }
  }

  lemma {:induction false} Twice(fields: seq<FieldDescriptor>, i: nat, j: nat)
    requires i < j < |fields| && fields[i] == fields[j]
    ensures multiset(fields)[fields[i]] >= 2
  {
    assert fields == fields[..j] + [fields[j]] + fields[j + 1..];
    assert fields[i] in fields[..j];
  }

  /** Sorting a permutation of fields with distinct numbers makes the numbers strictly increasing. */
  lemma SortedIsIncreasing(declared: seq<FieldDescriptor>, fields: seq<FieldDescriptor>)
    requires DistinctNumbers(declared) && multiset(fields) == multiset(declared) && SortedBy(ByNumber, fields)
    ensures StrictlyIncreasing(fields) && Indexable(Ids(fields))
  {
    DistinctFields(declared);
    forall i | 0 <= i < |fields|
      ensures fields[i] in declared && 1 <= fields[i].id < INT_MAX
    {
      assert fields[i] in multiset(declared);
    }
    forall i, j | 0 <= i < j < |fields|
      ensures fields[i].id < fields[j].id
    {
      assert ByNumber(fields[i], fields[j]);
      if fields[i].id == fields[j].id {
        Twice(fields, i, j);
        assert false;
      }
    }
  }

  /**
   The generator: the same fields in increasing order, and a table that finds them. These are the
   tables from which unpacking looks fields up, see FieldTables.FieldIndex.
   */
  method GenerateFieldTables(declared: seq<FieldDescriptor>) returns (fields: seq<FieldDescriptor>, table: FieldTable)
    requires DistinctNumbers(declared)
    ensures multiset(fields) == multiset(declared) && StrictlyIncreasing(fields)
    ensures TableFor(table, fields)
  {
    if |declared| == 0 {
      return [], FieldTable(0, []);
    }
    var sortedFields := new FieldDescriptor[|declared|](i requires 0 <= i < |declared| => declared[i]);
    assert sortedFields[..] == declared;
    ByNumberIsTotal();
    QSort(sortedFields, ByNumber);
    fields := sortedFields[..];
    SortedIsIncreasing(declared, fields);
    var values := new int[|declared|];
    for i := 0 to |declared|
      invariant forall k :: 0 <= k < i ==> values[k] == sortedFields[k].id
      invariant sortedFields[..] == fields
    {
      values[i] := sortedFields[i].id;
    }
    assert values[..] == Ids(fields);
    var ranges, nRanges := WriteIntRanges(values);
    table := FieldTable(nRanges, ranges);
  }
}
