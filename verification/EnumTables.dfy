/**
 The tables of an enum: GenerateEnumDescriptor (c_enum.cc), which sorts the declared values, drops
 repeated numbers and prints the tables, and the two lookups of protobuf-c.c that search them.
 */
module EnumTables {
  import opened Bytes
  import opened IntRanges
  import opened Sorting

  datatype EnumValue = EnumValue(name: seq<byte>, number: int)

  /** A printed value; with code size as the aim, its name is NULL. */
  datatype EnumEntry = EnumEntry(name: Option<seq<byte>>, number: int)

  function Initializer(v: EnumValue, codeSize: bool): EnumEntry {
    EnumEntry(if codeSize then None else Some(v.name), v.number)
  }

  datatype ValueIndex = ValueIndex(value: int, index: nat, finalIndex: nat, name: seq<byte>)

  datatype NameEntry = NameEntry(name: seq<byte>, index: nat)

  /** What is printed; with code size as the aim, there is no table by name. */
  datatype EnumDescriptor = EnumDescriptor(
    values: seq<EnumEntry>,
    nRanges: nat,
    ranges: seq<IntRange>,
    byName: Option<seq<NameEntry>>)

  // ---- The declaration, searched from front to back -------------------------------------------

  /** The first declared value with a number. */
  function First(declared: seq<EnumValue>, number: int): (r: Option<EnumValue>)
    ensures r.Some? ==> r.value in declared && r.value.number == number
    ensures r.None? ==> forall v :: v in declared ==> v.number != number
  {
    if declared == [] then None
    else if declared[0].number == number then Some(declared[0])
    else First(declared[1..], number)
  }

  /** The declared value with a name. */
  function Named(declared: seq<EnumValue>, name: seq<byte>): (r: Option<EnumValue>)
    ensures r.Some? ==> r.value in declared && r.value.name == name
    ensures r.None? ==> forall v :: v in declared ==> v.name != name
  {
    if declared == [] then None
    else if declared[0].name == name then Some(declared[0])
    else Named(declared[1..], name)
  }

  ghost predicate Declarable(declared: seq<EnumValue>) {
    && (forall i :: 0 <= i < |declared| ==> -0x8000_0000 <= declared[i].number < INT_MAX)
    && (forall i, j :: 0 <= i < j < |declared| ==> declared[i].name != declared[j].name)
  }

  lemma {:induction false} FirstIs(declared: seq<EnumValue>, i: nat)
    requires i < |declared| && forall j :: 0 <= j < i ==> declared[j].number != declared[i].number
    ensures First(declared, declared[i].number) == Some(declared[i])
  {
    if i > 0 { FirstIs(declared[1..], i - 1); }
  }

  lemma {:induction false} NamedIs(declared: seq<EnumValue>, i: nat)
    requires i < |declared| && forall j :: 0 <= j < |declared| && j != i ==> declared[j].name != declared[i].name
    ensures Named(declared, declared[i].name) == Some(declared[i])
  {
    if i > 0 { NamedIs(declared[1..], i - 1); }
  }

  // ---- Sorting by number ----------------------------------------------------------------------

  /** compare_value_indices_by_value_then_index */
  predicate ByValueThenIndex(a: ValueIndex, b: ValueIndex) {
    a.value < b.value || (a.value == b.value && a.index <= b.index)
  }

  /** compare_value_indices_by_name */
  predicate ByName(a: ValueIndex, b: ValueIndex) {
    Strcmp(a.name, b.name) <= 0
  }

  lemma ByNameIsTotal()
    ensures TotalOrder(ByName)
  {
    forall a, b
      ensures ByName(a, b) || ByName(b, a)
    {
      StrcmpFlips(a.name, b.name);
    }
    forall a, b, c | ByName(a, b) && ByName(b, c)
      ensures ByName(a, c)
    {
      StrcmpTransitive(a.name, b.name, c.name);
    }
  }

  ghost predicate FromDeclared(declared: seq<EnumValue>, v: ValueIndex) {
    v.index < |declared| && v.value == declared[v.index].number && v.name == declared[v.index].name
  }

  /** The entry of declared value `i` is among `vi`. */
  ghost predicate Has(vi: seq<ValueIndex>, i: nat) {
    exists j :: 0 <= j < |vi| && vi[j].index == i
  }

  /** Every declared value once, as far as the entries tell. */
  ghost predicate Covers(declared: seq<EnumValue>, vi: seq<ValueIndex>) {
    && |vi| == |declared|
    && (forall j :: 0 <= j < |vi| ==> FromDeclared(declared, vi[j]))
    && (forall i :: 0 <= i < |declared| ==> Has(vi, i))
  }

  lemma PermutationCovers(declared: seq<EnumValue>, a: seq<ValueIndex>, b: seq<ValueIndex>)
    requires Covers(declared, a) && multiset(b) == multiset(a)
    ensures Covers(declared, b)
  {
    assert |b| == |multiset(b)| == |multiset(a)| == |a|;
    forall j | 0 <= j < |b|
      ensures FromDeclared(declared, b[j])
    {
      assert b[j] in multiset(a);
    }
    forall i | 0 <= i < |declared|
      ensures Has(b, i)
    {
      assert Has(a, i);
      var k :| 0 <= k < |a| && a[k].index == i;
      assert a[k] in multiset(b);
    }
  }

  // ---- Unique values --------------------------------------------------------------------------

  /** The entries that start a run of equal numbers. */
  function Uniques(vi: seq<ValueIndex>): (u: seq<ValueIndex>)
    ensures |u| <= |vi|
    ensures vi != [] ==> u != []
  {
    if vi == [] then []
    else
      var n := |vi| - 1;
      Uniques(vi[..n]) + (if n == 0 || vi[n - 1].value != vi[n].value then [vi[n]] else [])
  }

  lemma UniquesStep(vi: seq<ValueIndex>, n: nat)
    requires n < |vi|
    ensures Uniques(vi[..n + 1]) == Uniques(vi[..n]) + (if n == 0 || vi[n - 1].value != vi[n].value then [vi[n]] else [])
  {
    assert vi[..n + 1][..n] == vi[..n];
  }

  lemma {:induction false} UniquesPrefix(vi: seq<ValueIndex>, n: nat)
    requires n <= |vi|
    ensures Uniques(vi[..n]) <= Uniques(vi)
    decreases |vi| - n
  {
    if n < |vi| {
      UniquesPrefix(vi, n + 1);
      UniquesStep(vi, n);
    } else {
      assert vi[..n] == vi;
    }
  }

  /** None of the entries with the number of `v` was declared before it. */
  ghost predicate FirstAmong(vi: seq<ValueIndex>, v: ValueIndex) {
    v in vi && forall q :: 0 <= q < |vi| && vi[q].value == v.value ==> v.index <= vi[q].index
  }

  /** The unique entries: increasing, and the first of each number. */
  ghost predicate UniqueFirsts(vi: seq<ValueIndex>, u: seq<ValueIndex>) {
    && (forall k :: 0 <= k < |u| ==> FirstAmong(vi, u[k]))
    && (forall k, l :: 0 <= k < l < |u| ==> u[k].value < u[l].value)
    && (vi != [] ==> u != [] && u[|u| - 1].value == vi[|vi| - 1].value)
  }

  /** One more entry, in order, leaves the firsts first. */
  lemma FirstsStay(vi: seq<ValueIndex>, v: ValueIndex)
    requires vi != [] && SortedBy(ByValueThenIndex, vi) && FirstAmong(vi[..|vi| - 1], v)
    ensures FirstAmong(vi, v)
  {
    var n := |vi| - 1;
    var p :| 0 <= p < n && vi[..n][p] == v;
    assert ByValueThenIndex(vi[p], vi[n]);
    forall q | 0 <= q < |vi| && vi[q].value == v.value
      ensures v.index <= vi[q].index
    {
      assert q < n ==> vi[..n][q] == vi[q];
    }
  }

  /** An entry with a number of its own is a first one. */
  lemma NewIsFirst(vi: seq<ValueIndex>)
    requires vi != [] && SortedBy(ByValueThenIndex, vi)
    requires var n := |vi| - 1; n == 0 || vi[n - 1].value != vi[n].value
    ensures FirstAmong(vi, vi[|vi| - 1])
    ensures forall q :: 0 <= q < |vi| - 1 ==> vi[q].value < vi[|vi| - 1].value
  {
    var n := |vi| - 1;
    forall q | 0 <= q < n
      ensures vi[q].value < vi[n].value
    {
      assert ByValueThenIndex(vi[q], vi[n]);
      assert ByValueThenIndex(vi[n - 1], vi[n]);
      assert q < n - 1 ==> ByValueThenIndex(vi[q], vi[n - 1]);
    }
  }

  lemma UniquesUnfold(vi: seq<ValueIndex>)
    ensures vi == [] ==> Uniques(vi) == []
    ensures vi != [] ==>
              var n := |vi| - 1;
              Uniques(vi) == Uniques(vi[..n]) + (if n == 0 || vi[n - 1].value != vi[n].value then [vi[n]] else [])
  {}

  lemma {:induction false} UniquesAreFirsts(vi: seq<ValueIndex>)
    requires SortedBy(ByValueThenIndex, vi)
    ensures UniqueFirsts(vi, Uniques(vi))
  {
    hide Uniques;
    UniquesUnfold(vi);
    if vi != [] {
      var n := |vi| - 1;
      UniquesAreFirsts(vi[..n]);
      FirstsStep(vi, Uniques(vi[..n]));
    }
  }

  lemma FirstsStep(vi: seq<ValueIndex>, u: seq<ValueIndex>)
    requires vi != [] && SortedBy(ByValueThenIndex, vi) && UniqueFirsts(vi[..|vi| - 1], u)
    requires |vi| == 1 ==> u == []
    ensures var n := |vi| - 1;
            UniqueFirsts(vi, u + (if n == 0 || vi[n - 1].value != vi[n].value then [vi[n]] else []))
  {
    var n := |vi| - 1;
    forall k | 0 <= k < |u|
      ensures FirstAmong(vi, u[k])
    {
      FirstsStay(vi, u[k]);
    }
    if n == 0 || vi[n - 1].value != vi[n].value {
      NewIsFirst(vi);
      forall k | 0 <= k < |u|
        ensures u[k].value < vi[n].value
      {
        FirstIsThere(vi[..n], u[k]);
      }
    }
    hide FirstAmong, SortedBy;
  }

  lemma FirstIsThere(vi: seq<ValueIndex>, v: ValueIndex)
    requires FirstAmong(vi, v)
    ensures exists q :: 0 <= q < |vi| && vi[q] == v
  {}

  function Numbers(u: seq<ValueIndex>): (r: seq<int>)
    ensures |r| == |u|
  {
    seq(|u|, i requires 0 <= i < |u| => u[i].value)
  }

  /** The values printed for the unique entries. */
  function Printed(declared: seq<EnumValue>, u: seq<ValueIndex>, codeSize: bool): (r: seq<EnumEntry>)
    requires forall k :: 0 <= k < |u| ==> u[k].index < |declared|
    ensures |r| == |u|
  {
    seq(|u|, i requires 0 <= i < |u| => Initializer(declared[u[i].index], codeSize))
  }

  // ---- What the tables say --------------------------------------------------------------------

  function NumbersOf(values: seq<EnumEntry>): (r: seq<int>)
    ensures |r| == |values|
  {
    seq(|values|, i requires 0 <= i < |values| => values[i].number)
  }

  /** An entry shows the first declaration of its number. */
  ghost predicate Shows(declared: seq<EnumValue>, e: EnumEntry, codeSize: bool) {
    Found(First(declared, e.number), codeSize) == Some(e)
  }

  /** What a lookup gives for a declared value. */
  function Found(v: Option<EnumValue>, codeSize: bool): Option<EnumEntry> {
    match v case None => None case Some(d) => Some(Initializer(d, codeSize))
  }

  /** The table by number: the first declaration of each number, in increasing order, and its index. */
  ghost predicate ValuesRepresent(declared: seq<EnumValue>, values: seq<EnumEntry>, codeSize: bool, nRanges: nat, ranges: seq<IntRange>) {
    && Indexable(NumbersOf(values))
    && (forall k :: 0 <= k < |values| ==> Shows(declared, values[k], codeSize))
    && (forall v :: v in declared ==> v.number in NumbersOf(values))
    && (if nRanges == 0 then values == [] else Indexes(ranges, NumbersOf(values)) && nRanges == |ranges| - 1)
  }

  ghost predicate NamesSorted(names: seq<NameEntry>) {
    forall i, j :: 0 <= i < j < |names| ==> Strcmp(names[i].name, names[j].name) <= 0
  }

  /** An entry of the table by name leads to the value with the number that was declared. */
  ghost predicate EntryRepresents(declared: seq<EnumValue>, values: seq<EnumEntry>, e: NameEntry) {
    && e.index < |values|
    && Named(declared, e.name).Some?
    && Named(declared, e.name).value.number == values[e.index].number
  }

  ghost predicate NamesRepresent(declared: seq<EnumValue>, values: seq<EnumEntry>, names: seq<NameEntry>) {
    && NamesSorted(names) && |names| == |declared|
    && (forall k :: 0 <= k < |names| ==> EntryRepresents(declared, values, names[k]))
    && (forall v :: v in declared ==> exists k :: 0 <= k < |names| && names[k].name == v.name)
  }

  ghost predicate Represents(declared: seq<EnumValue>, t: EnumDescriptor) {
    && ValuesRepresent(declared, t.values, t.byName.None?, t.nRanges, t.ranges)
    && (t.byName.Some? ==> NamesRepresent(declared, t.values, t.byName.value))
  }

  // ---- GenerateEnumDescriptor -----------------------------------------------------------------

  lemma UniquesRepresent(declared: seq<EnumValue>, vi: seq<ValueIndex>, codeSize: bool)
    requires Declarable(declared) && Covers(declared, vi) && SortedBy(ByValueThenIndex, vi)
    ensures forall k :: 0 <= k < |Uniques(vi)| ==> FromDeclared(declared, Uniques(vi)[k])
    ensures forall k :: 0 <= k < |Uniques(vi)| ==> Uniques(vi)[k].index < |declared|
    ensures NumbersOf(Printed(declared, Uniques(vi), codeSize)) == Numbers(Uniques(vi))
    ensures Indexable(Numbers(Uniques(vi)))
    ensures forall k :: 0 <= k < |Uniques(vi)| ==>
              First(declared, Uniques(vi)[k].value) == Some(declared[Uniques(vi)[k].index])
    ensures forall v :: v in declared ==> v.number in Numbers(Uniques(vi))
  {
    UniquesAreFirsts(vi);
    var u := Uniques(vi);
    forall k | 0 <= k < |u|
      ensures FromDeclared(declared, u[k])
    {
      assert FirstAmong(vi, u[k]);
    }
    assert NumbersOf(Printed(declared, u, codeSize)) == Numbers(u);
    forall k | 0 <= k < |u|
      ensures First(declared, u[k].value) == Some(declared[u[k].index])
    {
      assert FirstAmong(vi, u[k]);
      forall i | 0 <= i < u[k].index
        ensures declared[i].number != u[k].value
      {
        assert Has(vi, i);
      }
      FirstIs(declared, u[k].index);
    }
    forall v | v in declared
      ensures v.number in Numbers(u)
    {
      var i :| 0 <= i < |declared| && declared[i] == v;
      assert Has(vi, i);
      var j :| 0 <= j < |vi| && vi[j].index == i;
      ValueIsKept(vi, j);
      assert Numbers(u)[FinalIndex(vi, j)] == v.number;
    }
  }

  /** The position among the unique values of the value at position `j`. */
  function FinalIndex(vi: seq<ValueIndex>, j: nat): nat
    requires j < |vi|
  {
    |Uniques(vi[..j + 1])| - 1
  }

  lemma ValueIsKept(vi: seq<ValueIndex>, j: nat)
    requires SortedBy(ByValueThenIndex, vi) && j < |vi|
    ensures FinalIndex(vi, j) < |Uniques(vi)| && Uniques(vi)[FinalIndex(vi, j)].value == vi[j].value
  {
    hide FirstAmong, Uniques;
    UniquesPrefix(vi, j + 1);
    UniquesAreFirsts(vi[..j + 1]);
  }

  /** How the index moves on: it counts the changes of value. */
  lemma FinalIndexStep(vi: seq<ValueIndex>, j: nat)
    requires j < |vi|
    ensures j == 0 ==> FinalIndex(vi, j) == 0
    ensures j > 0 ==> FinalIndex(vi, j) == FinalIndex(vi, j - 1) + (if vi[j - 1].value != vi[j].value then 1 else 0)
  {
    UniquesStep(vi, j);
    assert vi[..0] == [];
    UniquesUnfold(vi[..0]);
    hide Uniques;
  }

  /** The loop that numbers the unique values: aliases share the index of the first. */
  method AssignFinalIndices(vi: array<ValueIndex>) returns (nUnique: nat)
    modifies vi
    ensures nUnique == |Uniques(old(vi[..]))|
    ensures forall j :: 0 <= j < vi.Length ==> vi[j] == old(vi[j]).(finalIndex := FinalIndex(old(vi[..]), j))
  {
    hide FinalIndex, Uniques;
    ghost var was := vi[..];
    UniquesUnfold(was);
    if vi.Length == 0 {
      return 0;
    }
    nUnique := 1;
    vi[0] := vi[0].(finalIndex := 0);
    FinalIndexStep(was, 0);
    for j := 1 to vi.Length
      invariant nUnique == FinalIndex(was, j - 1) + 1
      invariant forall k :: 0 <= k < j ==> vi[k] == was[k].(finalIndex := FinalIndex(was, k))
      invariant forall k :: j <= k < vi.Length ==> vi[k] == was[k]
    {
      FinalIndexStep(was, j);
      if vi[j - 1].value != vi[j].value {
        nUnique := nUnique + 1;
      }
      vi[j] := vi[j].(finalIndex := nUnique - 1);
    }
    LastFinalIndex(was);
  }

  lemma LastFinalIndex(vi: seq<ValueIndex>)
    requires vi != []
    ensures FinalIndex(vi, |vi| - 1) + 1 == |Uniques(vi)|
  {
    assert vi[..|vi|] == vi;
  }

  /** Final indices do not matter to the order by number. */
  lemma {:induction false} UniquesIgnoreFinal(a: seq<ValueIndex>, b: seq<ValueIndex>)
    requires |a| == |b| && forall j :: 0 <= j < |a| ==> b[j] == a[j].(finalIndex := b[j].finalIndex)
    ensures |Uniques(a)| == |Uniques(b)|
    ensures forall k :: 0 <= k < |Uniques(a)| ==> Uniques(b)[k] == Uniques(a)[k].(finalIndex := Uniques(b)[k].finalIndex)
  {
    if a != [] { UniquesIgnoreFinal(a[..|a| - 1], b[..|b| - 1]); }
  }

  /** The loop that prints the unique values. */
  method PrintValues(declared: seq<EnumValue>, vi: array<ValueIndex>, codeSize: bool) returns (values: seq<EnumEntry>)
    requires forall j :: 0 <= j < vi.Length ==> vi[j].index < |declared|
    ensures forall k :: 0 <= k < |Uniques(vi[..])| ==> Uniques(vi[..])[k].index < |declared|
    ensures values == Printed(declared, Uniques(vi[..]), codeSize)
  {
    UniquesIndexed(declared, vi[..]);
    values := [];
    if vi.Length > 0 {
      values := [Initializer(declared[vi[0].index], codeSize)];
      assert vi[..1][..0] == [] && Uniques(vi[..1]) == [vi[0]];
      for j := 1 to vi.Length
        invariant forall k :: 0 <= k < |Uniques(vi[..j])| ==> Uniques(vi[..j])[k].index < |declared|
        invariant values == Printed(declared, Uniques(vi[..j]), codeSize)
      {
        UniquesStep(vi[..], j);
        assert vi[..][..j + 1] == vi[..j + 1] && vi[..][..j] == vi[..j];
        if vi[j - 1].value != vi[j].value {
          values := values + [Initializer(declared[vi[j].index], codeSize)];
        }
      }
      assert vi[..vi.Length] == vi[..];
    }
  }

  lemma {:induction false} UniquesIndexed(declared: seq<EnumValue>, vi: seq<ValueIndex>)
    requires forall j :: 0 <= j < |vi| ==> vi[j].index < |declared|
    ensures forall k :: 0 <= k < |Uniques(vi)| ==> Uniques(vi)[k].index < |declared|
  {
    if vi != [] { UniquesIndexed(declared, vi[..|vi| - 1]); }
  }

  /** What the range loop holds after `n` unique numbers: the current range began at `start`. */
  ghost predicate RangeState(table: seq<IntRange>, all: seq<int>, n: nat, start: nat, len: nat, startValue: int, last: int) {
    && 0 < n <= |all| && len >= 1 && start + len == n
    && Describes(table, all, start) && Running(all, start, n)
    && startValue == all[start] && last == all[n - 1]
  }

  lemma RangeStarts(all: seq<int>)
    requires |all| > 0
    ensures RangeState([], all, 1, 0, 1, all[0], all[0])
  {
    StartEmitting(all);
  }

  /** The entry of the current range. */
  lemma RangeEmitted(table: seq<IntRange>, all: seq<int>, n: nat, start: nat, len: nat, startValue: int, last: int)
    requires RangeState(table, all, n, start, len, startValue, last)
    ensures Describes(table + [IntRange(startValue, start)], all, n)
  {
    RunIsConsecutive(all, start, n, n - 1);
    EmitEntry(table, all, start, n);
  }

  lemma RangeContinues(table: seq<IntRange>, all: seq<int>, n: nat, start: nat, len: nat, startValue: int, last: int)
    requires RangeState(table, all, n, start, len, startValue, last) && n < |all| && last + 1 == all[n]
    ensures RangeState(table, all, n + 1, start, len + 1, startValue, all[n])
  {
    KeepRunning(all, start, n);
  }

  lemma RangeBreaks(table: seq<IntRange>, all: seq<int>, n: nat, start: nat, len: nat, startValue: int, last: int)
    requires RangeState(table, all, n, start, len, startValue, last) && n < |all| && last + 1 != all[n]
    ensures RangeState(table + [IntRange(startValue, start)], all, n + 1, n, 1, all[n], all[n])
  {
    RangeEmitted(table, all, n, start, len, startValue, last);
    KeepRunning(all, n, n);
  }

  /** The inline loop that prints the ranges of the unique numbers, and their number. */
  method PrintRanges(vi: array<ValueIndex>) returns (ranges: seq<IntRange>, nRanges: nat)
    ensures vi.Length == 0 ==> ranges == [] && nRanges == 0
    ensures vi.Length > 0 ==> Indexes(ranges, Numbers(Uniques(vi[..]))) && nRanges == |ranges| - 1 > 0
  {
    hide RangeState;
    nRanges := 0;
    ranges := [];
    if vi.Length > 0 {
      ghost var all := Numbers(Uniques(vi[..]));
      ghost var n := 1;
      var rangeStart, rangeLen := 0, 1;
      var rangeStartValue := vi[0].value;
      var lastValue := rangeStartValue;
      NumbersStart(vi[..]);
      RangeStarts(all);
      for j := 1 to vi.Length
        invariant n == |Uniques(vi[..j])| && nRanges == |ranges|
        invariant RangeState(ranges, all, n, rangeStart, rangeLen, rangeStartValue, lastValue)
      {
        NumbersStep(vi[..], j);
        assert vi[..][..j + 1] == vi[..j + 1] && vi[..][..j] == vi[..j];
        RangeIsAt(ranges, all, n, rangeStart, rangeLen, rangeStartValue, lastValue);
        if vi[j - 1].value != vi[j].value {
          if lastValue + 1 == vi[j].value {
            RangeContinues(ranges, all, n, rangeStart, rangeLen, rangeStartValue, lastValue);
            rangeLen := rangeLen + 1;
          } else {
            RangeBreaks(ranges, all, n, rangeStart, rangeLen, rangeStartValue, lastValue);
            ranges := ranges + [IntRange(rangeStartValue, rangeStart)];
            rangeStartValue := vi[j].value;
            rangeStart := rangeStart + rangeLen;
            rangeLen := 1;
            nRanges := nRanges + 1;
          }
          n := n + 1;
          lastValue := vi[j].value;
        }
      }
      assert vi[..vi.Length] == vi[..];
      RangeIsAt(ranges, all, n, rangeStart, rangeLen, rangeStartValue, lastValue);
      RangeEmitted(ranges, all, n, rangeStart, rangeLen, rangeStartValue, lastValue);
      ranges := ranges + [IntRange(rangeStartValue, rangeStart)];
      rangeStart := rangeStart + rangeLen;
      nRanges := nRanges + 1;
      assert (ranges + [IntRange(0, rangeStart)])[..|ranges|] == ranges;
      ranges := ranges + [IntRange(0, rangeStart)];
    }
  }

  lemma RangeIsAt(table: seq<IntRange>, all: seq<int>, n: nat, start: nat, len: nat, startValue: int, last: int)
    requires RangeState(table, all, n, start, len, startValue, last)
    ensures start + len == n
  {}

  lemma NumbersStart(vi: seq<ValueIndex>)
    requires vi != []
    ensures |Uniques(vi[..1])| == 1 && Numbers(Uniques(vi))[0] == vi[0].value
  {
    UniquesPrefix(vi, 1);
    assert vi[..1][..0] == [] && Uniques(vi[..1]) == [vi[0]];
  }

  lemma NumbersStep(vi: seq<ValueIndex>, j: nat)
    requires 0 < j < |vi|
    ensures var n := |Uniques(vi[..j])|;
            if vi[j - 1].value != vi[j].value
            then |Uniques(vi[..j + 1])| == n + 1 && n < |Uniques(vi)| && Numbers(Uniques(vi))[n] == vi[j].value
            else |Uniques(vi[..j + 1])| == n
  {
    UniquesStep(vi, j);
    UniquesPrefix(vi, j + 1);
  }

  /** An entry that was numbered, after the sort by name. */
  ghost predicate Numbered(declared: seq<EnumValue>, values: seq<EnumEntry>, v: ValueIndex) {
    FromDeclared(declared, v) && v.finalIndex < |values| && values[v.finalIndex].number == v.value
  }

  function NameEntries(vi: seq<ValueIndex>): (r: seq<NameEntry>)
    ensures |r| == |vi|
  {
    seq(|vi|, i requires 0 <= i < |vi| => NameEntry(vi[i].name, vi[i].finalIndex))
  }

  lemma EntriesRepresent(declared: seq<EnumValue>, values: seq<EnumEntry>, vi: seq<ValueIndex>)
    requires Declarable(declared) && Covers(declared, vi) && SortedBy(ByName, vi)
    requires forall j :: 0 <= j < |vi| ==> Numbered(declared, values, vi[j])
    ensures NamesRepresent(declared, values, NameEntries(vi))
  {
    var names := NameEntries(vi);
    forall i, j | 0 <= i < j < |names|
      ensures Strcmp(names[i].name, names[j].name) <= 0
    {
      assert ByName(vi[i], vi[j]);
    }
    forall k | 0 <= k < |names|
      ensures EntryRepresents(declared, values, names[k])
    {
      assert Numbered(declared, values, vi[k]);
      NamedIs(declared, vi[k].index);
    }
    forall v | v in declared
      ensures exists k :: 0 <= k < |names| && names[k].name == v.name
    {
      var i :| 0 <= i < |declared| && declared[i] == v;
      assert Has(vi, i);
      var j :| 0 <= j < |vi| && vi[j].index == i;
      assert names[j].name == v.name;
    }
  }

  /** The array that is filled from the declaration. */
  method FillValueIndex(declared: seq<EnumValue>) returns (vi: array<ValueIndex>)
    ensures fresh(vi) && Covers(declared, vi[..])
  {
    vi := new ValueIndex[|declared|];
    for j := 0 to |declared|
      invariant forall k :: 0 <= k < j ==> vi[k] == ValueIndex(declared[k].number, k, 0, declared[k].name)
    {
      vi[j] := ValueIndex(declared[j].number, j, 0, declared[j].name);
    }
    forall i | 0 <= i < |declared|
      ensures Has(vi[..], i)
    {
      assert vi[..][i].index == i;
    }
  }

  /** Numbering the sorted entries changes nothing else, and leads every entry to its number. */
  lemma NumberingKeeps(declared: seq<EnumValue>, sorted: seq<ValueIndex>, numbered: seq<ValueIndex>, codeSize: bool)
    requires Declarable(declared) && Covers(declared, sorted) && SortedBy(ByValueThenIndex, sorted)
    requires |numbered| == |sorted|
    requires forall j :: 0 <= j < |sorted| ==> numbered[j] == sorted[j].(finalIndex := FinalIndex(sorted, j))
    ensures Covers(declared, numbered)
    ensures Numbers(Uniques(numbered)) == Numbers(Uniques(sorted))
    ensures forall k :: 0 <= k < |Uniques(numbered)| ==> Uniques(numbered)[k].index < |declared|
    ensures forall k :: 0 <= k < |Uniques(sorted)| ==> Uniques(sorted)[k].index < |declared|
    ensures Printed(declared, Uniques(numbered), codeSize) == Printed(declared, Uniques(sorted), codeSize)
    ensures forall j :: 0 <= j < |numbered| ==> Numbered(declared, Printed(declared, Uniques(sorted), codeSize), numbered[j])
  {
    UniquesIgnoreFinal(sorted, numbered);
    UniquesRepresent(declared, sorted, codeSize);
    forall i | 0 <= i < |declared|
      ensures Has(numbered, i)
    {
      assert Has(sorted, i);
      var j :| 0 <= j < |sorted| && sorted[j].index == i;
      assert numbered[j].index == i;
    }
    AllNumbered(declared, sorted, numbered, codeSize);
  }

  lemma AllNumbered(declared: seq<EnumValue>, sorted: seq<ValueIndex>, numbered: seq<ValueIndex>, codeSize: bool)
    requires Declarable(declared) && Covers(declared, sorted) && SortedBy(ByValueThenIndex, sorted)
    requires |numbered| == |sorted|
    requires forall j :: 0 <= j < |sorted| ==> numbered[j] == sorted[j].(finalIndex := FinalIndex(sorted, j))
    requires forall k :: 0 <= k < |Uniques(sorted)| ==> Uniques(sorted)[k].index < |declared|
    ensures forall j :: 0 <= j < |numbered| ==> Numbered(declared, Printed(declared, Uniques(sorted), codeSize), numbered[j])
  {
    hide Uniques, FinalIndex, Covers, SortedBy, Declarable, Numbered;
    forall j | 0 <= j < |sorted|
      ensures Numbered(declared, Printed(declared, Uniques(sorted), codeSize), numbered[j])
    {
      NumberedAt(declared, sorted, j, codeSize);
    }
  }

  lemma NumberedAt(declared: seq<EnumValue>, sorted: seq<ValueIndex>, j: nat, codeSize: bool)
    requires Declarable(declared) && Covers(declared, sorted) && SortedBy(ByValueThenIndex, sorted) && j < |sorted|
    ensures forall k :: 0 <= k < |Uniques(sorted)| ==> Uniques(sorted)[k].index < |declared|
    ensures Numbered(declared, Printed(declared, Uniques(sorted), codeSize), sorted[j].(finalIndex := FinalIndex(sorted, j)))
  {
    UniquesRepresent(declared, sorted, codeSize);
    ValueIsKept(sorted, j);
    assert FromDeclared(declared, sorted[j]);
    assert NumbersOf(Printed(declared, Uniques(sorted), codeSize))[FinalIndex(sorted, j)] == sorted[j].value;
  }

  lemma StillNumbered(declared: seq<EnumValue>, values: seq<EnumEntry>, a: seq<ValueIndex>, b: seq<ValueIndex>)
    requires multiset(a) == multiset(b) && forall j :: 0 <= j < |a| ==> Numbered(declared, values, a[j])
    ensures forall j :: 0 <= j < |b| ==> Numbered(declared, values, b[j])
  {
    forall j | 0 <= j < |b|
      ensures Numbered(declared, values, b[j])
    {
      assert b[j] in multiset(a);
    }
  }

  lemma TablesRepresent(declared: seq<EnumValue>, sorted: seq<ValueIndex>, nRanges: nat, ranges: seq<IntRange>, codeSize: bool)
    requires Declarable(declared) && Covers(declared, sorted) && SortedBy(ByValueThenIndex, sorted)
    requires sorted == [] ==> nRanges == 0
    requires sorted != [] ==> Indexes(ranges, Numbers(Uniques(sorted))) && nRanges == |ranges| - 1 > 0
    ensures forall k :: 0 <= k < |Uniques(sorted)| ==> Uniques(sorted)[k].index < |declared|
    ensures ValuesRepresent(declared, Printed(declared, Uniques(sorted), codeSize), codeSize, nRanges, ranges)
  {
    hide Indexes, Indexable;
    UniquesRepresent(declared, sorted, codeSize);
    var values := Printed(declared, Uniques(sorted), codeSize);
    forall k | 0 <= k < |values|
      ensures Shows(declared, values[k], codeSize)
    {
      assert FromDeclared(declared, Uniques(sorted)[k]);
    }
  }

  /** The loop that prints the table by name. */
  method PrintNames(vi: array<ValueIndex>) returns (names: seq<NameEntry>)
    ensures names == NameEntries(vi[..])
  {
    names := [];
    for j := 0 to vi.Length
      invariant names == NameEntries(vi[..j])
    {
      names := names + [NameEntry(vi[j].name, vi[j].finalIndex)];
    }
    assert vi[..vi.Length] == vi[..];
  }

  /** GenerateEnumDescriptor: whatever the order and the aliases, the tables represent the declaration. */
  method GenerateEnumDescriptor(declared: seq<EnumValue>, optimizeCodeSize: bool) returns (t: EnumDescriptor)
    requires Declarable(declared)
    ensures Represents(declared, t) && t.byName.Some? == !optimizeCodeSize
  {
    hide Covers, Indexes, Indexable, Declarable, NamesRepresent, ValuesRepresent, Numbered, SortedBy, TotalOrder, Uniques, FinalIndex;
    var vi := FillValueIndex(declared);
    ghost var filled := vi[..];
    ByValueIsTotal();
    QSort(vi, ByValueThenIndex);
    PermutationCovers(declared, filled, vi[..]);
    ghost var sorted := vi[..];
    var nUnique := AssignFinalIndices(vi);
    ghost var numbered := vi[..];
    NumberingKeeps(declared, sorted, numbered, optimizeCodeSize);
    CoveredIndices(declared, numbered);
    var values := PrintValues(declared, vi, optimizeCodeSize);
    var ranges, nRanges := PrintRanges(vi);
    TablesRepresent(declared, sorted, nRanges, ranges, optimizeCodeSize);
    var names: Option<seq<NameEntry>> := None;
    if !optimizeCodeSize {
      ByNameIsTotal();
      QSort(vi, ByName);
      PermutationCovers(declared, numbered, vi[..]);
      StillNumbered(declared, values, numbered, vi[..]);
      EntriesRepresent(declared, values, vi[..]);
      var entries := PrintNames(vi);
      names := Some(entries);
    }
    t := EnumDescriptor(values, nRanges, ranges, names);
  }

  lemma ByValueIsTotal()
    ensures TotalOrder(ByValueThenIndex)
  {}

  lemma CoveredIndices(declared: seq<EnumValue>, vi: seq<ValueIndex>)
    requires Covers(declared, vi)
    ensures forall j :: 0 <= j < |vi| ==> vi[j].index < |declared|
  {
    assert forall j :: 0 <= j < |vi| ==> FromDeclared(declared, vi[j]);
  }

  // ---- Lookups --------------------------------------------------------------------------------

  /** The entries with the name, if any, are among the `count` ones from `start` on. */
  ghost predicate NameWithin(names: seq<NameEntry>, name: seq<byte>, start: nat, count: nat) {
    && start + count <= |names|
    && forall k :: 0 <= k < |names| && names[k].name == name ==> start <= k < start + count
  }

  lemma CutNames(names: seq<NameEntry>, name: seq<byte>, start: nat, count: nat, mid: nat)
    requires NamesSorted(names) && NameWithin(names, name, start, count) && start <= mid < start + count
    ensures Strcmp(names[mid].name, name) < 0 ==> NameWithin(names, name, mid + 1, start + count - (mid + 1))
    ensures Strcmp(names[mid].name, name) > 0 ==> NameWithin(names, name, start, mid - start)
  {
    forall k | 0 <= k < |names| && names[k].name == name
      ensures Strcmp(names[mid].name, name) < 0 ==> mid < k
      ensures Strcmp(names[mid].name, name) > 0 ==> k < mid
    {
      StrcmpFlips(names[mid].name, name);
      StrcmpZero(name, name);
      assert k < mid ==> Strcmp(names[k].name, names[mid].name) <= 0;
    }
  }

  /** The binary search of protobuf_c_enum_descriptor_get_value_by_name. */
  method SearchName(names: seq<NameEntry>, name: seq<byte>) returns (r: Option<NameEntry>)
    requires NamesSorted(names)
    ensures r.Some? ==> r.value in names && r.value.name == name
    ensures r.None? ==> forall k :: 0 <= k < |names| ==> names[k].name != name
  {
    hide NamesSorted;
    var start: nat, count: nat := 0, |names|;
    while count > 1
      invariant NameWithin(names, name, start, count)
      decreases count
    {
      var mid := start + count / 2;
      var rv := Strcmp(names[mid].name, name);
      StrcmpZero(names[mid].name, name);
      CutNames(names, name, start, count, mid);
      if rv == 0 {
        return Some(names[mid]);
      } else if rv < 0 {
        count := start + count - (mid + 1);
        start := mid + 1;
      } else {
        count := mid - start;
      }
    }
    if count == 0 {
      return None;
    }
    StrcmpZero(names[start].name, name);
    if Strcmp(names[start].name, name) == 0 {
      return Some(names[start]);
    }
    return None;
  }

  /** What lookup by name is for: the entry of the number that was declared under the name. */
  function Resolve(declared: seq<EnumValue>, name: seq<byte>): Option<EnumValue> {
    match Named(declared, name)
    case None => None
    case Some(v) => First(declared, v.number)
  }

  lemma RepresentedName(declared: seq<EnumValue>, t: EnumDescriptor, e: NameEntry)
    requires Represents(declared, t) && t.byName.Some? && e in t.byName.value
    ensures e.index < |t.values| && Found(Resolve(declared, e.name), false) == Some(t.values[e.index])
  {
    var k :| 0 <= k < |t.byName.value| && t.byName.value[k] == e;
    assert EntryRepresents(declared, t.values, t.byName.value[k]);
  }

  lemma UndeclaredName(declared: seq<EnumValue>, t: EnumDescriptor, name: seq<byte>)
    requires Represents(declared, t) && t.byName.Some?
    requires forall k :: 0 <= k < |t.byName.value| ==> t.byName.value[k].name != name
    ensures Resolve(declared, name) == None
  {}

  /** protobuf_c_enum_descriptor_get_value_by_name */
  method GetValueByName(t: EnumDescriptor, name: seq<byte>, ghost declared: seq<EnumValue>) returns (r: Option<EnumEntry>)
    requires Represents(declared, t)
    ensures r == if t.byName.Some? then Found(Resolve(declared, name), false) else None
  {
    if t.byName.None? {
      return None;
    }
    var e := SearchName(t.byName.value, name);
    if e.None? {
      UndeclaredName(declared, t, name);
      return None;
    }
    RepresentedName(declared, t, e.value);
    return Some(t.values[e.value.index]);
  }

  lemma LookupIsFirst(declared: seq<EnumValue>, t: EnumDescriptor, value: int)
    requires Represents(declared, t)
    ensures var i := LinearLookup(NumbersOf(t.values), value);
            Found(First(declared, value), t.byName.None?) == if i < 0 then None else Some(t.values[i])
  {
    assert First(declared, value).Some? ==> value in NumbersOf(t.values);
  }

  /** protobuf_c_enum_descriptor_get_value */
  method GetValue(t: EnumDescriptor, value: int, ghost declared: seq<EnumValue>) returns (r: Option<EnumEntry>)
    requires Represents(declared, t)
    ensures r == Found(First(declared, value), t.byName.None?)
  {
    LookupIsFirst(declared, t, value);
    hide First, Indexes, Indexable;
    var rv := IntRangeLookup(t.nRanges, t.ranges, value, NumbersOf(t.values));
    if rv < 0 {
      return None;
    }
    return Some(t.values[rv]);
  }

  /** Every alias of a number resolves to the same entry, which is the one found by that number. */
  lemma AliasesAgree(declared: seq<EnumValue>, i: nat, j: nat)
    requires Declarable(declared) && i < |declared| && j < |declared| && declared[i].number == declared[j].number
    ensures Resolve(declared, declared[i].name) == Resolve(declared, declared[j].name) == First(declared, declared[i].number)
    ensures Resolve(declared, declared[i].name).Some?
    ensures Resolve(declared, declared[i].name).value.number == declared[i].number
  {
    NamedIs(declared, i);
    NamedIs(declared, j);
  }
}
