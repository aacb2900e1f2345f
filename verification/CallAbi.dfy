/**
 The argument placement loop of the AArch64 call_function (call_abi.c), against the rules of AAPCS64
 section 6.8.2 with Apple's rule that variadic arguments go on the stack.
 */
module CallAbi {
  import opened Bytes

  const MAX_REGS_ARGS := 8
  const MAX_STACK_ARGS := 16

  /** An argument: its type_case and the word that is passed. */
  datatype Argument = VInt(w: u64) | VStr(w: u64) | VBytes(w: u64) | VDouble(w: u64) | NotSet(w: u64)

  predicate IsGeneral(a: Argument) { a.VInt? || a.VStr? || a.VBytes? }

  datatype Location = X(i: nat) | D(i: nat) | Stack(i: nat)

  // ---- Where the arguments belong -------------------------------------------------------------

  /** The number of integers and pointers among the first `n` arguments. */
  function GeneralBefore(argv: seq<Argument>, n: nat): (r: nat)
    requires n <= |argv|
    ensures r <= n
  {
    if n == 0 then 0 else GeneralBefore(argv, n - 1) + (if IsGeneral(argv[n - 1]) then 1 else 0)
  }

  function DoublesBefore(argv: seq<Argument>, n: nat): (r: nat)
    requires n <= |argv|
    ensures r <= n
  {
    if n == 0 then 0 else DoublesBefore(argv, n - 1) + (if argv[n - 1].VDouble? then 1 else 0)
  }

  /** A named argument has a register if fewer than eight arguments of its class come before it. */
  predicate OnStack(argv: seq<Argument>, vaListIndex: nat, n: nat)
    requires n < |argv|
  {
    n >= vaListIndex
    || (IsGeneral(argv[n]) && GeneralBefore(argv, n) >= MAX_REGS_ARGS)
    || (argv[n].VDouble? && DoublesBefore(argv, n) >= MAX_REGS_ARGS)
    || (argv[n].NotSet? && n == 0)
  }

  /** The stack slots that the first `n` arguments take. */
  function StackBefore(argv: seq<Argument>, vaListIndex: nat, n: nat): (r: nat)
    requires n <= |argv|
    ensures r <= n
  {
    if n == 0 then 0 else StackBefore(argv, vaListIndex, n - 1) + (if OnStack(argv, vaListIndex, n - 1) then 1 else 0)
  }

  /** Where argument `n` goes; an argument without a type has no place of its own. */
  function LocationOf(argv: seq<Argument>, vaListIndex: nat, n: nat): Location
    requires n < |argv|
  {
    if OnStack(argv, vaListIndex, n) then Stack(StackBefore(argv, vaListIndex, n))
    else if IsGeneral(argv[n]) then X(GeneralBefore(argv, n))
    else if argv[n].VDouble? then D(DoublesBefore(argv, n))
    else LocationOf(argv, vaListIndex, n - 1)
  }

  lemma {:induction false} GeneralMonotone(argv: seq<Argument>, i: nat, j: nat)
    requires i <= j <= |argv|
    ensures GeneralBefore(argv, i) <= GeneralBefore(argv, j)
    ensures i < j && IsGeneral(argv[i]) ==> GeneralBefore(argv, i) < GeneralBefore(argv, j)
  {
    if i < j { GeneralMonotone(argv, i, j - 1); }
  }

  lemma {:induction false} DoublesMonotone(argv: seq<Argument>, i: nat, j: nat)
    requires i <= j <= |argv|
    ensures DoublesBefore(argv, i) <= DoublesBefore(argv, j)
    ensures i < j && argv[i].VDouble? ==> DoublesBefore(argv, i) < DoublesBefore(argv, j)
  {
    if i < j { DoublesMonotone(argv, i, j - 1); }
  }

  lemma {:induction false} StackMonotone(argv: seq<Argument>, va: nat, i: nat, j: nat)
    requires i <= j <= |argv|
    ensures StackBefore(argv, va, i) <= StackBefore(argv, va, j)
    ensures i < j && OnStack(argv, va, i) ==> StackBefore(argv, va, i) < StackBefore(argv, va, j)
  {
    if i < j { StackMonotone(argv, va, i, j - 1); }
  }

  /** Every argument has its type, except possibly the first and those after the named ones. */
  predicate Typed(argv: seq<Argument>, vaListIndex: nat) {
    forall n :: 0 < n < |argv| && n < vaListIndex ==> !argv[n].NotSet?
  }

  lemma LocationsDiffer(argv: seq<Argument>, va: nat, i: nat, j: nat)
    requires Typed(argv, va) && i < j < |argv|
    ensures LocationOf(argv, va, i) != LocationOf(argv, va, j)
  {
    GeneralMonotone(argv, i, j);
    DoublesMonotone(argv, i, j);
    StackMonotone(argv, va, i, j);
  }

  ghost predicate NoLocationTwice(argv: seq<Argument>, va: nat) {
    forall i, j :: 0 <= i < j < |argv| ==> LocationOf(argv, va, i) != LocationOf(argv, va, j)
  }

  /** No register and no slot is used twice exactly when the named arguments have types. */
  lemma OnceExactly(argv: seq<Argument>, va: nat)
    ensures NoLocationTwice(argv, va) <==> Typed(argv, va)
  {
    if Typed(argv, va) {
      forall i, j | 0 <= i < j < |argv|
        ensures LocationOf(argv, va, i) != LocationOf(argv, va, j)
      {
        LocationsDiffer(argv, va, i, j);
      }
    } else {
      var n :| 0 < n < |argv| && n < va && argv[n].NotSet?;
      assert LocationOf(argv, va, n) == LocationOf(argv, va, n - 1);
    }
  }

  /** Variadic arguments follow each other on the stack, in order. */
  lemma VariadicInOrder(argv: seq<Argument>, va: nat, n: nat)
    requires va <= n < |argv|
    ensures LocationOf(argv, va, n) == Stack(StackBefore(argv, va, va) + (n - va))
  {
    VariadicSlots(argv, va, n);
  }

  lemma {:induction false} VariadicSlots(argv: seq<Argument>, va: nat, n: nat)
    requires va <= n <= |argv|
    ensures StackBefore(argv, va, n) == StackBefore(argv, va, va) + (n - va)
  {
    if n > va { VariadicSlots(argv, va, n - 1); }
  }

  // ---- The convention, counted out ---------------------------------------------------------------

  /** The integers, strings and bytes before argument `n`, and the doubles. */
  ghost function Generals(argv: seq<Argument>, n: nat): set<nat>
    requires n <= |argv|
  {
    set k: nat | 0 <= k < n && IsGeneral(argv[k])
  }

  ghost function Doubles(argv: seq<Argument>, n: nat): set<nat>
    requires n <= |argv|
  {
    set k: nat | 0 <= k < n && argv[k].VDouble?
  }

  /** An argument that goes on the stack: variadic, or the ninth of its class or later, or a first one without a type. */
  ghost predicate Spills(argv: seq<Argument>, va: nat, n: nat)
    requires n < |argv|
  {
    if n >= va then true
    else
      match argv[n]
      case VDouble(_) => |Doubles(argv, n)| >= 8
      case NotSet(_) => n == 0
      case _ => |Generals(argv, n)| >= 8
  }

  ghost function SpillsBefore(argv: seq<Argument>, va: nat, n: nat): set<nat>
    requires n <= |argv|
  {
    set k: nat | 0 <= k < n && Spills(argv, va, k)
  }

  /** A named argument that is followed by a named one without a type, which takes its place. */
  predicate Displaced(argv: seq<Argument>, va: nat, n: nat) {
    n + 1 < |argv| && n + 1 < va && argv[n + 1].NotSet?
  }

  /**
   The k-th integer, string or bytes is in x[k], the k-th double in d[k], both counted from 0 and as
   long as k < 8; every other typed or variadic argument is in the stack slot numbered by those that
   are on the stack before it.
   */
  ghost predicate AsConvention(argv: seq<Argument>, va: nat, x: seq<u64>, d: seq<u64>, stack: seq<u64>) {
    forall n :: 0 <= n < |argv| && !Displaced(argv, va, n) ==> InPlace(argv, va, n, x, d, stack)
  }

  ghost predicate InPlace(argv: seq<Argument>, va: nat, n: nat, x: seq<u64>, d: seq<u64>, stack: seq<u64>)
    requires n < |argv|
  {
    if Spills(argv, va, n) then
      |SpillsBefore(argv, va, n)| < |stack| && stack[|SpillsBefore(argv, va, n)|] == argv[n].w
    else
      match argv[n]
      case VDouble(w) => |Doubles(argv, n)| < |d| && d[|Doubles(argv, n)|] == w
      case NotSet(_) => true
      case _ => |Generals(argv, n)| < |x| && x[|Generals(argv, n)|] == argv[n].w
  }

  lemma {:induction false} GeneralsAreCounted(argv: seq<Argument>, n: nat)
    requires n <= |argv|
    ensures |Generals(argv, n)| == GeneralBefore(argv, n)
  {
    if n > 0 {
      GeneralsAreCounted(argv, n - 1);
      assert Generals(argv, n) == Generals(argv, n - 1) + if IsGeneral(argv[n - 1]) then {n - 1} else {};
    } else {
      assert Generals(argv, 0) == {};
    }
  }

  lemma {:induction false} DoublesAreCounted(argv: seq<Argument>, n: nat)
    requires n <= |argv|
    ensures |Doubles(argv, n)| == DoublesBefore(argv, n)
  {
    if n > 0 {
      DoublesAreCounted(argv, n - 1);
      assert Doubles(argv, n) == Doubles(argv, n - 1) + if argv[n - 1].VDouble? then {n - 1} else {};
    } else {
      assert Doubles(argv, 0) == {};
    }
  }

  lemma SpillsIsOnStack(argv: seq<Argument>, va: nat, n: nat)
    requires n < |argv|
    ensures Spills(argv, va, n) <==> OnStack(argv, va, n)
  {
    GeneralsAreCounted(argv, n);
    DoublesAreCounted(argv, n);
  }

  lemma {:induction false} SpillsAreStacked(argv: seq<Argument>, va: nat, n: nat)
    requires n <= |argv|
    ensures |SpillsBefore(argv, va, n)| == StackBefore(argv, va, n)
  {
    hide Spills, OnStack;
    if n > 0 {
      SpillsAreStacked(argv, va, n - 1);
      SpillsIsOnStack(argv, va, n - 1);
      assert SpillsBefore(argv, va, n) == SpillsBefore(argv, va, n - 1) + if Spills(argv, va, n - 1) then {n - 1} else {};
    } else {
      assert SpillsBefore(argv, va, 0) == {};
    }
  }

  /** A later argument is elsewhere, unless the next one displaces this. */
  lemma {:induction false} LaterElsewhere(argv: seq<Argument>, va: nat, i: nat, j: nat)
    requires i < j < |argv| && !Displaced(argv, va, i) && (i >= va || !argv[i].NotSet? || i == 0)
    ensures LocationOf(argv, va, i) != LocationOf(argv, va, j)
    decreases j
  {
    GeneralMonotone(argv, i, j);
    DoublesMonotone(argv, i, j);
    StackMonotone(argv, va, i, j);
    if !OnStack(argv, va, j) && argv[j].NotSet? {
      LaterElsewhere(argv, va, i, j - 1);
    }
  }

  /** Words placed at their locations are where the convention has them. */
  lemma ConventionHolds(argv: seq<Argument>, va: nat, x: seq<u64>, d: seq<u64>, stack: seq<u64>)
    requires StackBefore(argv, va, |argv|) <= |stack| && |x| == 8 && |d| == 8
    requires Placed(Locations(argv, va, |argv|), Words(argv), x, d, stack)
    ensures AsConvention(argv, va, x, d, stack)
  {
    hide LocationOf, Spills, OnStack, Generals, Doubles, SpillsBefore;
    var ls := Locations(argv, va, |argv|);
    forall n | 0 <= n < |argv| && !Displaced(argv, va, n)
      ensures InPlace(argv, va, n, x, d, stack)
    {
      GeneralsAreCounted(argv, n);
      DoublesAreCounted(argv, n);
      SpillsAreStacked(argv, va, n);
      SpillsIsOnStack(argv, va, n);
      if OnStack(argv, va, n) || !argv[n].NotSet? {
        WhereItGoes(argv, va, n);
        forall j | n < j < |argv|
          ensures ls[j] != ls[n]
        {
          LaterElsewhere(argv, va, n, j);
        }
        assert ls[n] !in ls[n + 1..];
        assert WordAt(x, d, stack, ls[n]) == argv[n].w;
      }
    }
  }

  lemma WhereItGoes(argv: seq<Argument>, va: nat, n: nat)
    requires n < |argv| && (OnStack(argv, va, n) || !argv[n].NotSet?)
    ensures n >= va || !argv[n].NotSet? || n == 0
    ensures LocationOf(argv, va, n)
         == if OnStack(argv, va, n) then Stack(StackBefore(argv, va, n))
            else if argv[n].VDouble? then D(DoublesBefore(argv, n)) else X(GeneralBefore(argv, n))
    ensures OnStack(argv, va, n) ==> StackBefore(argv, va, n) < StackBefore(argv, va, |argv|)
    ensures !OnStack(argv, va, n) ==> if argv[n].VDouble? then DoublesBefore(argv, n) < 8 else GeneralBefore(argv, n) < 8
  {
    StackMonotone(argv, va, n, |argv|);
  }

  // ---- The loop -------------------------------------------------------------------------------

  function WordAt(x: seq<u64>, d: seq<u64>, stack: seq<u64>, l: Location): u64 {
    match l
    case X(i) => if i < |x| then x[i] else 0
    case D(i) => if i < |d| then d[i] else 0
    case Stack(i) => if i < |stack| then stack[i] else 0
  }

  /** The locations of the first `n` arguments. */
  function Locations(argv: seq<Argument>, va: nat, n: nat): (r: seq<Location>)
    requires n <= |argv|
    ensures |r| == n
    ensures forall k :: 0 <= k < n ==> r[k] == LocationOf(argv, va, k)
  {
    seq(n, k requires 0 <= k < n => LocationOf(argv, va, k))
  }

  /** What writing the words to the locations leaves: each location holds the last of them, or zero. */
  ghost predicate Placed(locations: seq<Location>, words: seq<u64>, x: seq<u64>, d: seq<u64>, stack: seq<u64>) {
    && |words| == |locations|
    && (forall k :: 0 <= k < |locations| && locations[k] !in locations[k + 1..] ==> WordAt(x, d, stack, locations[k]) == words[k])
    && (forall l: Location :: l !in locations ==> WordAt(x, d, stack, l) == 0)
  }

  /** One word is written, nothing else changes. */
  ghost predicate Written(l: Location, w: u64, x: seq<u64>, d: seq<u64>, stack: seq<u64>, x': seq<u64>, d': seq<u64>, stack': seq<u64>) {
    && WordAt(x', d', stack', l) == w
    && forall m: Location :: m != l ==> WordAt(x', d', stack', m) == WordAt(x, d, stack, m)
  }

  lemma PlacedOneMore(locations: seq<Location>, words: seq<u64>, l: Location, w: u64,
                      x: seq<u64>, d: seq<u64>, stack: seq<u64>, x': seq<u64>, d': seq<u64>, stack': seq<u64>)
    requires Placed(locations, words, x, d, stack) && Written(l, w, x, d, stack, x', d', stack')
    ensures Placed(locations + [l], words + [w], x', d', stack')
  {
    hide WordAt;
    var all := locations + [l];
    forall k | 0 <= k < |all| && all[k] !in all[k + 1..]
      ensures WordAt(x', d', stack', all[k]) == (words + [w])[k]
    {
      if k < |locations| {
        assert all[k + 1..] == locations[k + 1..] + [l];
        assert l in all[k + 1..];
      }
    }
  }

  /** `*current_target = *current_arg` */
  method Store(l: Location, w: u64, x: array<u64>, d: array<u64>, stack: array<u64>)
    requires x != d && d != stack && x != stack
    requires match l case X(i) => i < x.Length case D(i) => i < d.Length case Stack(i) => i < stack.Length
    modifies x, d, stack
    ensures Written(l, w, old(x[..]), old(d[..]), old(stack[..]), x[..], d[..], stack[..])
  {
    match l
    case X(i) => x[i] := w;
    case D(i) => d[i] := w;
    case Stack(i) => stack[i] := w;
  }

  /** The target that is left over for an argument without a type. */
  ghost function LeftOver(argv: seq<Argument>, va: nat, n: nat): Option<Location>
    requires n <= |argv|
  {
    if n == 0 then None else Some(LocationOf(argv, va, n - 1))
  }

  function Words(argv: seq<Argument>): (r: seq<u64>)
    ensures |r| == |argv|
  {
    seq(|argv|, k requires 0 <= k < |argv| => argv[k].w)
  }

  /** The loop of call_function, as far as there are no more stack arguments than slots. */
  method PlaceArguments(argv: seq<Argument>, vaListIndex: nat) returns (x: array<u64>, d: array<u64>, stack: array<u64>)
    requires |SpillsBefore(argv, vaListIndex, |argv|)| <= 16
    ensures x.Length == d.Length == 8 && stack.Length == 16
    ensures AsConvention(argv, vaListIndex, x[..], d[..], stack[..])
    ensures Placed(Locations(argv, vaListIndex, |argv|), Words(argv), x[..], d[..], stack[..])
  {
    hide Placed, Written, WordAt, Words, Locations, AsConvention, SpillsBefore;
    SpillsAreStacked(argv, vaListIndex, |argv|);
    x, d, stack := new u64[MAX_REGS_ARGS](_ => 0), new u64[MAX_REGS_ARGS](_ => 0), new u64[MAX_STACK_ARGS](_ => 0);
    var idxFp, idxGp, idxStack := 0, 0, 0;
    var currentTarget: Option<Location> := None;
    NothingPlaced(argv, vaListIndex, x[..], d[..], stack[..]);
    for n := 0 to |argv|
      invariant idxStack == StackBefore(argv, vaListIndex, n)
      invariant idxGp == (if GeneralBefore(argv, n) < MAX_REGS_ARGS then GeneralBefore(argv, n) else MAX_REGS_ARGS)
      invariant idxFp == (if DoublesBefore(argv, n) < MAX_REGS_ARGS then DoublesBefore(argv, n) else MAX_REGS_ARGS)
      invariant currentTarget == LeftOver(argv, vaListIndex, n)
      invariant Placed(Locations(argv, vaListIndex, n), Words(argv[..n]), x[..], d[..], stack[..])
    {
      match argv[n] {
      case VStr(_) | VBytes(_) | VInt(_) =>
        // a target register if available, otherwise none
        if idxGp < MAX_REGS_ARGS {
          currentTarget := Some(X(idxGp));
          idxGp := idxGp + 1;
        } else {
          currentTarget := None;
        }
      case VDouble(_) =>
        if idxFp < MAX_REGS_ARGS {
          currentTarget := Some(D(idxFp));
          idxFp := idxFp + 1;
        } else {
          currentTarget := None;
        }
      case NotSet(_) =>
      }
      if n >= vaListIndex || currentTarget.None? {
        currentTarget := Some(Stack(idxStack));
        idxStack := idxStack + 1;
      }
      LocationInRange(argv, vaListIndex, n);
      ghost var x0, d0, stack0 := x[..], d[..], stack[..];
      Store(currentTarget.value, argv[n].w, x, d, stack);
      PlacedOneMore(Locations(argv, vaListIndex, n), Words(argv[..n]), currentTarget.value, argv[n].w,
                    x0, d0, stack0, x[..], d[..], stack[..]);
      OneMore(argv, vaListIndex, n);
    }
    assert argv[..|argv|] == argv;
    ConventionHolds(argv, vaListIndex, x[..], d[..], stack[..]);
  }

  lemma OneMore(argv: seq<Argument>, va: nat, n: nat)
    requires n < |argv|
    ensures Locations(argv, va, n + 1) == Locations(argv, va, n) + [LocationOf(argv, va, n)]
    ensures Words(argv[..n + 1]) == Words(argv[..n]) + [argv[n].w]
  {
    hide LocationOf;
  }

  lemma NothingPlaced(argv: seq<Argument>, va: nat, x: seq<u64>, d: seq<u64>, stack: seq<u64>)
    requires (forall i :: 0 <= i < |x| ==> x[i] == 0) && (forall i :: 0 <= i < |d| ==> d[i] == 0)
    requires forall i :: 0 <= i < |stack| ==> stack[i] == 0
    ensures Placed(Locations(argv, va, 0), Words(argv[..0]), x, d, stack)
  {}

  lemma LocationInRange(argv: seq<Argument>, va: nat, n: nat)
    requires n < |argv| && StackBefore(argv, va, |argv|) <= MAX_STACK_ARGS
    ensures match LocationOf(argv, va, n)
            case X(i) => i < MAX_REGS_ARGS
            case D(i) => i < MAX_REGS_ARGS
            case Stack(i) => i < MAX_STACK_ARGS
  {
    StackMonotone(argv, va, n + 1, |argv|);
    if !OnStack(argv, va, n) && argv[n].NotSet? { LocationInRange(argv, va, n - 1); }
  }

  /**
   The rule of the calling convention, for arguments that all have types: every argument is found
   where it belongs, and every other register and slot is zero.
   */
  lemma EveryArgumentInPlace(argv: seq<Argument>, va: nat, x: seq<u64>, d: seq<u64>, stack: seq<u64>)
    requires Typed(argv, va) && Placed(Locations(argv, va, |argv|), Words(argv), x, d, stack)
    ensures forall n :: 0 <= n < |argv| ==> WordAt(x, d, stack, LocationOf(argv, va, n)) == argv[n].w
    ensures forall l: Location :: (forall n :: 0 <= n < |argv| ==> LocationOf(argv, va, n) != l) ==> WordAt(x, d, stack, l) == 0
  {
    hide LocationOf, WordAt;
    var ls := Locations(argv, va, |argv|);
    forall n | 0 <= n < |argv|
      ensures WordAt(x, d, stack, LocationOf(argv, va, n)) == argv[n].w
    {
      forall j | n < j < |argv|
        ensures ls[j] != ls[n]
      {
        LocationsDiffer(argv, va, n, j);
      }
      assert ls[n] !in ls[n + 1..];
      assert WordAt(x, d, stack, ls[n]) == Words(argv)[n];
    }
  }
}
