/** Day 8 (`src/challenge/day8/mod.rs`): run the boot code until an
    instruction is about to run a second time, and repair the one
    `nop`/`jmp` that makes the program run off its end. */
module Handheld {
  import opened Wrappers
  import opened Text
  import opened GameConsole

  // ---------------------------------------------------------------------
  // Reference semantics: the trace of a run
  // ---------------------------------------------------------------------

  /** The indices run by the first `k` steps. */
  function Visited(m: Machine, k: nat): set<nat> {
    set j | 0 <= j < k && Iterate(m, j).Finishes? :: Iterate(m, j).value.ix
  }

  /** None of the first `k` steps ran an index that an earlier step ran. */
  predicate Fresh(m: Machine, k: nat) {
    forall j | 0 <= j < k :: Iterate(m, j).Finishes? && Iterate(m, j).value.ix !in Visited(m, j)
  }

  /** After `k` steps the machine is, for the first time, at an index it
      has already run. */
  predicate FirstRepeat(m: Machine, k: nat) {
    Fresh(m, k) && Iterate(m, k).Finishes? && Iterate(m, k).value.ix in Visited(m, k)
  }

  /** After `k > 0` steps without a repeat the machine is just past the
      last instruction. */
  predicate ReachesEnd(m: Machine, k: nat) {
    k > 0 && Fresh(m, k) && Iterate(m, k).Finishes? && Iterate(m, k).value.ix == |m.code|
  }

  lemma VisitedNext(m: Machine, k: nat)
    requires Iterate(m, k).Finishes?
    ensures Visited(m, k + 1) == Visited(m, k) + {Iterate(m, k).value.ix}
  {
  }

  /** Every index a run got through is inside the code. */
  lemma {:induction false} VisitedInCode(m: Machine, k: nat)
    requires Iterate(m, k).Finishes?
    ensures forall i | i in Visited(m, k) :: i < |m.code|
  {
    if k > 0 {
      IterateEarlier(m, k - 1, k);
      VisitedInCode(m, k - 1);
      VisitedNext(m, k - 1);
    }
  }

  lemma FreshEarlier(m: Machine, k: nat)
    requires k > 0 && Fresh(m, k)
    ensures Fresh(m, k - 1)
  {
  }

  // ---------------------------------------------------------------------
  // The run loops
  // ---------------------------------------------------------------------

  /** Indices of the code not yet run. */
  function Unseen(m: Machine, seen: set<nat>): set<nat> {
    set i: nat | i < |m.code| && i !in seen
  }

  /** A step from an index not yet run leaves strictly fewer unrun
      indices. */
  lemma UnseenShrinks(m: Machine, seen: set<nat>)
    requires m.ix !in seen && !StepPanics(m)
    ensures Unseen(Step(m), seen + {m.ix}) < Unseen(m, seen)
  {
    assert m.ix in Unseen(m, seen);
  }

  /** The loop of `part1`: step while `seen.insert(ix)` succeeds, then
      report the accumulator. */
  function Part1Run(m: Machine, seen: set<nat>): Outcome<int>
    decreases Unseen(m, seen)
  {
    if m.ix in seen then Finishes(m.acc)
    else if StepPanics(m) then Panics
    else
      UnseenShrinks(m, seen);
      Part1Run(Step(m), seen + {m.ix})
  }

  /** `check_terminate`: like `part1`, but a step that lands exactly one
      past the last instruction ends the run with the accumulator, and a
      repeat is an error. */
  function Terminate(m: Machine, seen: set<nat>): Outcome<Result<int>>
    decreases Unseen(m, seen)
  {
    if m.ix in seen then Finishes(Err("cycle"))
    else if StepPanics(m) then Panics
    else
      var n := Step(m);
      if n.ix == |m.code| then Finishes(Ok(n.acc))
      else
        UnseenShrinks(m, seen);
        Terminate(n, seen + {m.ix})
  }

  // ---------------------------------------------------------------------
  // The loops against the trace
  // ---------------------------------------------------------------------

  lemma Part1RunStep(m: Machine, seen: set<nat>)
    requires m.ix !in seen && !StepPanics(m)
    ensures Part1Run(m, seen) == Part1Run(Step(m), seen + {m.ix})
  {
  }

  lemma TerminateStep(m: Machine, seen: set<nat>)
    requires m.ix !in seen && !StepPanics(m) && Step(m).ix != |m.code|
    ensures Terminate(m, seen) == Terminate(Step(m), seen + {m.ix})
  {
  }

  /** One more fresh step of `part1`'s loop follows one more step of the
      trace. */
  lemma Part1UnfoldStep(m: Machine, k: nat)
    requires k > 0 && Iterate(m, k).Finishes? && Iterate(m, k - 1).Finishes?
    requires Iterate(m, k - 1).value.ix !in Visited(m, k - 1)
    requires Part1Run(m, {}) == Part1Run(Iterate(m, k - 1).value, Visited(m, k - 1))
    ensures Part1Run(m, {}) == Part1Run(Iterate(m, k).value, Visited(m, k))
  {
    var p := Iterate(m, k - 1).value;
    assert !StepPanics(p);
    VisitedNext(m, k - 1);
    Part1RunStep(p, Visited(m, k - 1));
  }

  /** Running `k` fresh steps of `part1`'s loop reaches the `k`-th machine
      with exactly the indices it ran marked as seen. */
  lemma {:induction false} Part1Unfold(m: Machine, k: nat)
    requires Fresh(m, k) && Iterate(m, k).Finishes?
    ensures Part1Run(m, {}) == Part1Run(Iterate(m, k).value, Visited(m, k))
  {
    if k > 0 {
      IterateEarlier(m, k - 1, k);
      FreshEarlier(m, k);
      Part1Unfold(m, k - 1);
      Part1UnfoldStep(m, k);
    } else {
      assert Iterate(m, 0) == Finishes(m);
      assert Visited(m, 0) == {};
    }
  }

  lemma {:induction false} Part1Forward(m: Machine, k: nat, acc: int)
    requires Fresh(m, k) && Iterate(m, k).Finishes?
    requires Part1Run(Iterate(m, k).value, Visited(m, k)) == Finishes(acc)
    ensures exists n :: FirstRepeat(m, n) && Iterate(m, n).value.acc == acc
    decreases Unseen(Iterate(m, k).value, Visited(m, k))
  {
    var p := Iterate(m, k).value;
    if p.ix in Visited(m, k) {
      assert FirstRepeat(m, k);
    } else {
      assert !StepPanics(p);
      VisitedNext(m, k);
      assert Iterate(m, k + 1) == Finishes(Step(p));
      assert Fresh(m, k + 1);
      UnseenShrinks(p, Visited(m, k));
      Part1Forward(m, k + 1, acc);
    }
  }

  /** `part1`'s loop reports `acc` exactly when the machine, at its first
      repeated index, holds `acc`. */
  lemma Part1FirstRepeat(m: Machine, acc: int)
    ensures Part1Run(m, {}) == Finishes(acc) <==>
            exists n :: FirstRepeat(m, n) && Iterate(m, n).value.acc == acc
  {
    if Part1Run(m, {}) == Finishes(acc) {
      assert Visited(m, 0) == {};
      Part1Forward(m, 0, acc);
    }
    if n: nat :| FirstRepeat(m, n) && Iterate(m, n).value.acc == acc {
      Part1Unfold(m, n);
    }
  }

  lemma TerminateUnfoldStep(m: Machine, k: nat)
    requires Fresh(m, k + 1) && Iterate(m, k + 1).Finishes?
    requires Iterate(m, k + 1).value.ix != |m.code|
    ensures Fresh(m, k) && Iterate(m, k).Finishes?
    ensures k > 0 ==> Iterate(m, k).value.ix != |m.code|
    ensures Terminate(Iterate(m, k).value, Visited(m, k)) == Terminate(Iterate(m, k + 1).value, Visited(m, k + 1))
  {
    IterateEarlier(m, k, k + 1);
    var p := Iterate(m, k).value;
    assert p.ix !in Visited(m, k);
    assert !StepPanics(p);
    VisitedNext(m, k);
    TerminateStep(p, Visited(m, k));
  }

  /** The same for the loop of `check_terminate`, as long as no step lands
      past the end. */
  lemma {:induction false} TerminateUnfold(m: Machine, k: nat)
    requires Fresh(m, k) && Iterate(m, k).Finishes?
    requires k > 0 ==> Iterate(m, k).value.ix != |m.code|
    ensures Terminate(m, {}) == Terminate(Iterate(m, k).value, Visited(m, k))
  {
    if k > 0 {
      TerminateUnfoldStep(m, k - 1);
      TerminateUnfold(m, k - 1);
    } else {
      assert Visited(m, 0) == {};
    }
  }

  lemma {:induction false} TerminateForward(m: Machine, k: nat, res: Result<int>)
    requires Fresh(m, k) && Iterate(m, k).Finishes?
    requires Terminate(Iterate(m, k).value, Visited(m, k)) == Finishes(res)
    ensures res.Ok? ==> exists n :: ReachesEnd(m, n) && Iterate(m, n).value.acc == res.value
    ensures res.Err? ==> exists n :: FirstRepeat(m, n)
    decreases Unseen(Iterate(m, k).value, Visited(m, k))
  {
    var p := Iterate(m, k).value;
    if p.ix in Visited(m, k) {
      assert FirstRepeat(m, k);
    } else {
      assert !StepPanics(p);
      VisitedNext(m, k);
      assert Iterate(m, k + 1) == Finishes(Step(p));
      assert Fresh(m, k + 1);
      if Step(p).ix == |m.code| {
        assert ReachesEnd(m, k + 1);
      } else {
        UnseenShrinks(p, Visited(m, k));
        TerminateForward(m, k + 1, res);
      }
    }
  }

  /** `check_terminate` returns `Ok(acc)` exactly when the machine runs
      just past its last instruction, before repeating any index, holding
      `acc`. */
  lemma TerminateReachesEnd(m: Machine, acc: int)
    ensures Terminate(m, {}) == Finishes(Ok(acc)) <==>
            exists n :: ReachesEnd(m, n) && Iterate(m, n).value.acc == acc
  {
    assert Visited(m, 0) == {};
    if Terminate(m, {}) == Finishes(Ok(acc)) {
      TerminateForward(m, 0, Ok(acc));
    }
    if n: nat :| ReachesEnd(m, n) && Iterate(m, n).value.acc == acc {
      IterateEarlier(m, n - 1, n);
      FreshEarlier(m, n);
      var p := Iterate(m, n - 1).value;
      assert !StepPanics(p);
      TerminateUnfold(m, n - 1);
      assert p.ix !in Visited(m, n - 1);
    }
  }

  /** `check_terminate` reports a cycle exactly when `part1`'s loop finds a
      repeated index. */
  lemma TerminateCycles(m: Machine)
    ensures (Terminate(m, {}).Finishes? && Terminate(m, {}).value.Err?) <==>
            exists n :: FirstRepeat(m, n)
  {
    assert Visited(m, 0) == {};
    if Terminate(m, {}).Finishes? && Terminate(m, {}).value.Err? {
      TerminateForward(m, 0, Terminate(m, {}).value);
    }
    if n: nat :| FirstRepeat(m, n) {
      VisitedInCode(m, n);
      TerminateUnfold(m, n);
    }
  }

  // ---------------------------------------------------------------------
  // Part 2: the repair
  // ---------------------------------------------------------------------

  function Flip(op: Operation): (r: Operation)
    ensures op == Nop <==> r == Jmp
    ensures op == Jmp <==> r == Nop
    ensures op == Acc <==> r == Acc
  {
    match op
    case Nop => Jmp
    case Jmp => Nop
    case Acc => Acc
  }

  /** The code with the operation at `ix` swapped between `nop` and `jmp`,
      keeping its argument. */
  function Patch(code: seq<Instruction>, ix: nat): (r: seq<Instruction>)
    requires ix < |code|
    ensures |r| == |code|
    ensures r[ix] == Instruction(Flip(code[ix].op), code[ix].arg)
    ensures forall j | 0 <= j < |code| && j != ix :: r[j] == code[j]
  {
    code[ix := Instruction(Flip(code[ix].op), code[ix].arg)]
  }

  /** Swapping twice gives the code back. */
  lemma PatchTwice(code: seq<Instruction>, ix: nat)
    requires ix < |code|
    ensures Patch(Patch(code, ix), ix) == code
  {
  }

  /** `part2` passes over index `j`: it holds an `acc`, or the patched code
      cycles. */
  predicate Skipped(code: seq<Instruction>, j: nat)
    requires j < |code|
  {
    code[j].op == Acc
    || (Terminate(New(Patch(code, j)), {}).Finishes? && Terminate(New(Patch(code, j)), {}).value.Err?)
  }

  /** The loop of `part2` from index `from` on: the first patch that
      terminates gives the answer; a panic in a patched run propagates. */
  function Search(code: seq<Instruction>, from: nat): Outcome<Result<int>>
    requires from <= |code|
    decreases |code| - from
  {
    if from == |code| then Finishes(Err("could not find suitible instruction to replace"))
    else if code[from].op == Acc then Search(code, from + 1)
    else
      match Terminate(New(Patch(code, from)), {})
      case Panics => Panics
      case Finishes(Ok(acc)) => Finishes(Ok(acc))
      case Finishes(Err(_)) => Search(code, from + 1)
  }

  /** The search answers with the first index it does not pass over. */
  lemma {:induction false} SearchFirst(code: seq<Instruction>, from: nat)
    requires from <= |code|
    ensures (Search(code, from).Finishes? && Search(code, from).value.Err?)
            <==> forall j | from <= j < |code| :: Skipped(code, j)
    ensures Search(code, from).Finishes? && Search(code, from).value.Ok? ==>
            exists i | from <= i < |code| ::
              && code[i].op != Acc
              && Terminate(New(Patch(code, i)), {}) == Search(code, from)
              && forall j | from <= j < i :: Skipped(code, j)
    ensures Search(code, from).Panics? ==>
            exists i | from <= i < |code| ::
              && code[i].op != Acc
              && Terminate(New(Patch(code, i)), {}).Panics?
              && forall j | from <= j < i :: Skipped(code, j)
    decreases |code| - from
  {
    if from < |code| {
      SearchFirst(code, from + 1);
      var t := Terminate(New(Patch(code, from)), {});
      if code[from].op != Acc && (t.Panics? || t.value.Ok?) {
        assert Search(code, from) == t;
        assert !Skipped(code, from);
      } else {
        assert Skipped(code, from);
        assert Search(code, from) == Search(code, from + 1);
        var r := Search(code, from);
        if r.Finishes? && r.value.Ok? {
          var i :| from + 1 <= i < |code| && code[i].op != Acc
            && Terminate(New(Patch(code, i)), {}) == r
            && forall j | from + 1 <= j < i :: Skipped(code, j);
          assert forall j | from <= j < i :: Skipped(code, j);
        }
        if r.Panics? {
          var i :| from + 1 <= i < |code| && code[i].op != Acc
            && Terminate(New(Patch(code, i)), {}).Panics?
            && forall j | from + 1 <= j < i :: Skipped(code, j);
          assert forall j | from <= j < i :: Skipped(code, j);
        }
      }
    }
  }

  // ---------------------------------------------------------------------
  // The puzzle
  // ---------------------------------------------------------------------

  /** `part1`: a parse error, or the accumulator at the first repeat. */
  function Part1(input: string): (r: Outcome<Result<int>>)
    ensures ParseCode(input).Err? ==> r == Finishes(Err(ParseCode(input).msg))
    ensures ParseCode(input).Ok? && r.Finishes? ==> r.value.Ok?
  {
    match ParseCode(input)
    case Err(msg) => Finishes(Err(msg))
    case Ok(code) =>
      match Part1Run(New(code), {})
      case Panics => Panics
      case Finishes(acc) => Finishes(Ok(acc))
  }

  /** The answer to part 1 is the accumulator at the first repeated index
      of a run of the parsed code. */
  lemma Part1Answer(input: string, acc: int)
    requires ParseCode(input).Ok?
    ensures Part1(input) == Finishes(Ok(acc)) <==>
            exists n :: FirstRepeat(New(ParseCode(input).value), n)
                        && Iterate(New(ParseCode(input).value), n).value.acc == acc
  {
    Part1FirstRepeat(New(ParseCode(input).value), acc);
  }

  /** `part2`: a parse error, or the search over every index. */
  function Part2(input: string): (r: Outcome<Result<int>>)
    ensures ParseCode(input).Err? ==> r == Finishes(Err(ParseCode(input).msg))
  {
    match ParseCode(input)
    case Err(msg) => Finishes(Err(msg))
    case Ok(code) => Search(code, 0)
  }

  /** Patching index `i` repairs the code: it holds a `nop` or `jmp`, and
      the patched code runs just past its end holding `acc`. */
  ghost predicate Repairs(code: seq<Instruction>, i: nat, acc: int) {
    i < |code| && code[i].op != Acc
    && exists n :: ReachesEnd(New(Patch(code, i)), n) && Iterate(New(Patch(code, i)), n).value.acc == acc
  }

  /** The search stops at the first index it does not pass over. */
  lemma {:induction false} FirstRepairWins(code: seq<Instruction>, from: nat, i: nat, acc: int)
    requires from <= i < |code| && code[i].op != Acc
    requires Terminate(New(Patch(code, i)), {}) == Finishes(Ok(acc))
    requires forall j | from <= j < i :: Skipped(code, j)
    ensures Search(code, from) == Finishes(Ok(acc))
    decreases i - from
  {
    if from < i {
      assert Skipped(code, from);
      assert Search(code, from) == Search(code, from + 1);
      FirstRepairWins(code, from + 1, i, acc);
    }
  }

  /** The answer to part 2 is what the first repairing patch leaves in the
      accumulator, provided every earlier candidate patch cycles. */
  lemma Part2Answer(input: string, acc: int)
    requires ParseCode(input).Ok?
    ensures var code := ParseCode(input).value;
            Part2(input) == Finishes(Ok(acc)) <==>
            exists i: nat :: Repairs(code, i, acc) && forall j | 0 <= j < i :: Skipped(code, j)
  {
    var code := ParseCode(input).value;
    assert Part2(input) == Search(code, 0);
    if Search(code, 0) == Finishes(Ok(acc)) {
      SearchFindsRepair(code, acc);
    }
    if i: nat :| Repairs(code, i, acc) && forall j | 0 <= j < i :: Skipped(code, j) {
      RepairIsFound(code, i, acc);
    }
  }

  lemma SearchFindsRepair(code: seq<Instruction>, acc: int)
    requires Search(code, 0) == Finishes(Ok(acc))
    ensures exists i: nat :: Repairs(code, i, acc) && forall j | 0 <= j < i :: Skipped(code, j)
  {
    SearchFirst(code, 0);
    var i :| 0 <= i < |code| && code[i].op != Acc
      && Terminate(New(Patch(code, i)), {}) == Finishes(Ok(acc))
      && forall j | 0 <= j < i :: Skipped(code, j);
    TerminateReachesEnd(New(Patch(code, i)), acc);
    assert Repairs(code, i, acc);
  }

  lemma RepairIsFound(code: seq<Instruction>, i: nat, acc: int)
    requires Repairs(code, i, acc) && forall j | 0 <= j < i :: Skipped(code, j)
    ensures Search(code, 0) == Finishes(Ok(acc))
  {
    TerminateReachesEnd(New(Patch(code, i)), acc);
    FirstRepairWins(code, 0, i, acc);
  }
}
