/** The hand-held game console (`src/gameconsole/mod.rs`): a three-op
    instruction set, its text form, and one machine step. */
module GameConsole {
  import opened Wrappers
  import opened Text
  import opened Numbers

  datatype Operation = Nop | Acc | Jmp

  /** `arg` is an `i64`. */
  datatype Instruction = Instruction(op: Operation, arg: int)

  /** `acc` is an `i64` and `ix` a `usize`. */
  datatype Machine = Machine(acc: int, ix: nat, code: seq<Instruction>)

  // ---------------------------------------------------------------------
  // Text form
  // ---------------------------------------------------------------------

  /** The `Debug` form of an operation. */
  function OpName(op: Operation): string {
    match op
    case Nop => "nop"
    case Acc => "acc"
    case Jmp => "jmp"
  }

  /** `Operation::from_str`: the trimmed text is exactly one of the three
      names. */
  function ParseOperation(s: string): (r: Result<Operation>)
    ensures r.Ok? <==> Trim(s) in {"nop", "acc", "jmp"}
    ensures r.Ok? ==> OpName(r.value) == Trim(s)
  {
    var t := Trim(s);
    if t == "nop" then Ok(Nop)
    else if t == "acc" then Ok(Acc)
    else if t == "jmp" then Ok(Jmp)
    else Err("unrecognized operation")
  }

  lemma ParseOpName(op: Operation)
    ensures ParseOperation(OpName(op)) == Ok(op)
  {
    TrimIdentity(OpName(op));
  }

  /** `Instruction::from_str`: trim, split at the first space, read the
      operation from the first part and an `i64` from the rest. */
  function ParseInstruction(s: string): (r: Result<Instruction>)
    ensures r.Ok? <==>
      var (opStr, argStr) := SplitOnce(Trim(s), " ");
      argStr.Some? && ParseOperation(opStr).Ok? && ParseI64(argStr.value).Ok?
    ensures r.Ok? ==>
      var (opStr, argStr) := SplitOnce(Trim(s), " ");
      && OpName(r.value.op) == Trim(opStr)
      && ParseI64(argStr.value) == Ok(r.value.arg)
      && I64_MIN <= r.value.arg <= I64_MAX
  {
    var (opStr, argPart) := SplitOnce(Trim(s), " ");
    var argStr :- OkOr(argPart, "instruction was not space separated");
    var op :- ParseOperation(opStr);
    var arg :- ParseI64(argStr);
    Ok(Instruction(op, arg))
  }

  /** The `Debug` form of an instruction: the operation, a space, an
      explicit sign and the magnitude. `-1 * i64::MIN` overflows, so that
      one argument has no form. */
  function FormatInstruction(i: Instruction): string
    requires i.arg != I64_MIN
  {
    OpName(i.op) + " " + (if i.arg < 0 then "-" + NatToString(-i.arg) else "+" + NatToString(i.arg))
  }

  /** An explicit '+' is read as a sign. */
  lemma ParsePlus(n: nat)
    requires n <= I64_MAX
    ensures ParseI64("+" + NatToString(n)) == Ok(n)
  {
    var s := "+" + NatToString(n);
    assert Magnitude(s, true) == NatToString(n);
    DecimalValueOfString(n);
  }

  lemma ParseSignedArg(arg: int)
    requires I64_MIN < arg <= I64_MAX
    ensures ParseI64(if arg < 0 then "-" + NatToString(-arg) else "+" + NatToString(arg)) == Ok(arg)
  {
    if arg < 0 {
      ParseIntegerOfString(arg, true, I64_MIN, I64_MAX);
    } else {
      ParsePlus(arg);
    }
  }

  /** An operation name, one space and an integer, with nothing around. */
  lemma ParseSpaced(op: Operation, arg: string, v: int)
    requires |arg| > 0 && !IsWhitespace(arg[|arg| - 1])
    requires ParseI64(arg) == Ok(v)
    ensures ParseInstruction(OpName(op) + " " + arg) == Ok(Instruction(op, v))
  {
    var name := OpName(op);
    var s := name + " " + arg;
    assert s == name + [' '] + arg;
    SpacedTrimmed(op, arg);
    TrimIdentity(s);
    SplitOnceChar(name, ' ', arg);
    ParseOpName(op);
  }

  lemma SpacedTrimmed(op: Operation, arg: string)
    requires |arg| > 0 && !IsWhitespace(arg[|arg| - 1])
    ensures IsTrimmed(OpName(op) + " " + arg)
  {
    var s := OpName(op) + " " + arg;
    assert s[0] == OpName(op)[0];
    assert s[|s| - 1] == arg[|arg| - 1];
  }

  /** Every instruction the `Debug` form can print is read back. */
  lemma ParseFormatInstruction(i: Instruction)
    requires I64_MIN < i.arg <= I64_MAX
    ensures ParseInstruction(FormatInstruction(i)) == Ok(i)
  {
    var arg := if i.arg < 0 then "-" + NatToString(-i.arg) else "+" + NatToString(i.arg);
    var digits := NatToString(if i.arg < 0 then -i.arg else i.arg);
    assert arg[|arg| - 1] == digits[|digits| - 1];
    assert IsAsciiDigit(digits[|digits| - 1]);
    ParseSignedArg(i.arg);
    ParseSpaced(i.op, arg, i.arg);
  }

  /** `Code::parse`: one instruction per line; the first bad line fails the
      input. */
  function ParseCode(input: string): (r: Result<seq<Instruction>>)
    ensures r.Ok? ==> |r.value| == |Lines(input)|
    ensures r.Ok? ==> forall i | 0 <= i < |r.value| :: ParseInstruction(Lines(input)[i]) == Ok(r.value[i])
    ensures r.Err? ==> exists i | 0 <= i < |Lines(input)| :: ParseInstruction(Lines(input)[i]).Err?
  {
    CollectAll(Lines(input), ParseInstruction)
  }

  // ---------------------------------------------------------------------
  // The machine
  // ---------------------------------------------------------------------

  /** `Machine::new`. */
  function New(code: seq<Instruction>): (m: Machine)
    ensures m.acc == 0 && m.ix == 0 && m.code == code
  {
    Machine(0, 0, code)
  }

  /** When `step` panics: `ix` past the code, an `acc` that leaves the
      `i64` range, or a backward jump that reaches index 0 or beyond (the
      source asserts `|arg| < ix` strictly, and `-1 * i64::MIN`
      overflows). */
  predicate StepPanics(m: Machine) {
    || m.ix >= |m.code|
    || (var i := m.code[m.ix];
        || (i.op == Acc && !(I64_MIN <= m.acc + i.arg <= I64_MAX))
        || (i.op == Jmp && i.arg < 0 && (i.arg == I64_MIN || -i.arg >= m.ix)))
  }

  /** `Machine::step`: run the instruction at `ix`. */
  function Step(m: Machine): (r: Machine)
    requires !StepPanics(m)
    ensures r.code == m.code
    ensures m.code[m.ix].op == Nop ==> r.acc == m.acc && r.ix == m.ix + 1
    ensures m.code[m.ix].op == Acc ==> r.acc == m.acc + m.code[m.ix].arg && r.ix == m.ix + 1
    ensures m.code[m.ix].op == Jmp ==> r.acc == m.acc && r.ix == m.ix + m.code[m.ix].arg
    ensures I64_MIN <= m.acc <= I64_MAX ==> I64_MIN <= r.acc <= I64_MAX
  {
    var i := m.code[m.ix];
    match i.op
    case Nop => m.(ix := m.ix + 1)
    case Acc => m.(acc := m.acc + i.arg, ix := m.ix + 1)
    case Jmp =>
      if i.arg < 0 then m.(ix := m.ix - (-i.arg))
      else m.(ix := m.ix + i.arg)
  }

  /** The machine after `k` steps, unless a step panics on the way. */
  function Iterate(m: Machine, k: nat): (r: Outcome<Machine>)
    ensures r.Finishes? ==> r.value.code == m.code
    decreases k
  {
    if k == 0 then Finishes(m)
    else match Iterate(m, k - 1)
      case Panics => Panics
      case Finishes(p) => if StepPanics(p) then Panics else Finishes(Step(p))
  }

  /** A machine that gets through `k` steps got through every earlier
      count of steps. */
  lemma {:induction false} IterateEarlier(m: Machine, j: nat, k: nat)
    requires j <= k && Iterate(m, k).Finishes?
    ensures Iterate(m, j).Finishes?
    decreases k - j
  {
    if j < k {
      IterateEarlier(m, j, k - 1);
    }
  }

  // ---------------------------------------------------------------------
  // Examples
  // ---------------------------------------------------------------------

  /** An operation name followed by an explicitly positive number. */
  lemma ParsePositive(op: Operation, n: nat)
    requires n <= I64_MAX
    ensures ParseInstruction(OpName(op) + " " + ("+" + NatToString(n))) == Ok(Instruction(op, n))
  {
    var digits := NatToString(n);
    assert ("+" + digits)[|digits|] == digits[|digits| - 1];
    assert IsAsciiDigit(digits[|digits| - 1]);
    ParsePlus(n);
    ParseSpaced(op, "+" + digits, n);
  }

  lemma OneDigit(d: nat)
    requires d < 10
    ensures NatToString(d) == [('0' as int + d) as char]
  {
  }

  lemma ParseExamples()
    ensures ParseInstruction("nop +0") == Ok(Instruction(Nop, 0))
    ensures ParseInstruction("acc +1") == Ok(Instruction(Acc, 1))
    ensures ParseInstruction("jmp +1") == Ok(Instruction(Jmp, 1))
  {
    OneDigit(0);
    OneDigit(1);
    assert "nop +0" == OpName(Nop) + " " + ("+" + NatToString(0));
    assert "acc +1" == OpName(Acc) + " " + ("+" + NatToString(1));
    assert "jmp +1" == OpName(Jmp) + " " + ("+" + NatToString(1));
    ParsePositive(Nop, 0);
    ParsePositive(Acc, 1);
    ParsePositive(Jmp, 1);
  }

  lemma TwoDigitExample()
    ensures ParseInstruction("acc +19") == Ok(Instruction(Acc, 19))
  {
    OneDigit(1);
    OneDigit(9);
    assert NatToString(19) == NatToString(1) + NatToString(9);
    assert "acc +19" == OpName(Acc) + " " + ("+" + NatToString(19));
    ParsePositive(Acc, 19);
  }

  lemma NegativeExample()
    ensures ParseInstruction("acc -4") == Ok(Instruction(Acc, -4))
  {
    assert "acc -4" == OpName(Acc) + " " + "-4";
    assert IntToString(-4) == "-4";
    ParseIntegerOfString(-4, true, I64_MIN, I64_MAX);
    ParseSpaced(Acc, "-4", -4);
  }

  /** "-0" is a valid `i64`, so "nop -0" reads as "nop +0". */
  lemma NegativeZero()
    ensures ParseInstruction("nop -0") == Ok(Instruction(Nop, 0))
  {
    assert "nop -0" == OpName(Nop) + " " + "-0";
    assert Magnitude("-0", true) == "0";
    assert DecimalValue("0") == 0;
    assert ParseI64("-0") == Ok(0);
    ParseSpaced(Nop, "-0", 0);
  }
}
