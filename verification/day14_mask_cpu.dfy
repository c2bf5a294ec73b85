/** Day 14, part 1: the 36-bit mask CPU (`src/challenge/day14/mask_cpu.rs`).

    A mask string sets bits to 1 ('1'), clears them ('0') or leaves them
    alone ('X'); `mem[a] = v` stores the masked value `v` at address `a` of a
    tape that grows on demand; the answer is the sum of the tape. */
module MaskCpu {
  import opened Wrappers
  import opened Text
  import opened Seqs
  import opened Bitmask

  const MASK_LEADER: string := "mask = "
  const MEM_LEADER: string := "mem["

  // ---------------------------------------------------------------------
  // Memory
  // ---------------------------------------------------------------------

  /** The tape of `Memory`. */
  type Tape = seq<Word>

  /** `Memory::set`: the tape grows with zeros to hold `idx`, then slot `idx`
      takes `v`; no other slot changes. */
  function SetSlot(tape: Tape, idx: nat, v: Word): (r: Tape)
    ensures |r| == if idx + 1 > |tape| then idx + 1 else |tape|
    ensures r[idx] == v
    ensures forall i | 0 <= i < |r| && i != idx :: r[i] == if i < |tape| then tape[i] else Zero()
  {
    var grown := if idx + 1 > |tape| then tape + seq(idx + 1 - |tape|, _ => Zero()) else tape;
    grown[idx := v]
  }

  function Values(tape: Tape): (r: seq<int>)
    ensures |r| == |tape|
  {
    seq(|tape|, i requires 0 <= i < |tape| => Value(tape[i]))
  }

  /** `Memory::sum`: the sum of the tape (overflow is not modelled). */
  function TapeSum(tape: Tape): int {
    Sum(Values(tape))
  }

  // ---------------------------------------------------------------------
  // Instructions
  // ---------------------------------------------------------------------

  datatype Instruction = SetMask(mask: Mask) | SetValue(addr: nat, value: Word)

  /** The inputs on which `parse_instruction` panics instead of returning: a
      mask longer than 36 characters, or a `mem[..]` line whose text ends
      within four characters after the ']' although the address parsed. */
  predicate ParsePanics(s: string) {
    if StartsWith(s, MASK_LEADER) then MaskPanics(s[|MASK_LEADER|..])
    else if StartsWith(s, MEM_LEADER) then MemPanics(s)
    else false
  }

  /** The `mem[..]` lines on which `parse_instruction` panics. */
  predicate MemPanics(s: string) {
    match Find(s, "]")
    case None => false
    case Some(e) => |MEM_LEADER| <= e && ParseUsize(s[|MEM_LEADER|..e]).Ok? && e + 4 > |s|
  }

  /** The first ']' of a line starting with "mem[" comes after the leader. */
  lemma CloseBracketAfterLeader(s: string)
    requires StartsWith(s, MEM_LEADER)
    requires Find(s, "]").Some?
    ensures Find(s, "]").value >= |MEM_LEADER|
  {
    var e := Find(s, "]").value;
    OccursAtChar(s, ']', e);
    assert forall j | 0 <= j < |MEM_LEADER| :: s[j] == MEM_LEADER[j] && s[j] != ']';
  }

  /** A "mem[" line whose first ']' is at `e` has a `usize` address before
      it and a `u64` value from four characters after it. */
  predicate MemAt(s: string, e: nat) {
    |MEM_LEADER| <= e && e + 4 <= |s| && ParseUsize(s[|MEM_LEADER|..e]).Ok? && ParseU64(s[e + 4..]).Ok?
  }

  /** ... and those are `addr` and `value`. */
  predicate MemFieldsAt(s: string, e: nat, addr: nat, value: Word) {
    && |MEM_LEADER| <= e && e + 4 <= |s|
    && ParseUsize(s[|MEM_LEADER|..e]) == Ok(addr)
    && ParseU64(s[e + 4..]).Ok? && value == FromNat(ParseU64(s[e + 4..]).value)
  }

  /** A "mem[" line has a ']' with a well-formed address and value around it. */
  predicate MemParses(s: string) {
    match Find(s, "]")
    case None => false
    case Some(e) => MemAt(s, e)
  }

  /** The address and value around the first ']' are `addr` and `value`. */
  predicate MemFields(s: string, addr: nat, value: Word) {
    match Find(s, "]")
    case None => false
    case Some(e) => MemFieldsAt(s, e, addr, value)
  }

  /** The address and value of a "mem[" line whose first ']' is at `e`:
      the address is parsed first, and the value only after it. */
  function ParseMemAt(s: string, e: nat): (r: Result<Instruction>)
    requires |MEM_LEADER| <= e <= |s|
    requires ParseUsize(s[|MEM_LEADER|..e]).Ok? ==> e + 4 <= |s|
    ensures r.Ok? <==> MemAt(s, e)
    ensures r.Ok? ==> r.value.SetValue? && MemFieldsAt(s, e, r.value.addr, r.value.value)
  {
    var addr :- ParseUsize(s[|MEM_LEADER|..e]);
    var value :- ParseU64(s[e + 4..]);
    Ok(SetValue(addr, FromNat(value)))
  }

  /** The "mem[<address>] = <value>" arm of `parse_instruction`. */
  function ParseSetValue(s: string): (r: Result<Instruction>)
    requires StartsWith(s, MEM_LEADER) && !MemPanics(s)
    ensures r.Ok? <==> MemParses(s)
    ensures r.Ok? ==> r.value.SetValue? && MemFields(s, r.value.addr, r.value.value)
  {
    match Find(s, "]")
    case None => Err("mem instruction was malformed")
    case Some(e) =>
      CloseBracketAfterLeader(s);
      ParseMemAt(s, e)
  }

  /** `parse_instruction`: "mask = " followed by a mask, or
      "mem[<address>] = <value>". */
  function ParseInstruction(s: string): (r: Result<Instruction>)
    requires !ParsePanics(s)
    ensures StartsWith(s, MASK_LEADER) ==>
      (r.Ok? <==> ParseMask(s[|MASK_LEADER|..]).Ok?)
      && (r.Ok? ==> r == Ok(SetMask(ParseMask(s[|MASK_LEADER|..]).value)))
    ensures r.Ok? && r.value.SetValue? ==>
      !StartsWith(s, MASK_LEADER) && StartsWith(s, MEM_LEADER) && MemFields(s, r.value.addr, r.value.value)
    ensures !StartsWith(s, MASK_LEADER) && !StartsWith(s, MEM_LEADER) ==> r.Err?
    ensures !StartsWith(s, MASK_LEADER) && StartsWith(s, MEM_LEADER) ==> (r.Ok? <==> MemParses(s))
  {
    if StartsWith(s, MASK_LEADER) then
      var mask :- ParseMask(s[|MASK_LEADER|..]);
      Ok(SetMask(mask))
    else if StartsWith(s, MEM_LEADER) then
      ParseSetValue(s)
    else
      Err("unknown instruction")
  }

  /** The text of an instruction, as the puzzle input writes it. */
  function FormatInstruction(i: Instruction): string {
    match i
    case SetMask(m) => MASK_LEADER + FormatMask(m)
    case SetValue(a, v) => MEM_LEADER + NatToString(a) + "] = " + NatToString(Value(v))
  }

  predicate Representable(i: Instruction) {
    match i
    case SetMask(m) => WellFormed(m)
    case SetValue(a, _) => a <= Numbers.USIZE_MAX
  }

  /** Every instruction the program can hold is read back from its text. */
  lemma ParseFormatInstruction(i: Instruction)
    requires Representable(i)
    ensures !ParsePanics(FormatInstruction(i))
    ensures ParseInstruction(FormatInstruction(i)) == Ok(i)
  {
    var s := FormatInstruction(i);
    match i
    case SetMask(m) =>
      assert s[|MASK_LEADER|..] == FormatMask(m);
      ParseFormatMask(m);
    case SetValue(a, v) =>
      var digits := NatToString(a);
      var rest := "] = " + NatToString(Value(v));
      assert s == MEM_LEADER + digits + rest;
      assert !StartsWith(s, MASK_LEADER) by {
        assert s[1] == 'e' && MASK_LEADER[1] == 'a';
      }
      assert StartsWith(s, MEM_LEADER);
      assert ']' !in MEM_LEADER + digits by {
        assert forall j | 0 <= j < |digits| :: IsAsciiDigit(digits[j]);
      }
      var pre := MEM_LEADER + digits;
      var post := " = " + NatToString(Value(v));
      assert s == pre + [']'] + post;
      FindCharAfterPrefix(pre, ']', post);
      var e := |MEM_LEADER| + |digits|;
      assert Find(s, "]") == Some(e);
      assert s[|MEM_LEADER|..e] == digits;
      assert s[e + 4..] == NatToString(Value(v));
      Text.ParseUsizeOfString(a);
      FromNatOfValue(v);
      Text.ParseU64OfString(Value(v));
  }

  // ---------------------------------------------------------------------
  // The CPU
  // ---------------------------------------------------------------------

  datatype Cpu = Cpu(mask: Mask, mem: Tape)

  /** `MaskCpuV1::default()`: the all-'X' mask and an empty tape. */
  const Initial: Cpu := Cpu(NoMask, [])

  /** `MaskCpuV1::run`: a mask instruction replaces the mask only; a write
      stores the masked value at the address as given. */
  function Run(cpu: Cpu, instr: Instruction): Cpu {
    match instr
    case SetMask(m) => cpu.(mask := m)
    case SetValue(a, v) => cpu.(mem := SetSlot(cpu.mem, a, Apply(cpu.mask, v)))
  }

  /** The loop of `MaskCpuV1::program`: the instructions in order. */
  function Execute(cpu: Cpu, instrs: seq<Instruction>): Cpu
    decreases |instrs|
  {
    if instrs == [] then cpu
    else Run(Execute(cpu, instrs[..|instrs| - 1]), instrs[|instrs| - 1])
  }

  /** `MaskCpuV1::program` on a fresh CPU: the sum of the final tape. */
  function Program(instrs: seq<Instruction>): int {
    TapeSum(Execute(Initial, instrs).mem)
  }

  // ---------------------------------------------------------------------
  // Reference semantics: the last write to an address wins
  // ---------------------------------------------------------------------

  /** The mask of the last mask instruction, or the all-'X' mask. */
  function ActiveMask(instrs: seq<Instruction>): Mask
    decreases |instrs|
  {
    if instrs == [] then NoMask
    else if instrs[|instrs| - 1].SetMask? then instrs[|instrs| - 1].mask
    else ActiveMask(instrs[..|instrs| - 1])
  }

  /** The value held at `a`: the last write to `a`, masked by the mask in
      force when it ran, or 0 when `a` was never written. */
  function FinalValue(instrs: seq<Instruction>, a: nat): Word
    decreases |instrs|
  {
    if instrs == [] then Zero()
    else
      var last := instrs[|instrs| - 1];
      var before := instrs[..|instrs| - 1];
      if last.SetValue? && last.addr == a then Apply(ActiveMask(before), last.value)
      else FinalValue(before, a)
  }

  /** One past the highest address written, or 0. */
  function Extent(instrs: seq<Instruction>): nat
    decreases |instrs|
  {
    if instrs == [] then 0
    else
      var last := instrs[|instrs| - 1];
      var e := Extent(instrs[..|instrs| - 1]);
      if last.SetValue? && last.addr + 1 > e then last.addr + 1 else e
  }

  /** The CPU's state after a program is the last-write-wins memory: the
      tape is exactly long enough for the highest address written, and each
      slot holds its last write under the mask active at that time. */
  lemma {:induction false} ExecuteIsLastWriteWins(instrs: seq<Instruction>)
    ensures Execute(Initial, instrs).mask == ActiveMask(instrs)
    ensures |Execute(Initial, instrs).mem| == Extent(instrs)
    ensures forall a | 0 <= a < Extent(instrs) :: Execute(Initial, instrs).mem[a] == FinalValue(instrs, a)
    decreases |instrs|
  {
    if instrs != [] {
      var before := instrs[..|instrs| - 1];
      ExecuteIsLastWriteWins(before);
      forall a | Extent(before) <= a
        ensures FinalValue(before, a) == Zero()
      {
        UnwrittenIsZero(before, a);
      }
    }
  }

  /** Addresses past the extent were never written. */
  lemma {:induction false} UnwrittenIsZero(instrs: seq<Instruction>, a: nat)
    requires a >= Extent(instrs)
    ensures FinalValue(instrs, a) == Zero()
    decreases |instrs|
  {
    if instrs != [] {
      UnwrittenIsZero(instrs[..|instrs| - 1], a);
    }
  }

  /** The answer of `program` is the sum of the last-write-wins values. */
  lemma ProgramSumsFinalValues(instrs: seq<Instruction>)
    ensures Program(instrs) == LastWriteSum(instrs)
  {
    ExecuteIsLastWriteWins(instrs);
    var tape := Execute(Initial, instrs).mem;
    assert Values(tape) == seq(Extent(instrs), a requires 0 <= a < Extent(instrs) => Value(FinalValue(instrs, a)));
  }

  /** The sum `program` is meant to give: every written address holds its
      last write, masked by the mask in force at that time. */
  function LastWriteSum(instrs: seq<Instruction>): int {
    Sum(seq(Extent(instrs), a requires 0 <= a < Extent(instrs) => Value(FinalValue(instrs, a))))
  }

  /** `parse_instruction` on one line, with its panics. */
  function ParseLine(s: string): Outcome<Result<Instruction>> {
    if ParsePanics(s) then Panics else Finishes(ParseInstruction(s))
  }

  /** `Program::parse`: the lines in order; the first line that fails or
      panics ends the parse. */
  function ParseProgram(input: string): (r: Outcome<Result<seq<Instruction>>>)
    ensures Succeeds(r) <==> forall i | 0 <= i < |Lines(input)| :: Succeeds(ParseLine(Lines(input)[i]))
    ensures Succeeds(r) ==> |r.value.value| == |Lines(input)|
    ensures Succeeds(r) ==> forall i | 0 <= i < |Lines(input)| :: ParseLine(Lines(input)[i]) == Finishes(Ok(r.value.value[i]))
  {
    var f := ParseLine;
    assert forall i | 0 <= i < |Lines(input)| :: f(Lines(input)[i]) == ParseLine(Lines(input)[i]);
    CollectOutcomes(Lines(input), f)
  }

  /** Day 14 `part1`: parse the program, run it on a fresh CPU and sum the
      tape, which is the sum of the last-write-wins values. */
  function Part1(input: string): (r: Outcome<Result<int>>)
    ensures r.Panics? <==> ParseProgram(input).Panics?
    ensures Succeeds(r) <==> Succeeds(ParseProgram(input))
    ensures Succeeds(r) ==> r.value.value == LastWriteSum(ParseProgram(input).value.value)
  {
    match ParseProgram(input)
    case Panics => Panics
    case Finishes(Err(msg)) => Finishes(Err(msg))
    case Finishes(Ok(instrs)) =>
      ProgramSumsFinalValues(instrs);
      Finishes(Ok(Program(instrs)))
  }
}
