/** The few instructions of the processor that tests are made of, and where control goes through them (Intel IA-32). */
module Machine {
  import opened Bits

  datatype Flags = Flags(carry: bool, zero: bool, sign: bool, overflow: bool, parity: bool)

  datatype State = State(flags: Flags, regs: seq<nat>)

  /** The condition of the jump with opcode 0F 80 + cc. */
  predicate Cond(cc: nat, f: Flags) {
    var base :=
      match cc / 2
      case 0 => f.overflow
      case 1 => f.carry
      case 2 => f.zero
      case 3 => f.carry || f.zero
      case 4 => f.sign
      case 5 => f.parity
      case 6 => f.sign != f.overflow
      case _ => f.zero || f.sign != f.overflow;
    base != (cc % 2 == 1)
  }

  /** The flags after a register has been tested against itself; the sign and the parity may be anything here. */
  predicate AfterTest(v: nat, f: Flags) {
    !f.carry && !f.overflow && (f.zero <==> v == 0)
  }

  /** Control leaves a stretch of code at its end, or through the jump whose operand is at an address. */
  datatype Outcome = Falls | Taken(operand: nat)

  /** Control that enters the code at at, before its end, can leave it in this way. */
  ghost predicate Leaves(code: seq<Byte>, at: nat, end: nat, s: State, o: Outcome)
    requires end <= |code|
    decreases end - at
  {
    if at >= end then at == end && o == Falls
    else if code[at] == 0xE9 && at + 5 <= end then o == Taken(at + 1)
    else if code[at] == 0x0F && at + 6 <= end && 0x80 <= code[at + 1] < 0x90 then
      if Cond(code[at + 1] - 0x80, s.flags) then o == Taken(at + 2) else Leaves(code, at + 6, end, s, o)
    else if code[at] == 0x85 && at + 2 <= end && SameRegister(code[at + 1]) && RegisterOf(code[at + 1]) < |s.regs| then
      exists f: Flags ::
        AfterTest(s.regs[RegisterOf(code[at + 1])], f) && Leaves(code, at + 2, end, State(f, s.regs), o)
    else false
  }

  /** A ModRM byte that names one register twice. */
  predicate SameRegister(b: Byte) { b >= 0xC0 && (b - 0xC0) / 8 == b % 8 }

  function RegisterOf(b: Byte): nat { b % 8 }

  // ----- ways through

  lemma NothingLeaves(code: seq<Byte>, s: State, o: Outcome)
    ensures Leaves(code, |code|, |code|, s, o) <==> o == Falls
  {
  }

  lemma JmpLeaves(code: seq<Byte>, at: nat, s: State, o: Outcome)
    requires |code| == at + 5 && code[at] == 0xE9
    ensures Leaves(code, at, |code|, s, o) <==> o == Taken(at + 1)
  {
  }

  /** A conditional jump at the end of the code. */
  lemma JccLeaves(code: seq<Byte>, at: nat, cc: nat, s: State, o: Outcome)
    requires |code| == at + 6 && cc < 16 && code[at] == 0x0F && code[at + 1] == 0x80 + cc
    ensures Leaves(code, at, |code|, s, o) <==> o == if Cond(cc, s.flags) then Taken(at + 2) else Falls
  {
    hide Cond;
    NothingLeaves(code, s, o);
  }

  lemma CondZero(f: Flags)
    ensures Cond(4, f) == f.zero && Cond(5, f) == !f.zero
  {
  }

  /** The last bit of a condition's number turns it round. */
  lemma CondFlips(cc: nat, f: Flags)
    ensures cc % 2 == 0 ==> Cond(cc + 1, f) != Cond(cc, f)
    ensures cc % 2 == 1 ==> Cond(cc - 1, f) != Cond(cc, f)
  {
  }

  /** A register is tested for zero, or for not being zero, and a conditional jump follows. */
  lemma TestLeaves(code: seq<Byte>, at: nat, v: nat, cc: nat, s: State, o: Outcome)
    requires |code| == at + 8 && v < 8 == |s.regs| && 4 <= cc <= 5
    requires code[at] == 0x85 && code[at + 1] == 0xC0 + 9 * v && code[at + 2] == 0x0F && code[at + 3] == 0x80 + cc
    ensures Leaves(code, at, |code|, s, o) <==>
            o == if (s.regs[v] == 0) == (cc == 4) then Taken(at + 4) else Falls
  {
    hide Cond;
    var own := Flags(false, s.regs[v] == 0, false, false, false);
    assert SameRegister(code[at + 1]) && RegisterOf(code[at + 1]) == v && AfterTest(s.regs[v], own);
    CondZero(own);
    JccLeaves(code, at + 2, cc, State(own, s.regs), o);
    if Leaves(code, at, |code|, s, o) {
      var f: Flags :| AfterTest(s.regs[v], f) && Leaves(code, at + 2, |code|, State(f, s.regs), o);
      CondZero(f);
      JccLeaves(code, at + 2, cc, State(f, s.regs), o);
    }
  }

  // ----- comparisons

  const WRAP: nat := 0x1_0000_0000

  function Signed(x: nat): int { if x < 0x8000_0000 then x else x - WRAP }

  /** The flags after x has been compared with y, two 32-bit numbers. */
  function AfterCompare(x: nat, y: nat, parity: bool): Flags
    requires x < WRAP && y < WRAP
  {
    var d := Signed(x) - Signed(y);
    Flags(x < y, x == y, (x - y) % WRAP >= 0x8000_0000, d < -0x8000_0000 || d >= 0x8000_0000, parity)
  }

  /** TCC's tokens for comparisons. */
  const ULT: nat := 0x92
  const UGE: nat := 0x93
  const EQ: nat := 0x94
  const NE: nat := 0x95
  const ULE: nat := 0x96
  const UGT: nat := 0x97
  const LT: nat := 0x9C
  const GE: nat := 0x9D
  const LE: nat := 0x9E
  const GT: nat := 0x9F

  predicate IsComparison(tok: nat) { ULT <= tok <= UGT || LT <= tok <= GT }

  /** What a comparison means. */
  predicate Compares(tok: nat, x: nat, y: nat) {
    if tok == ULT then x < y else if tok == UGE then x >= y else if tok == EQ then x == y else if tok == NE then x != y
    else if tok == ULE then x <= y else if tok == UGT then x > y
    else if tok == LT then Signed(x) < Signed(y) else if tok == GE then Signed(x) >= Signed(y)
    else if tok == LE then Signed(x) <= Signed(y) else Signed(x) > Signed(y)
  }

  /** After a comparison the condition whose number is in the token's low bits holds just when the comparison does. */
  lemma CompareIff(tok: nat, x: nat, y: nat, parity: bool)
    requires x < WRAP && y < WRAP && IsComparison(tok)
    ensures Cond(tok - 0x90, AfterCompare(x, y, parity)) <==> Compares(tok, x, y)
  {
  }
}
