/** What a jump's operand is: a signed number, low byte first, that counts from the next instruction (Intel IA-32). */
module JumpFacts {
  import opened Bits
  import opened LittleEndian
  import opened Machine
  import opened JumpPatch

  lemma OperandIs(b: seq<Byte>)
    requires |b| == 4
    ensures Word(b) == ValueOf(BytesBits(b))
  {
    hide ValueOf, BytesBits;
    BitsOfNumber(b);
    FourIs(b);
  }

  /** A jump whose operand is at t, and which ends behind it, goes to its end plus the operand, modulo 32 bits. */
  lemma TargetIsRelative(code: seq<Byte>, t: nat)
    requires t + 4 <= |code|
    ensures Target(code, t) == (t + 4 + Signed(ValueOf(BytesBits(code[t..t + 4])))) % WRAP
  {
    OperandIs(code[t..t + 4]);
    var w := WordAt(code, t);
    if w >= 0x8000_0000 { Wrapped(t + 4 + w); }
  }

  lemma Wrapped(x: nat)
    ensures (x - WRAP) % WRAP == x % WRAP
  {
  }
}
