/**
 * The decoder as its caller sees it (miniz tinfl_decompress): the zlib header and trailer around the deflate stream,
 * the checksum, and calls that each bring a piece of the input and some room for output.
 */
module Decompressor {
  import opened Bits
  import opened Canonical
  import opened Deflate
  import opened InflateMeaning
  import opened InputBits
  import opened FastTable
  import opened Streams
  import I = Inflater
  import Adler
  import InflateSteps

  datatype Verdict = Going | NeedsMoreInput | HasMoreOutput | Done | Mismatch | Failed

  datatype Stage = Head | Body | Tail | Finished

  /** miniz's test of a zlib header, for an output buffer that does not wrap: the window size is not looked at. */
  predicate HeaderAccepted(cmf: nat, flg: nat) {
    (cmf * 256 + flg) % 31 == 0 && (flg / 32) % 2 == 0 && cmf % 16 == 8
  }

  /** The bits after the last block, from the next byte boundary on. */
  function Trailer(rest: seq<bool>): seq<bool> { rest[|rest| % 8..] }

  /** What the whole file amounts to. */
  ghost function Outcome(zlib: bool, head: seq<Byte>, goal: Result): Verdict {
    if !zlib then Done
    else if |head| == 2 && !HeaderAccepted(head[0], head[1]) then Failed
    else if TrailerOk(goal.0, goal.1) then Done
    else Mismatch
  }

  // ----- the trailer, shifted in byte by byte

  /** The 32-bit register starts at 1, as miniz leaves it; four bytes push that out. */
  function Rolled(b: seq<Byte>): (r: nat)
    ensures r < 0x1_0000_0000
  {
    if b == [] then 1 else RollIn(Rolled(b[..|b| - 1]), b[|b| - 1])
  }

  function RollIn(z: nat, b: Byte): (r: nat)
    ensures r < 0x1_0000_0000
  {
    var high := z % 0x100_0000;
    high * 256 + b
  }

  lemma RolledOne(b: seq<Byte>, c: Byte)
    ensures Rolled(b + [c]) == RollIn(Rolled(b), c)
  {
    assert (b + [c])[..|b + [c]| - 1] == b;
  }

  lemma BigEndianOne(b: seq<Byte>, c: Byte)
    ensures BigEndian(b + [c]) == 256 * BigEndian(b) + c
  {
    assert (b + [c])[..|b + [c]| - 1] == b;
  }

  lemma RolledFour(b: seq<Byte>)
    requires |b| == 4
    ensures Rolled(b) == BigEndian(b)
  {
    var b0: seq<Byte>, b1, b2, b3 := [], b[..1], b[..2], b[..3];
    RolledLess(b0, b[0], b1);
    RolledLess(b1, b[1], b2);
    RolledLess(b2, b[2], b3);
    RolledOne(b3, b[3]);
    BigEndianOne(b3, b[3]);
    assert b3 + [b[3]] == b;
  }

  /** Up to three bytes the one is still there. */
  lemma RolledLess(b: seq<Byte>, c: Byte, b': seq<Byte>)
    requires |b| < 3 && b' == b + [c] && Rolled(b) == Place(|b|) + BigEndian(b) && BigEndian(b) < Place(|b|)
    ensures Rolled(b') == Place(|b'|) + BigEndian(b') && BigEndian(b') < Place(|b'|)
  {
    RolledOne(b, c);
    BigEndianOne(b, c);
  }

  function Place(k: nat): nat { if k == 0 then 1 else 256 * Place(k - 1) }

  lemma {:induction false} BytesOneMore(t: seq<bool>, k: nat)
    requires 8 * (k + 1) <= |t|
    ensures ReadBytes(t[..8 * (k + 1)], k + 1) == ReadBytes(t[..8 * k], k) + [ByteOf(t[8 * k..][..8])]
    decreases k
  {
    var a, b := t[..8 * (k + 1)], t[..8 * k];
    if k == 0 {
      assert a[..8] == t[8 * k..][..8] && a[8..] == [];
    } else {
      BytesOneMore(t[8..], k - 1);
      assert a[..8] == b[..8] && a[8..] == t[8..][..8 * k] && b[8..] == t[8..][..8 * (k - 1)];
      assert t[8..][8 * (k - 1)..] == t[8 * k..];
    }
  }

  // ----- the header

  lemma HeaderByte(b: Byte, rest: seq<Byte>, bits: seq<bool>, all: seq<bool>)
    requires all == BytesBits([b] + rest) + bits
    ensures 8 <= |all| && ValueOf(all[..8]) == b && all[8..] == BytesBits(rest) + bits
  {
    var e: nat := 8;
    var s := [b] + rest;
    assert s[1..] == rest;
    assert Pow2(e) == 256;
    ValueOfBitsOf(b, e);
    Join(BitsOf(b, e), BytesBits(rest), bits);
    assert all == BitsOf(b, e) + (BytesBits(rest) + bits);
    assert all[..e] == BitsOf(b, e) && all[e..] == BytesBits(rest) + bits;
  }

  /** The text so far and its checksum, continued. */
  lemma CheckOn(text: seq<Byte>, m: nat, n: nat, check: nat)
    requires m <= n <= |text| && check == Adler.Checksum(text[..m])
    ensures check < 0x1_0000_0000 && Adler.Reduced((check % 0x1_0000, check / 0x1_0000))
    ensures Adler.Pack(Adler.Sums((check % 0x1_0000, check / 0x1_0000), text[m..n])) == Adler.Checksum(text[..n])
  {
    Adler.Continue(text[..m], text[m..n]);
    assert text[..m] + text[m..n] == text[..n];
  }

  class Decompressor {
    const raw: I.Inflater
    const zlib: bool
    /** Whether the caller wants the checksum even without a zlib wrapper. */
    const checks: bool
    var stage: Stage
    var zhdr: seq<Byte>
    var counter: nat
    var zAdler: nat
    var check: nat
    /** The header, and the bits of the deflate stream and all that follows. */
    ghost const head: seq<Byte>
    ghost const body: seq<bool>

    constructor (raw: I.Inflater, zlib: bool, checks: bool, ghost head: seq<Byte>, ghost body: seq<bool>)
      requires raw.Shape() && raw.Context() && raw.pc == I.BlockHead && raw.outPos == 0 && raw.rd.numBits == 0
      requires raw.rd.bits == BytesBits(head) + body && Goal(Blocks, body, [], raw.goal)
      requires if zlib then |head| == 2 && |Trailer(raw.goal.0)| >= 32 else head == []
      ensures Valid() && this.raw == raw && this.zlib == zlib && this.checks == checks && this.head == head
    {
      hide I.Inflater.InBuffer, Reader.Valid, Goal, BytesBits, I.Inflater.Shape, I.Inflater.AtStored, I.Inflater.AtHead,
           I.Inflater.AtCodes;
      this.raw, this.zlib, this.checks, this.head, this.body := raw, zlib, checks, head, body;
      stage, zhdr, counter, zAdler, check := if zlib then Head else Body, [], 0, 1, 1;
      new;
      assert head[0..] == head && [] + body == body;
      assert raw.Left(Blocks) || zlib;
    }

    ghost predicate HeadOk() { |head| == 2 && HeaderAccepted(head[0], head[1]) }

    ghost predicate AtHead()
      reads `stage, `zhdr, raw, raw.rd, raw.buf
    {
      stage == Head && zlib && |zhdr| <= 2 == |head| && zhdr == head[..|zhdr|] && raw.Shape() && raw.Context() &&
      raw.pc == I.BlockHead && raw.outPos == 0 && raw.rd.numBits == 0 &&
      raw.rd.bits == BytesBits(head[|zhdr|..]) + body && Goal(Blocks, body, [], raw.goal)
    }

    ghost predicate AtBody()
      reads `stage, raw, raw.rd, raw.buf, raw.rawHeader, raw.lenCodes, raw.t0, raw.t0.lookUp, raw.t0.tree, raw.t1,
            raw.t1.lookUp,
            raw.t1.tree, raw.t2, raw.t2.codeSize, raw.t2.lookUp, raw.t2.tree
    {
      stage == Body && raw.Inv()
    }

    /** All text is there. */
    ghost predicate TextDone()
      reads raw, raw.rd, raw.buf
    {
      raw.Context() && raw.goal.1 == raw.text
    }

    ghost function Tail4(k: nat): seq<Byte>
      requires k <= 4 && |Trailer(raw.goal.0)| >= 32
    {
      ReadBytes(Trailer(raw.goal.0)[..8 * k], k)
    }

    ghost predicate AtTail()
      reads `stage, `counter, `zAdler, raw, raw.rd, raw.buf
    {
      stage == Tail && zlib && TextDone() && raw.rd.numBits % 8 == 0 && counter <= 4 && |Trailer(raw.goal.0)| >= 32 &&
      raw.rd.bits == Trailer(raw.goal.0)[8 * counter..] && zAdler == Rolled(Tail4(counter))
    }

    ghost predicate AtEnd()
      reads `stage, `zAdler, raw, raw.rd, raw.buf
    {
      stage == Finished && TextDone() &&
      (zlib ==> |Trailer(raw.goal.0)| >= 32 && zAdler == BigEndian(Tail4(4)) && HeadOk())
    }

    /** Between any two stages. */
    ghost predicate Where()
      reads `stage, `zhdr, `counter, `zAdler, raw, raw.Parts()
    {
      (zlib ==> |head| == 2 && |Trailer(raw.goal.0)| >= 32 && (stage != Head ==> HeadOk())) &&
      raw.Context() && (AtHead() || AtBody() || AtTail() || AtEnd())
    }

    predicate Checking() { zlib || checks }

    /** Between calls. */
    ghost predicate Valid()
      reads this, raw, raw.Parts()
    {
      Where() && (Checking() ==> raw.outPos <= raw.buf.Length && check == Adler.Checksum(raw.text))
    }

    lemma TextSoFar()
      requires Where()
      ensures raw.outPos <= raw.buf.Length && raw.text <= raw.goal.1
    {
      if AtBody() { raw.OutputSoFar(); }
      if AtHead() { assert raw.text == []; }
    }

    /** The two bytes of the zlib header. */
    method HeadStage() returns (r: Verdict)
      requires AtHead()
      modifies `stage, `zhdr, raw.rd`bitBuf, raw.rd`numBits, raw.rd`p, raw.rd`bits
      ensures r == Going ==> AtBody() && HeadOk()
      ensures r != Going ==> AtHead() && (r == NeedsMoreInput || (r == Failed && !HeadOk()))
      ensures r == NeedsMoreInput ==> raw.rd.p == |raw.rd.input| && raw.rd.later != []
    {
      hide Goal, BytesBits, I.Inflater.InBuffer;
      while |zhdr| < 2
        invariant AtHead()
        decreases 2 - |zhdr|
      {
        r := HeadByte();
        if r != Going { return; }
      }
      var cmf: nat, flg: nat := zhdr[0], zhdr[1];
      if (cmf * 256 + flg) % 31 != 0 || (flg / 32) % 2 == 1 || cmf % 16 != 8 {
        return Failed;
      }
      StartBody();
      r := Going;
    }

    method HeadByte() returns (r: Verdict)
      requires AtHead() && |zhdr| < 2
      modifies `zhdr, raw.rd`p, raw.rd`bits
      ensures AtHead() && (r == Going || r == NeedsMoreInput) && (r == Going ==> |zhdr| == old(|zhdr|) + 1)
      ensures r == NeedsMoreInput ==> raw.rd.p == |raw.rd.input| && raw.rd.later != []
    {
      hide Reader.Valid, BytesBits, Goal, ValueOf, I.Inflater.InBuffer, I.Inflater.Shape;
      ghost var k := |zhdr|;
      assert head[k..] == [head[k]] + head[k + 1..];
      HeaderByte(head[k], head[k + 1..], body, raw.rd.bits);
      var ok, v := raw.rd.GetByte();
      if !ok { return NeedsMoreInput; }
      zhdr := zhdr + [v];
      assert zhdr == head[..k + 1];
      r := Going;
    }

    method StartBody()
      requires AtHead() && |zhdr| == 2
      modifies `stage
      ensures AtBody()
    {
      stage := Body;
      assert head[2..] == [] && [] + body == body && raw.text == [];
      assert raw.AtBlockHead();
    }

    /** The deflate stream. */
    method BodyStage() returns (r: Verdict)
      requires AtBody() && (zlib ==> |Trailer(raw.goal.0)| >= 32)
      modifies `stage, `counter, `zAdler, raw, raw.Parts()
      ensures raw.outPos >= old(raw.outPos) && raw.outEnd == old(raw.outEnd)
      ensures raw.rd.input == old(raw.rd.input) && raw.rd.later == old(raw.rd.later)
      ensures r == Going ==> if zlib then AtTail() else AtEnd()
      ensures r != Going ==> AtBody() && raw.Context() && (r == NeedsMoreInput || r == HasMoreOutput)
      ensures r == NeedsMoreInput ==> raw.rd.p == |raw.rd.input| && raw.rd.later != []
      ensures r == HasMoreOutput ==> raw.outPos == raw.outEnd && raw.Pending()
    {
      hide I.Inflater.Inv, I.Inflater.Shape, I.Inflater.InBuffer, Reader.Valid, Goal, BytesBits, ReadBytes, Rolled,
           BigEndian, HeaderAccepted, Decompressor.AtTail, Decompressor.AtEnd, Trailer;
      var s := raw.Advance();
      raw.Settled();
      match s {
        case NeedsMoreInput => r := NeedsMoreInput;
        case HasMoreOutput => r := HasMoreOutput;
        case Complete =>
          StartTail();
          r := Going;
      }
    }

    /** The rest of the last byte is skipped. */
    method StartTail()
      requires raw.AtFinished() && raw.Shape() && (zlib ==> |Trailer(raw.goal.0)| >= 32)
      modifies `stage, `counter, `zAdler, raw.rd`bitBuf, raw.rd`numBits, raw.rd`bits
      ensures if zlib then AtTail() else AtEnd()
    {
      hide Reader.Valid, BytesBits, Goal, I.Inflater.InBuffer, I.Inflater.Shape, BigEndian, HeaderAccepted;
      if !zlib {
        stage := Finished;
        return;
      }
      raw.rd.SameBit();
      var _ := raw.rd.Drop(raw.rd.numBits % 8);
      stage, counter, zAdler := Tail, 0, 1;
      assert Trailer(raw.goal.0)[0..] == Trailer(raw.goal.0);
    }

    /** The four bytes of the trailer. */
    method TailStage() returns (r: Verdict)
      requires AtTail() && HeadOk()
      modifies `stage, `counter, `zAdler, raw.rd`bitBuf, raw.rd`numBits, raw.rd`p, raw.rd`bits
      ensures r == Going ==> AtEnd()
      ensures r != Going ==> AtTail() && r == NeedsMoreInput && raw.rd.p == |raw.rd.input| && raw.rd.later != []
    {
      while counter < 4
        invariant AtTail()
        decreases 4 - counter
      {
        r := TailByte();
        if r != Going { return; }
      }
      RolledFour(Tail4(4));
      stage := Finished;
      r := Going;
    }

    method TailByte() returns (r: Verdict)
      requires AtTail() && counter < 4
      modifies `counter, `zAdler, raw.rd`bitBuf, raw.rd`numBits, raw.rd`p, raw.rd`bits
      ensures AtTail() && (r == Going || r == NeedsMoreInput) && (r == Going ==> counter == old(counter) + 1)
      ensures r == NeedsMoreInput ==> raw.rd.p == |raw.rd.input| && raw.rd.later != []
    {
      ghost var t := Trailer(raw.goal.0);
      var ok, v := raw.rd.GetAligned();
      if !ok { return NeedsMoreInput; }
      BytesOneMore(t, counter);
      RolledOne(Tail4(counter), v);
      assert t[8 * counter..][8..] == t[8 * (counter + 1)..];
      zAdler := RollIn(zAdler, v);
      counter := counter + 1;
      r := Going;
    }

    /** As far as the input and the room reach. */
    method RunStages() returns (r: Verdict)
      requires Where()
      modifies `stage, `zhdr, `counter, `zAdler, raw, raw.Parts()
      ensures Where() && r != Going && r != Mismatch && raw.outPos >= old(raw.outPos) && raw.outEnd == old(raw.outEnd)
      ensures raw.rd.input == old(raw.rd.input) && raw.rd.later == old(raw.rd.later)
      ensures r == NeedsMoreInput ==> raw.rd.p == |raw.rd.input| && raw.rd.later != []
      ensures r == HasMoreOutput ==> raw.outPos == raw.outEnd && raw.outPos < |raw.goal.1|
      ensures r == Done ==> AtEnd()
      ensures r == Failed ==> zlib && !HeadOk() && raw.outPos == 0
    {
      hide I.Inflater.Inv, I.Inflater.Shape, I.Inflater.InBuffer, Reader.Valid, Goal, BytesBits, ReadBytes, Rolled,
           BigEndian;
      r := Going;
      if stage == Head {
        r := HeadStage();
        if r != Going { return; }
      }
      if stage == Body {
        r := BodyStage();
        if r == HasMoreOutput { raw.OutputSoFar(); }
        if r != Going { return; }
      }
      if stage == Tail {
        r := TailStage();
        if r != Going { return; }
      }
      r := Done;
    }

    method Supply(piece: seq<Byte>, more: bool, room: nat)
      requires Where() && piece <= raw.rd.Unread() && (more || piece == raw.rd.Unread()) &&
               raw.outPos + room <= raw.buf.Length
      modifies raw`outEnd, raw.rd
      ensures Where() && raw.outEnd == raw.outPos + room && raw.text == old(raw.text)
      ensures raw.rd.input == piece && raw.rd.later == old(raw.rd.Unread())[|piece|..]
    {
      hide I.Inflater.Inv, I.Inflater.Shape, I.Inflater.InBuffer, Reader.Valid, Goal, BytesBits, ReadBytes, Rolled,
           BigEndian;
      raw.Supply(piece, more, room);
    }

    /** The bytes this call has put into the buffer. */
    lemma NewText(buf: seq<Byte>, text: seq<Byte>, all: seq<Byte>, start: nat)
      requires start <= |text| && text <= all && text <= buf
      ensures buf[start..|text|] == all[start..|text|] && text == all[..|text|]
    {
    }

    /** The checksum of the output of this call. */
    method Check(start: nat)
      requires Where() && Checking() && start <= raw.outPos && CheckedTo(start)
      modifies `check
      ensures Valid() && CheckedTo(raw.outPos)
    {
      hide AtHead, AtBody, AtTail, AtEnd, Adler.Sums, Adler.Checksum, Adler.Pack;
      TextSoFar();
      CheckOn(raw.goal.1, start, raw.outPos, check);
      raw.OpenBuffer();
      NewText(raw.buf[..], raw.text, raw.goal.1, start);
      check := Adler.Adler32(check, raw.buf[start..raw.outPos]);
    }

    /**
     * One call: a piece of the input from where the last call stopped reading, and some room after what is already in
     * the buffer. Whatever the cuts, the output is a prefix of the text, input is asked for only when there is more of
     * it, room only when there is more text, and the final verdict is that of the whole file.
     */
    method Decompress(piece: seq<Byte>, more: bool, room: nat) returns (r: Verdict)
      requires Valid() && piece <= raw.rd.Unread() && (more || piece == raw.rd.Unread()) &&
               raw.outPos + room <= raw.buf.Length
      modifies this, raw, raw.Parts()
      ensures Valid() && raw.rd.input == piece && raw.rd.p <= |piece| &&
              raw.rd.Unread() == old(raw.rd.Unread())[raw.rd.p..]
      ensures old(raw.outPos) <= raw.outPos <= old(raw.outPos) + room && raw.buf[..raw.outPos] == raw.text <= raw.goal.1
      ensures r == NeedsMoreInput ==> raw.rd.p == |piece| && piece != old(raw.rd.Unread())
      ensures r == HasMoreOutput ==> raw.outPos == old(raw.outPos) + room < |raw.goal.1|
      ensures r == NeedsMoreInput || r == HasMoreOutput || r == Outcome(zlib, head, raw.goal)
      ensures r == Done || r == Mismatch ==> raw.text == raw.goal.1
    {
      hide I.Inflater.Inv, I.Inflater.Shape, I.Inflater.InBuffer, Reader.Valid, Goal, BytesBits, ReadBytes, Rolled,
           BigEndian;
      var start := raw.outPos;
      CheckedSoFar();
      ghost var unread := raw.rd.Unread();
      Supply(piece, more, room);
      r := Through(piece, unread, start);
      raw.OpenBuffer();
    }

    method Through(piece: seq<Byte>, ghost unread: seq<Byte>, start: nat) returns (r: Verdict)
      requires Where() && CheckedTo(start) && start == raw.outPos && raw.rd.input == piece <= unread &&
               raw.rd.later == unread[|piece|..]
      modifies this, raw, raw.Parts()
      ensures Valid() && raw.rd.input == piece && raw.rd.p <= |piece| && raw.rd.Unread() == unread[raw.rd.p..]
      ensures start <= raw.outPos <= old(raw.outEnd) && raw.text <= raw.goal.1
      ensures r == NeedsMoreInput ==> raw.rd.p == |piece| && piece != unread
      ensures r == HasMoreOutput ==> raw.outPos == old(raw.outEnd) < |raw.goal.1|
      ensures r == NeedsMoreInput || r == HasMoreOutput || r == Outcome(zlib, head, raw.goal)
      ensures r == Done || r == Mismatch ==> raw.text == raw.goal.1
    {
      hide I.Inflater.Inv, I.Inflater.Shape, I.Inflater.InBuffer, Reader.Valid, Goal, BytesBits, ReadBytes, Rolled,
           BigEndian;
      r := RunStages();
      UnreadNow(piece, unread);
      TextSoFar();
      r := Conclude(r, start);
    }

    /** What has to be true of the checksum before the output of this call is added to it. */
    ghost predicate CheckedTo(start: nat)
      reads `check
    {
      Checking() ==> start <= |raw.goal.1| && check == Adler.Checksum(raw.goal.1[..start])
    }

    lemma CheckedSoFar()
      requires Valid()
      ensures CheckedTo(raw.outPos)
    {
      TextSoFar();
      assert raw.text == raw.goal.1[..raw.outPos];
    }

    /** The checksum, and the comparison at the end. */
    method Conclude(r0: Verdict, start: nat) returns (r: Verdict)
      requires Where() && CheckedTo(start) && start <= raw.outPos &&
               (r0 == Failed ==> raw.outPos == start && zlib && !HeadOk()) && (r0 == Done ==> AtEnd())
      requires r0 != Mismatch && r0 != Going
      modifies `check
      ensures Valid() && (r0 == Done ==> AtEnd())
      ensures if r0 == NeedsMoreInput || r0 == HasMoreOutput then r == r0 else r == Outcome(zlib, head, raw.goal)
    {
      if r0 != Failed {
        if Checking() { Check(start); }
      } else {
        TextSoFar();
        assert raw.text == raw.goal.1[..start];
      }
      r := r0;
      if r0 == Done {
        r := Compare();
      }
    }

    method Compare() returns (r: Verdict)
      requires Valid() && AtEnd()
      ensures r == Outcome(zlib, head, raw.goal) && (r == Done || r == Mismatch)
    {
      if zlib && check != zAdler { return Mismatch; }
      r := Done;
    }

    lemma UnreadNow(piece: seq<Byte>, unread: seq<Byte>)
      requires raw.Context() && raw.rd.input == piece <= unread && raw.rd.later == unread[|piece|..]
      ensures raw.rd.p <= |piece| && raw.rd.Unread() == unread[raw.rd.p..]
    {
      raw.rd.Open();
    }
  }

  // ----- whole files

  /** A complete file: its blocks come to an end, and a zlib file has its trailer. */
  ghost predicate CompleteFile(file: seq<Byte>, zlib: bool, goal: Result) {
    if zlib then |file| >= 2 && InflateFrom(BytesBits(file[2..]), []) == Some(goal) && |Trailer(goal.0)| >= 32
    else InflateFrom(BytesBits(file), []) == Some(goal)
  }

  function HeadOf(file: seq<Byte>, zlib: bool): seq<Byte> {
    if zlib && |file| >= 2 then file[..2] else []
  }

  lemma StartOfFile(file: seq<Byte>, zlib: bool, goal: Result) returns (body: seq<bool>)
    requires CompleteFile(file, zlib, goal)
    ensures BytesBits(file) == BytesBits(HeadOf(file, zlib)) + body && Goal(Blocks, body, [], goal)
    ensures if zlib then |HeadOf(file, zlib)| == 2 && |Trailer(goal.0)| >= 32 else HeadOf(file, zlib) == []
  {
    var h := HeadOf(file, zlib);
    var rest := file[|h|..];
    body := BytesBits(rest);
    assert h + rest == file;
    BytesBitsConcat(h, rest);
    InflateSteps.FoldAfter(false, body, [], goal);
    Fold(Blocks, body, [], goal);
  }

  /** A new decoder at the beginning of a file, with a buffer of size bytes. */
  method Open(zlib: bool, checks: bool, size: nat, ghost file: seq<Byte>, ghost goal: Result) returns (d: Decompressor)
    requires CompleteFile(file, zlib, goal)
    ensures fresh(d) && fresh(d.raw) && fresh(d.raw.Parts()) && d.Valid() && d.zlib == zlib &&
            d.head == HeadOf(file, zlib)
    ensures d.raw.goal == goal && d.raw.buf.Length == size && d.raw.rd.Unread() == file
  {
    ghost var body := StartOfFile(file, zlib, goal);
    var raw := OpenRaw(size, file, goal);
    d := new Decompressor(raw, zlib, checks, HeadOf(file, zlib), body);
    assert file[0..] == file;
  }

  method NewTables() returns (t0: FastTable, t1: FastTable, t2: FastTable)
    ensures t0.Shape() && t1.Shape() && t2.Shape() && fresh({t0, t1, t2}) && fresh(t0.Arrays()) && fresh(t1.Arrays()) &&
            fresh(t2.Arrays())
    ensures t0 != t1 && t0 != t2 && t1 != t2
    ensures t0.Arrays() !! t1.Arrays() && t0.Arrays() !! t2.Arrays() && t1.Arrays() !! t2.Arrays()
  {
    t0 := new FastTable();
    t1 := new FastTable();
    t2 := new FastTable();
  }

  /** A deflate decoder around a reader, with its arrays and tables. */
  method NewInflater(rd: Reader, size: nat, ghost goal: Result) returns (raw: I.Inflater)
    ensures fresh(raw) && raw.rd == rd && raw.Shape() && raw.buf.Length == size && raw.goal == goal
    ensures fresh({raw.rawHeader, raw.buf}) && fresh(raw.lenCodes) && fresh({raw.t0, raw.t1, raw.t2})
    ensures fresh(raw.t0.Arrays()) && fresh(raw.t1.Arrays()) && fresh(raw.t2.Arrays())
    ensures raw.pc == I.BlockHead && raw.outPos == raw.outEnd == 0 && raw.text == [] && raw.InBuffer()
  {
    hide Reader.Valid, FastTable.Shape, FastTable.Arrays, I.Inflater.InBuffer;
    var rawHeader := new Byte[4](_ => 0);
    var lenCodes := new nat[457](_ => 0);
    var buf := new Byte[size](_ => 0);
    ghost var own: set<object> := {rd, rawHeader, lenCodes, buf};
    var t0, t1, t2 := NewTables();
    assert own !! t0.Arrays() && own !! t1.Arrays() && own !! t2.Arrays();
    raw := new I.Inflater(rd, t0, t1, t2, rawHeader, lenCodes, buf, goal);
  }

  method OpenRaw(size: nat, ghost file: seq<Byte>, ghost goal: Result) returns (raw: I.Inflater)
    ensures fresh(raw) && fresh(raw.Parts()) && raw.buf.Length == size && raw.goal == goal
    ensures raw.Shape() && raw.Context() && raw.pc == I.BlockHead && raw.outPos == 0
    ensures raw.rd.Unread() == file && raw.rd.bits == BytesBits(file) && raw.rd.numBits == 0
  {
    hide Reader.Valid, BytesBits, I.Inflater.Shape, I.Inflater.InBuffer;
    var rd := new Reader(file);
    raw := NewInflater(rd, size, goal);
  }

  /** How a caller cuts up the work: how much input and how much room a call gets, and whether it is told of more. */
  datatype Call = Call(take: nat, room: nat, more: bool)

  function Min(a: nat, b: nat): nat { if a < b then a else b }

  /** One call as a caller makes it: what has not been read is offered again. */
  method Feed(d: Decompressor, file: seq<Byte>, at: nat, call: Call) returns (r: Verdict, at': nat)
    requires d.Valid() && at <= |file| && d.raw.rd.Unread() == file[at..]
    modifies d, d.raw, d.raw.Parts()
    ensures d.Valid() && at <= at' <= |file| && d.raw.rd.Unread() == file[at'..] && d.raw.text <= d.raw.goal.1
    ensures call.take >= |file| - at ==> r != NeedsMoreInput
    ensures r == HasMoreOutput ==>
              d.raw.outPos < |d.raw.goal.1| &&
              d.raw.outPos == Min(old(d.raw.outPos) + call.room, d.raw.buf.Length)
    ensures r == NeedsMoreInput || r == HasMoreOutput || r == Outcome(d.zlib, d.head, d.raw.goal)
    ensures r == Done || r == Mismatch ==> d.raw.text == d.raw.goal.1
  {
    var n := Min(call.take, |file| - at);
    var room := Min(call.room, d.raw.buf.Length - d.raw.outPos);
    var piece := file[at..at + n];
    assert piece == file[at..][..n];
    r := d.Decompress(piece, call.more || at + n < |file|, room);
    at' := at + d.raw.rd.p;
  }

  /**
   * Chunk independence: any calls with any cuts of the input and of the room, then one with all that is left, give the
   * text and the verdict, and these depend on the file alone.
   */
  method DecompressAll(file: seq<Byte>, zlib: bool, checks: bool, size: nat, calls: seq<Call>, ghost goal: Result)
      returns (r: Verdict, out: seq<Byte>)
    requires CompleteFile(file, zlib, goal) && |goal.1| <= size
    ensures r == Outcome(zlib, HeadOf(file, zlib), goal) && (r == Done || r == Mismatch ==> out == goal.1)
  {
    var d := Open(zlib, checks, size, file, goal);
    var at, i := 0, 0;
    assert file[0..] == file;
    while i < |calls|
      invariant i <= |calls| && d.Valid() && at <= |file| && d.raw.rd.Unread() == file[at..]
      invariant fresh(d) && fresh(d.raw) && fresh(d.raw.Parts())
    {
      r, at := Feed(d, file, at, calls[i]);
      i := i + 1;
    }
    r, at := Feed(d, file, at, Call(|file|, size, false));
    d.raw.OpenBuffer();
    out := d.raw.buf[..d.raw.outPos];
  }

  /** What the specification decodes, the decoder decodes, however the calls are cut. */
  method DecompressFile(file: seq<Byte>, zlib: bool, checks: bool, size: nat, calls: seq<Call>, ghost text: seq<Byte>)
      returns (r: Verdict, out: seq<Byte>)
    requires (if zlib then Unzlib(file) else Inflate(file)) == Some(text) && |text| <= size
    ensures r == Done && out == text
  {
    ghost var goal := GoalOf(file, zlib, text);
    r, out := DecompressAll(file, zlib, checks, size, calls, goal);
  }

  lemma GoalOf(file: seq<Byte>, zlib: bool, text: seq<Byte>) returns (goal: Result)
    requires (if zlib then Unzlib(file) else Inflate(file)) == Some(text)
    ensures CompleteFile(file, zlib, goal) && goal.1 == text && Outcome(zlib, HeadOf(file, zlib), goal) == Done
  {
    if zlib {
      goal := ZlibGoal(file, text);
    } else {
      goal := InflateFrom(BytesBits(file), []).value;
    }
  }

  lemma ZlibGoal(file: seq<Byte>, text: seq<Byte>) returns (goal: Result)
    requires Unzlib(file) == Some(text)
    ensures CompleteFile(file, true, goal) && goal.1 == text && HeaderOk(file[0], file[1]) && TrailerOk(goal.0, goal.1)
  {
    goal := InflateFrom(BytesBits(file[2..]), []).value;
  }
}
