/** The resumable decoder (miniz tinfl_decompress) for raw deflate streams and a non-wrapping output buffer. */
module Inflater {
  import opened Bits
  import opened Canonical
  import opened Deflate
  import opened InflateMeaning
  import InflatePrefix
  import opened InflateSteps
  import opened LookupTable
  import opened FastTable
  import opened InputBits
  import FixedCodes
  import MatchCopy

  /** Where the decoder is: the points at which it can stop, and those it passes on the way between them. */
  datatype Pc =
    | BlockHead | HeaderByte | HeldByte | PutHeld | StoredBytes
    | SizeField | ClenField | LengthSym | RunField
    | Symbol | PutLiteral | AfterSymbol | LengthField | DistSym | DistField | CopyBytes
    | BlockEnd | Finished

  datatype Status = Going | NeedsMoreInput | HasMoreOutput | Complete

  class Inflater {
    const rd: Reader
    const t0: FastTable
    const t1: FastTable
    const t2: FastTable
    const rawHeader: array<Byte>
    const lenCodes: array<nat>
    const buf: array<Byte>
    var pc: Pc
    var final: bool
    var dist: nat
    var counter: nat
    var numExtra: nat
    var distFrom: nat
    var sizes: seq<nat>
    /** A fill that stopped in the middle of a symbol. */
    var filling: bool
    var outPos: nat
    var outEnd: nat
    /** The output so far. */
    ghost var text: seq<Byte>
    ghost const goal: Result
    /** The codes the tables are for. */
    ghost var lit: seq<nat>
    ghost var dst: seq<nat>
    ghost var clen: seq<nat>

    /** A decoder at the beginning of a stream. */
    constructor (rd: Reader, t0: FastTable, t1: FastTable, t2: FastTable, rawHeader: array<Byte>, lenCodes: array<nat>,
        buf: array<Byte>, ghost goal: Result)
      ensures this.rd == rd && this.t0 == t0 && this.t1 == t1 && this.t2 == t2
      ensures this.rawHeader == rawHeader && this.lenCodes == lenCodes && this.buf == buf && this.goal == goal
      ensures pc == BlockHead && outPos == outEnd == 0 && text == [] && InBuffer()
    {
      this.rd, this.t0, this.t1, this.t2 := rd, t0, t1, t2;
      this.rawHeader, this.lenCodes, this.buf, this.goal := rawHeader, lenCodes, buf, goal;
      pc, final, dist, counter, numExtra, distFrom, sizes, filling := BlockHead, false, 0, 0, 0, 0, [], false;
      outPos, outEnd, text, lit, dst, clen := 0, 0, [], [], [], [];
    }

    ghost predicate Shape() {
      t0.Shape() && t1.Shape() && t2.Shape() && rawHeader.Length == 4 && lenCodes.Length == 457 &&
      t0 != t1 && t0 != t2 && t1 != t2 &&
      t0.Arrays() !! t1.Arrays() && t0.Arrays() !! t2.Arrays() && t1.Arrays() !! t2.Arrays() &&
      Own() !! t0.Arrays() + t1.Arrays() + t2.Arrays() && rawHeader != buf
    }

    ghost function Own(): set<object> { {rd, rawHeader, lenCodes, buf} }

    /** Everything a decoder changes besides itself. */
    ghost function Parts(): set<object> { Own() + {t0, t1, t2} + t0.Arrays() + t1.Arrays() + t2.Arrays() }

    ghost predicate Context()
      reads `outPos, `outEnd, `text, rd, buf
    {
      rd.Valid() && outPos <= outEnd <= buf.Length && |text| == outPos && InBuffer()
    }

    /** The output is in the buffer; not to be looked into until the verifier meets a key. */
    ghost predicate InBuffer()
      reads `text, buf
    {
      forall k: int | InputBits.Key(k) :: text <= buf[..]
    }

    lemma OpenBuffer()
      requires Context()
      ensures outPos <= buf.Length && text == buf[..outPos]
    {
      assert InputBits.Key(0);
    }

    /** What is left to do, todo, gives the goal. */
    ghost predicate Left(todo: Todo)
      reads `outPos, `outEnd, `text, rd, buf
    {
      Context() && Goal(todo, rd.bits, text, goal)
    }

    lemma OpenLeft(todo: Todo)
      requires Left(todo)
      ensures rd.Valid() && outPos <= outEnd <= buf.Length && |text| == outPos && InBuffer() &&
              Goal(todo, rd.bits, text, goal)
    {
    }

    lemma CloseLeft(todo: Todo)
      requires rd.Valid() && outPos <= outEnd <= buf.Length && |text| == outPos && InBuffer() &&
               Goal(todo, rd.bits, text, goal)
      ensures Left(todo)
    {
    }

    /** The literal and distance tables decode the codes of the block. */
    ghost predicate Tables()
      reads `lit, `dst, t0, t0.lookUp, t0.tree, t1, t1.lookUp, t1.tree
    {
      forall k: int | InputBits.Key(k) :: t0.Built(lit) && t1.Built(dst) && Acceptable(lit) && Acceptable(dst)
    }

    lemma OpenTables()
      requires Tables()
      ensures t0.Built(lit) && t1.Built(dst) && Acceptable(lit) && Acceptable(dst)
    {
      assert InputBits.Key(0);
    }

    ghost predicate LensTable()
      reads `clen, `sizes, t2, t2.lookUp, t2.tree
    {
      |clen| == 19 && |sizes| == 3 && sizes[0] <= 288 && sizes[1] <= 32 && LensBuilt()
    }

    ghost predicate LensBuilt()
      reads `clen, t2, t2.lookUp, t2.tree
    {
      forall k: int | InputBits.Key(k) :: t2.Built(clen) && Acceptable(clen)
    }

    lemma OpenLens()
      requires LensTable()
      ensures t2.Built(clen) && Acceptable(clen)
    {
      assert InputBits.Key(0);
    }

    // ----- where the decoder is and what that leaves to do

    ghost predicate AtBlockHead()
      reads this, rd, buf
    {
      pc == BlockHead && Left(Blocks)
    }

    ghost predicate AtHeaderByte()
      reads this, rd, buf, rawHeader
    {
      pc == HeaderByte && rd.numBits % 8 == 0 && counter <= 4 == rawHeader.Length &&
      Left(StoredHead(final, rawHeader[..counter]))
    }

    ghost predicate AtHeldByte()
      reads this, rd, buf
    {
      pc == HeldByte && rd.numBits % 8 == 0 && Left(StoredData(final, counter))
    }

    ghost predicate AtPutHeld()
      reads this, rd, buf
    {
      pc == PutHeld && rd.numBits % 8 == 0 && counter > 0 && dist < 256 && Left(StoredByte(final, counter - 1, dist))
    }

    ghost predicate AtStoredBytes()
      reads this, rd, buf
    {
      pc == StoredBytes && (counter > 0 ==> rd.numBits == 0) && Left(StoredData(final, counter))
    }

    ghost predicate AtSizeField()
      reads this, rd, buf
    {
      pc == SizeField && counter == |sizes| <= 3 && (|sizes| > 0 ==> sizes[0] <= 288) &&
      (|sizes| > 1 ==> sizes[1] <= 32) &&
      Left(Sizes(final, sizes))
    }

    ghost predicate AtClenField()
      reads this, rd, buf, t2, t2.codeSize
    {
      pc == ClenField && |sizes| == 3 && sizes[0] <= 288 && sizes[1] <= 32 &&
      counter <= sizes[2] <= 19 <= t2.codeSize.Length &&
      Left(Clens(final, sizes[0], sizes[1], sizes[2], counter, t2.codeSize[..19]))
    }

    ghost predicate AtLengthSym()
      reads this, rd, buf, lenCodes, t2, t2.lookUp, t2.tree
    {
      pc == LengthSym && LensTable() && counter <= lenCodes.Length &&
      Left(Lens(final, sizes[0], sizes[1], clen, lenCodes[..counter]))
    }

    ghost predicate AtRunField()
      reads this, rd, buf, lenCodes, t2, t2.lookUp, t2.tree
    {
      pc == RunField && LensTable() && counter < sizes[0] + sizes[1] && counter <= lenCodes.Length && dist >= 16 &&
      Left(Run(final, sizes[0], sizes[1], clen, lenCodes[..counter], dist))
    }

    ghost predicate AtSymbol()
      reads this, rd, buf, t0, t0.lookUp, t0.tree, t1, t1.lookUp, t1.tree
    {
      pc == Symbol && Tables() && Left(Codes(final, lit, dst))
    }

    ghost predicate AtPutLiteral()
      reads this, rd, buf, t0, t0.lookUp, t0.tree, t1, t1.lookUp, t1.tree
    {
      pc == PutLiteral && Tables() && counter < 256 && Left(Literal(final, lit, dst, counter))
    }

    ghost predicate AtAfterSymbol()
      reads this, rd, buf, t0, t0.lookUp, t0.tree, t1, t1.lookUp, t1.tree
    {
      pc == AfterSymbol && Tables() && counter >= 256 && Left(Sym(final, lit, dst, counter))
    }

    ghost predicate AtLengthField()
      reads this, rd, buf, t0, t0.lookUp, t0.tree, t1, t1.lookUp, t1.tree
    {
      pc == LengthField && Tables() && numExtra <= 5 && Left(LengthBits(final, lit, dst, counter, numExtra))
    }

    ghost predicate AtDistSym()
      reads this, rd, buf, t0, t0.lookUp, t0.tree, t1, t1.lookUp, t1.tree
    {
      pc == DistSym && Tables() && Left(DistCode(final, lit, dst, counter))
    }

    ghost predicate AtDistField()
      reads this, rd, buf, t0, t0.lookUp, t0.tree, t1, t1.lookUp, t1.tree
    {
      pc == DistField && Tables() && numExtra <= 13 && Left(DistBits(final, lit, dst, counter, dist, numExtra))
    }

    ghost predicate AtCopyBytes()
      reads this, rd, buf, t0, t0.lookUp, t0.tree, t1, t1.lookUp, t1.tree
    {
      pc == CopyBytes && Tables() && counter > 0 && distFrom == outPos && Left(Copying(final, lit, dst, counter, dist))
    }

    ghost predicate AtBlockEnd()
      reads this, rd, buf
    {
      pc == BlockEnd && Left(End(final))
    }

    ghost predicate AtFinished()
      reads this, rd, buf
    {
      pc == Finished && Context() && goal == (rd.bits, text)
    }

    /** What a step that cannot go on leaves behind. */
    ghost predicate Stopped(r: Status)
      reads this, rd
    {
      r != Complete && (r == NeedsMoreInput ==> rd.p == |rd.input| && rd.later != []) &&
      (r == HasMoreOutput ==> outPos == outEnd && Pending())
    }

    lemma Starved()
      requires rd.p == |rd.input| && rd.later != []
      ensures Stopped(NeedsMoreInput)
    {
    }

    lemma NotComplete(r: Status)
      requires Stopped(r)
      ensures r != Complete
    {
    }

    lemma GoesOn()
      ensures Stopped(Going)
    {
    }

    /** A byte of output is known to be missing. */
    predicate Pending()
      reads this
    {
      pc == PutHeld || pc == PutLiteral || (pc == StoredBytes && counter > 0) || (pc == CopyBytes && counter > 0)
    }

    // ----- stored blocks

    /** One byte of a stored block's header. */
    method HeaderStep() returns (r: Status)
      requires AtHeaderByte() && counter < 4 && rawHeader != buf
      modifies `counter, rd`bitBuf, rd`numBits, rd`p, rd`bits, rawHeader
      ensures AtHeaderByte() && Stopped(r) && (r == Going ==> Progress(|rd.bits|, pc, old(|rd.bits|), old(pc)))
    {
      ghost var hdr := rawHeader[..counter];
      HeadStep(final, hdr, rd.bits, text, goal);
      var ok, v := rd.GetAligned();
      if !ok { return NeedsMoreInput; }
      rawHeader[counter] := v;
      counter := counter + 1;
      assert rawHeader[..counter] == hdr + [v];
      r := Going;
    }

    /** The header is complete; its two halves agree on the length. */
    method HeaderDone()
      requires AtHeaderByte() && counter == 4
      modifies `counter, `pc
      ensures AtHeldByte() && rd.bits == old(rd.bits)
    {
      assert rawHeader[..4] == rawHeader[..];
      HeadDone(final, rawHeader[..], rd.bits, text, goal);
      var lo: nat, hi: nat := rawHeader[0], rawHeader[1];
      counter := lo + 256 * hi;
      pc := HeldByte;
    }

    /** Held bits are whole bytes of the block. */
    method HeldStep()
      requires AtHeldByte()
      modifies `dist, `pc, rd`bitBuf, rd`numBits, rd`p, rd`bits
      ensures (AtPutHeld() && |rd.bits| < old(|rd.bits|)) || (AtStoredBytes() && rd.bits == old(rd.bits))
    {
      if counter > 0 && rd.numBits > 0 {
        TakeHeld();
      } else {
        pc := StoredBytes;
      }
    }

    method TakeHeld()
      requires AtHeldByte() && counter > 0 && rd.numBits > 0
      modifies `dist, `pc, rd`bitBuf, rd`numBits, rd`p, rd`bits
      ensures AtPutHeld() && |rd.bits| < old(|rd.bits|)
    {
      hide Left, Tables, LensBuilt, Goal, InBuffer, Acceptable, FastTable.Built, Reader.Valid, ReadSym, ValueOf;
      OpenLeft(StoredData(final, counter));
      DataStep(final, counter, rd.bits, text, goal);
      OneByteLess(rd.numBits);
      var v := rd.Drop(8);
      CloseLeft(StoredByte(final, counter - 1, v));
      dist := v;
      pc := PutHeld;
    }

    /** Appends a byte to the output. */
    method Put(b: Byte)
      requires Context() && outPos < outEnd
      modifies `outPos, `text, buf
      ensures Context() && outPos == old(outPos) + 1 && text == old(text) + [b]
    {
      OpenBuffer();
      buf[outPos] := b;
      text, outPos := text + [b], outPos + 1;
    }

    method PutHeldStep() returns (r: Status)
      requires AtPutHeld()
      modifies `counter, `pc, `outPos, `text, buf
      ensures (if r == Going then AtHeldByte() else AtPutHeld()) && Stopped(r) && rd.bits == old(rd.bits)
      ensures outPos >= old(outPos)
    {
      hide Tables, LensBuilt, Goal, InBuffer, Acceptable, FastTable.Built, Reader.Valid;
      if outPos >= outEnd { return HasMoreOutput; }
      ByteStep(final, counter - 1, dist, rd.bits, text, goal);
      Put(dist);
      counter := counter - 1;
      pc := HeldByte;
      r := Going;
    }

    /** Bytes of the block straight from the input to the output: as many as there are and as fit. */
    method StoredStep() returns (r: Status)
      requires AtStoredBytes()
      modifies `counter, `pc, `outPos, `text, rd`bitBuf, rd`numBits, rd`p, rd`bits, buf
      ensures Stopped(r) && (AtBlockEnd() || AtStoredBytes())
      ensures r == Going ==> |rd.bits| < old(|rd.bits|) || (pc == BlockEnd && |rd.bits| == old(|rd.bits|))
      ensures outPos >= old(outPos)
    {
      if counter == 0 {
        DataDone(final, rd.bits, text, goal);
        pc := BlockEnd;
        return Going;
      }
      if outPos >= outEnd { return HasMoreOutput; }
      if rd.p >= |rd.input| {
        NoMoreStored();
        return NeedsMoreInput;
      }
      CopyStored();
      r := Going;
    }

    /** The input cannot end inside a block. */
    lemma NoMoreStored()
      requires AtStoredBytes() && counter > 0 && rd.p >= |rd.input|
      ensures rd.p == |rd.input| && rd.later != []
    {
      DataStep(final, counter, rd.bits, text, goal);
      rd.Open();
      if rd.later == [] { rd.AllHeld(); }
    }

    method CopyStored()
      requires AtStoredBytes() && counter > 0 && outPos < outEnd && rd.p < |rd.input|
      modifies `counter, `outPos, `text, rd`bitBuf, rd`numBits, rd`p, rd`bits, buf
      ensures AtStoredBytes() && |rd.bits| < old(|rd.bits|)
      ensures outPos >= old(outPos)
    {
      StoredByteStep();
      while counter > 0 && outPos < outEnd && rd.p < |rd.input|
        invariant AtStoredBytes() && |rd.bits| < old(|rd.bits|) && outPos >= old(outPos)
        decreases counter
      {
        StoredByteStep();
      }
    }

    method StoredByteStep()
      requires AtStoredBytes() && counter > 0 && outPos < outEnd && rd.p < |rd.input|
      modifies `counter, `outPos, `text, rd`bitBuf, rd`numBits, rd`p, rd`bits, buf
      ensures AtStoredBytes() && counter == old(counter) - 1 && |rd.bits| < old(|rd.bits|) && outPos > old(outPos)
    {
      hide Tables, LensBuilt, Goal, InBuffer, Acceptable, FastTable.Built, Reader.Valid;
      DataStep(final, counter, rd.bits, text, goal);
      var ok, v := rd.GetByte();
      ByteStep(final, counter - 1, v, rd.bits, text, goal);
      Put(v);
      counter := counter - 1;
    }

    // ----- block heads

    method BlockHeadStep() returns (r: Status)
      requires Shape() && AtBlockHead()
      modifies `final, `pc, `counter, `sizes, `lit, `dst, rd`bitBuf, rd`numBits, rd`p, rd`bits, t0, t1, t0.Arrays(),
               t1.Arrays()
      ensures Stopped(r) && (r != Going ==> AtBlockHead())
      ensures r == Going ==>
                (AtHeaderByte() || AtSymbol() || AtSizeField()) && |rd.bits| < old(|rd.bits|)
    {
      hide Left, Tables, LensBuilt, Goal, InBuffer, Acceptable, FastTable.Built, Reader.Valid, ReadSym, ValueOf,
           FixedLit, FixedDist, Inflater.Stopped;
      OpenLeft(Blocks);
      BlockStep(rd.bits, text, goal);
      var ok, v := rd.Get(3);
      if !ok {
        CloseLeft(Blocks);
        Starved();
        return NeedsMoreInput;
      }
      final := v % 2 == 1;
      if v / 2 == 0 {
        CloseLeft(StoredAlign(final));
        StartStored();
      } else if v / 2 == 1 {
        CloseLeft(Codes(final, FixedLit(), FixedDist()));
        StartFixed();
      } else {
        CloseLeft(Sizes(final, []));
        pc, counter, sizes := SizeField, 0, [];
      }
      r := Going;
      GoesOn();
    }

    /** The rest of the byte is skipped. */
    method StartStored()
      requires Left(StoredAlign(final)) && rawHeader.Length == 4
      modifies `pc, `counter, rd`bitBuf, rd`numBits, rd`p, rd`bits
      ensures AtHeaderByte() && |rd.bits| <= old(|rd.bits|)
    {
      hide Tables, LensBuilt, Goal, InBuffer, Acceptable, FastTable.Built, Reader.Valid;
      rd.SameBit();
      AlignStep(final, rd.bits, rd.numBits % 8, text, goal);
      var _ := rd.Drop(rd.numBits % 8);
      pc, counter := HeaderByte, 0;
      assert rawHeader[..0] == [];
    }

    method StartFixed()
      requires Shape() && Left(Codes(final, FixedLit(), FixedDist()))
      modifies `pc, `lit, `dst, t0, t1, t0.Arrays(), t1.Arrays()
      ensures AtSymbol() && rd.bits == old(rd.bits)
    {
      hide Tables, LensBuilt, Goal, InBuffer, Acceptable, FastTable.Built, Reader.Valid, FixedLit, FixedDist, Accepts;
      FixedCodes.FixedAccepted();
      FixedSizes(t0, t1);
      StartCodes(288, 32, FixedLit(), FixedDist());
    }

    /** Builds both tables of a block, the distance table first. */
    method StartCodes(n0: nat, n1: nat, ghost lit: seq<nat>, ghost dst: seq<nat>)
      requires Shape() && Left(Codes(final, lit, dst)) && n0 <= 288 && n1 <= 288
      requires t0.codeSize[..n0] == lit && t1.codeSize[..n1] == dst && Accepts(lit) && Accepts(dst)
      modifies `pc, `lit, `dst, t0, t1, t0.lookUp, t0.tree, t1.lookUp, t1.tree
      ensures AtSymbol() && rd.bits == old(rd.bits)
    {
      hide Goal, InBuffer, Acceptable, FastTable.Built, Reader.Valid, Accepts;
      BuildTable(t1, n1, dst);
      BuildTable(t0, n0, lit);
      EnterCodes(lit, dst);
    }

    method EnterCodes(ghost lit: seq<nat>, ghost dst: seq<nat>)
      requires Left(Codes(final, lit, dst)) && t0.Built(lit) && t1.Built(dst) && Acceptable(lit) && Acceptable(dst)
      modifies `pc, `lit, `dst
      ensures AtSymbol()
    {
      hide Goal, InBuffer, Acceptable, FastTable.Built, Reader.Valid;
      this.lit, this.dst := lit, dst;
      pc := Symbol;
    }

    // ----- the head of a dynamic block

    /** One of the three table sizes. */
    method SizeStep() returns (r: Status)
      requires AtSizeField() && counter < 3
      modifies `counter, `sizes, rd`bitBuf, rd`numBits, rd`p, rd`bits
      ensures AtSizeField() && Stopped(r) && (r == Going ==> Progress(|rd.bits|, pc, old(|rd.bits|), old(pc)))
    {
      hide Left, Tables, LensBuilt, Goal, InBuffer, Acceptable, FastTable.Built, Reader.Valid, ReadSym, ValueOf;
      OpenLeft(Sizes(final, sizes));
      SizesStep(final, sizes, rd.bits, text, goal);
      var ok, v := rd.Get(SizeBits(counter));
      if !ok {
        CloseLeft(Sizes(final, sizes));
        return NeedsMoreInput;
      }
      SizeRange(old(rd.bits), counter, v);
      sizes := sizes + [v + SizeMin(counter)];
      CloseLeft(Sizes(final, sizes));
      counter := counter + 1;
      r := Going;
    }

    method SizesComplete()
      requires AtSizeField() && counter == 3 && t2.Shape()
      modifies `counter, `pc, t2.codeSize
      ensures AtClenField() && rd.bits == old(rd.bits)
    {
      hide LensBuilt, Goal, InBuffer, Reader.Valid;
      ghost var acc := ClearSizes(t2);
      ClensStart(final, sizes, acc, rd.bits, text, goal);
      counter, pc := 0, ClenField;
    }

    /** One code size of the code length code. */
    method ClenStep() returns (r: Status)
      requires AtClenField() && counter < sizes[2]
      modifies `counter, rd`bitBuf, rd`numBits, rd`p, rd`bits, t2.codeSize
      ensures AtClenField() && Stopped(r) && (r == Going ==> Progress(|rd.bits|, pc, old(|rd.bits|), old(pc)))
    {
      hide Tables, LensBuilt, Goal, InBuffer, Acceptable, FastTable.Built, Reader.Valid;
      ghost var acc := t2.codeSize[..19];
      ClensStep(final, sizes[0], sizes[1], sizes[2], counter, acc, rd.bits, text, goal);
      var ok, v := rd.Get(3);
      if !ok { return NeedsMoreInput; }
      PutClen(counter, v);
      counter := counter + 1;
      r := Going;
    }

    method PutClen(k: nat, v: nat)
      requires k < 19 <= t2.codeSize.Length
      modifies t2.codeSize
      ensures t2.codeSize[..19] == old(t2.codeSize[..19])[CLEN_ORDER[k] := v]
    {
      t2.codeSize[CLEN_ORDER[k]] := v;
    }

    method ClensComplete()
      requires Shape() && AtClenField() && counter == sizes[2]
      modifies `counter, `pc, `sizes, `clen, t2, t2.lookUp, t2.tree
      ensures AtLengthSym() && rd.bits == old(rd.bits)
    {
      hide Left, LensBuilt, Goal, InBuffer, Reader.Valid, ReadSym, ValueOf, Acceptable, Accepts, FastTable.Built;
      ghost var acc := t2.codeSize[..19];
      OpenLeft(Clens(final, sizes[0], sizes[1], sizes[2], sizes[2], acc));
      ClensDone(final, sizes[0], sizes[1], sizes[2], acc, rd.bits, text, goal);
      CloseLeft(Lens(final, sizes[0], sizes[1], acc, []));
      BuildTable(t2, 19, acc);
      StartLengths(acc);
    }

    method StartLengths(ghost acc: seq<nat>)
      requires |sizes| == 3 && sizes[0] <= 288 && sizes[1] <= 32 && t2.Built(acc) && Acceptable(acc) && |acc| == 19
      requires Left(Lens(final, sizes[0], sizes[1], acc, []))
      modifies `counter, `pc, `sizes, `clen
      ensures AtLengthSym()
    {
      hide Left, Goal, InBuffer, Reader.Valid, FastTable.Built, Acceptable;
      clen := acc;
      sizes := sizes[2 := 19];
      counter, pc := 0, LengthSym;
      assert lenCodes[..0] == [];
    }

    // ----- the packed code lengths

    method LengthSymStep() returns (r: Status)
      requires AtLengthSym() && counter < sizes[0] + sizes[1] && lenCodes.Length == 457
      modifies `counter, `dist, `pc, `filling, rd`bitBuf, rd`numBits, rd`p, rd`bits, lenCodes
      ensures Stopped(r) && (r != Going ==> AtLengthSym())
      ensures r == Going ==> (AtLengthSym() || AtRunField()) && |rd.bits| < old(|rd.bits|)
    {
      hide Left, Tables, LensBuilt, Goal, InBuffer, Acceptable, FastTable.Built, Reader.Valid, ReadSym, ValueOf;
      ghost var acc := lenCodes[..counter];
      OpenLeft(Lens(final, sizes[0], sizes[1], clen, acc));
      LensStep(final, sizes[0], sizes[1], clen, acc, rd.bits, text, goal);
      OpenLens();
      var ok, sym := rd.ReadSymbol(t2, filling, clen);
      filling := !ok;
      if !ok {
        CloseLeft(Lens(final, sizes[0], sizes[1], clen, acc));
        return NeedsMoreInput;
      }
      CloseLeft(Run(final, sizes[0], sizes[1], clen, acc, sym));
      GotLength(sym, acc);
      r := Going;
    }

    /** A length, or a symbol that stands for a run of them. */
    method GotLength(sym: nat, ghost acc: seq<nat>)
      requires pc == LengthSym && LensTable() && counter < sizes[0] + sizes[1] && counter < lenCodes.Length == 457 &&
               acc == lenCodes[..counter]
      requires Left(Run(final, sizes[0], sizes[1], clen, acc, sym))
      modifies `counter, `dist, `pc, lenCodes
      ensures AtLengthSym() || AtRunField()
    {
      hide Left, Tables, LensBuilt, Goal, InBuffer, Acceptable, FastTable.Built, Reader.Valid;
      dist := sym;
      if sym < 16 {
        PutLength();
      } else {
        pc := RunField;
      }
    }

    method PutLength()
      requires pc == LengthSym && LensTable() && dist < 16 && counter < lenCodes.Length == 457
      requires Left(Run(final, sizes[0], sizes[1], clen, lenCodes[..counter], dist))
      modifies `counter, lenCodes
      ensures AtLengthSym() && rd.bits == old(rd.bits)
    {
      hide Tables, LensBuilt, Goal, InBuffer, Acceptable, FastTable.Built, Reader.Valid;
      ghost var acc := lenCodes[..counter];
      RunPlain(final, sizes[0], sizes[1], clen, acc, dist, rd.bits, text, goal);
      lenCodes[counter] := dist;
      counter := counter + 1;
      assert lenCodes[..counter] == acc + [dist];
    }

    method RunFieldStep() returns (r: Status)
      requires AtRunField() && lenCodes.Length == 457
      modifies `counter, `pc, `numExtra, rd`bitBuf, rd`numBits, rd`p, rd`bits, lenCodes
      ensures Stopped(r) && (r != Going ==> AtRunField())
      ensures r == Going ==> AtLengthSym() && |rd.bits| < old(|rd.bits|)
    {
      hide Left, Tables, LensBuilt, Goal, InBuffer, Acceptable, FastTable.Built, Reader.Valid, ReadSym, ValueOf,
           Inflater.Stopped, ReadLengths, ReadRun;
      ghost var acc := lenCodes[..counter];
      OpenLeft(Run(final, sizes[0], sizes[1], clen, acc, dist));
      ghost var run, n := RunStepAt(final, sizes[0], sizes[1], clen, acc, dist, rd.bits, text, goal);
      numExtra := RunBits(dist);
      var ok, v := rd.Get(numExtra);
      if !ok {
        CloseLeft(Run(final, sizes[0], sizes[1], clen, acc, dist));
        Starved();
        return NeedsMoreInput;
      }
      CloseLeft(Lens(final, sizes[0], sizes[1], clen, acc + run));
      PutRun(v + RunMin(dist), run);
      r := Going;
      GoesOn();
    }

    method PutRun(n: nat, ghost run: seq<nat>)
      requires pc == RunField && LensTable() && counter + n <= lenCodes.Length && (dist == 16 ==> counter > 0)
      requires Left(Lens(final, sizes[0], sizes[1], clen, lenCodes[..counter] + run))
      requires run == Repeat(if dist == 16 then lenCodes[..counter][counter - 1] else 0, n)
      modifies `counter, `pc, lenCodes
      ensures AtLengthSym() && rd.bits == old(rd.bits)
    {
      hide LensBuilt, Goal, InBuffer, Reader.Valid, ReadSym, ValueOf;
      FillRun(if dist == 16 then lenCodes[counter - 1] else 0, n);
      pc := LengthSym;
    }

    /** Repeats a length. */
    method FillRun(v: nat, n: nat)
      requires counter + n <= lenCodes.Length
      modifies `counter, lenCodes
      ensures counter == old(counter) + n <= lenCodes.Length &&
              lenCodes[..counter] == old(lenCodes[..counter]) + Repeat(v, n)
    {
      ghost var acc := lenCodes[..counter];
      forall i | 0 <= i < n { lenCodes[counter + i] := v; }
      counter := counter + n;
      assert lenCodes[..counter] == acc + Repeat(v, n);
    }

    /** All lengths are there: they are handed to the two tables, which are built. */
    method LengthsComplete()
      requires Shape() && AtLengthSym() && counter >= sizes[0] + sizes[1]
      modifies `pc, `lit, `dst, t0, t1, t0.Arrays(), t1.Arrays()
      ensures AtSymbol() && rd.bits == old(rd.bits)
    {
      hide Left, Tables, LensBuilt, Goal, InBuffer, Acceptable, FastTable.Built, Reader.Valid, Accepts;
      var n0, n1 := sizes[0], sizes[1];
      ghost var acc := lenCodes[..counter];
      OpenLeft(Lens(final, n0, n1, clen, acc));
      LensDone(final, n0, n1, clen, acc, rd.bits, text, goal);
      CloseLeft(Codes(final, acc[..n0], acc[n0..]));
      HandLengths(n0, n1, acc);
      StartCodes(n0, n1, acc[..n0], acc[n0..]);
    }

    /** The lengths of each table go where it is built from. */
    method HandLengths(n0: nat, n1: nat, ghost acc: seq<nat>)
      requires Shape() && n0 <= 288 && n1 <= 32 && |acc| == n0 + n1 && acc == lenCodes[..n0 + n1]
      modifies t0.codeSize, t1.codeSize
      ensures t0.codeSize[..n0] == acc[..n0] && t1.codeSize[..n1] == acc[n0..]
    {
      forall i | 0 <= i < n0 { t0.codeSize[i] := lenCodes[i]; }
      forall i | 0 <= i < n1 { t1.codeSize[i] := lenCodes[n0 + i]; }
    }

    // ----- symbols

    /** A symbol has been decoded: a literal to be put out, or something else to be looked at. */
    method Dispatch(sym: nat)
      requires Tables() && Left(if sym < 256 then Literal(final, lit, dst, sym) else Sym(final, lit, dst, sym))
      modifies `counter, `pc
      ensures (if sym < 256 then AtPutLiteral() else AtAfterSymbol()) && rd.bits == old(rd.bits)
    {
      hide Tables, LensBuilt, Goal, InBuffer, Acceptable, FastTable.Built, Reader.Valid;
      counter := sym;
      pc := if sym < 256 then PutLiteral else AfterSymbol;
    }

    method SymbolStep() returns (r: Status)
      requires AtSymbol()
      modifies `counter, `pc, `filling, `outPos, `text, rd`bitBuf, rd`numBits, rd`p, rd`bits, buf
      ensures Stopped(r) && (r != Going ==> AtSymbol())
      ensures r == Going ==>
                (AtPutLiteral() || AtAfterSymbol() || AtSymbol()) &&
                Progress(|rd.bits|, pc, old(|rd.bits|), old(pc))
      ensures outPos >= old(outPos)
    {
      if filling || |rd.input| - rd.p < 4 || outEnd - outPos < 2 {
        r := SlowSymbol();
      } else {
        FastPair();
        r := Going;
      }
    }

    method SlowSymbol() returns (r: Status)
      requires AtSymbol()
      modifies `counter, `pc, `filling, rd`bitBuf, rd`numBits, rd`p, rd`bits
      ensures Stopped(r) && (r != Going ==> AtSymbol())
      ensures r == Going ==> (AtPutLiteral() || AtAfterSymbol()) && |rd.bits| < old(|rd.bits|)
    {
      hide Left, Tables, LensBuilt, Goal, InBuffer, Acceptable, FastTable.Built, Reader.Valid, ReadSym, ValueOf,
           Inflater.Stopped;
      OpenLeft(Codes(final, lit, dst));
      CodesStep(final, lit, dst, rd.bits, text, goal);
      OpenTables();
      var ok, sym := rd.ReadSymbol(t0, filling, lit);
      filling := !ok;
      if !ok {
        CloseLeft(Codes(final, lit, dst));
        Starved();
        return NeedsMoreInput;
      }
      CloseLeft(if sym < 256 then Literal(final, lit, dst, sym) else Sym(final, lit, dst, sym));
      Dispatch(sym);
      r := Going;
      GoesOn();
    }

    /** Up to two symbols at once, while there is enough input and room: literals go straight to the output. */
    method FastPair()
      requires AtSymbol() && rd.p + 4 <= |rd.input| && outPos + 2 <= outEnd
      modifies `counter, `pc, `outPos, `text, rd`bitBuf, rd`numBits, rd`p, rd`bits, buf
      ensures (AtAfterSymbol() || AtSymbol()) && |rd.bits| < old(|rd.bits|)
      ensures outPos >= old(outPos)
    {
      hide Left, Tables, LensBuilt, Goal, InBuffer, Acceptable, FastTable.Built, Reader.Valid, ReadSym, ValueOf;
      OpenLeft(Codes(final, lit, dst));
      CodesStep(final, lit, dst, rd.bits, text, goal);
      OpenTables();
      var sym := rd.FastSymbol(t0, lit);
      CloseLeft(if sym < 256 then Literal(final, lit, dst, sym) else Sym(final, lit, dst, sym));
      if sym >= 256 {
        Dispatch(sym);
      } else {
        FastSecond(sym);
      }
    }

    method FastSecond(first: Byte)
      requires pc == Symbol && Tables() && Left(Literal(final, lit, dst, first)) && rd.p + 2 <= |rd.input| &&
               outPos + 2 <= outEnd
      modifies `counter, `pc, `outPos, `text, rd`bitBuf, rd`numBits, rd`p, rd`bits, buf
      ensures (AtAfterSymbol() || AtSymbol()) && |rd.bits| <= old(|rd.bits|)
      ensures outPos >= old(outPos)
    {
      hide Left, Tables, LensBuilt, Goal, InBuffer, Acceptable, FastTable.Built, Reader.Valid, ReadSym, ValueOf;
      OpenLeft(Literal(final, lit, dst, first));
      LiteralStep(final, lit, dst, first, rd.bits, text, goal);
      CodesStep(final, lit, dst, rd.bits, text + [first], goal);
      OpenTables();
      var sym := rd.FastSymbol(t0, lit);
      Put(first);
      CloseLeft(if sym < 256 then Literal(final, lit, dst, sym) else Sym(final, lit, dst, sym));
      if sym >= 256 {
        Dispatch(sym);
      } else {
        PutSecond(sym);
      }
    }

    method PutSecond(second: Byte)
      requires pc == Symbol && Tables() && Left(Literal(final, lit, dst, second)) && outPos < outEnd
      modifies `outPos, `text, buf
      ensures AtSymbol() && rd.bits == old(rd.bits) && outPos >= old(outPos)
    {
      hide Left, Tables, LensBuilt, Goal, InBuffer, Acceptable, FastTable.Built, Reader.Valid;
      OpenLeft(Literal(final, lit, dst, second));
      LiteralStep(final, lit, dst, second, rd.bits, text, goal);
      Put(second);
      CloseLeft(Codes(final, lit, dst));
    }

    method LiteralOut() returns (r: Status)
      requires AtPutLiteral()
      modifies `pc, `outPos, `text, buf
      ensures (if r == Going then AtSymbol() else AtPutLiteral()) && Stopped(r) &&
              (r == Going ==> Progress(|rd.bits|, pc, old(|rd.bits|), old(pc)))
      ensures outPos >= old(outPos)
    {
      hide Tables, LensBuilt, Goal, InBuffer, Acceptable, FastTable.Built, Reader.Valid;
      if outPos >= outEnd { return HasMoreOutput; }
      LiteralStep(final, lit, dst, counter, rd.bits, text, goal);
      Put(counter);
      pc := Symbol;
      r := Going;
    }

    /** The end of the block, or a length. */
    method SymbolDone()
      requires AtAfterSymbol()
      modifies `counter, `numExtra, `pc
      ensures (AtBlockEnd() || AtLengthField()) && Progress(|rd.bits|, pc, old(|rd.bits|), old(pc))
    {
      hide Left, Tables, LensBuilt, Goal, InBuffer, Acceptable, FastTable.Built, Reader.Valid, ReadSym, ValueOf;
      OpenLeft(Sym(final, lit, dst, counter));
      if counter == 256 {
        SymEnd(final, lit, dst, rd.bits, text, goal);
        CloseLeft(End(final));
        pc := BlockEnd;
      } else {
        LengthSymbol();
      }
    }

    method LengthSymbol()
      requires Tables() && Left(Sym(final, lit, dst, counter)) && counter > 256
      modifies `counter, `numExtra, `pc
      ensures AtLengthField()
    {
      hide Left, Tables, Goal, InBuffer, Acceptable, FastTable.Built, Reader.Valid;
      OpenLeft(Sym(final, lit, dst, counter));
      SymLength(final, lit, dst, counter, rd.bits, text, goal);
      var k := counter - 257;
      CloseLeft(LengthBits(final, lit, dst, LENGTH_BASE[k], LENGTH_EXTRA[k]));
      LengthTable(k);
    }

    /** A length symbol's base and extra bits. */
    method LengthTable(k: nat)
      requires Tables() && k < 29 && Left(LengthBits(final, lit, dst, LENGTH_BASE[k], LENGTH_EXTRA[k]))
      modifies `counter, `numExtra, `pc
      ensures AtLengthField() && rd.bits == old(rd.bits)
    {
      hide Left, Tables;
      numExtra := LENGTH_EXTRA[k];
      counter := LENGTH_BASE[k];
      pc := LengthField;
    }

    method LengthFieldStep() returns (r: Status)
      requires AtLengthField()
      modifies `counter, `pc, rd`bitBuf, rd`numBits, rd`p, rd`bits
      ensures (if r == Going then AtDistSym() else AtLengthField()) && Stopped(r) &&
              (r == Going ==> Progress(|rd.bits|, pc, old(|rd.bits|), old(pc)))
    {
      hide Left, Tables, LensBuilt, Goal, InBuffer, Acceptable, FastTable.Built, Reader.Valid, ValueOf;
      OpenLeft(LengthBits(final, lit, dst, counter, numExtra));
      ghost var len := LengthStepAt(final, lit, dst, counter, numExtra, rd.bits, text, goal);
      var ok, v := rd.Get(numExtra);
      if !ok {
        CloseLeft(LengthBits(final, lit, dst, counter, numExtra));
        return NeedsMoreInput;
      }
      CloseLeft(DistCode(final, lit, dst, len));
      StartDistance(v, len);
      r := Going;
    }

    method StartDistance(v: nat, ghost len: nat)
      requires Tables() && Left(DistCode(final, lit, dst, len)) && len == counter + v
      modifies `counter, `pc
      ensures AtDistSym() && rd.bits == old(rd.bits)
    {
      hide Tables, LensBuilt, Goal, InBuffer, Acceptable, FastTable.Built, Reader.Valid;
      counter := counter + v;
      pc := DistSym;
      assert counter == len;
    }

    method DistSymStep() returns (r: Status)
      requires AtDistSym()
      modifies `dist, `numExtra, `pc, `filling, rd`bitBuf, rd`numBits, rd`p, rd`bits
      ensures (if r == Going then AtDistField() else AtDistSym()) && Stopped(r) &&
              (r == Going ==> Progress(|rd.bits|, pc, old(|rd.bits|), old(pc)))
    {
      hide Left, Tables, LensBuilt, Goal, InBuffer, Acceptable, FastTable.Built, Reader.Valid, ReadSym, ValueOf,
           Inflater.Stopped;
      OpenLeft(DistCode(final, lit, dst, counter));
      DistStep(final, lit, dst, counter, rd.bits, text, goal);
      OpenTables();
      var ok, sym := rd.ReadSymbol(t1, filling, dst);
      filling := !ok;
      if !ok {
        CloseLeft(DistCode(final, lit, dst, counter));
        Starved();
        return NeedsMoreInput;
      }
      CloseLeft(DistBits(final, lit, dst, counter, DIST_BASE[sym], DIST_EXTRA[sym]));
      DistTable(sym);
      r := Going;
      GoesOn();
    }

    /** A distance symbol's base and extra bits. */
    method DistTable(sym: nat)
      requires Tables() && sym < 30 && Left(DistBits(final, lit, dst, counter, DIST_BASE[sym], DIST_EXTRA[sym]))
      modifies `dist, `numExtra, `pc
      ensures AtDistField() && rd.bits == old(rd.bits)
    {
      hide Left, Tables;
      dist, numExtra := DIST_BASE[sym], DIST_EXTRA[sym];
      pc := DistField;
    }

    method DistFieldStep() returns (r: Status)
      requires AtDistField()
      modifies `dist, `distFrom, `counter, `pc, `outPos, `text, rd`bitBuf, rd`numBits, rd`p, rd`bits, buf
      ensures Stopped(r)
      ensures if r == Going then AtSymbol() else if r == HasMoreOutput then AtCopyBytes() else AtDistField()
      ensures r == Going ==> Progress(|rd.bits|, pc, old(|rd.bits|), old(pc))
      ensures outPos >= old(outPos)
    {
      hide Left, Tables, LensBuilt, Goal, InBuffer, Acceptable, FastTable.Built, Reader.Valid, ReadSym, ValueOf,
           Inflater.Stopped, CopyMatch;
      OpenLeft(DistBits(final, lit, dst, counter, dist, numExtra));
      DistBitsStep(final, lit, dst, counter, dist, numExtra, rd.bits, text, goal);
      var ok, v := rd.Get(numExtra);
      if !ok {
        CloseLeft(DistBits(final, lit, dst, counter, dist, numExtra));
        Starved();
        return NeedsMoreInput;
      }
      CloseLeft(Copying(final, lit, dst, counter, dist + v));
      r := TakeDistance(v);
    }

    method TakeDistance(v: nat) returns (r: Status)
      requires pc == DistField && Tables() && Left(Copying(final, lit, dst, counter, dist + v))
      requires 3 <= counter && 0 < dist + v <= outPos
      modifies `dist, `distFrom, `counter, `pc, `outPos, `text, buf
      ensures (r == Going && AtSymbol()) || (r == HasMoreOutput && AtCopyBytes())
      ensures Stopped(r) && rd.bits == old(rd.bits) && outPos >= old(outPos)
    {
      hide Left, Tables;
      dist := dist + v;
      r := StartCopy();
    }

    // ----- matches

    /** The match is copied as far as there is room: three bytes at a time when all of it fits, or else byte by byte. */
    method MoveMatch(resumed: bool) returns (left: nat)
      requires Context() && 0 < dist <= |text| && (resumed ==> distFrom == outPos) && (!resumed ==> counter >= 3)
      modifies `distFrom, `outPos, `text, buf
      ensures Context() && left <= counter && text == CopyMatch(old(text), counter - left, dist)
      ensures left > 0 ==> outPos == outEnd && distFrom == outPos
    {
      hide Tables, LensBuilt, Goal, Acceptable, FastTable.Built, Reader.Valid, MatchCopy.Window, MatchCopy.InWindow;
      ghost var out := text;
      OpenBuffer();
      WindowHolds(buf[..], outPos, buf.Length + 1);
      if resumed {
        outPos, distFrom, left := MatchCopy.CopyMasked(buf, outPos, outEnd, distFrom, dist, counter, buf.Length + 1,
          out);
      } else {
        distFrom := outPos;
        outPos, distFrom, left := MatchCopy.CopyInto(buf, outPos, outEnd, dist, counter, buf.Length + 1, out);
      }
      text := CopyMatch(out, counter - left, dist);
      WindowIs(buf[..], buf.Length + 1, text);
    }

    method StartCopy() returns (r: Status)
      requires pc == DistField && Tables() && Left(Copying(final, lit, dst, counter, dist)) && 3 <= counter &&
               0 < dist <= outPos
      modifies `distFrom, `counter, `pc, `outPos, `text, buf
      ensures (r == Going && AtSymbol()) || (r == HasMoreOutput && AtCopyBytes() && outPos == outEnd)
      ensures rd.bits == old(rd.bits)
      ensures outPos >= old(outPos)
    {
      hide Tables, LensBuilt, Goal, InBuffer, Acceptable, FastTable.Built, Reader.Valid, CopyMatch;
      ghost var out := text;
      var left := MoveMatch(false);
      r := EndCopy(left, out);
    }

    method CopyStepMore() returns (r: Status)
      requires AtCopyBytes()
      modifies `distFrom, `counter, `pc, `outPos, `text, buf
      ensures (r == Going && AtSymbol()) || (r == HasMoreOutput && AtCopyBytes())
      ensures Stopped(r) && (r == Going ==> Progress(|rd.bits|, pc, old(|rd.bits|), old(pc)))
      ensures outPos >= old(outPos)
    {
      hide Tables, LensBuilt, Goal, InBuffer, Acceptable, FastTable.Built, Reader.Valid, CopyMatch;
      ghost var out := text;
      CopyStep(final, lit, dst, counter, dist, rd.bits, out, goal, 0, out);
      var left := MoveMatch(true);
      r := EndCopy(left, out);
    }

    /** After the copy: left bytes are still to come. */
    method EndCopy(left: nat, ghost out: seq<Byte>) returns (r: Status)
      requires Tables() && Context() && left <= counter && 0 < dist <= |out| &&
               Goal(Copying(final, lit, dst, counter, dist), rd.bits, out, goal)
      requires text == CopyMatch(out, counter - left, dist) && (left > 0 ==> outPos == outEnd && distFrom == outPos)
      modifies `counter, `pc, `distFrom
      ensures (r == Going && AtSymbol()) || (r == HasMoreOutput && AtCopyBytes() && outPos == outEnd)
    {
      hide Tables, LensBuilt, Goal, InBuffer, Acceptable, FastTable.Built, Reader.Valid, CopyMatch;
      CopyStep(final, lit, dst, counter, dist, rd.bits, out, goal, counter - left, text);
      counter := left;
      if left > 0 {
        pc := CopyBytes;
        r := HasMoreOutput;
      } else {
        CopyAll();
        r := Going;
      }
    }

    method CopyAll()
      requires Tables() && Left(Copying(final, lit, dst, 0, dist))
      modifies `pc
      ensures AtSymbol()
    {
      hide Tables, LensBuilt, Goal, InBuffer, Acceptable, FastTable.Built, Reader.Valid;
      CopyDone(final, lit, dst, dist, rd.bits, text, goal);
      pc := Symbol;
    }

    // ----- the end of a block

    method BlockEndStep()
      requires AtBlockEnd()
      modifies `pc
      ensures (AtBlockHead() || AtFinished()) && rd.bits == old(rd.bits)
    {
      hide Goal, InBuffer, Reader.Valid;
      if final {
        EndLast(rd.bits, text, goal);
        pc := Finished;
      } else {
        EndStep(rd.bits, text, goal);
        pc := BlockHead;
      }
    }

    // ----- the machine as a whole

    ghost predicate AtStored()
      reads this, rd, buf, rawHeader
    {
      AtHeaderByte() || AtHeldByte() || AtPutHeld() || AtStoredBytes()
    }

    ghost predicate AtHead()
      reads this, rd, buf, lenCodes, t2, t2.codeSize, t2.lookUp, t2.tree
    {
      AtSizeField() || AtClenField() || AtLengthSym() || AtRunField()
    }

    ghost predicate AtCodes()
      reads this, rd, buf, t0, t0.lookUp, t0.tree, t1, t1.lookUp, t1.tree
    {
      AtSymbol() || AtPutLiteral() || AtAfterSymbol() || AtLengthField() || AtDistSym() || AtDistField() ||
        AtCopyBytes()
    }

    /** Between any two steps, and between calls. */
    ghost predicate Inv()
      reads this, rd, buf, rawHeader, lenCodes, t0, t0.lookUp, t0.tree, t1, t1.lookUp, t1.tree, t2, t2.codeSize,
            t2.lookUp, t2.tree
    {
      Shape() && (AtBlockHead() || AtStored() || AtHead() || AtCodes() || AtBlockEnd() || AtFinished())
    }

    method StoredGroup() returns (r: Status)
      requires Shape() && AtStored()
      modifies `pc, `counter, `dist, `outPos, `text, rd`bitBuf, rd`numBits, rd`p, rd`bits, rawHeader, buf
      ensures Stopped(r) && (AtStored() || AtBlockEnd())
      ensures r == Going ==> Progress(|rd.bits|, pc, old(|rd.bits|), old(pc))
      ensures outPos >= old(outPos)
    {
      hide Tables, LensBuilt, Goal, Left, InBuffer, Acceptable, FastTable.Built, Reader.Valid;
      if pc == HeaderByte && counter < 4 {
        r := HeaderStep();
      } else if pc == HeaderByte {
        HeaderDone();
        r := Going;
      } else if pc == HeldByte {
        HeldStep();
        r := Going;
      } else if pc == PutHeld {
        r := PutHeldStep();
      } else {
        r := StoredStep();
      }
    }

    method SizesGroup() returns (r: Status)
      requires Shape() && (AtSizeField() || AtClenField())
      modifies `pc, `counter, `sizes, `clen, rd`bitBuf, rd`numBits, rd`p, rd`bits, t2, t2.Arrays()
      ensures Stopped(r) && (AtSizeField() || AtClenField() || AtLengthSym())
      ensures r == Going ==> Progress(|rd.bits|, pc, old(|rd.bits|), old(pc))
    {
      hide Tables, LensBuilt, Goal, Left, InBuffer, Acceptable, FastTable.Built, Reader.Valid;
      if pc == SizeField && counter < 3 {
        r := SizeStep();
      } else if pc == SizeField {
        SizesComplete();
        r := Going;
      } else if counter < sizes[2] {
        r := ClenStep();
      } else {
        ClensComplete();
        r := Going;
      }
    }

    method LengthsGroup() returns (r: Status)
      requires Shape() && (AtLengthSym() || AtRunField())
      modifies `pc, `counter, `dist, `numExtra, `filling, `lit, `dst, rd`bitBuf, rd`numBits, rd`p, rd`bits, lenCodes,
               t0, t1, t0.Arrays(), t1.Arrays()
      ensures Stopped(r) && (AtLengthSym() || AtRunField() || AtSymbol())
      ensures r == Going ==> Progress(|rd.bits|, pc, old(|rd.bits|), old(pc))
    {
      hide Tables, LensBuilt, Goal, Left, InBuffer, Acceptable, FastTable.Built, Reader.Valid;
      if pc == RunField {
        r := RunFieldStep();
      } else if counter < sizes[0] + sizes[1] {
        r := LengthSymStep();
      } else {
        LengthsComplete();
        r := Going;
      }
    }

    method SymbolGroup() returns (r: Status)
      requires Shape() && (AtSymbol() || AtPutLiteral() || AtAfterSymbol())
      modifies `pc, `counter, `numExtra, `filling, `outPos, `text, rd`bitBuf, rd`numBits, rd`p, rd`bits, buf
      ensures Stopped(r) && (AtSymbol() || AtPutLiteral() || AtAfterSymbol() || AtLengthField() || AtBlockEnd())
      ensures r == Going ==> Progress(|rd.bits|, pc, old(|rd.bits|), old(pc))
      ensures outPos >= old(outPos)
    {
      hide Tables, LensBuilt, Goal, Left, InBuffer, Acceptable, FastTable.Built, Reader.Valid;
      if pc == Symbol {
        r := SymbolStep();
      } else if pc == PutLiteral {
        r := LiteralOut();
      } else {
        SymbolDone();
        r := Going;
      }
    }

    method MatchGroup() returns (r: Status)
      requires Shape() && (AtLengthField() || AtDistSym())
      modifies `pc, `counter, `dist, `numExtra, `filling, rd`bitBuf, rd`numBits, rd`p, rd`bits
      ensures Stopped(r) && (AtLengthField() || AtDistSym() || AtDistField())
      ensures r == Going ==> Progress(|rd.bits|, pc, old(|rd.bits|), old(pc))
    {
      hide Tables, LensBuilt, Goal, Left, InBuffer, Acceptable, FastTable.Built, Reader.Valid;
      if pc == LengthField {
        r := LengthFieldStep();
      } else {
        r := DistSymStep();
      }
    }

    method CopyGroup() returns (r: Status)
      requires Shape() && (AtDistField() || AtCopyBytes())
      modifies `pc, `counter, `dist, `distFrom, `outPos, `text, rd`bitBuf, rd`numBits, rd`p, rd`bits, buf
      ensures Stopped(r) && (AtDistField() || AtCopyBytes() || AtSymbol())
      ensures r == Going ==> Progress(|rd.bits|, pc, old(|rd.bits|), old(pc))
      ensures outPos >= old(outPos)
    {
      hide Tables, LensBuilt, Goal, Left, InBuffer, Acceptable, FastTable.Built, Reader.Valid;
      if pc == DistField {
        r := DistFieldStep();
      } else {
        r := CopyStepMore();
      }
    }

    method HeadGroup() returns (r: Status)
      requires Shape() && AtHead()
      modifies `pc, `counter, `dist, `numExtra, `sizes, `filling, `lit, `dst, `clen
      modifies rd`bitBuf, rd`numBits, rd`p, rd`bits, lenCodes, t0, t1, t2, t0.Arrays(), t1.Arrays(), t2.Arrays()
      ensures Stopped(r) && (AtHead() || AtCodes())
      ensures r == Going ==> Progress(|rd.bits|, pc, old(|rd.bits|), old(pc))
    {
      hide Shape, Tables, LensBuilt, Goal, Left, InBuffer, Acceptable, FastTable.Built, Reader.Valid;
      if pc == SizeField || pc == ClenField {
        r := SizesGroup();
      } else {
        r := LengthsGroup();
      }
    }

    method CodesGroup() returns (r: Status)
      requires Shape() && AtCodes()
      modifies `pc, `counter, `dist, `numExtra, `distFrom, `filling, `outPos, `text, rd`bitBuf, rd`numBits, rd`p,
               rd`bits, buf
      ensures Stopped(r) && (AtCodes() || AtBlockEnd()) && outPos >= old(outPos)
      ensures r == Going ==> Progress(|rd.bits|, pc, old(|rd.bits|), old(pc))
    {
      hide Shape, Tables, LensBuilt, Goal, Left, InBuffer, Acceptable, FastTable.Built, Reader.Valid;
      if pc == Symbol || pc == PutLiteral || pc == AfterSymbol {
        r := SymbolGroup();
      } else if pc == LengthField || pc == DistSym {
        r := MatchGroup();
      } else {
        r := CopyGroup();
      }
    }

    /** One step at the head of a block or inside a stored one. */
    method InnerStep() returns (r: Status)
      requires Shape() && (AtStored() || AtHead())
      modifies `pc, `counter, `dist, `numExtra, `sizes, `filling, `outPos, `text, `lit, `dst, `clen
      modifies rd`bitBuf, rd`numBits, rd`p, rd`bits, rawHeader, buf, lenCodes, t0, t1, t2, t0.Arrays(), t1.Arrays(),
               t2.Arrays()
      ensures Stopped(r) && (AtStored() || AtHead() || AtCodes() || AtBlockEnd()) && outPos >= old(outPos)
      ensures r == Going ==> Progress(|rd.bits|, pc, old(|rd.bits|), old(pc))
    {
      hide Shape, Tables, LensBuilt, Goal, Left, InBuffer, Acceptable, FastTable.Built, Reader.Valid, Inflater.Stopped;
      if pc == HeaderByte || pc == HeldByte || pc == PutHeld || pc == StoredBytes {
        r := StoredGroup();
      } else {
        r := HeadGroup();
      }
    }

    /** One step. */
    method Step() returns (r: Status)
      requires Inv()
      modifies `final, `pc, `counter, `dist, `numExtra, `distFrom, `sizes, `filling, `outPos, `text, `lit, `dst, `clen
      modifies rd`bitBuf, rd`numBits, rd`p, rd`bits, rawHeader, buf, lenCodes, t0, t1, t2, t0.Arrays(), t1.Arrays(),
               t2.Arrays()
      ensures Inv() && (if r == Complete then pc == Finished else Stopped(r)) && outPos >= old(outPos)
      ensures r == Going ==> Progress(|rd.bits|, pc, old(|rd.bits|), old(pc))
    {
      hide Shape, Tables, LensBuilt, Goal, Left, InBuffer, Acceptable, FastTable.Built, Reader.Valid, Inflater.Stopped;
      if pc == BlockHead {
        r := BlockHeadStep();
        NotComplete(r);
      } else if pc == BlockEnd {
        BlockEndStep();
        r := Going;
        GoesOn();
      } else if pc == Finished {
        r := Complete;
      } else if Rank(pc) >= 20 {
        r := InnerStep();
        NotComplete(r);
      } else {
        r := CodesGroup();
        NotComplete(r);
      }
    }

    /** Only the cut between this piece of the input and the later ones, and the room for output, have changed. */
    twostate predicate Recut()
      reads this, rd, buf, rawHeader, lenCodes, t0, t0.lookUp, t0.tree, t1, t1.lookUp, t1.tree, t2, t2.codeSize,
            t2.lookUp, t2.tree
    {
      Context() && rd.bits == old(rd.bits) &&
      unchanged(rd`numBits, `pc, `final, `dist, `counter, `numExtra, `distFrom, `sizes, `outPos, `text, `lit, `dst,
        `clen) &&
      old(outPos <= buf.Length) && text == old(text) && (old(Tables()) ==> Tables()) &&
      (old(LensTable()) ==> LensTable()) &&
      rawHeader[..] == old(rawHeader[..]) && lenCodes[..] == old(lenCodes[..]) &&
      t2.codeSize[..] == old(t2.codeSize[..])
    }

    twostate lemma LeftKept(todo: Todo)
      requires old(Left(todo)) && Recut()
      ensures Left(todo)
    {
    }

    twostate lemma StoredKept()
      requires old(AtStored()) && Recut()
      ensures AtStored()
    {
      hide Left, Tables, LensBuilt, Goal, InBuffer, Reader.Valid;
      if old(AtHeaderByte()) {
        assert rawHeader[..][..counter] == rawHeader[..counter] &&
          old(rawHeader[..])[..counter] == old(rawHeader[..counter]);
        LeftKept(StoredHead(final, rawHeader[..counter]));
      } else if old(AtPutHeld()) {
        LeftKept(StoredByte(final, counter - 1, dist));
      } else {
        LeftKept(StoredData(final, counter));
      }
    }

    twostate lemma HeadKept()
      requires old(AtHead()) && Recut()
      ensures AtHead()
    {
      if old(AtSizeField()) {
        LeftKept(Sizes(final, sizes));
      } else if old(AtClenField()) {
        assert t2.codeSize[..][..19] == t2.codeSize[..19] && old(t2.codeSize[..])[..19] == old(t2.codeSize[..19]);
        LeftKept(Clens(final, sizes[0], sizes[1], sizes[2], counter, t2.codeSize[..19]));
      } else {
        LengthsKept();
      }
    }

    twostate lemma LengthsKept()
      requires old(AtLengthSym() || AtRunField()) && Recut()
      ensures AtLengthSym() || AtRunField()
    {
      hide Tables, LensBuilt, Goal, InBuffer, Acceptable, FastTable.Built, Reader.Valid;
      assert lenCodes[..][..counter] == lenCodes[..counter] && old(lenCodes[..])[..counter] == old(lenCodes[..counter]);
      if old(AtLengthSym()) {
        LeftKept(Lens(final, sizes[0], sizes[1], clen, lenCodes[..counter]));
      } else {
        LeftKept(Run(final, sizes[0], sizes[1], clen, lenCodes[..counter], dist));
      }
    }

    twostate lemma CodesKept()
      requires old(AtCodes()) && Recut()
      ensures AtCodes()
    {
      if old(AtSymbol()) {
        LeftKept(Codes(final, lit, dst));
      } else if old(AtPutLiteral()) {
        LeftKept(Literal(final, lit, dst, counter));
      } else if old(AtAfterSymbol()) {
        LeftKept(Sym(final, lit, dst, counter));
      } else if old(AtLengthField()) {
        LeftKept(LengthBits(final, lit, dst, counter, numExtra));
      } else {
        MatchKept();
      }
    }

    twostate lemma MatchKept()
      requires old(AtDistSym() || AtDistField() || AtCopyBytes()) && Recut()
      ensures AtDistSym() || AtDistField() || AtCopyBytes()
    {
      if old(AtDistSym()) {
        LeftKept(DistCode(final, lit, dst, counter));
      } else if old(AtDistField()) {
        LeftKept(DistBits(final, lit, dst, counter, dist, numExtra));
      } else {
        LeftKept(Copying(final, lit, dst, counter, dist));
      }
    }

    twostate lemma Kept()
      requires old(Inv()) && Recut()
      ensures Inv()
    {
      if old(AtStored()) {
        StoredKept();
      } else if old(AtHead()) {
        HeadKept();
      } else if old(AtCodes()) {
        CodesKept();
      } else if old(AtBlockHead()) {
        LeftKept(Blocks);
      } else if old(AtBlockEnd()) {
        LeftKept(End(final));
      }
    }

    /** A call's piece of the input and its room for output. */
    method Supply(piece: seq<Byte>, more: bool, room: nat)
      requires Context() && piece <= rd.Unread() && (more || piece == rd.Unread()) && outPos + room <= buf.Length
      modifies `outEnd, rd`input, rd`p, rd`more, rd`later
      ensures Context() && rd.bits == old(rd.bits) && rd.Unread() == old(rd.Unread()) && outEnd == outPos + room
      ensures rd.input == piece && rd.p == 0 && rd.later == old(rd.Unread())[|piece|..]
      ensures old(Inv()) ==> Inv()
    {
      hide Tables, LensBuilt, Goal, InBuffer, Acceptable, FastTable.Built, Reader.Valid;
      rd.Supply(piece, more);
      outEnd := outPos + room;
      assert rd.Valid();
      if old(Inv()) { Kept(); }
    }

    /** Runs until the decoder has to stop. */
    method Advance() returns (r: Status)
      requires Inv()
      modifies `final, `pc, `counter, `dist, `numExtra, `distFrom, `sizes, `filling, `outPos, `text, `lit, `dst, `clen
      modifies rd`bitBuf, rd`numBits, rd`p, rd`bits, rawHeader, buf, lenCodes, t0, t1, t2, t0.Arrays(), t1.Arrays(),
               t2.Arrays()
      ensures Inv() && r != Going && (if r == Complete then pc == Finished else Stopped(r)) && outPos >= old(outPos)
    {
      while true
        invariant Inv() && outPos >= old(outPos)
        decreases |rd.bits|, Rank(pc)
      {
        r := Step();
        if r != Going { return; }
      }
    }

    lemma Settled()
      requires Inv()
      ensures Shape() && Context() && (pc == Finished ==> AtFinished())
    {
      hide Tables, LensBuilt, Goal, InBuffer, Reader.Valid;
    }

    lemma Prefix(todo: Todo)
      requires Left(todo)
      ensures text <= goal.1 && outPos + InflatePrefix.Pending(todo) <= |goal.1|
    {
      InflatePrefix.OutputIsPrefix(todo, rd.bits, text, goal);
    }

    /** At every stop the output is a prefix of the text, and a proper one when a byte is known to be missing. */
    lemma OutputSoFar()
      requires Inv()
      ensures outPos <= buf.Length && text <= goal.1 && (Pending() ==> outPos < |goal.1|)
    {
      hide LensBuilt, Goal, InBuffer, Reader.Valid;
      if AtBlockHead() { Prefix(Blocks); }
      if AtStored() { StoredSoFar(); }
      if AtHead() { HeadSoFar(); }
      if AtCodes() { CodesSoFar(); }
      if AtBlockEnd() { Prefix(End(final)); }
    }

    lemma StoredSoFar()
      requires AtStored()
      ensures text <= goal.1 && (Pending() ==> outPos < |goal.1|)
    {
      hide Left, Tables, LensBuilt, Goal, InBuffer, Reader.Valid;
      if AtHeaderByte() {
        Prefix(StoredHead(final, rawHeader[..counter]));
      } else if AtPutHeld() {
        Prefix(StoredByte(final, counter - 1, dist));
      } else {
        Prefix(StoredData(final, counter));
      }
    }

    lemma HeadSoFar()
      requires AtHead()
      ensures text <= goal.1 && !Pending()
    {
      hide Left, Tables, LensBuilt, Goal, InBuffer, Reader.Valid;
      if AtSizeField() {
        Prefix(Sizes(final, sizes));
      } else if AtClenField() {
        Prefix(Clens(final, sizes[0], sizes[1], sizes[2], counter, t2.codeSize[..19]));
      } else if AtLengthSym() {
        Prefix(Lens(final, sizes[0], sizes[1], clen, lenCodes[..counter]));
      } else {
        Prefix(Run(final, sizes[0], sizes[1], clen, lenCodes[..counter], dist));
      }
    }

    lemma CodesSoFar()
      requires AtCodes()
      ensures text <= goal.1 && (Pending() ==> outPos < |goal.1|)
    {
      hide Left, Tables, LensBuilt, Goal, InBuffer, Reader.Valid;
      if AtSymbol() {
        Prefix(Codes(final, lit, dst));
      } else if AtPutLiteral() {
        Prefix(Literal(final, lit, dst, counter));
      } else if AtAfterSymbol() {
        Prefix(Sym(final, lit, dst, counter));
      } else {
        MatchSoFar();
      }
    }

    lemma MatchSoFar()
      requires AtLengthField() || AtDistSym() || AtDistField() || AtCopyBytes()
      ensures text <= goal.1 && (Pending() ==> outPos < |goal.1|)
    {
      hide Left, Tables, LensBuilt, Goal, InBuffer, Reader.Valid;
      if AtLengthField() {
        Prefix(LengthBits(final, lit, dst, counter, numExtra));
      } else if AtDistSym() {
        Prefix(DistCode(final, lit, dst, counter));
      } else {
        CopySoFar();
      }
    }

    lemma CopySoFar()
      requires AtDistField() || AtCopyBytes()
      ensures text <= goal.1 && (Pending() ==> outPos < |goal.1|)
    {
      hide Left, Tables, LensBuilt, Goal, InBuffer, Reader.Valid;
      if AtDistField() {
        Prefix(DistBits(final, lit, dst, counter, dist, numExtra));
      } else {
        Prefix(Copying(final, lit, dst, counter, dist));
      }
    }
  }

  /** Steps that consume no bits go down this scale. */
  function Rank(pc: Pc): nat {
    match pc
    case HeaderByte => 26
    case PutHeld => 25
    case HeldByte => 24
    case StoredBytes => 23
    case SizeField => 26
    case ClenField => 25
    case RunField => 24
    case LengthSym => 24
    case AfterSymbol => 7
    case PutLiteral => 7
    case LengthField => 6
    case DistSym => 5
    case DistField => 4
    case CopyBytes => 4
    case Symbol => 3
    case BlockEnd => 2
    case BlockHead => 1
    case Finished => 0
  }

  lemma OneByteLess(n: nat)
    requires n > 0 && n % 8 == 0
    ensures n >= 8 && (n - 8) % 8 == 0
  {
  }

  predicate Progress(bits: nat, pc: Pc, bits0: nat, pc0: Pc) {
    bits < bits0 || (bits == bits0 && Rank(pc) < Rank(pc0))
  }

  /** A buffer that starts with the output is a window on it. */
  lemma WindowHolds(buf: seq<Byte>, n: nat, size: nat)
    requires n <= |buf| < size
    ensures MatchCopy.Window(buf, size, buf[..n]) && n % size == n
  {
    forall x: nat | MatchCopy.InWindow(x, size, buf[..n]) ensures MatchCopy.SlotIs(buf, x % size, buf[..n][x]) {
      MatchCopy.Small(x, size);
    }
    MatchCopy.Small(n, size);
  }

  lemma WindowIs(buf: seq<Byte>, size: nat, out: seq<Byte>)
    requires MatchCopy.Window(buf, size, out) && |out| <= |buf| < size
    ensures buf[..|out|] == out
  {
    forall x: nat | x < |out| ensures buf[x] == out[x] {
      assert MatchCopy.InWindow(x, size, out) && MatchCopy.SlotIs(buf, x % size, out[x]);
      MatchCopy.Small(x, size);
    }
  }

  method ClearSizes(t: FastTable) returns (ghost acc: seq<nat>)
    requires t.Shape()
    modifies t.codeSize
    ensures t.codeSize[..19] == acc == Repeat(0, 19)
  {
    forall i | 0 <= i < 288 { t.codeSize[i] := 0; }
    acc := t.codeSize[..19];
  }

  lemma ClensStart(f: bool, ns: seq<nat>, acc: seq<nat>, bits: Bitstring, out: seq<Byte>, g: Result)
    requires Goal(Sizes(f, ns), bits, out, g) && |ns| == 3 && acc == Repeat(0, 19)
    ensures ns[2] <= 19 && Goal(Clens(f, ns[0], ns[1], ns[2], 0, acc), bits, out, g)
  {
    SizesDone(f, ns, bits, out, g);
  }

  lemma SizeRange(bits: Bitstring, k: nat, v: nat)
    requires k < 3 && SizeBits(k) <= |bits| && v == ValueOf(bits[..SizeBits(k)])
    ensures (k == 0 ==> v + SizeMin(k) <= 288) && (k == 1 ==> v + SizeMin(k) <= 32)
  {
    assert Pow2(5) == 32;
  }

  lemma LengthStepAt(f: bool, lit: seq<nat>, dst: seq<nat>, base: nat, extra: nat, bits: Bitstring, out: seq<Byte>,
      g: Result) returns (len: nat)
    requires Goal(LengthBits(f, lit, dst, base, extra), bits, out, g)
    ensures |bits| >= extra && len == base + ValueOf(bits[..extra]) &&
            Goal(DistCode(f, lit, dst, len), bits[extra..], out, g)
  {
    LengthStep(f, lit, dst, base, extra, bits, out, g);
    len := base + ValueOf(bits[..extra]);
  }

  lemma RunStepAt(f: bool, nl: nat, nd: nat, clen: seq<nat>, acc: seq<nat>, sym: nat, bits: Bitstring, out: seq<Byte>,
      g: Result)
      returns (run: seq<nat>, n: nat)
    requires Goal(Run(f, nl, nd, clen, acc, sym), bits, out, g) && 16 <= sym
    ensures sym <= 18 && (sym == 16 ==> acc != []) && |bits| >= RunBits(sym) && n <= 138
    ensures n == ValueOf(bits[..RunBits(sym)]) + RunMin(sym) &&
            run == Repeat(if sym == 16 then acc[|acc| - 1] else 0, n)
    ensures Goal(Lens(f, nl, nd, clen, acc + run), bits[RunBits(sym)..], out, g)
  {
    RunStep(f, nl, nd, clen, acc, sym, bits, out, g);
    n := RunMin(sym) + ValueOf(bits[..RunBits(sym)]);
    run := Repeat(if sym == 16 then acc[|acc| - 1] else 0, n);
    assert Pow2(2) == 4 && Pow2(3) == 8 && Pow2(7) == 128;
  }

  /** Builds a table whose code sizes are acceptable. */
  method BuildTable(t: FastTable, n: nat, ghost s: seq<nat>)
    requires t.Shape() && n <= 288 && t.codeSize[..n] == s && Accepts(s)
    modifies t, t.lookUp, t.tree
    ensures t.Built(s) && Acceptable(s)
  {
    AcceptsMeans(s);
    forall i | 0 <= i < n ensures t.codeSize[i] <= MAX_LEN { assert t.codeSize[i] == s[i]; }
    var _ := t.Build(n);
  }

  /** The code sizes of the fixed codes. */
  method FixedSizes(t0: FastTable, t1: FastTable)
    requires t0.Shape() && t1.Shape() && t0.codeSize != t1.codeSize
    modifies t0.codeSize, t1.codeSize
    ensures t0.codeSize[..288] == FixedLit() && t1.codeSize[..32] == FixedDist()
  {
    forall i | 0 <= i < 32 { t1.codeSize[i] := 5; }
    forall i | 0 <= i < 288 {
      t0.codeSize[i] := if i <= 143 then 8 else if i <= 255 then 9 else if i <= 279 then 7 else 8;
    }
    assert t0.codeSize[..288] == FixedLit();
    assert t1.codeSize[..32] == FixedDist();
  }
}
