/** Both halves together: what the compressor writes, the decoder reads back. */
module RoundTrip {
  import opened Bits
  import opened Deflate
  import C = CompressorRun
  import D = Decompressor
  import P = Parser

  /**
   * Any text, handed to the compressor in any pieces under any options and flushed in any way, and the file handed to
   * the decoder in any pieces with any room for output, comes back as it was, with its checksum found right.
   */
  method Restore(flags: P.Flags, calls: seq<C.Call>, last: seq<Byte>, checks: bool, size: nat, cuts: seq<D.Call>)
      returns (file: seq<Byte>, r: D.Verdict, text: seq<Byte>)
    requires forall i | 0 <= i < |calls| :: !calls[i].mode.Finish?
    requires |C.Inputs(calls) + last| <= size
    ensures r == D.Done && text == C.Inputs(calls) + last
  {
    var ends: seq<nat>;
    file, ends := C.CompressAll(flags, calls, last);
    r, text := D.DecompressFile(file, flags.zlib, checks, size, cuts, C.Inputs(calls) + last);
  }
}
