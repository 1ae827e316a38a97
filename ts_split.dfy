/** The TS protocol parser: a datagram split into 188-byte transport stream packets. */
module TsSplit {
  import opened Bits
  import opened ProtocolParser

  const TsPacketSize := 188

  /** Packet i of buf: bytes 188·i up to 188·(i + 1), with no fields. */
  function Packet(buf: seq<byte>, i: nat): ParseResult
    requires TsPacketSize * (i + 1) <= |buf|
  {
    ParseResult(buf[TsPacketSize * i..TsPacketSize * (i + 1)], map[], false)
  }

  /** The buffers of a list of results, joined in order. */
  function Joined(rs: seq<ParseResult>): seq<byte>
  {
    if rs == [] then [] else Joined(rs[..|rs| - 1]) + rs[|rs| - 1].buffer
  }

  /** TsProtocolParser.Parse: one result per whole packet, in order; a trailing partial packet is dropped. */
  method TsParse(data: ParseResult) returns (res: seq<ParseResult>)
    ensures |res| == |data.buffer| / TsPacketSize
    ensures 0 <= |data.buffer| - TsPacketSize * |res| < TsPacketSize
    ensures forall i :: 0 <= i < |res| ==> TsPacketSize * (i + 1) <= |data.buffer| && res[i] == Packet(data.buffer, i)
  {
    var rawBuf := data.buffer;
    res := [];
    var nPackets := |rawBuf| / TsPacketSize;
    var i := 0;
    while i < nPackets
      invariant 0 <= i <= nPackets && |res| == i
      invariant forall j :: 0 <= j < i ==> TsPacketSize * (j + 1) <= |rawBuf| && res[j] == Packet(rawBuf, j)
    {
      res := res + [ParseResult(rawBuf[i * TsPacketSize..(i + 1) * TsPacketSize], map[], false)];
      i := i + 1;
    }
  }

  /**
   * The packets of TsParse, joined, are the input up to its last whole packet:
   * every packet is 188 bytes and nothing but the trailing partial packet is lost.
   */
  lemma {:induction false} PacketsJoin(buf: seq<byte>, res: seq<ParseResult>)
    requires TsPacketSize * |res| <= |buf|
    requires forall i :: 0 <= i < |res| ==> TsPacketSize * (i + 1) <= |buf| && res[i] == Packet(buf, i)
    ensures Joined(res) == buf[..TsPacketSize * |res|]
    ensures forall i :: 0 <= i < |res| ==> |res[i].buffer| == TsPacketSize
    decreases |res|
  {
    if res != [] {
      var k := |res| - 1;
      PacketsJoin(buf, res[..k]);
      assert res[k] == Packet(buf, k);
      assert buf[..TsPacketSize * k] + buf[TsPacketSize * k..TsPacketSize * (k + 1)] == buf[..TsPacketSize * (k + 1)];
    }
  }
}
