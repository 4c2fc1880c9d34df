/**
 Between GAP buffers and bit blocks there and back.
 */
module RoundTrip {
  import opened BitString
  import opened Gap
  import opened BitBlock
  import BitCount
  import GapBlock
  import GapConvert
  import GapRuns

  /** Expanded to bits and compressed again, a buffer that fits gets its runs back, at level 0. */
  method ExpandCompress(buf: seq<GapWord>, destLen: nat) returns (dest: seq<GapWord>, len: nat)
    requires Valid(buf) && 2 <= destLen <= 8192
    ensures len == if Length(buf) < destLen then Length(buf) else 0
    ensures len > 0 ==> Valid(dest) && View(dest) == View(buf) && Level(dest) == 0
  {
    var block := new bool[BLOCK_BITS];
    var gap := new GapWord[destLen](i => 0);
    GapBlock.ConvertToBlock(block, buf);
    assert block[..] == GapBits(buf);
    len := GapConvert.ConvertToGap(gap, block[..], destLen);
    dest := gap[..];
    GapRuns.LengthIsRunCount(buf);
    if len > 0 {
      CanonicalUnique(View(dest), View(buf));
    }
  }

  /** Compressed and expanded again, a block with fewer than destLen runs is unchanged; any other is refused. */
  method CompressExpand(src: seq<bool>, destLen: nat) returns (ok: bool, dest: seq<bool>)
    requires |src| == BLOCK_BITS && 2 <= destLen <= 8192
    ensures ok <==> RunCount(src) < destLen
    ensures ok ==> dest == src
  {
    var block := new bool[BLOCK_BITS];
    var gap := new GapWord[destLen](i => 0);
    var _, gapCount := BitCount.CountChange(src);
    var len := GapConvert.ConvertToGap(gap, src, destLen);
    ok := len != 0;
    assert ok ==> len == gapCount;
    if ok {
      GapBlock.ConvertToBlock(block, gap[..]);
    }
    dest := block[..];
  }
}
