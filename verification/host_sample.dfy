/** The host's view of one sample set (test/Sample.py): cell 0 is a header
    word, cells 1.. are the configured channels in ascending channel order. */
module HostSample {
  import opened Wrappers
  import opened Bytes
  import P = HostProtocol

  /** sampleHdr: "<HH" of the header cell, returned as (ioBitmap, validBitmap). */
  function SampleHdr(cell: u32): (r: (u16, u16))
    ensures r.0 + 0x1_0000 * r.1 == cell
  {
    (cell % 0x1_0000, cell / 0x1_0000)
  }

  /** A sample set. The constructor never assigns chBitmap, so it is absent
      unless a caller stores one. */
  datatype SampleSet = SampleSet(data: seq<u32>, validBitmap: u16, ioBitmap: u16, chBitmap: Option<nat>)

  /** SampleSet(data): unpacks the header cell into (validBitmap, ioBitmap),
      in the opposite order to the one sampleHdr returns. */
  function NewSampleSet(data: seq<u32>): (r: Result<SampleSet, P.Error>)
    ensures r.Success? <==> |data| >= 1
    ensures r.Success? ==> r.value.data == data && r.value.chBitmap.None?
  {
    if |data| == 0 then Failure(P.IndexError)
    else
      var (first, second) := SampleHdr(data[0]);
      Success(SampleSet(data, first, second, None))
  }

  /** The swap: what sampleHdr calls ioBitmap lands in validBitmap, and the
      other way round. */
  lemma HeaderFieldsSwapped(data: seq<u32>)
    requires |data| >= 1
    ensures NewSampleSet(data).value.validBitmap == SampleHdr(data[0]).0
    ensures NewSampleSet(data).value.ioBitmap == SampleHdr(data[0]).1
  {
  }

  /** The packed column of channel chNum: -1 when its bit is clear, else
      the number of configured channels below it. */
  function ChIdx(chBitmap: nat, chNum: nat): (r: int)
    ensures r == -1 <==> !Bit(chBitmap, chNum)
    ensures r >= 0 ==> r == |BitsBelow(chBitmap, chNum)|
  {
    PopCountCounts(chBitmap, chNum);
    if Bit(chBitmap, chNum) then PopCount(chBitmap, chNum) else -1
  }

  /** _chNumToIdx: the bit test, then a scan of the bits below chNum
      counting the set ones. */
  method ChNumToIdx(chBitmap: nat, chNum: nat) returns (idx: int)
    ensures idx == ChIdx(chBitmap, chNum)
  {
    if !Bit(chBitmap, chNum) {
      return -1;
    }
    var count := 0;
    var k := 0;
    while k < chNum
      invariant 0 <= k <= chNum
      invariant count == PopCount(chBitmap, k)
    {
      if Bit(chBitmap, k) {
        count := count + 1;
      }
      k := k + 1;
    }
    return count;
  }

  /** The documented example: bitmap 0b1011 puts channel 3 in column 2 and
      has no column for channel 2. */
  lemma ChIdxExample()
    ensures ChIdx(0xB, 3) == 2 && ChIdx(0xB, 2) == -1
  {
    assert Bit(0xB, 0) && Bit(0xB, 1) && !Bit(0xB, 2) && Bit(0xB, 3);
    assert PopCount(0xB, 3) == 2;
  }

  /** Columns follow channel order and are dense: distinct configured
      channels get distinct columns, lower channels lower columns, and every
      column is below the number of configured channels. */
  lemma ChIdxRank(chBitmap: nat, j: nat, k: nat, n: nat)
    requires j < k < n && Bit(chBitmap, j) && Bit(chBitmap, k)
    ensures 0 <= ChIdx(chBitmap, j) < ChIdx(chBitmap, k) < PopCount(chBitmap, n)
  {
    PopCountStrict(chBitmap, j, k);
    PopCountStrict(chBitmap, k, n);
  }

  /** _chNumToIdx on a SampleSet: a constructed set has no chBitmap, so the
      lookup raises AttributeError. */
  function SetChNumToIdx(s: SampleSet, chNum: nat): (r: Result<int, P.Error>)
    ensures s.chBitmap.None? <==> r == Failure(P.AttributeError)
    ensures s.chBitmap.Some? ==> r == Success(ChIdx(s.chBitmap.value, chNum))
  {
    match s.chBitmap
    case None => Failure(P.AttributeError)
    case Some(b) => Success(ChIdx(b, chNum))
  }

  /** Every lookup on a freshly constructed sample set fails. */
  lemma ConstructedSetCannotLookUp(data: seq<u32>, chNum: nat)
    requires |data| >= 1
    ensures SetChNumToIdx(NewSampleSet(data).value, chNum) == Failure(P.AttributeError)
  {
  }

  /** chIdxGet: Python indexing of data at chIdx + 1, negative indices
      counting from the end. */
  function ChIdxGet(s: SampleSet, chIdx: int): (r: Result<u32, P.Error>)
    ensures r.Success? <==> -|s.data| <= chIdx + 1 < |s.data|
    ensures 0 <= chIdx + 1 < |s.data| ==> r == Success(s.data[chIdx + 1])
  {
    var i := chIdx + 1;
    if 0 <= i < |s.data| then Success(s.data[i])
    else if -|s.data| <= i < 0 then Success(s.data[|s.data| + i])
    else Failure(P.IndexError)
  }

  /** chNumGet of a channel outside the bitmap does not fail: column -1
      reads cell 0, the header word. */
  lemma UnconfiguredChannelReadsHeader(s: SampleSet, chNum: nat)
    requires s.chBitmap.Some? && !Bit(s.chBitmap.value, chNum) && |s.data| >= 1
    ensures ChIdxGet(s, SetChNumToIdx(s, chNum).value) == Success(s.data[0])
  {
  }

  /** chNumIsValid: the validBitmap bit at the channel's column. For a
      channel outside the bitmap the column is -1 and "1 << -1" raises. */
  function ChNumIsValid(s: SampleSet, chNum: nat): (r: Result<bool, P.Error>)
    ensures s.chBitmap.None? ==> r == Failure(P.AttributeError)
    ensures s.chBitmap.Some? && !Bit(s.chBitmap.value, chNum) ==> r == Failure(P.ValueError)
    ensures s.chBitmap.Some? && Bit(s.chBitmap.value, chNum) ==>
              r == Success(Bit(s.validBitmap, PopCount(s.chBitmap.value, chNum)))
  {
    var idx :- SetChNumToIdx(s, chNum);
    if idx < 0 then Failure(P.ValueError) else Success(Bit(s.validBitmap, idx))
  }

  /** sampleFmt0: a cell as two little-endian int16 values (vBus, vShunt). */
  function SampleFmt0(cell: u32): (r: (i16, i16))
  {
    (I16Of(cell % 0x1_0000), I16Of(cell / 0x1_0000))
  }

  /** sampleFmt1: a cell as one little-endian int32 power value. */
  function SampleFmt1(cell: u32): (r: i32)
  {
    I32Of(cell)
  }

  /** The cell a sender stores for a (vBus, vShunt) pair; sampleFmt0 reads
      both values back. */
  function Fmt0Cell(vBus: i16, vShunt: i16): (cell: u32)
    ensures SampleFmt0(cell) == (vBus, vShunt)
  {
    var cell := U16Of(vBus) + 0x1_0000 * U16Of(vShunt);
    DivMul(U16Of(vShunt), U16Of(vBus), 0x1_0000);
    cell
  }

  /** The cell for a power value; sampleFmt1 reads it back. */
  function Fmt1Cell(power: i32): (cell: u32)
    ensures SampleFmt1(cell) == power
  {
    U32Of(power)
  }
}
