/** The capture check of test/new_readout.py: a captured file is read as a
    list of byte values, its length is compared with the 4096 bytes each
    block read should give, and the values are rendered as one decimal
    stream with no separators. The file contents and the global block count
    are parameters. */
module NewReadout {
  import opened Words
  import opened Decimal

  const BlockBytes: nat := 4096

  /** list(f.read()): the bytes of the file as integers, in file order. */
  function ReadFile(contents: seq<Byte>): (num: seq<int>)
    ensures |num| == |contents|
    ensures forall i :: 0 <= i < |num| ==> 0 <= num[i] <= 255 && num[i] == contents[i]
  {
    seq(|contents|, i requires 0 <= i < |contents| => contents[i] as int)
  }

  datatype Verdict = NoBlocksMissing(kBytes: real) | BlocksMissing

  /** What lenCheck reports: whether the list itself is echoed, and the verdict. */
  datatype LenReport = LenReport(echoed: bool, verdict: Verdict)

  function LenCheck(elementList: seq<int>, numBlocksRead: int): LenReport
  {
    LenReport(numBlocksRead <= 2,
              if |elementList| == BlockBytes * numBlocksRead then NoBlocksMissing(|elementList| as real / 1024.0)
              else BlocksMissing)
  }

  /** The verdict is "no blocks missing" exactly when the list holds 4096
      bytes per block read, and then the reported size is 4 kBytes per block. */
  lemma LenCheckVerdict(elementList: seq<int>, numBlocksRead: int)
    ensures LenCheck(elementList, numBlocksRead).verdict.NoBlocksMissing? <==> |elementList| == 4096 * numBlocksRead
    ensures LenCheck(elementList, numBlocksRead).verdict.NoBlocksMissing? ==>
      LenCheck(elementList, numBlocksRead).verdict.kBytes == 4.0 * numBlocksRead as real
    ensures LenCheck(elementList, numBlocksRead).echoed <==> numBlocksRead <= 2
  {
  }

  /** ''.join(map(str, elementList)). */
  function Stream(elementList: seq<int>): string
    decreases |elementList|
  {
    if elementList == [] then "" else IntToDecimal(elementList[0]) + Stream(elementList[1..])
  }

  datatype StreamResult = StreamResult(stream: string, printed: bool)

  /** dataStream: the stream is always returned, and printed only for at most two blocks. */
  function DataStream(elementList: seq<int>, numBlocksRead: int): (r: StreamResult)
    ensures r.stream == Stream(elementList)
    ensures r.printed <==> numBlocksRead <= 2
  {
    StreamResult(Stream(elementList), numBlocksRead <= 2)
  }

  /** Rendering a list is rendering its parts one after the other. */
  lemma {:induction false} StreamAppend(a: seq<int>, b: seq<int>)
    ensures Stream(a + b) == Stream(a) + Stream(b)
    decreases |a|
  {
    if a == [] {
      assert a + b == b;
    } else {
      assert (a + b)[1..] == a[1..] + b;
      StreamAppend(a[1..], b);
    }
  }

  predicate AreBytes(elementList: seq<int>)
  {
    forall i :: 0 <= i < |elementList| ==> 0 <= elementList[i] < 0x100
  }

  /** A list of n byte values renders to between n and 3n decimal digits,
      and to nothing else. */
  lemma {:induction false} StreamLength(elementList: seq<int>)
    requires AreBytes(elementList)
    ensures |elementList| <= |Stream(elementList)| <= 3 * |elementList|
    ensures AllDigits(Stream(elementList))
    decreases |elementList|
  {
    if elementList != [] {
      StreamLength(elementList[1..]);
      ByteDecimalLength(elementList[0]);
    }
  }

  /** The file contents render to between n and 3n digits; an empty file to the empty string. */
  lemma FileStreamLength(contents: seq<Byte>, numBlocksRead: int)
    ensures var s := DataStream(ReadFile(contents), numBlocksRead).stream;
      |contents| <= |s| <= 3 * |contents| && AllDigits(s) && (contents == [] <==> s == "")
  {
    StreamLength(ReadFile(contents));
  }

  /** Without separators the rendering cannot be read back: two different
      lists give the same stream. */
  lemma StreamNotInjective()
    ensures [1, 23] != [12, 3]
    ensures Stream([1, 23]) == Stream([12, 3]) == "123"
  {
    assert [1, 23][1..] == [23] && [12, 3][1..] == [3];
    assert [23][1..] == [] && [3][1..] == [];
    assert NatToDecimal(23) == NatToDecimal(2) + [DigitChar(3)];
    assert NatToDecimal(12) == NatToDecimal(1) + [DigitChar(2)];
  }
}
