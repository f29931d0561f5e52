/** The test-data generator of the simulation testbench
    (source/DuneNvme/sim/testbench/genData.cpp). Pairs of 24-bit complex
    samples (r, i) are packed into three 32-bit words by a two-state
    machine, and each word is written to the data file as a signed decimal
    line. A second rendering writes a word as 32 binary digits. The file is
    modelled as the text written to it. */
module GenData {
  import opened Words
  import opened Decimal

  /** The data file, as the text written to it so far. */
  class DataFile {
    var text: string

    constructor()
      ensures text == ""
    {
      text := "";
    }
  }

  /** One complex sample, as the two words handed to output(). */
  datatype Sample = Sample(r: Word, i: Word)

  /** Both parts fit in 24 bits, the width the packing keeps. */
  predicate Is24(s: Sample)
  {
    s.r < 0x100_0000 && s.i < 0x100_0000
  }

  /** data[0] of a pair: (r << 8) | (i >> 16), cut to 32 bits. */
  function FirstWord(r: Word, i: Word): Word
  {
    Or32((r * 0x100) % Limit32, i / 0x1_0000)
  }

  /** data[1] after the first call of a pair: i << 16, cut to 32 bits. */
  function LowHalfShifted(i: Word): Word
  {
    (i * 0x1_0000) % Limit32
  }

  /** data[1] after the second call: data[1] | (r >> 8). */
  function SecondWord(d1: Word, r: Word): Word
  {
    Or32(d1, r / 0x100)
  }

  /** data[2]: (r << 24) | i, cut to 32 bits. */
  function ThirdWord(r: Word, i: Word): Word
  {
    Or32((r * 0x100_0000) % Limit32, i)
  }

  /** The three words a pair of samples is packed into. */
  function Pack(a: Sample, b: Sample): (d: seq<Word>)
    ensures |d| == 3
  {
    [FirstWord(a.r, a.i), SecondWord(LowHalfShifted(a.i), b.r), ThirdWord(b.r, b.i)]
  }

  /** Reading a pair of 24-bit samples back out of three packed words. */
  function Unpack(d: seq<Word>): (p: (Sample, Sample))
    requires |d| == 3
    ensures Is24(p.0) && Is24(p.1)
  {
    (Sample(d[0] / 0x100, (d[0] % 0x100) * 0x1_0000 + d[1] / 0x1_0000),
     Sample((d[1] % 0x1_0000) * 0x100 + d[2] / 0x100_0000, d[2] % 0x100_0000))
  }

  /** A left shift cut to 32 bits keeps the low bits of the value that stay in the word. */
  lemma ShiftCut(x: nat, n: nat, m: nat)
    requires 0 < n && 0 < m && n * m == Limit32
    ensures (x * m) % Limit32 == (x % n) * m
  {
    var q, r := x / n, x % n;
    assert x == q * n + r;
    assert x * m == q * (n * m) + r * m;
    assert r * m <= (n - 1) * m == n * m - m;
    DivModOf(q, r * m, Limit32);
  }

  /** The first word holds r above the top byte of i. */
  lemma FirstWordParts(r: Word, i: Word)
    requires r < 0x100_0000 && i < 0x100_0000
    ensures FirstWord(r, i) / 0x100 == r && FirstWord(r, i) % 0x100 == i / 0x1_0000
  {
    assert Pow2(8) == 0x100;
    assert (r * 0x100) % Limit32 == r * 0x100;
    BitOrDisjoint(r, i / 0x1_0000, 8);
    DivModOf(r, i / 0x1_0000, 0x100);
  }

  /** The second word holds the low half of the first i above the top half of the second r. */
  lemma SecondWordParts(i: Word, r: Word)
    requires r < 0x100_0000
    ensures SecondWord(LowHalfShifted(i), r) / 0x1_0000 == i % 0x1_0000
    ensures SecondWord(LowHalfShifted(i), r) % 0x1_0000 == r / 0x100
  {
    Pow2Facts();
    ShiftCut(i, 0x1_0000, 0x1_0000);
    BitOrDisjoint(i % 0x1_0000, r / 0x100, 16);
    DivModOf(i % 0x1_0000, r / 0x100, 0x1_0000);
  }

  /** The third word holds the low byte of r above i. */
  lemma ThirdWordParts(r: Word, i: Word)
    requires i < 0x100_0000
    ensures ThirdWord(r, i) / 0x100_0000 == r % 0x100 && ThirdWord(r, i) % 0x100_0000 == i
  {
    Pow2Facts();
    ShiftCut(r, 0x100, 0x100_0000);
    BitOrDisjoint(r % 0x100, i, 24);
    DivModOf(r % 0x100, i, 0x100_0000);
  }

  /** Packing loses nothing when every part fits in 24 bits: the decoder recovers both samples. */
  lemma PackRoundTrip(a: Sample, b: Sample)
    requires Is24(a) && Is24(b)
    ensures Unpack(Pack(a, b)) == (a, b)
  {
    FirstWordParts(a.r, a.i);
    SecondWordParts(a.i, b.r);
    ThirdWordParts(b.r, b.i);
  }

  /** The first word is rebuilt from the r read out of it and the top byte of the i it starts. */
  lemma FirstWordOf(d0: Word, d1: Word)
    ensures FirstWord(d0 / 0x100, (d0 % 0x100) * 0x1_0000 + d1 / 0x1_0000) == d0
  {
    assert Pow2(8) == 0x100;
    var r := d0 / 0x100;
    assert (r * 0x100) % Limit32 == r * 0x100;
    DivModOf(d0 % 0x100, d1 / 0x1_0000, 0x1_0000);
    BitOrDisjoint(r, d0 % 0x100, 8);
  }

  /** The second word is rebuilt from the low half of the first i and the top of the second r. */
  lemma SecondWordOf(d0: Word, d1: Word, d2: Word)
    ensures SecondWord(LowHalfShifted((d0 % 0x100) * 0x1_0000 + d1 / 0x1_0000),
                       (d1 % 0x1_0000) * 0x100 + d2 / 0x100_0000) == d1
  {
    var i := (d0 % 0x100) * 0x1_0000 + d1 / 0x1_0000;
    var r := (d1 % 0x1_0000) * 0x100 + d2 / 0x100_0000;
    DivModOf(d0 % 0x100, d1 / 0x1_0000, 0x1_0000);
    ShiftCut(i, 0x1_0000, 0x1_0000);
    assert LowHalfShifted(i) == (d1 / 0x1_0000) * 0x1_0000;
    DivModOf(d1 % 0x1_0000, d2 / 0x100_0000, 0x100);
    assert r / 0x100 == d1 % 0x1_0000;
    assert Pow2(16) == 0x1_0000 by { Pow2Facts(); }
    BitOrDisjoint(d1 / 0x1_0000, d1 % 0x1_0000, 16);
  }

  /** The third word is rebuilt from the low byte of the second r and the second i. */
  lemma ThirdWordOf(d1: Word, d2: Word)
    ensures ThirdWord((d1 % 0x1_0000) * 0x100 + d2 / 0x100_0000, d2 % 0x100_0000) == d2
  {
    Pow2Facts();
    ShiftCut((d1 % 0x1_0000) * 0x100 + d2 / 0x100_0000, 0x100, 0x100_0000);
    DivModOf(d1 % 0x1_0000, d2 / 0x100_0000, 0x100);
    BitOrDisjoint(d2 / 0x100_0000, d2 % 0x100_0000, 24);
  }

  /** Conversely every three words are the packing of the pair they decode to:
      96 bits hold exactly four 24-bit parts. */
  lemma WordsRoundTrip(d: seq<Word>)
    requires |d| == 3
    ensures Pack(Unpack(d).0, Unpack(d).1) == d
  {
    FirstWordOf(d[0], d[1]);
    SecondWordOf(d[0], d[1], d[2]);
    ThirdWordOf(d[1], d[2]);
    var (a, b) := Unpack(d);
    assert Pack(a, b)[0] == d[0] && Pack(a, b)[1] == d[1] && Pack(a, b)[2] == d[2];
  }

  /** One line of the data file: the word printed with "%d\n". */
  function Line(w: Word): string
  {
    IntToDecimal(Signed32(w)) + "\n"
  }

  /** The text a run of words gives when each is written by render, one
      after the other. */
  function Join(render: Word -> string, words: seq<Word>): string
    decreases |words|
  {
    if words == [] then "" else render(words[0]) + Join(render, words[1..])
  }

  /** The lines printed for a run of words. */
  function Lines(words: seq<Word>): string
  {
    Join(Line, words)
  }

  /** Reading one line of the data file back into the word it was printed
      from; None for a line "%d" cannot have printed from a 32-bit word. */
  function ReadLine(line: string): Option<Word>
  {
    if |line| < 2 || line[|line| - 1] != '\n' then None
    else
      var s := line[..|line| - 1];
      if s[0] == '-' then
        if AllDigits(s[1..]) && 1 <= ParseNat(s[1..]) <= 0x8000_0000 then Some(Limit32 - ParseNat(s[1..])) else None
      else if AllDigits(s) && ParseNat(s) < 0x8000_0000 then Some(ParseNat(s))
      else None
  }

  /** Every printed line reads back as the word it was printed from. */
  lemma LineRoundTrip(w: Word)
    ensures ReadLine(Line(w)) == Some(w)
  {
    var x := Signed32(w);
    var line := Line(w);
    IntRoundTrip(x);
    assert line[..|line| - 1] == IntToDecimal(x);
    if x >= 0 {
      assert IsDigit(IntToDecimal(x)[0]);
    }
  }

  lemma Join3(render: Word -> string, a: Word, b: Word, c: Word)
    ensures Join(render, [a, b, c]) == render(a) + render(b) + render(c)
  {
    assert [a, b, c][1..] == [b, c] && [b, c][1..] == [c] && [c][1..] == [];
    assert Join(render, [c]) == render(c) + Join(render, []);
    assert Join(render, [b, c]) == render(b) + Join(render, [c]);
  }

  /** A printed line holds exactly one newline, at its end. */
  lemma LineNewline(w: Word)
    ensures multiset(Line(w))['\n'] == 1
  {
    var x := Signed32(w);
    var s := IntToDecimal(x);
    if x < 0 {
      assert s == "-" + NatToDecimal(-x);
      assert '\n' !in NatToDecimal(-x);
    } else {
      assert '\n' !in s;
    }
    assert multiset(s)['\n'] == 0;
  }

  /** A run written by a renderer that gives one newline per word holds one newline per word. */
  lemma {:induction false} JoinCount(render: Word -> string, words: seq<Word>)
    requires forall k :: 0 <= k < |words| ==> multiset(render(words[k]))['\n'] == 1
    ensures multiset(Join(render, words))['\n'] == |words|
    decreases |words|
  {
    if words != [] {
      assert multiset(render(words[0]))['\n'] == 1;
      JoinCount(render, words[1..]);
    }
  }

  /** Each printed word takes exactly one line. */
  lemma LinesCount(words: seq<Word>)
    ensures multiset(Lines(words))['\n'] == |words|
  {
    forall k | 0 <= k < |words|
      ensures multiset(Line(words[k]))['\n'] == 1
    {
      LineNewline(words[k]);
    }
    JoinCount(Line, words);
  }

  /** Writing two runs of words writes the first run, then the second. */
  lemma {:induction false} JoinAppend(render: Word -> string, u: seq<Word>, v: seq<Word>)
    ensures Join(render, u + v) == Join(render, u) + Join(render, v)
    decreases |u|
  {
    if u == [] {
      assert u + v == v;
    } else {
      assert (u + v)[1..] == u[1..] + v;
      JoinAppend(render, u[1..], v);
    }
  }

  /** The words an even run of samples is packed into, pair after pair. */
  function PackAll(samples: seq<Sample>): (words: seq<Word>)
    requires |samples| % 2 == 0
    ensures |words| == 3 * (|samples| / 2)
    decreases |samples|
  {
    if samples == [] then []
    else PackAll(samples[..|samples| - 2]) + Pack(samples[|samples| - 2], samples[|samples| - 1])
  }

  /** The samples a run of packed words decodes to, three words at a time. */
  function UnpackAll(words: seq<Word>): (samples: seq<Sample>)
    requires |words| % 3 == 0
    ensures |samples| == 2 * (|words| / 3)
    decreases |words|
  {
    if words == [] then []
    else
      var pair := Unpack(words[|words| - 3..]);
      UnpackAll(words[..|words| - 3]) + [pair.0, pair.1]
  }

  /** Decoding three more words appends the pair they hold. */
  lemma UnpackAllSnoc(u: seq<Word>, p: seq<Word>)
    requires |u| % 3 == 0 && |p| == 3
    ensures UnpackAll(u + p) == UnpackAll(u) + [Unpack(p).0, Unpack(p).1]
  {
    assert (u + p)[..|u|] == u && (u + p)[|u|..] == p;
  }

  /** Packing two more samples appends their three words. */
  lemma PackAllSnoc(s: seq<Sample>, a: Sample, b: Sample)
    requires |s| % 2 == 0
    ensures PackAll(s + [a, b]) == PackAll(s) + Pack(a, b)
  {
    assert (s + [a, b])[..|s|] == s;
  }

  /** A run of 24-bit samples decodes back from the words it is packed into. */
  lemma {:induction false} PackAllRoundTrip(s: seq<Sample>)
    requires |s| % 2 == 0
    requires forall k :: 0 <= k < |s| ==> Is24(s[k])
    ensures UnpackAll(PackAll(s)) == s
    decreases |s|
  {
    if s != [] {
      var n := |s|;
      var front, a, b := s[..n - 2], s[n - 2], s[n - 1];
      assert s == front + [a, b];
      PackAllSnoc(front, a, b);
      PackRoundTrip(a, b);
      PackAllRoundTrip(front);
      UnpackAllSnoc(PackAll(front), Pack(a, b));
    }
  }

  /** And every run of whole triples of words is the packing of the samples it decodes to. */
  lemma {:induction false} UnpackAllRoundTrip(w: seq<Word>)
    requires |w| % 3 == 0
    ensures PackAll(UnpackAll(w)) == w
    decreases |w|
  {
    if w != [] {
      var n := |w|;
      var front, p := w[..n - 3], w[n - 3..];
      assert w == front + p;
      UnpackAllSnoc(front, p);
      WordsRoundTrip(p);
      UnpackAllRoundTrip(front);
      PackAllSnoc(UnpackAll(front), Unpack(p).0, Unpack(p).1);
    }
  }

  /** Where the generator stands after feeding the samples fed, having
      started in state st0 with the file holding text0: the state has flipped
      once per call, and from state 0 the file holds the lines (written by
      render) of every completed pair while the words of a pending first
      sample wait in d0 and d1. */
  ghost predicate Fed(render: Word -> string, st: int, d0: Word, d1: Word, text: string,
                      fed: seq<Sample>, st0: int, text0: string)
  {
    st == (st0 + |fed|) % 2 &&
    (st0 == 0 && |fed| % 2 == 0 ==> text == text0 + Join(render, PackAll(fed))) &&
    (st0 == 0 && |fed| % 2 == 1 ==>
      text == text0 + Join(render, PackAll(fed[..|fed| - 1])) &&
      d0 == FirstWord(fed[|fed| - 1].r, fed[|fed| - 1].i) && d1 == LowHalfShifted(fed[|fed| - 1].i))
  }

  /** Writing three more words after a run writes the longer run. */
  lemma JoinSnoc3(render: Word -> string, words: seq<Word>, p: seq<Word>, text: string, text': string, text0: string)
    requires |p| == 3
    requires text == text0 + Join(render, words)
    requires text' == text + render(p[0]) + render(p[1]) + render(p[2])
    ensures text' == text0 + Join(render, words + p)
  {
    JoinAppend(render, words, p);
    assert p == [p[0], p[1], p[2]];
    Join3(render, p[0], p[1], p[2]);
  }

  /** The pair's words are the two pending words, completed by the second sample. */
  lemma PackFromPending(a: Sample, x: Sample, d0: Word, d1: Word)
    requires d0 == FirstWord(a.r, a.i) && d1 == LowHalfShifted(a.i)
    ensures Pack(a, x) == [d0, SecondWord(d1, x.r), ThirdWord(x.r, x.i)]
  {
  }

  /** The second sample of a pair completes the pair in the packed run. */
  lemma PackAllLastPair(fed: seq<Sample>, x: Sample)
    requires |fed| % 2 == 1
    ensures PackAll(fed + [x]) == PackAll(fed[..|fed| - 1]) + Pack(fed[|fed| - 1], x)
  {
    assert (fed + [x])[..|fed| - 1] == fed[..|fed| - 1];
  }

  /** One output() call on sample x, seen through the two pending words and
      the text: state 0 keeps the first word and the low half of i, state 1
      writes the three words of the pair. */
  ghost predicate Stepped(render: Word -> string, st: int, d0: Word, d1: Word, text: string,
                          st': int, d0': Word, d1': Word, text': string, x: Sample)
  {
    (st == 0 ==> st' == 1 && text' == text && d0' == FirstWord(x.r, x.i) && d1' == LowHalfShifted(x.i)) &&
    (st == 1 ==> (st' == 0 &&
      text' == text + render(d0) + render(SecondWord(d1, x.r)) + render(ThirdWord(x.r, x.i))))
  }

  /** One call of output() with the next sample x keeps Fed. */
  lemma FedStep(render: Word -> string, st: int, d0: Word, d1: Word, text: string,
                st': int, d0': Word, d1': Word, text': string,
                fed: seq<Sample>, x: Sample, st0: int, text0: string)
    requires 0 <= st0 <= 1
    requires Fed(render, st, d0, d1, text, fed, st0, text0)
    requires Stepped(render, st, d0, d1, text, st', d0', d1', text', x)
    ensures Fed(render, st', d0', d1', text', fed + [x], st0, text0)
  {
    if st0 == 0 && |fed| % 2 == 1 {
      var a := fed[|fed| - 1];
      PackFromPending(a, x, d0, d1);
      PackAllLastPair(fed, x);
      JoinSnoc3(render, PackAll(fed[..|fed| - 1]), Pack(a, x), text, text', text0);
    } else if st0 == 0 {
      assert (fed + [x])[..|fed|] == fed;
    }
  }

  /** The static state of output(): the state variable and the three words
      of the pair being packed. */
  class Generator {
    var state: int
    const data: array<Word>

    ghost predicate Valid()
      reads this
    {
      data.Length == 3 && 0 <= state <= 1
    }

    /** Static storage starts zeroed. */
    constructor()
      ensures Valid() && state == 0 && data[..] == [0, 0, 0] && fresh(data)
    {
      state := 0;
      data := new Word[3](_ => 0);
    }

    /** output(): the first call of a pair keeps r and the top byte of i in
        data[0] and the low half of i in data[1]; the second completes
        data[1] and data[2], prints the three words and returns to state 0.
        It always returns 0. */
    method Output(file: DataFile, r: Word, i: Word) returns (result: int)
      requires Valid()
      modifies this, data, file
      ensures Valid() && result == 0
      ensures old(state) == 0 ==> (state == 1 && file.text == old(file.text) &&
        data[..] == [FirstWord(r, i), LowHalfShifted(i), old(data[2])])
      ensures old(state) == 1 ==> (state == 0 &&
        data[..] == [old(data[0]), SecondWord(old(data[1]), r), ThirdWord(r, i)] &&
        file.text == old(file.text) + Line(data[0]) + Line(data[1]) + Line(data[2]))
      ensures Stepped(Line, old(state), old(data[0]), old(data[1]), old(file.text),
                      state, data[0], data[1], file.text, Sample(r, i))
    {
      if state == 0 {
        data[0] := FirstWord(r, i);
        data[1] := LowHalfShifted(i);
        state := state + 1;
      } else {
        data[1] := SecondWord(data[1], r);
        data[2] := ThirdWord(r, i);
        file.text := file.text + Line(data[0]);
        file.text := file.text + Line(data[1]);
        file.text := file.text + Line(data[2]);
        state := 0;
      }
      result := 0;
    }

    /** test1(): 4096 calls with r = c and i = 0x10000 | c. From state 0 the
        file gets the lines of the 2048 packed pairs. */
    method Test1(file: DataFile) returns (ghost samples: seq<Sample>)
      requires Valid()
      modifies this, data, file
      ensures |samples| == 4096 && forall k :: 0 <= k < 4096 ==> samples[k] == Test1At(k)
      ensures Valid() && state == old(state)
      ensures old(state) == 0 ==> file.text == old(file.text) + Lines(PackAll(samples))
    {
      ghost var st0, text0 := state, file.text;
      ghost var fed: seq<Sample> := [];
      var c := 0;
      while c < 4096
        invariant 0 <= c <= 4096 && Valid()
        invariant |fed| == c && forall k :: 0 <= k < c ==> fed[k] == Test1At(k)
        invariant Fed(Line, state, data[0], data[1], file.text, fed, st0, text0)
      {
        var r: Word := c;
        var i := Or32(0x1_0000, c);
        Test1Word(c);
        ghost var st, d0, d1, text := state, data[0], data[1], file.text;
        var _ := Output(file, r, i);
        FedStep(Line, st, d0, d1, text, state, data[0], data[1], file.text, fed, Sample(r, i), st0, text0);
        fed := fed + [Sample(r, i)];
        c := c + 1;
      }
      samples := fed;
    }

    /** One pass of test2's innermost loop: output() on the two tagged
        words of sample s of the given subband in block n, which are test2
        sample k = 32n + 8·subband + s. */
    method Test2OutputOne(file: DataFile, subband: nat, sample: nat, ghost n: nat, ghost s: nat,
                       ghost fed: seq<Sample>, ghost st0: int, ghost text0: string)
      requires Valid() && 0 <= st0 <= 1 && n < 8 && subband < 4 && s < 8 && sample == 8 * n + s
      requires |fed| == 32 * n + 8 * subband + s
      requires Fed(Line, state, data[0], data[1], file.text, fed, st0, text0)
      modifies this, data, file
      ensures Valid()
      ensures Fed(Line, state, data[0], data[1], file.text, fed + [Test2At(|fed|)], st0, text0)
    {
      var r := Test2Word(0x3, subband, sample);
      var i := Test2Word(0x2, subband, sample);
      Test2Call(n, subband, s);
      ghost var st, d0, d1, text := state, data[0], data[1], file.text;
      var _ := Output(file, r, i);
      FedStep(Line, st, d0, d1, text, state, data[0], data[1], file.text, fed, Sample(r, i), st0, text0);
    }

    /** The innermost loop of test2: the numSamples samples of one subband
        of block n, whose running sample number starts at sample. */
    method Test2SubbandSamples(file: DataFile, subband: nat, sample: nat, ghost n: nat,
                        ghost fed: seq<Sample>, ghost st0: int, ghost text0: string)
      returns (ghost fed': seq<Sample>)
      requires Valid() && 0 <= st0 <= 1 && n < 8 && subband < 4 && sample == 8 * n
      requires |fed| == 32 * n + 8 * subband && forall k :: 0 <= k < |fed| ==> fed[k] == Test2At(k)
      requires Fed(Line, state, data[0], data[1], file.text, fed, st0, text0)
      modifies this, data, file
      ensures Valid() && |fed'| == |fed| + 8 && forall k :: 0 <= k < |fed'| ==> fed'[k] == Test2At(k)
      ensures Fed(Line, state, data[0], data[1], file.text, fed', st0, text0)
    {
      fed' := fed;
      var numSamples := 8;
      var s := 0;
      while s < numSamples
        invariant 0 <= s <= numSamples && Valid()
        invariant |fed'| == 32 * n + 8 * subband + s && forall k :: 0 <= k < |fed'| ==> fed'[k] == Test2At(k)
        invariant Fed(Line, state, data[0], data[1], file.text, fed', st0, text0)
      {
        Test2OutputOne(file, subband, sample + s, n, s, fed', st0, text0);
        fed' := fed' + [Test2At(|fed'|)];
        s := s + 1;
      }
    }

    /** test2(): 8 blocks of 4 subbands of 8 samples. r and i carry the tags 3
        and 2 at bit 22, the subband at bit 20 and the running sample number
        at bit 6. From state 0 the file gets the lines of the 128 packed pairs. */
    method Test2(file: DataFile) returns (ghost samples: seq<Sample>)
      requires Valid()
      modifies this, data, file
      ensures |samples| == 256 && forall k :: 0 <= k < 256 ==> samples[k] == Test2At(k)
      ensures Valid() && state == old(state)
      ensures old(state) == 0 ==> file.text == old(file.text) + Lines(PackAll(samples))
    {
      ghost var st0, text0 := state, file.text;
      ghost var fed: seq<Sample> := [];
      var numSamples := 8;
      var sample := 0;
      var n := 0;
      while n < 8
        invariant 0 <= n <= 8 && sample == 8 * n && Valid()
        invariant |fed| == 32 * n && forall k :: 0 <= k < |fed| ==> fed[k] == Test2At(k)
        invariant Fed(Line, state, data[0], data[1], file.text, fed, st0, text0)
      {
        var subband := 0;
        while subband < 4
          invariant 0 <= subband <= 4 && Valid()
          invariant |fed| == 32 * n + 8 * subband && forall k :: 0 <= k < |fed| ==> fed[k] == Test2At(k)
          invariant Fed(Line, state, data[0], data[1], file.text, fed, st0, text0)
        {
          fed := Test2SubbandSamples(file, subband, sample, n, fed, st0, text0);
          subband := subband + 1;
        }
        sample := sample + numSamples;
        n := n + 1;
      }
      samples := fed;
    }
  }

  /** Call c of test1: r = c and i = c with bit 16 set. */
  function Test1At(c: nat): Sample
    requires c < 4096
  {
    Sample(c, 0x1_0000 + c)
  }

  /** The loop's i = 0x10000 | c is the reference sample's i. */
  lemma Test1Word(c: nat)
    requires c < 4096
    ensures Or32(0x1_0000, c) == Test1At(c).i
  {
    OrBelowBit16(1, c);
  }

  /** The 4096 test1 samples make 2048 triples, which decode back to the samples. */
  lemma Test1Decodes(s: seq<Sample>)
    requires |s| == 4096 && forall k :: 0 <= k < 4096 ==> s[k] == Test1At(k)
    ensures |PackAll(s)| == 3 * 2048
    ensures UnpackAll(PackAll(s)) == s
  {
    PackAllRoundTrip(s);
  }

  /** The word test2 builds: a 2-bit tag at bit 22, the subband at bit 20
      and the sample number at bit 6. */
  function Test2Word(tag: nat, subband: nat, sample: nat): Word
    requires tag < 4 && subband < 4 && sample < 64
  {
    Or32(Or32(tag * 0x40_0000, subband * 0x10_0000), sample * 0x40)
  }

  /** The subband and the sample number of call k of test2 (k = 32n + 8·subband + s). */
  function Test2Subband(k: nat): nat { (k / 8) % 4 }
  function Test2Sample(k: nat): nat { (k / 32) * 8 + k % 8 }

  /** Call k of test2: the fields of r and i side by side, r with tag 3 and i with tag 2. */
  function Test2At(k: nat): Sample
    requires k < 256
  {
    var low := Test2Subband(k) * 0x10_0000 + Test2Sample(k) * 0x40;
    Sample(3 * 0x40_0000 + low, 2 * 0x40_0000 + low)
  }

  /** The loop counters of test2 are the digits of the call number. */
  lemma Test2Index(n: nat, subband: nat, s: nat)
    requires n < 8 && subband < 4 && s < 8
    ensures var k := 32 * n + 8 * subband + s;
      k < 256 && Test2Subband(k) == subband && Test2Sample(k) == 8 * n + s
  {
    DivModOf(n, 8 * subband + s, 32);
    DivModOf(4 * n + subband, s, 8);
    DivModOf(n, subband, 4);
  }

  lemma Pow2Small()
    ensures Pow2(6) == 0x40 && Pow2(20) == 0x10_0000 && Pow2(22) == 0x40_0000
  {
    Pow2Facts();
    assert Pow2(4) == 16;
    assert Pow2(6) == 64;
    Pow2Add(16, 4);
    Pow2Add(16, 6);
  }

  /** The fields of a test2 word do not overlap, so OR-ing them is adding them. */
  lemma Test2WordValue(tag: nat, sub: nat, v: nat)
    requires tag < 4 && sub < 4 && v < 64
    ensures Test2Word(tag, sub, v) == tag * 0x40_0000 + sub * 0x10_0000 + v * 0x40
  {
    Pow2Small();
    BitOrDisjoint(tag, sub * 0x10_0000, 22);
    assert tag * 0x40_0000 + sub * 0x10_0000 == (4 * tag + sub) * 0x10_0000;
    BitOrDisjoint(4 * tag + sub, v * 0x40, 20);
  }

  /** The words the loops of test2 compute for counters n, subband and s are call 32n + 8·subband + s. */
  lemma Test2Call(n: nat, subband: nat, s: nat)
    requires n < 8 && subband < 4 && s < 8
    ensures 32 * n + 8 * subband + s < 256
    ensures Sample(Test2Word(3, subband, 8 * n + s), Test2Word(2, subband, 8 * n + s)) == Test2At(32 * n + 8 * subband + s)
  {
    Test2Index(n, subband, s);
    Test2WordValue(3, subband, 8 * n + s);
    Test2WordValue(2, subband, 8 * n + s);
  }

  /** In every test2 sample r and i fit in 24 bits, carry the tags 3 and 2
      in bits 22-23, and agree in every bit below. */
  lemma Test2Shape()
    ensures forall k :: 0 <= k < 256 ==>
      Is24(Test2At(k)) && Test2At(k).r / 0x40_0000 == 3 && Test2At(k).i / 0x40_0000 == 2 &&
      Test2At(k).r % 0x40_0000 == Test2At(k).i % 0x40_0000
  {
    forall k | 0 <= k < 256
      ensures Is24(Test2At(k)) && Test2At(k).r / 0x40_0000 == 3 && Test2At(k).i / 0x40_0000 == 2 &&
        Test2At(k).r % 0x40_0000 == Test2At(k).i % 0x40_0000
    {
      var low := Test2Subband(k) * 0x10_0000 + Test2Sample(k) * 0x40;
      DivModOf(3, low, 0x40_0000);
      DivModOf(2, low, 0x40_0000);
    }
  }

  /** The 256 test2 samples make 128 triples, which decode back to the samples. */
  lemma Test2Decodes(s: seq<Sample>)
    requires |s| == 256 && forall k :: 0 <= k < 256 ==> s[k] == Test2At(k)
    ensures |PackAll(s)| == 3 * 128
    ensures UnpackAll(PackAll(s)) == s
  {
    Test2Shape();
    PackAllRoundTrip(s);
  }

  /** Bit b of v, the test v & (1 << b) makes. */
  function Bit(v: Word, b: nat): bool
  {
    (v / Pow2(b)) % 2 == 1
  }

  /** The 32 binary digits of v, most significant first. */
  function Binary(v: Word): (s: string)
    ensures |s| == 32
  {
    seq(32, j requires 0 <= j < 32 => if Bit(v, 31 - j) then '1' else '0')
  }

  /** The value of a string of binary digits, most significant first. */
  function ParseBinary(s: string): nat
    decreases |s|
  {
    if s == [] then 0 else (if s[0] == '1' then Pow2(|s| - 1) else 0) + ParseBinary(s[1..])
  }

  /** The remainder by 2p splits into bit p and the remainder by p. */
  lemma ModSplit(v: nat, p: nat)
    requires p > 0
    ensures v % (2 * p) == ((v / p) % 2) * p + v % p
  {
    var q, r := v / p, v % p;
    assert v == q * p + r;
    assert q * p == (q / 2) * (2 * p) + (q % 2) * p;
    DivModOf(q / 2, (q % 2) * p + r, 2 * p);
  }

  /** The last 32 - j of the 32 digits of v read back as v's low 32 - j bits. */
  lemma {:induction false} BinarySuffix(v: Word, d: string, j: nat)
    requires |d| == 32 && j <= 32
    requires forall k :: 0 <= k < 32 ==> d[k] == if Bit(v, 31 - k) then '1' else '0'
    ensures ParseBinary(d[j..]) == v % Pow2(32 - j)
    decreases 32 - j
  {
    if j < 32 {
      assert d[j..][1..] == d[j + 1..];
      BinarySuffix(v, d, j + 1);
      assert Pow2(32 - j) == 2 * Pow2(31 - j);
      ModSplit(v, Pow2(31 - j));
    }
  }

  /** The binary rendering is 32 digits '0' and '1' that read back as v. */
  lemma BinaryRoundTrip(v: Word)
    ensures forall j :: 0 <= j < 32 ==> Binary(v)[j] in "01"
    ensures ParseBinary(Binary(v)) == v
  {
    var d := Binary(v);
    BinarySuffix(v, d, 0);
    assert d[0..] == d;
    Pow2Facts();
  }

  /** outputBinary(): the 32 digits of v, most significant first, then a newline. */
  method OutputBinary(file: DataFile, v: Word)
    modifies file
    ensures file.text == old(file.text) + Binary(v) + "\n"
  {
    var b := 31;
    while b >= 0
      invariant -1 <= b <= 31
      invariant file.text == old(file.text) + Binary(v)[..31 - b]
    {
      assert Binary(v)[..32 - b] == Binary(v)[..31 - b] + [Binary(v)[31 - b]];
      if (v / Pow2(b)) % 2 == 1 {
        file.text := file.text + "1";
      } else {
        file.text := file.text + "0";
      }
      b := b - 1;
    }
    assert Binary(v)[..32] == Binary(v);
    file.text := file.text + "\n";
  }
}
