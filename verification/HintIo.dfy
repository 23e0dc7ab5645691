/** The host side of a guest's input and output: `IoState` of lib.rs. */
module HintIo {
  import opened Wrappers
  import opened Arithmetic
  import opened Bytes

  /** Queued inputs, the hint stream, and the public output. */
  datatype Io = Io(inputs: seq<seq<byte>>, hints: seq<byte>, output: seq<byte>)

  function Zeros(n: nat): (s: seq<byte>)
    ensures |s| == n
  {
    seq(n, _ => 0)
  }

  function Padding(n: nat): (k: nat)
    ensures k < 4 && (n + k) % 4 == 0
  {
    (4 - n % 4) % 4
  }

  /** What HintInput makes of one entry. */
  function Frame(entry: seq<byte>): seq<byte> {
    ToLe(|entry| % 0x1_0000_0000, 4) + entry + Zeros(Padding(4 + |entry|))
  }

  /** None when no input is queued. */
  function HintInput(io: Io): Option<Io> {
    if |io.inputs| == 0 then None else Some(Io(io.inputs[1..], Frame(io.inputs[0]), io.output))
  }

  /** n bytes of a hint stream, zeros once it is exhausted, and what is left of it. */
  function Popped(hints: seq<byte>, n: nat): (s: seq<byte>)
    ensures |s| == n
  {
    seq(n, i requires 0 <= i < n => if i < |hints| then hints[i] else 0)
  }

  function Left(hints: seq<byte>, n: nat): seq<byte> { if n <= |hints| then hints[n..] else [] }

  /** Storing bytes in the output, which grows by zeros when it is too short. */
  function Revealed(output: seq<byte>, offset: nat, bs: seq<byte>): (out: seq<byte>)
    ensures |out| == Max(|output|, offset + |bs|)
    ensures forall i :: offset <= i < offset + |bs| ==> out[i] == bs[i - offset]
    ensures forall i :: 0 <= i < |out| && !(offset <= i < offset + |bs|) ==>
      out[i] == if i < |output| then output[i] else 0
  {
    var grown := output + Zeros(Max(|output|, offset + |bs|) - |output|);
    grown[..offset] + bs + grown[offset + |bs|..]
  }

  function Max(a: nat, b: nat): nat { if a < b then b else a }

  class IoState {
    var inputStreams: seq<seq<byte>>
    var hintStream: seq<byte>
    var output: seq<byte>

    ghost function Value(): Io
      reads this
    {
      Io(inputStreams, hintStream, output)
    }

    constructor WithInputStreams(streams: seq<seq<byte>>)
      ensures Value() == Io(streams, [], [])
    {
      inputStreams, hintStream, output := streams, [], [];
    }

    /** `hint_input`: byte by byte, after clearing what was left. */
    method NextInput() returns (ok: bool)
      modifies this
      ensures ok == HintInput(old(Value())).Some?
      ensures Value() == if ok then HintInput(old(Value())).value else old(Value())
    {
      if |inputStreams| == 0 { return false; }
      var entry := inputStreams[0];
      inputStreams := inputStreams[1..];
      hintStream := [];
      ReplaceHints(ToLe(|entry| % 0x1_0000_0000, 4));
      PushHints(entry);
      ghost var framed, k := hintStream, 0;
      assert framed == framed + Zeros(0);
      while |hintStream| % 4 != 0
        invariant inputStreams == old(inputStreams)[1..] && output == old(output)
        invariant 0 <= k <= Padding(|framed|) && hintStream == framed + Zeros(k)
        decreases Padding(|framed|) - k
      {
        hintStream, k := hintStream + [0], k + 1;
      }
      ok := true;
    }

    /** Appending to the hint stream, one byte at a time. */
    method PushHints(bs: seq<byte>)
      modifies this`hintStream
      ensures hintStream == old(hintStream) + bs
    {
      for i := 0 to |bs|
        invariant hintStream == old(hintStream) + bs[..i]
      {
        hintStream := hintStream + [bs[i]];
      }
    }

    /** `replace_hint_stream`. */
    method ReplaceHints(bs: seq<byte>)
      modifies this`hintStream
      ensures hintStream == bs
    {
      hintStream := [];
      PushHints(bs);
    }

    /** `read_hint_bytes`. */
    method ReadHintBytes(n: nat) returns (v: seq<byte>)
      modifies this`hintStream
      ensures v == Popped(old(hintStream), n) && hintStream == Left(old(hintStream), n)
    {
      v := [];
      for i := 0 to n
        invariant v == Popped(old(hintStream), i) && hintStream == Left(old(hintStream), i)
      {
        if |hintStream| == 0 {
          v := v + [0];
        } else {
          v := v + [hintStream[0]];
          hintStream := hintStream[1..];
        }
      }
    }

    /** `write_output`. */
    method WriteOutput(offset: nat, bs: seq<byte>)
      modifies this`output
      ensures output == Revealed(old(output), offset, bs)
    {
      var end := offset + |bs|;
      if |output| < end {
        output := output + Zeros(end - |output|);
      }
      output := output[..offset] + bs + output[end..];
    }
  }

  // ----- what the guest receives ----------------------------------------------------------

  /** A frame is the length modulo 2^32, the entry, and fewer than four zeros up to a word boundary. */
  lemma FrameLayout(entry: seq<byte>)
    ensures var f := Frame(entry);
      && |f| % 4 == 0 && 4 + |entry| <= |f| < 4 + |entry| + 4
      && LeValue(f[..4]) == |entry| % 0x1_0000_0000
      && f[4..4 + |entry|] == entry
      && forall i :: 4 + |entry| <= i < |f| ==> f[i] == 0
  {
    var len := ToLe(|entry| % 0x1_0000_0000, 4);
    assert Pow(256, 4) == 0x1_0000_0000;
    LeRoundTrip(|entry| % 0x1_0000_0000, 4);
    assert Frame(entry)[..4] == len;
  }

  /** Reads of the given sizes, one after the other: all bytes delivered, and what is left. */
  function Delivered(hints: seq<byte>, sizes: seq<nat>): seq<byte>
    decreases |sizes|
  {
    if |sizes| == 0 then []
    else Popped(hints, sizes[0]) + Delivered(Left(hints, sizes[0]), sizes[1..])
  }

  function Total(sizes: seq<nat>): nat { if |sizes| == 0 then 0 else sizes[0] + Total(sizes[1..]) }

  /** Two reads in a row are one read of both sizes. */
  lemma PopTwice(hints: seq<byte>, a: nat, b: nat)
    ensures Popped(hints, a) + Popped(Left(hints, a), b) == Popped(hints, a + b)
    ensures Left(Left(hints, a), b) == Left(hints, a + b)
  {}

  /** However the reads are cut, they deliver the stream in order, then zeros. */
  lemma {:induction false} ReadsDeliverInOrder(hints: seq<byte>, sizes: seq<nat>)
    ensures Delivered(hints, sizes) == Popped(hints, Total(sizes))
    decreases |sizes|
  {
    if |sizes| != 0 {
      ReadsDeliverInOrder(Left(hints, sizes[0]), sizes[1..]);
      PopTwice(hints, sizes[0], Total(sizes[1..]));
    }
  }

  /** After HintInput the reads see the framed entry and nothing of earlier entries. */
  lemma InputIsDelivered(io: Io, sizes: seq<nat>)
    requires |io.inputs| > 0 && HintInput(io).Some?
    ensures var bs := Delivered(HintInput(io).value.hints, sizes);
      && |bs| == Total(sizes)
      && (|bs| >= 4 ==> LeValue(bs[..4]) == |io.inputs[0]| % 0x1_0000_0000)
      && (forall i :: 0 <= i < |io.inputs[0]| && 4 + i < |bs| ==> bs[4 + i] == io.inputs[0][i])
      && (forall i :: 4 + |io.inputs[0]| <= i < |bs| ==> bs[i] == 0)
  {
    hide Frame, LeValue, Delivered;
    var entry, f := io.inputs[0], Frame(io.inputs[0]);
    ReadsDeliverInOrder(f, sizes);
    FrameLayout(entry);
    var bs := Delivered(f, sizes);
    if |bs| >= 4 { assert bs[..4] == f[..4]; }
    forall i | 0 <= i < |entry| && 4 + i < |bs| ensures bs[4 + i] == entry[i] {
      assert f[4..4 + |entry|][i] == f[4 + i];
    }
  }

  // ----- what the host receives ------------------------------------------------------------

  datatype Reveal = Reveal(offset: nat, bytes: seq<byte>)

  function AllRevealed(output: seq<byte>, writes: seq<Reveal>): seq<byte>
    decreases |writes|
  {
    if |writes| == 0 then output
    else
      var last := writes[|writes| - 1];
      Revealed(AllRevealed(output, writes[..|writes| - 1]), last.offset, last.bytes)
  }

  predicate Covers(w: Reveal, i: nat) { w.offset <= i < w.offset + |w.bytes| }

  lemma {:induction false} AllRevealedConcat(output: seq<byte>, first: seq<Reveal>, second: seq<Reveal>)
    ensures AllRevealed(output, first + second) == AllRevealed(AllRevealed(output, first), second)
    decreases |second|
  {
    if |second| == 0 {
      assert first + second == first;
    } else {
      var n := |second| - 1;
      assert (first + second)[..|first| + n] == first + second[..n];
      AllRevealedConcat(output, first, second[..n]);
    }
  }

  function End(w: Reveal): nat { w.offset + |w.bytes| }

  /** The end of the write that reaches furthest. */
  ghost predicate IsExtent(n: nat, output: seq<byte>, writes: seq<Reveal>) {
    && |output| <= n
    && (forall j :: 0 <= j < |writes| ==> End(writes[j]) <= n)
    && (n == |output| || exists j :: 0 <= j < |writes| && End(writes[j]) == n)
  }

  /** Byte i is that of the last write over it; without one it is as before, and zero in gaps. */
  ghost predicate LastWriteWins(out: seq<byte>, output: seq<byte>, writes: seq<Reveal>, i: nat)
    requires i < |out|
  {
    || (exists j :: 0 <= j < |writes| && IsLastOver(writes, j, i) && out[i] == writes[j].bytes[i - writes[j].offset])
    || ((forall k :: 0 <= k < |writes| ==> !Covers(writes[k], i)) && out[i] == if i < |output| then output[i] else 0)
  }

  ghost predicate IsLastOver(writes: seq<Reveal>, j: nat, i: nat)
    requires j < |writes|
  {
    Covers(writes[j], i) && forall k :: j < k < |writes| ==> !Covers(writes[k], i)
  }

  /** The output is as long as the furthest write, and the last write over a byte decides it. */
  lemma {:induction false} LastRevealWins(output: seq<byte>, writes: seq<Reveal>, i: nat)
    ensures IsExtent(|AllRevealed(output, writes)|, output, writes)
    ensures i < |AllRevealed(output, writes)| ==> LastWriteWins(AllRevealed(output, writes), output, writes, i)
    decreases |writes|
  {
    if |writes| != 0 {
      var before, last := writes[..|writes| - 1], writes[|writes| - 1];
      LastRevealWins(output, before, i);
      var out', out := AllRevealed(output, before), AllRevealed(output, writes);
      ExtentGrows(|out'|, output, before, last);
      assert writes == before + [last];
      if i < |out| { OneMoreWrite(out', output, before, last, i); }
    }
  }

  lemma ExtentGrows(m: nat, output: seq<byte>, before: seq<Reveal>, last: Reveal)
    requires IsExtent(m, output, before)
    ensures IsExtent(Max(m, End(last)), output, before + [last])
  {
    var writes, m' := before + [last], Max(m, End(last));
    assert writes[|before|] == last;
    forall j | 0 <= j < |writes| ensures End(writes[j]) <= m' {
      if j < |before| { assert writes[j] == before[j]; }
    }
    if m' == m && m != |output| {
      var j :| 0 <= j < |before| && End(before[j]) == m;
      assert writes[j] == before[j];
    }
  }

  lemma OneMoreWrite(out: seq<byte>, output: seq<byte>, before: seq<Reveal>, last: Reveal, i: nat)
    requires i < Max(|out|, End(last)) && |output| <= |out|
    requires i < |out| ==> LastWriteWins(out, output, before, i)
    requires i >= |out| ==> forall k :: 0 <= k < |before| ==> !Covers(before[k], i)
    ensures LastWriteWins(Revealed(out, last.offset, last.bytes), output, before + [last], i)
  {
    var writes, out' := before + [last], Revealed(out, last.offset, last.bytes);
    var n := |before|;
    assert writes[n] == last && forall k :: 0 <= k < n ==> writes[k] == before[k];
    if Covers(last, i) {
      assert IsLastOver(writes, n, i);
    } else if j :| i < |out| && 0 <= j < n && IsLastOver(before, j, i) && out[i] == before[j].bytes[i - before[j].offset] {
      assert IsLastOver(writes, j, i) && writes[j] == before[j];
    } else {
      assert forall k :: 0 <= k < |writes| ==> !Covers(writes[k], i);
    }
  }
}
