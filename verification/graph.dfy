/** The script's pipeline from file bytes to what it plots: the read loop
    producing normalised points (Graph.py:19-29) and the ticks computed from
    their count (Graph.py:37-39). */
module Graph {
  import opened Wrappers
  import opened LittleEndian
  import opened Rational
  import opened Normalization
  import opened Sampling
  import opened Axis

  /** What the script hands to the plotting library: the points, in file
      order, and the x-axis ticks. */
  datatype Figure = Figure(points: seq<Ratio>, ticks: seq<Tick>)

  /** The points of Graph.py:25-26: each chunk decoded and divided by
      `max_val`, in read order. */
  function Points(chunks: seq<seq<Byte>>, depth: int): (points: seq<Ratio>)
  {
    seq(|chunks|, i requires 0 <= i < |chunks| => Normalize(Signed(chunks[i]), depth))
  }

  /** The division of Graph.py:25 raises OverflowError for this chunk:
      only possible when `max_val` is a float (a depth of 0 or less) and
      the chunk's integer is beyond the float range, which needs a chunk
      of more than 128 bytes. */
  predicate RaisesOn(chunk: seq<Byte>, depth: int): (raises: bool)
    ensures raises ==> depth <= 0 && |chunk| > 128
  {
    OverflowNeedsLongSample(chunk);
    depth <= 0 && ToFloatOverflows(Signed(chunk))
  }

  /** The division raises for one of the chunks. */
  predicate DivisionRaises(chunks: seq<seq<Byte>>, depth: int)
  {
    exists i :: 0 <= i < |chunks| && RaisesOn(chunks[i], depth)
  }

  lemma DivisionRaisesSnoc(chunks: seq<seq<Byte>>, chunk: seq<Byte>, depth: int)
    ensures DivisionRaises(chunks + [chunk], depth) <==> DivisionRaises(chunks, depth) || RaisesOn(chunk, depth)
  {
    var all := chunks + [chunk];
    if DivisionRaises(all, depth) {
      var i :| 0 <= i < |all| && RaisesOn(all[i], depth);
      if i < |chunks| {
        assert RaisesOn(chunks[i], depth);
      }
    }
    if DivisionRaises(chunks, depth) {
      var i :| 0 <= i < |chunks| && RaisesOn(chunks[i], depth);
      assert RaisesOn(all[i], depth);
    }
    if RaisesOn(chunk, depth) {
      assert RaisesOn(all[|chunks|], depth);
    }
  }

  lemma DivisionRaisesPrefix(chunks: seq<seq<Byte>>, n: nat, depth: int)
    requires n <= |chunks| && DivisionRaises(chunks[..n], depth)
    ensures DivisionRaises(chunks, depth)
  {
    var i :| 0 <= i < n && RaisesOn(chunks[..n][i], depth);
    assert RaisesOn(chunks[i], depth);
  }

  /** The counter never passes a limit of 1 or more. */
  lemma ReadsWithinLimit(data: seq<Byte>, depth: int, limit: Option<int>)
    ensures limit.Some? && limit.value >= 1 ==> |Reads(data, depth, limit)| <= limit.value
  {
  }

  /** One turn of the loop of Graph.py:24-29 on the chunk list `all` of a
      whole run: a non-empty read is chunk `nb`, and the run goes on with
      the rest of the file unless the counter then meets the limit. */
  lemma LoopStep(all: seq<seq<Byte>>, pts: seq<Ratio>, rest: seq<Byte>, depth: int,
                 limit: Option<int>, nb: nat, chunk: seq<Byte>)
    requires nb <= |all| && all[nb..] == ReadLoop(rest, depth, limit, nb)
    requires pts == Points(all, depth)
    requires Read(rest, depth) == Some(chunk) && |chunk| > 0
    ensures nb < |all| && all[nb] == chunk
    ensures all[..nb + 1] == all[..nb] + [chunk]
    ensures pts[..nb + 1] == pts[..nb] + [Normalize(Signed(chunk), depth)]
    ensures limit == Some(nb + 1) ==> nb + 1 == |all|
    ensures limit != Some(nb + 1) ==> all[nb + 1..] == ReadLoop(rest[|chunk|..], depth, limit, nb + 1)
  {
    assert all[nb..] == [chunk] + (if limit == Some(nb + 1) then [] else ReadLoop(rest[|chunk|..], depth, limit, nb + 1));
    assert all[nb + 1..] == all[nb..][1..];
  }

  /** The loop of Graph.py:22-29 as written, the file being its unread
      bytes `rest`: read `depth` bytes (`None` when the read raises), stop
      on an empty read, divide the decoding by `max_val` (`None` when that
      division raises), append it, count it, stop when the counter equals
      the limit. */
  method CollectPoints(data: seq<Byte>, depth: int, limit: Option<int>)
    returns (points: Option<seq<Ratio>>, nb: nat)
    ensures points.None? <==> depth < -1 || DivisionRaises(Reads(data, depth, limit), depth)
    ensures points.Some? ==> nb == |points.value|
    ensures points.Some? ==> points.value == Points(Reads(data, depth, limit), depth)
    ensures limit.Some? && limit.value >= 1 ==> nb <= limit.value
  {
    ghost var all := Reads(data, depth, limit);
    ghost var pts := Points(all, depth);
    ReadsWithinLimit(data, depth, limit);
    var rest := data;
    var got: seq<Ratio> := [];
    nb := 0;
    while true
      invariant nb == |got| <= |all|
      invariant all[nb..] == ReadLoop(rest, depth, limit, nb)
      invariant got == pts[..nb]
      invariant !DivisionRaises(all[..nb], depth)
      decreases |rest|
    {
      var read := Read(rest, depth);
      if read.None? {
        return None, nb;
      }
      var chunk := read.value;
      if |chunk| == 0 {
        break;
      }
      LoopStep(all, pts, rest, depth, limit, nb, chunk);
      DivisionRaisesSnoc(all[..nb], chunk, depth);
      var sample := Signed(chunk);
      if depth <= 0 && ToFloatOverflows(sample) {
        DivisionRaisesPrefix(all, nb + 1, depth);
        return None, nb;
      }
      got := got + [Normalize(sample, depth)];
      rest := rest[|chunk|..];
      nb := nb + 1;
      if limit == Some(nb) {
        break;
      }
    }
    assert all[..nb] == all;
    points := Some(got);
  }

  /** The whole script on a file holding `data`, the sample-count limit
      being `duration * rate` (Graph.py:20) and the ticks counted with the
      same rate (Graph.py:37). `None` when the script raises: when the
      rate does not convert to a float for `duration * rate`, when the
      depth is below -1 and the first read refuses it, when the division
      of line 25 overflows, which needs a depth of -1 and a file too long
      for its one sample to convert to a float, or when the rate is 0,
      where `len(points) // rate` raises. */
  function Plot(data: seq<Byte>, depth: int, duration: Ratio, rate: int): (figure: Option<Figure>)
    requires duration.den >= 1
    ensures depth < -1 ==> figure.None?
    ensures depth >= 0 ==> (figure.None? <==> rate == 0 || ToFloatOverflows(rate))
    ensures depth == -1 ==> (figure.None? <==> rate == 0 || ToFloatOverflows(rate)
                                               || (|data| > 0 && ToFloatOverflows(Signed(data))))
  {
    var chunks := Reads(data, depth, Limit(duration, rate));
    NonPositiveDepthReads(data, depth, Limit(duration, rate));
    if ToFloatOverflows(rate) || depth < -1 || DivisionRaises(chunks, depth) then None
    else
      var points := Points(chunks, depth);
      match Ticks(|points|, rate)
      case None => None
      case Some(ticks) => Some(Figure(points, ticks))
  }

  /** Only a depth of -1 can make the division raise, and then only on
      the one sample that is the whole file: a depth of 0 or more never
      overflows, and below -1 the read raises before any division. */
  lemma NonPositiveDepthReads(data: seq<Byte>, depth: int, limit: Option<int>)
    ensures depth != -1 ==> !DivisionRaises(Reads(data, depth, limit), depth)
    ensures depth == -1 ==> (DivisionRaises(Reads(data, depth, limit), depth)
                             <==> |data| > 0 && ToFloatOverflows(Signed(data)))
  {
    var chunks := Reads(data, depth, limit);
    if depth <= 0 {
      NonPositiveDepth(data, depth, limit);
      if depth == -1 && |data| > 0 && ToFloatOverflows(Signed(data)) {
        assert RaisesOn(chunks[0], depth);
      }
    }
  }

  /** A negative depth makes the script fail on a file of 129 bytes: at
      -1, 128 zero bytes then 01 are read as the one sample 2^1024, which
      overflows; below -1 every file fails at its first read. At -1, files
      of at most 128 bytes never overflow, and fail only for a rate of 0 or
      one too large to convert to a float. */
  lemma NegativeDepthOverflow(depth: int, duration: Ratio, rate: int)
    requires depth < 0 && duration.den >= 1
    ensures Plot(Zeros(128) + [1], depth, duration, rate).None?
    ensures depth == -1 ==> forall data: seq<Byte> :: |data| <= 128 ==>
              (Plot(data, depth, duration, rate).None? <==> rate == 0 || ToFloatOverflows(rate))
    ensures depth < -1 ==> forall data: seq<Byte> :: Plot(data, depth, duration, rate).None?
  {
    HugeSampleOverflows();
    forall data: seq<Byte> | |data| <= 128
      ensures depth == -1 ==> (Plot(data, depth, duration, rate).None? <==> rate == 0 || ToFloatOverflows(rate))
    {
      ShortSamplesFitFloat(data);
    }
  }

  /** For a positive depth nothing but the rate can make the script
      raise, and the figure holds the points of the loop's reads. */
  lemma PlotOfPositiveDepth(data: seq<Byte>, depth: int, duration: Ratio, rate: int)
    requires depth >= 1 && rate != 0 && !ToFloatOverflows(rate) && duration.den >= 1
    ensures var chunks := Reads(data, depth, Limit(duration, rate));
            Plot(data, depth, duration, rate)
            == Some(Figure(Points(chunks, depth), Ticks(|chunks|, rate).value))
  {
    NonPositiveDepthReads(data, depth, Limit(duration, rate));
  }

  /** For positive depth and rate the figure holds one point per chunk,
      point i being chunk i divided by `max_val`, and one tick per whole
      second of points, each at an existing point. */
  lemma PlotOfChunks(data: seq<Byte>, depth: nat, duration: Ratio, rate: int)
    requires depth >= 1 && rate >= 1 && !ToFloatOverflows(rate) && duration.den >= 1
    ensures var figure, count := Plot(data, depth, duration, rate), ChunkCount(|data|, depth, Limit(duration, rate));
      && figure.Some?
      && |figure.value.points| == count
      && (forall i :: 0 <= i < count ==>
            figure.value.points[i] == Normalize(Signed(Chunk(data, depth, i)), depth))
      && |figure.value.ticks| == count / rate
      && (forall i :: 0 <= i < |figure.value.ticks| ==> figure.value.ticks[i].position < count)
  {
    var limit := Limit(duration, rate);
    var count := ChunkCount(|data|, depth, limit);
    var chunks := Reads(data, depth, limit);
    ReadsAreChunks(data, depth, limit);
    PlotOfPositiveDepth(data, depth, duration, rate);
    TicksAreWholeSeconds(count, rate);
    var t := Ticks(count, rate).value;
    DivUnique(count, rate, |t|, count - |t| * rate);
  }
}
