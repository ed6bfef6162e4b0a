/** The read loop of Graph.py:22-29: the file is read `depth` bytes at a
    time, every non-empty read is decoded and counted, and the loop ends on
    an empty read or when the counter reaches the sample-count limit. */
module Sampling {
  import opened Wrappers
  import opened LittleEndian
  import opened Rational

  function Min(a: int, b: int): (m: int)
  {
    if a <= b then a else b
  }

  /** The limit `length = duration * rate` of Graph.py:20, with the duration
      given exactly. The loop compares it with an integer counter, so it can
      only ever stop the loop when the product is an integer. */
  function Limit(duration: Ratio, rate: int): (limit: Option<int>)
    requires duration.den >= 1
    ensures limit.Some? ==> limit.value * duration.den == duration.num * rate
  {
    if (duration.num * rate) % duration.den == 0 then
      Some((duration.num * rate) / duration.den)
    else
      None
  }

  /** The limit is an integer L exactly when L * den == num * rate, that
      is when `duration * rate == L` holds exactly. */
  lemma LimitExact(duration: Ratio, rate: int, n: int)
    requires duration.den >= 1
    ensures Limit(duration, rate) == Some(n) <==> n * duration.den == duration.num * rate
  {
    var d, x := duration.den, duration.num * rate;
    if n * d == x {
      assert x % d == 0 && x / d == n by {
        DivOfMultiple(n, d);
      }
    }
  }

  lemma DivOfMultiple(n: int, d: int)
    requires d >= 1
    ensures (n * d) % d == 0 && (n * d) / d == n
  {
    DivUnique(n * d, d, n, 0);
  }

  lemma DivMod(n: int, d: int)
    requires d >= 1
    ensures (n / d) * d + n % d == n
  {
  }

  /** Quotient and remainder are unique. */
  lemma DivUnique(x: int, d: int, q: int, r: int)
    requires d >= 1 && 0 <= r < d && x == q * d + r
    ensures x / d == q && x % d == r
  {
    var q', r' := x / d, x % d;
    var t := q - q';
    assert q' * d + r' == x;
    assert t * d == q * d - q' * d;
    assert t * d == r' - r;
    if t >= 1 {
      MulMonotone(1, t, d);
    }
  }

  /** `f.read(size)` on the buffered reader `open(path, "rb")` returns,
      when the file's unread bytes are `rest`: the next `size` bytes, fewer
      at the end of the file, and all of them for a size of -1. A buffered
      reader refuses any size below -1 with ValueError (`None`). */
  function Read(rest: seq<Byte>, size: int): (chunk: Option<seq<Byte>>)
    ensures chunk.None? <==> size < -1
    ensures chunk.Some? ==> chunk.value <= rest
    ensures size >= 0 ==> |chunk.value| == Min(size, |rest|)
    ensures size == -1 ==> chunk.value == rest
  {
    if size < -1 then None
    else if size == -1 || size > |rest| then Some(rest)
    else Some(rest[..size])
  }

  /** The non-empty reads the loop decodes while `rest` is still unread
      and its counter stands at `nb`, in the order it makes them. A read
      that raises appends nothing: for a depth below -1 the loop raises at
      its first read, with no chunk decoded. */
  function ReadLoop(rest: seq<Byte>, depth: int, limit: Option<int>, nb: nat): (chunks: seq<seq<Byte>>)
    ensures |chunks| <= |rest|
    ensures limit.Some? && nb < limit.value ==> nb + |chunks| <= limit.value
    decreases |rest|
  {
    match Read(rest, depth)
    case None => []
    case Some(chunk) =>
      if |chunk| == 0 then []
      else if limit == Some(nb + 1) then [chunk]
      else [chunk] + ReadLoop(rest[|chunk|..], depth, limit, nb + 1)
  }

  /** The chunks a whole run of the loop over `data` decodes. */
  function Reads(data: seq<Byte>, depth: int, limit: Option<int>): (chunks: seq<seq<Byte>>)
  {
    ReadLoop(data, depth, limit, 0)
  }

  /** The decoded samples of a whole run of the loop, in file order. */
  function Samples(data: seq<Byte>, depth: int, limit: Option<int>): (samples: seq<int>)
    ensures |samples| <= |data|
    ensures limit.Some? && limit.value >= 1 ==> |samples| <= limit.value
  {
    var chunks := Reads(data, depth, limit);
    seq(|chunks|, i requires 0 <= i < |chunks| => Signed(chunks[i]))
  }

  /** ceil(n / d). */
  function CeilDiv(n: nat, d: nat): (c: nat)
    requires d >= 1
    ensures c * d >= n
    ensures c == 0 || (c - 1) * d < n
  {
    var q := (n + d - 1) / d;
    assert q * d + (n + d - 1) % d == n + d - 1;
    q
  }

  lemma MulMonotone(a: nat, b: nat, d: nat)
    requires a <= b
    ensures a * d <= b * d
  {
  }

  /** The two bounds in CeilDiv's contract pin the quotient down. */
  lemma CeilDivUnique(n: nat, d: nat, c: nat)
    requires d >= 1
    requires c * d >= n && (c == 0 || (c - 1) * d < n)
    ensures CeilDiv(n, d) == c
  {
    var c0 := CeilDiv(n, d);
    if c0 < c {
      MulMonotone(c0, c - 1, d);
    } else if c < c0 {
      MulMonotone(c, c0 - 1, d);
    }
  }

  /** Taking one chunk of at most `d` bytes off a non-empty file leaves one
      chunk fewer. */
  lemma CeilDivStep(n: nat, d: nat)
    requires d >= 1 && n >= 1
    ensures CeilDiv(n, d) == 1 + CeilDiv(n - Min(d, n), d)
  {
    var c' := CeilDiv(n - Min(d, n), d);
    assert (c' + 1) * d == c' * d + d;
    CeilDivUnique(n, d, c' + 1);
  }

  /** The number of samples read from `n` bytes with the counter starting
      at `nb`: one per (possibly short) chunk, cut where the counter reaches
      a limit of 1 or more. */
  function Remaining(n: nat, depth: nat, limit: Option<int>, nb: nat): (count: nat)
    requires depth >= 1
    requires limit.Some? && limit.value >= 1 ==> nb < limit.value
  {
    var c := CeilDiv(n, depth);
    if limit.Some? && limit.value >= 1 && limit.value - nb < c then limit.value - nb else c
  }

  /** The number of samples a run of the loop over `n` bytes produces. */
  function ChunkCount(n: nat, depth: nat, limit: Option<int>): (count: nat)
    requires depth >= 1
  {
    Remaining(n, depth, limit, 0)
  }

  /** Chunk `i` of the file: bytes [i * depth, min((i + 1) * depth, n)). */
  function Chunk(data: seq<Byte>, depth: nat, i: nat): (chunk: seq<Byte>)
    requires depth >= 1
  {
    data[Min(i * depth, |data|) .. Min(i * depth + depth, |data|)]
  }

  /** Dropping the first `depth` bytes moves every window `depth` bytes
      to the left. */
  lemma WindowShift(data: seq<Byte>, depth: nat, lo: nat)
    requires depth >= 1
    ensures var n, tail := |data|, data[Min(depth, |data|)..];
            data[Min(lo + depth, n) .. Min(lo + depth + depth, n)]
            == tail[Min(lo, |tail|) .. Min(lo + depth, |tail|)]
  {
  }

  /** After the first chunk is read, chunk `i + 1` of the file is chunk `i`
      of what is left. */
  lemma ChunkShift(data: seq<Byte>, depth: nat, i: nat)
    requires depth >= 1
    ensures Chunk(data, depth, i + 1) == Chunk(data[Min(depth, |data|)..], depth, i)
  {
    var lo := i * depth;
    assert (i + 1) * depth == lo + depth;
    WindowShift(data, depth, lo);
  }

  /** From counter `nb` on, the loop appends as many samples as `Remaining`
      says. */
  lemma {:induction false} ReadLoopCount(rest: seq<Byte>, depth: nat, limit: Option<int>, nb: nat)
    requires depth >= 1
    requires limit.Some? && limit.value >= 1 ==> nb < limit.value
    ensures |ReadLoop(rest, depth, limit, nb)| == Remaining(|rest|, depth, limit, nb)
    decreases |rest|
  {
    if |rest| > 0 {
      CeilDivStep(|rest|, depth);
      if limit != Some(nb + 1) {
        ReadLoopCount(rest[Min(depth, |rest|)..], depth, limit, nb + 1);
      }
    }
  }

  /** The loop appends the decodings of chunks 0, 1, ... of what is unread,
      in file order. */
  lemma {:induction false} ReadLoopOrder(rest: seq<Byte>, depth: nat, limit: Option<int>, nb: nat)
    requires depth >= 1
    ensures forall i :: 0 <= i < |ReadLoop(rest, depth, limit, nb)| ==>
              ReadLoop(rest, depth, limit, nb)[i] == Chunk(rest, depth, i)
    decreases |rest|
  {
    var s := ReadLoop(rest, depth, limit, nb);
    var chunk := Read(rest, depth).value;
    assert chunk == Chunk(rest, depth, 0);
    if |rest| > 0 {
      ReadLoopUnfold(rest, depth, limit, nb);
      assert s[0] == chunk;
      if limit != Some(nb + 1) {
        var tail := rest[|chunk|..];
        var s' := ReadLoop(tail, depth, limit, nb + 1);
        assert s == [chunk] + s';
        ReadLoopOrder(tail, depth, limit, nb + 1);
        forall i | 1 <= i < |s|
          ensures s[i] == Chunk(rest, depth, i)
        {
          assert s[i] == s'[i - 1];
          ChunkShift(rest, depth, i - 1);
        }
      }
    }
  }

  /** The loop's reads are chunks 0, 1, ... of the file, ceil(n / depth)
      of them, cut to the limit. */
  lemma ReadsAreChunks(data: seq<Byte>, depth: nat, limit: Option<int>)
    requires depth >= 1
    ensures |Reads(data, depth, limit)| == ChunkCount(|data|, depth, limit)
    ensures forall i :: 0 <= i < |Reads(data, depth, limit)| ==>
              Reads(data, depth, limit)[i] == Chunk(data, depth, i)
  {
    ReadLoopCount(data, depth, limit, 0);
    ReadLoopOrder(data, depth, limit, 0);
  }

  /** Point `i` is the decoding of chunk `i`, and there are as many points
      as there are chunks, ceil(n / depth), cut to the limit. */
  lemma SamplesAreChunks(data: seq<Byte>, depth: nat, limit: Option<int>)
    requires depth >= 1
    ensures |Samples(data, depth, limit)| == ChunkCount(|data|, depth, limit)
    ensures forall i :: 0 <= i < |Samples(data, depth, limit)| ==>
              Samples(data, depth, limit)[i] == Signed(Chunk(data, depth, i))
  {
    ReadsAreChunks(data, depth, limit);
  }

  lemma CeilDivAtLeast(n: nat, d: nat, k: nat)
    requires d >= 1
    requires k * d <= n
    ensures k <= CeilDiv(n, d)
  {
    var c := CeilDiv(n, d);
    if k > c {
      MulMonotone(c + 1, k, d);
    }
  }

  /** A length that is not a multiple of `d` needs one chunk more than
      its whole multiples. */
  lemma CeilDivOfNonMultiple(n: nat, d: nat)
    requires d >= 1 && n % d != 0
    ensures CeilDiv(n, d) == n / d + 1
  {
    var q, r := n / d, n % d;
    assert n + d - 1 == (q + 1) * d + (r - 1);
    DivUnique(n + d - 1, d, q + 1, r - 1);
  }

  lemma SampleIsChunk(data: seq<Byte>, d: nat, limit: Option<int>, i: nat)
    requires d >= 1
    requires i < |Samples(data, d, limit)|
    ensures Samples(data, d, limit)[i] == Signed(Chunk(data, d, i))
  {
    SamplesAreChunks(data, d, limit);
  }

  /** Without a limit every byte of the file is read, in ceil(n / d)
      samples. */
  lemma UnlimitedReadsWholeFile(data: seq<Byte>, d: nat)
    requires d >= 1
    ensures |Samples(data, d, None)| == CeilDiv(|data|, d)
  {
    SamplesAreChunks(data, d, None);
  }

  /** When n is not a multiple of `d` the read that hits the end of the
      file is short, and its n % d bytes are still decoded, as a narrower
      integer, into the last of n / d + 1 samples. */
  lemma TrailingPartialChunk(data: seq<Byte>, d: nat)
    requires d >= 1
    requires |data| % d != 0
    ensures |Samples(data, d, None)| == |data| / d + 1
    ensures Samples(data, d, None)[|data| / d] == Signed(data[|data| - |data| % d ..])
  {
    var n, q, r := |data|, |data| / d, |data| % d;
    UnlimitedReadsWholeFile(data, d);
    CeilDivOfNonMultiple(n, d);
    SampleIsChunk(data, d, None, q);
    DivMod(n, d);
    assert Chunk(data, d, q) == data[n - r .. n] == data[n - r ..];
  }

  /** With a limit L >= 1 the samples are the first min(L, ceil(n / d)) of
      the unlimited run. */
  lemma LimitKeepsPrefix(data: seq<Byte>, d: nat, L: int)
    requires d >= 1 && L >= 1
    ensures |Samples(data, d, Some(L))| == Min(L, CeilDiv(|data|, d))
    ensures Samples(data, d, Some(L)) <= Samples(data, d, None)
  {
    SamplesAreChunks(data, d, Some(L));
    SamplesAreChunks(data, d, None);
  }

  /** A limit the counter can never equal (0 or less, because the counter
      is 1 after the first append) changes nothing. */
  lemma {:induction false} UnreachableLimitIgnored(rest: seq<Byte>, depth: int, L: int, nb: nat)
    requires L <= nb
    ensures ReadLoop(rest, depth, Some(L), nb) == ReadLoop(rest, depth, None, nb)
    decreases |rest|
  {
    var read := Read(rest, depth);
    if read.Some? && |read.value| > 0 {
      var chunk := read.value;
      UnreachableLimitIgnored(rest[|chunk|..], depth, L, nb + 1);
    }
  }

  /** A chunk that lies wholly inside `data` is unchanged by appending. */
  lemma ChunkOfPrefix(data: seq<Byte>, extra: seq<Byte>, d: nat, i: nat)
    requires d >= 1 && (i + 1) * d <= |data|
    ensures Chunk(data + extra, d, i) == Chunk(data, d, i)
  {
    var lo := i * d;
    assert lo + d == (i + 1) * d;
    assert (data + extra)[lo .. lo + d] == data[lo .. lo + d];
  }

  /** Once L chunks have been decoded nothing after them is read: bytes
      appended past the first L * d do not change the samples. */
  lemma BytesPastLimitUnread(data: seq<Byte>, extra: seq<Byte>, d: nat, L: int)
    requires d >= 1 && L >= 1
    requires |data| >= L * d
    ensures Samples(data + extra, d, Some(L)) == Samples(data, d, Some(L))
  {
    var a, b := Reads(data + extra, d, Some(L)), Reads(data, d, Some(L));
    ReadsAreChunks(data + extra, d, Some(L));
    ReadsAreChunks(data, d, Some(L));
    CeilDivAtLeast(|data|, d, L);
    CeilDivAtLeast(|data + extra|, d, L);
    assert |a| == L && |b| == L;
    forall i | 0 <= i < L
      ensures a[i] == b[i]
    {
      MulMonotone(i + 1, L, d);
      ChunkOfPrefix(data, extra, d, i);
    }
    assert a == b;
  }

  /** A depth of 0 reads nothing (`f.read(0)` is empty); a depth of -1
      reads the whole file at once and decodes it as one sample; a depth
      below -1 raises at the first read, before any sample is decoded. */
  lemma NonPositiveDepth(data: seq<Byte>, depth: int, limit: Option<int>)
    requires depth <= 0
    ensures depth == 0 || depth < -1 ==> Samples(data, depth, limit) == []
    ensures depth == -1 ==> Samples(data, depth, limit) == if |data| == 0 then [] else [Signed(data)]
    ensures depth == 0 || depth < -1 ==> Reads(data, depth, limit) == []
    ensures depth == -1 ==> Reads(data, depth, limit) == if |data| == 0 then [] else [data]
  {
    if depth == -1 && |data| > 0 && limit != Some(1) {
      assert Reads(data, depth, limit) == [data] + ReadLoop(data[|data|..], depth, limit, 1);
    }
  }

  /** The bytes of a list of chunks, in order. */
  function Flatten(chunks: seq<seq<Byte>>): (bytes: seq<Byte>)
  {
    if |chunks| == 0 then [] else chunks[0] + Flatten(chunks[1..])
  }

  lemma FlattenCons(chunk: seq<Byte>, more: seq<seq<Byte>>)
    ensures Flatten([chunk] + more) == chunk + Flatten(more)
  {
    assert ([chunk] + more)[1..] == more;
  }

  /** One turn of the loop, seen from the whole run: the first read comes
      first, and the run continues from the counter's next value unless it
      met the limit. */
  lemma ReadLoopUnfold(rest: seq<Byte>, depth: int, limit: Option<int>, nb: nat)
    requires Read(rest, depth).Some? && |Read(rest, depth).value| > 0
    ensures var chunk := Read(rest, depth).value;
            var more := if limit == Some(nb + 1) then [] else ReadLoop(rest[|chunk|..], depth, limit, nb + 1);
            ReadLoop(rest, depth, limit, nb) == [chunk] + more
  {
  }

  /** The reads take the file's bytes in order, each exactly once: together
      they are a prefix of the unread bytes, and all of them unless the
      depth is 0, the read raises (a depth below -1), or the counter ends
      equal to the limit (the limit fired, or was met by the very last
      read). */
  lemma {:induction false} ReadsTileFile(rest: seq<Byte>, depth: int, limit: Option<int>, nb: nat)
    ensures Flatten(ReadLoop(rest, depth, limit, nb)) <= rest
    ensures (depth >= 1 || depth == -1) && (limit.None? || nb + |ReadLoop(rest, depth, limit, nb)| != limit.value) ==>
              Flatten(ReadLoop(rest, depth, limit, nb)) == rest
    decreases |rest|
  {
    var read := Read(rest, depth);
    if read.Some? && |read.value| > 0 {
      var chunk := read.value;
      var tail := rest[|chunk|..];
      var more := if limit == Some(nb + 1) then [] else ReadLoop(tail, depth, limit, nb + 1);
      ReadLoopUnfold(rest, depth, limit, nb);
      FlattenCons(chunk, more);
      assert rest == chunk + tail;
      if limit != Some(nb + 1) {
        ReadsTileFile(tail, depth, limit, nb + 1);
      }
    }
  }
}
