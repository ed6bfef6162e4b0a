# PCM visualizer: a Dafny model of Graph.py's sample pipeline

Graph.py reads a raw PCM file `depth` bytes at a time. It decodes every
chunk as a little-endian two's-complement integer and divides it by
`max_val = 2 ** (8 * depth - 1) - 1`. It stops after `duration * rate`
points or at the end of the file. It then plots the points with one
x-axis tick per whole second of samples.

This project models that pipeline from the file's bytes to what the
script hands to the plotting library. The model is split into modules:

- `LittleEndian` (little_endian.dfy): the integer decoding of line 25,
  `int.from_bytes(byte, "little", signed=True)`. It has an explicit
  encoder as its inverse, with round trips in both directions.
- `Rational` (rational.dfy): exact ratios, which stand in for Python's
  float division.
- `Normalization` (normalize.dfy): `max_val` (line 19) and the division
  of line 25, including the negative `max_val` that Python computes for
  a depth of 0 or less.
- `Sampling` (sampling.dfy): `f.read(depth)` on the unread rest of the
  file, including the ValueError a buffered reader raises for a size
  below -1, the read/append/count/limit loop of lines 22-29 as a recursive
  function, and its closed form. Point i is chunk i of the file. There
  are ceil(n / depth) chunks, cut to the limit.
- `Axis` (ticks.dfy): the tick computation of lines 37-39, with
  Python's floor division and its ZeroDivisionError.
- `Graph` (graph.dfy): the loop as the script writes it, as a method
  with a `while` loop, and the whole figure.

What the code does at its edges, which the model follows:

- The loop compares the integer counter with `duration * rate` itself,
  with no floor. A product that is not a whole number therefore never
  stops the loop, and neither does a product of 0 or less
  (`Sampling.Limit`, `Sampling.UnreachableLimitIgnored`).
- Only an empty read ends the loop. A short final read is non-empty, so
  it is decoded and appended: a file whose length is not a multiple of
  the depth yields ceil(n / depth) points, the last of them the short
  tail decoded as a narrower integer (`Sampling.TrailingPartialChunk`).
- The largest 16-bit sample is 32767, which is `max_val` for depth 2:
  16383 maps to 16383/32767, and the most negative sample -32768 maps
  below -1 (`Normalization.SixteenBitExamples`).
- `open(path, "rb")` returns a buffered reader, whose `read` accepts a
  size of -1 (read everything) but raises ValueError for any size below
  -1. A depth below -1 therefore makes the script fail at its first read,
  whatever the file (`Sampling.Read`, `Graph.NegativeDepthOverflow`).
- For a depth of 0 or less `max_val` is a float, and dividing the sample
  by it first converts the sample to a float. A depth of -1 reads the
  whole file as one sample, and a file long enough for that sample to
  reach the float range limit makes the division raise OverflowError
  (`Normalization.HugeSampleOverflows`, `Graph.NegativeDepthOverflow`).
- `duration * rate` multiplies a float by the int `rate`, which converts
  the rate to a float first: a rate of magnitude 2^1024 - 2^970 or more
  raises OverflowError at line 20 (`Graph.Plot`).

## Model

| member | source | states |
|---|---|---|
| LittleEndian.Unsigned | Graph.py:25 | the unsigned little-endian value of k bytes is below 2^(8k) |
| LittleEndian.Signed | Graph.py:25 | the two's-complement value of k >= 1 bytes lies in [-2^(8k-1), 2^(8k-1)); the empty byte string decodes to 0 |
| LittleEndian.UnsignedConcat | Graph.py:25 | little-endian weighting: the bytes of `b` after `a` weigh 2^(8 times the length of a) |
| LittleEndian.SignFromLastByte | Graph.py:25 | a decoded sample is negative exactly when the top bit of its last byte is set |
| LittleEndian.FirstByteLeastSignificant | Graph.py:25 | the first byte read is the least significant: it is the decoded sample modulo 256, for every width and sign |
| LittleEndian.UnsignedOfEncode | Graph.py:25 | decoding the k-byte unsigned encoding of u < 2^(8k) gives u back |
| LittleEndian.EncodeOfUnsigned | Graph.py:25 | re-encoding the unsigned value of a byte string in its width gives the same bytes |
| LittleEndian.SignedOfEncode | Graph.py:25 | decoding the k-byte two's-complement encoding of any x in range gives x back |
| LittleEndian.EncodeOfSigned | Graph.py:25 | every non-empty byte string is the encoding of its decoded value: the decoding is injective per width |
| Normalization.MaxVal | Graph.py:19 | for depth >= 1, max_val + 1 is half of 2^(8·depth); for depth <= 0 max_val is a negative fraction in (-1, -1/2] |
| Normalization.Normalize | Graph.py:25 | the point multiplied by max_val is the sample, as an exact ratio with positive denominator |
| Normalization.OnlyMostNegativeExceedsOne | Graph.py:19-25 | for a chunk of at most `depth` bytes the point lies in [-(max_val+1)/max_val, 1], and its magnitude exceeds 1 exactly for the full-width most negative sample |
| Normalization.SixteenBitExamples | Graph.py:19-25 | bytes 00 80 decode to -32768 with point -32768/32767 beyond -1; bytes FF 3F decode to 16383 with point 16383/32767 |
| Normalization.ShortSamplesFitFloat | Graph.py:19-25 | a sample of at most 128 bytes never overflows the conversion to a float |
| Normalization.HugeSampleOverflows | Graph.py:19-25 | 128 zero bytes then 01 decode to 2^1024, which overflows the conversion to a float |
| Normalization.RoundsUpFrom | Graph.py:20-25 | for a float format of s-bit significand below 2^e, 2^e - 2^(e-s-1) is exactly where rounding to nearest, ties to even, leaves the largest finite value for 2^e |
| Normalization.OverflowIsRoundingUp | Graph.py:20-25 | an int overflows the conversion to a float exactly when it is at least the largest finite float, (2^53 - 1) · 2^971, and no nearer to it than to 2^1024 |
| Normalization.FitsFloat | Graph.py:20-25 | every integer of magnitude at most 2^k for some k <= 1023, an ordinary rate or sample among them, converts to a float without overflow |
| Normalization.ThirtyTwoBitFitsFloat | Graph.py:20 | every rate of magnitude below 2^32 converts to a float, so `duration * rate` does not raise for it |
| Normalization.OverflowNeedsLongSample | Graph.py:25 | only a sample of more than 128 bytes can overflow the conversion to a float |
| Sampling.Limit | Graph.py:20 | the limit, when it is an integer L, satisfies L = duration · rate exactly |
| Sampling.LimitExact | Graph.py:20-28 | the counter can meet the limit at n exactly when n = duration · rate |
| Sampling.Read | Graph.py:18-24 | `f.read(size)` on the buffered reader raises (None) exactly for a size below -1; otherwise it returns a prefix of the unread bytes: min(size, remaining) of them, or all of them for a size of -1 |
| Sampling.ReadLoop | Graph.py:22-29 | the loop appends at most one chunk per unread byte, and a reachable limit bounds how many chunks it appends |
| Sampling.Samples | Graph.py:22-29 | there are no more samples than bytes in the file, and no more than a limit of 1 or more |
| Sampling.ReadLoopCount | Graph.py:24-29 | from counter nb the loop appends ceil(remaining / depth) samples, cut where the counter reaches the limit |
| Sampling.ReadLoopOrder | Graph.py:24-26 | the i-th chunk appended is bytes [i·depth, min((i+1)·depth, n)) of what was unread |
| Sampling.ReadsAreChunks | Graph.py:22-29 | the chunks decoded are chunks 0, 1, ... of the file, and their count is the closed-form chunk count |
| Sampling.SamplesAreChunks | Graph.py:22-29 | sample i is the decoding of chunk i of the file, and there is one sample per chunk up to the limit |
| Sampling.SampleIsChunk | Graph.py:24-26 | any sample, picked by its index, is the decoding of the chunk at that index |
| Sampling.UnlimitedReadsWholeFile | Graph.py:24 | without a limit the loop decodes ceil(n / depth) samples, so it reads the whole file |
| Sampling.TrailingPartialChunk | Graph.py:24-25 | when n is not a multiple of depth the short final read is decoded as the last of n / depth + 1 samples |
| Sampling.LimitKeepsPrefix | Graph.py:27-29 | with a limit L >= 1 the samples are the first min(L, ceil(n / depth)) samples of the unlimited run |
| Sampling.UnreachableLimitIgnored | Graph.py:27-29 | a limit the counter has already passed, such as one of 0 or less, never stops the loop |
| Sampling.BytesPastLimitUnread | Graph.py:24-29 | once L full chunks are present, bytes appended after them do not change the samples |
| Sampling.NonPositiveDepth | Graph.py:24 | a depth of 0 reads nothing; a depth of -1 reads the whole file as one sample; below -1 the first read raises and no sample is decoded |
| Sampling.ReadsTileFile | Graph.py:24-29 | the reads, concatenated, are a prefix of the file, and the whole file unless the depth is 0, the depth is below -1 so that the read raises, or the counter ends equal to the limit |
| Axis.FloorDiv | Graph.py:37 | Python's `//`: the quotient rounded toward negative infinity, for both signs of the divisor |
| Axis.Ticks | Graph.py:37-39 | the tick computation raises (None) exactly when the rate is 0; for a positive rate the tick count is the number of whole seconds of points; a negative rate gives no ticks |
| Axis.TicksAreWholeSeconds | Graph.py:38-39 | tick i is labelled i and sits at i · rate; positions strictly increase and each indexes a point |
| Graph.CollectPoints | Graph.py:22-29 | the while loop raises (None) exactly when the depth is below -1, so that the first read raises, or the division raises for one of the loop's chunks; otherwise it returns exactly the normalised decodings of those chunks, with the counter equal to their number and within a limit of 1 or more |
| Graph.LoopStep | Graph.py:24-29 | a non-empty read in the loop is the next chunk of the whole run, its point the next point, and the run ends there exactly when the counter meets the limit |
| Graph.Plot | Graph.py:18-40 | below depth -1 the script always raises; for a depth of 0 or more it yields a figure exactly when the rate is non-zero and converts to a float for `duration * rate`; at depth -1 also only when the whole file, read as one sample, converts to a float |
| Graph.NonPositiveDepthReads | Graph.py:19-25 | the division can raise only at depth -1, and then exactly when the file is non-empty and its one sample overflows a float |
| Graph.NegativeDepthOverflow | Graph.py:18-26 | at every negative depth the 129-byte file 00 ... 00 01 makes the script fail; below -1 every file fails; at -1 files of at most 128 bytes fail only for a rate of 0 or one too large for a float |
| Graph.RaisesOn | Graph.py:19-25 | the division of line 25 can raise for a chunk only when the depth is 0 or less and the chunk is longer than 128 bytes |
| Graph.PlotOfChunks | Graph.py:22-39 | for positive depth and a positive rate that converts to a float, point i is chunk i divided by max_val, there is one point per chunk up to the limit, and there are count / rate ticks, each at an existing point |

## Left out

- Command-line parsing (lines 13-16) is left out. The model takes the path's contents, the rate, the depth and the duration as parameters. A duration is an exact ratio, not a parsed float.
- File opening and I/O errors (line 18) are left out. The file is its bytes. A read from a regular file is assumed to return the full requested size unless the end of the file is reached.
- Floating-point rounding is left out. `duration * rate` (line 20) and `sample / max_val` (line 25) are computed exactly. Rounding could make a product that is mathematically fractional compare equal to the counter, or change the last digits of a point. From a depth of -7 down, `2 ** (8 * depth - 1) - 1` rounds to exactly -1.0, where the model keeps the exact fraction. The OverflowError of converting an int to a float is modelled, both for the rate at line 20 and for the sample at line 25; at a depth below -1, line 19 may raise too, which changes nothing since the first read raises in any case.
- Plotting, titles, labels, grid, saving the two images and showing the window (lines 31-36, 40-44) are foreign calls with no result. They are left out. `Graph.Figure` holds what is passed to them.
- The two status messages (lines 10-11, 46) are output only and are left out.
- Graph.CollectPoints: the number of bytes the loop consumes is not returned. How much of the file is read is stated by `Sampling.ReadsTileFile` and `Sampling.BytesPastLimitUnread` about the same reads.
