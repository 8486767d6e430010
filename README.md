# NALU extraction from length-prefixed samples

A Dafny model of `GetNalusFromSample` from the mp4ff HEVC package. The
function splits one media sample in the length-prefixed format of ISO/IEC
14496-15 into its NAL units. That format is defined in clause 5.3 for AVC
and clause 8.3 for HEVC. Each unit is preceded by a big-endian
`NALUnitLength` field of 1, 2 or 4 bytes.

The project has three modules:

- `ByteOrder` (`byteorder.dfy`) reads an unsigned big-endian value of any
  width, as Go's `binary.BigEndian.Uint16` and `Uint32` do. It also writes
  such a value back.
- `Nalus` (`nalus.dfy`) holds the extractor:
  - `ParseFrom` is a recursive function that specifies the scan from a
    cursor, and `ParseSample` puts the sample-length test of the code in
    front of it;
  - `GetNalusFromSample` is the single-cursor `while` loop of the Go code,
    proved equal to `ParseSample`.
  Each returned unit is a view `Nalu(offset, length)` into the sample, not
  a copy. `Payloads` maps views to their bytes.
- `Framing` (`framing.dfy`) is the writing side:
  - `Encode` puts a w-byte length field in front of each payload;
  - `Laid` states that a sample holds payloads one after another;
  - `IsFramed` states that a sample is an encoding followed by fewer than
    w bytes.
  On top of these it proves the round trip, truncation detection and an
  exact characterisation of the samples the extractor accepts.

The model follows the code on these edge cases:
- A sample shorter than the width, including an empty sample, is the error
  `ShortSample` (lines 12-14). A lenient design would return an empty list
  there; this model does what the code does.
- With width 0, an empty sample gives an empty list, because the loop never
  runs.
- An unsupported width is reported only inside the loop, once a whole field
  fits.
- A trailer of fewer than w bytes is ignored. This holds for the Go code only
  while `pos+naluLengthSize` does not wrap (see "## Left out").
- A field holding 0 is skipped.
- A length that runs past the sample fails the whole call, with no partial
  list.

## Model

| member | source | states |
|---|---|---|
| ByteOrder.BigEndian | hevc/nalus.go:27-33 | the value read from b bytes is below 256^\|b\| |
| ByteOrder.Uint16 | hevc/nalus.go:30-31 | two bytes, high byte first, read as the big-endian value of the field; below 2^16 |
| ByteOrder.Uint32 | hevc/nalus.go:32-33 | four bytes, high byte first, read as the big-endian value of the field; below 2^32 |
| ByteOrder.EncodeBE | hevc/nalus.go:27-33 | a w-byte field written for n < 256^w has w bytes and reads back as n |
| ByteOrder.EncodeOfDecode | hevc/nalus.go:27-33 | the value read from a field determines the field: writing it back gives the same bytes |
| Nalus.ValidWidth | hevc/nalus.go:27-35 | true exactly for the case labels 1, 2 and 4 of the switch; any other width reaches the default case |
| Nalus.ValidWidthFits | hevc/nalus.go:27-35 | a supported width is 1 to 4 bytes, so a field of that width holds a value that fits a uint32 |
| Nalus.ReadLength | hevc/nalus.go:26-36 | the switch succeeds exactly for widths 1, 2 and 4, and then yields the big-endian value of the w bytes at pos |
| Nalus.ParseFrom | hevc/nalus.go:19-54 | a scan from pos fails only with Overrun for a supported width and only with InvalidWidth otherwise; InvalidWidth needs a byte left at pos |
| Nalus.ParseSample | hevc/nalus.go:10-23 | ShortSample exactly when the sample is shorter than the width; InvalidWidth exactly when the width is unsupported and a field fits in a non-empty sample; a supported width that fits gives success or Overrun |
| Nalus.EmptySample | hevc/nalus.go:11-14 | an empty sample is ShortSample for widths 1, 2 and 4, and an empty list for width 0 |
| Nalus.ParseFromWellFormed | hevc/nalus.go:37-53 | each view of a successful scan is non-empty, inside the sample, after its w-byte field holding its length; views are in order, with a field between consecutive ones |
| Nalus.ParseSampleWellFormed | hevc/nalus.go:46-53 | the same for the whole sample from offset 0 |
| Nalus.Payloads | hevc/nalus.go:51-52 | the bytes of each view, in order: one sub-slice per unit |
| Nalus.GetNalusFromSample | hevc/nalus.go:10-68 | the loop with its break, continue and three error returns computes exactly ParseSample |
| Nalus.AddUint32 | hevc/nalus.go:46 | Go's uint32 sum: the exact sum, or 2^32 less when it wraps, and it wraps exactly when the result is below the first operand |
| Nalus.OverrunTestAsWritten | hevc/nalus.go:46 | the overrun test on uint32 sums: the unbounded comparison while the sum stays below 2^32, and a comparison of the sum less 2^32 once it wraps |
| Nalus.WrappedLengthPassesOverrunTest | hevc/nalus.go:46-51 | for the sample FF FF FF FF 00 00 00 00, the wrapped test passes a unit that ends before it starts; the unbounded test reports Overrun |
| Framing.NonEmpty | hevc/nalus.go:40-45 | the payloads kept after zero-length ones are skipped are all non-empty |
| Framing.NonEmptyKeepsAll | hevc/nalus.go:40-45 | skipping zero-length payloads keeps a list with no empty payload unchanged |
| Framing.SkipStep | hevc/nalus.go:37-45 | proof step, one branch of ParseFrom unfolded: a field holding 0 gives the scan from right after that field |
| Framing.UnitStep | hevc/nalus.go:46-53 | proof step, one branch of ParseFrom unfolded: a field holding n > 0 that fits puts the view (pos + w, n) in front of the units after it |
| Framing.OverrunStep | hevc/nalus.go:46-47 | proof step, one branch of ParseFrom unfolded: a field holding n > 0 with fewer than n bytes after it gives Overrun |
| Framing.LaidOfEncode | hevc/nalus.go:19-54 | an encoding followed by t, found at pos, is laid out up to where t starts |
| Framing.EncodeOfLaid | hevc/nalus.go:19-54 | a layout is the encoding of its payloads, followed by the bytes after its end |
| Framing.ParseLaid | hevc/nalus.go:19-54 | a scan over a layout that ends fewer than w bytes before the end succeeds, and its views hold exactly the non-empty payloads |
| Framing.ParseLaidTruncated | hevc/nalus.go:37-48 | a scan over a layout followed by a field holding n > 0, with fewer than n bytes after it, fails with Overrun |
| Framing.LaidOfParse | hevc/nalus.go:19-54 | a successful scan from pos implies the rest of the sample is a layout ending fewer than w bytes before its end |
| Framing.RoundTrip | hevc/nalus.go:19-54 | extracting an encoding plus fewer than w trailing bytes succeeds, and the views hold the non-empty payloads in order |
| Framing.RoundTripNonEmpty | hevc/nalus.go:19-54 | extracting an encoding of non-empty payloads gives back exactly those payloads |
| Framing.PaddingOnly | hevc/nalus.go:37-45 | a sample of one field holding 0 gives an empty list and no error |
| Framing.WidthInvariance | hevc/nalus.go:26-36 | payloads encoded with two supported widths come back equal |
| Framing.TruncationDetected | hevc/nalus.go:46-47 | an encoding followed by a field holding n > 0, with fewer than n bytes after it, is Overrun, not a shorter list |
| Framing.SampleFramed | hevc/nalus.go:19-67 | on success the views are in bounds; the sample is an encoding of some payloads plus fewer than w bytes, and the views hold the non-empty ones |
| Framing.FramedSample | hevc/nalus.go:19-67 | every framed sample holding at least one field is accepted |
| Framing.Characterization | hevc/nalus.go:10-67 | with a supported width and at least one field: success exactly when the sample is framed, Overrun exactly when it is not |

## Left out

- The `fmt.Errorf` messages (lines 13, 35, 47) carry no information here: each error is one of the three `Error` kinds.
- The commented-out logging and the empty diagnostic `if` blocks (lines 41-43, 56-65) have no effect and are not modelled.
- The capacity hint of `make` (line 16) and the aliasing of the returned slices are not modelled. A unit is an (offset, length) view, and `Payloads` gives its bytes.
- Nalus.GetNalusFromSample: requires a sample shorter than 2^32 bytes. For longer samples, `uint32(length)` truncates the length in the Go code, and that is not modelled.
- Nalus.GetNalusFromSample: adds positions without 32-bit wrap-around. Two Go sums can wrap:
  - `pos+naluLength` (line 46) wraps for a large declared length, after which the slice on line 51 panics;
  - `pos+naluLengthSize` (line 21) wraps once pos is 2^32 − w or more, which a sample of 2^32 − 3 to 2^32 − 1 bytes allows, after which the slice on line 31 or 33 panics.
  The model performs the intended comparisons: it reports Overrun in the first case and ignores the short trailer in the second, with no panic. The finding below shows the first divergence.
- Nalus.ParseSample: takes Go's `int` to be 64 bits. On a 32-bit build, `int(naluLengthSize)` on line 12 is negative for widths of 2^31 or more, so the ShortSample test never fires. The loop then breaks at line 21, and Go returns an empty list where the model returns ShortSample. An example is the sample [0x00] with width 0x8000_0000.

## Findings

| source | as written | input that shows it | evidently intended | confidence | as-written member | corrected member |
|---|---|---|---|---|---|---|
| hevc/nalus.go:46-51 | the overrun test compares the uint32 sum `pos+naluLength`, which wraps modulo 2^32 | width 4, sample FF FF FF FF 00 00 00 00: at pos 4 the sum wraps to 3, the test passes, and `sample[4:3]` panics | report that the declared length exceeds the remaining bytes; for the model this is proved by Nalus.ParseSampleWellFormed (every view inside the sample) and Framing.TruncationDetected | not executed | Nalus.WrappedLengthPassesOverrunTest | Nalus.ParseSample |
