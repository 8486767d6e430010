/**
 * Splitting one length-prefixed media sample into its NAL units
 * (ISO/IEC 14496-15, clause 5.3 for AVC and clause 8.3 for HEVC): every
 * unit is preceded by a big-endian NALUnitLength field of 1, 2 or 4 bytes.
 *
 * ParseSample / ParseFrom specify the result; GetNalusFromSample is the
 * single-cursor loop of the implementation, proved equal to ParseSample.
 */
module Nalus {
  import opened ByteOrder

  /** The three ways the extractor can fail. */
  datatype Error =
    | ShortSample   // the whole sample is shorter than one length field
    | InvalidWidth  // the length-field width is not 1, 2 or 4
    | Overrun       // a declared unit length runs past the end of the sample

  datatype Result<T> = Ok(value: T) | Err(error: Error)

  /** A view of one NAL unit: the payload bytes sample[offset .. offset + length], prefix excluded. */
  datatype Nalu = Nalu(offset: nat, length: nat)

  /** The widths of the NALUnitLength field (lengthSizeMinusOne + 1) the extractor reads. */
  predicate ValidWidth(w: nat) {
    w == 1 || w == 2 || w == 4
  }

  /** A supported width is at least one byte, and a field of that width holds a uint32. */
  lemma ValidWidthFits(w: nat)
    requires ValidWidth(w)
    ensures 1 <= w <= 4 && Pow256(w) <= 0x1_0000_0000
  {
    assert Pow256(4) == 0x1_0000_0000;
  }

  /** Every view lies inside a sample of size n. */
  predicate InBounds(n: nat, units: seq<Nalu>) {
    forall i :: 0 <= i < |units| ==> units[i].offset + units[i].length <= n
  }

  /**
   * One view found by a scan that started at cursor `from`: non-empty,
   * inside s after `from`, and preceded by a w-byte field holding its length.
   */
  ghost predicate Framed(s: seq<byte>, w: nat, from: nat, u: Nalu) {
    from + w <= u.offset &&
    0 < u.length &&
    u.offset + u.length <= |s| &&
    BigEndian(s[u.offset - w .. u.offset]) == u.length
  }

  /**
   * What a successful extraction of s from cursor `from` guarantees about
   * its views: each one is Framed, and they appear in stream order without
   * overlapping each other's length fields.
   */
  ghost predicate WellFormed(s: seq<byte>, w: nat, from: nat, units: seq<Nalu>) {
    (forall i :: 0 <= i < |units| ==> Framed(s, w, from, units[i])) &&
    (forall i, j :: 0 <= i < j < |units| ==> units[i].offset + units[i].length + w <= units[j].offset)
  }

  /** The units found so far in front of the outcome of the rest of the scan; an error stays an error. */
  function Prepend(units: seq<Nalu>, rest: Result<seq<Nalu>>): (r: Result<seq<Nalu>>)
    ensures r.Ok? <==> rest.Ok?
  {
    if rest.Ok? then Ok(units + rest.value) else rest
  }

  /**
   * The rest of the loop with the cursor at pos: stop when no full length
   * field is left, read the field (an unsupported width fails here), skip a
   * zero length, fail on a length that runs past the sample, and otherwise
   * record the unit and go on after it.
   */
  function ParseFrom(s: seq<byte>, w: nat, pos: nat): (r: Result<seq<Nalu>>)
    requires pos <= |s|
    ensures r.Err? ==> r.error == (if ValidWidth(w) then Overrun else InvalidWidth)
    ensures r == Err(InvalidWidth) ==> pos < |s|
    decreases |s| - pos
  {
    if pos == |s| || pos + w > |s| then Ok([])
    else if !ValidWidth(w) then Err(InvalidWidth)
    else
      var n := BigEndian(s[pos .. pos + w]);
      var next := pos + w;
      if n == 0 then ParseFrom(s, w, next)
      else if next + n > |s| then Err(Overrun)
      else Prepend([Nalu(next, n)], ParseFrom(s, w, next + n))
  }

  /** Every successful scan from pos yields views that are well formed relative to pos. */
  lemma {:induction false} ParseFromWellFormed(s: seq<byte>, w: nat, pos: nat)
    requires pos <= |s|
    ensures ParseFrom(s, w, pos).Ok? ==> WellFormed(s, w, pos, ParseFrom(s, w, pos).value)
    decreases |s| - pos
  {
    if pos < |s| && pos + w <= |s| && ValidWidth(w) {
      var n := BigEndian(s[pos .. pos + w]);
      var next := pos + w;
      if n == 0 {
        ParseFromWellFormed(s, w, next);
        if ParseFrom(s, w, next).Ok? {
          WellFormedFrom(s, w, pos, next, ParseFrom(s, w, next).value);
        }
      } else if next + n <= |s| {
        ParseFromWellFormed(s, w, next + n);
        if ParseFrom(s, w, next + n).Ok? {
          WellFormedCons(s, w, pos, n, ParseFrom(s, w, next + n).value);
        }
      }
    }
  }

  lemma WellFormedFrom(s: seq<byte>, w: nat, from: nat, later: nat, units: seq<Nalu>)
    requires from <= later && WellFormed(s, w, later, units)
    ensures WellFormed(s, w, from, units)
  {
  }

  /** A unit whose length field starts at pos, followed by units found after it. */
  lemma WellFormedCons(s: seq<byte>, w: nat, pos: nat, n: nat, rest: seq<Nalu>)
    requires 0 < n && pos + w + n <= |s|
    requires BigEndian(s[pos .. pos + w]) == n
    requires WellFormed(s, w, pos + w + n, rest)
    ensures WellFormed(s, w, pos, [Nalu(pos + w, n)] + rest)
  {
    var head := Nalu(pos + w, n);
    var units := [head] + rest;
    forall i | 0 <= i < |units|
      ensures Framed(s, w, pos, units[i])
    {
      if i > 0 {
        assert units[i] == rest[i - 1];
        assert Framed(s, w, pos + w + n, rest[i - 1]);
      }
    }
    forall i, j | 0 <= i < j < |units|
      ensures units[i].offset + units[i].length + w <= units[j].offset
    {
      assert units[j] == rest[j - 1];
      if i > 0 {
        assert units[i] == rest[i - 1];
      }
    }
  }

  /** The result of extracting the units of sample with w-byte length fields. */
  function ParseSample(sample: seq<byte>, w: nat): (r: Result<seq<Nalu>>)
    ensures r == Err(ShortSample) <==> |sample| < w
    ensures r == Err(InvalidWidth) <==> !ValidWidth(w) && 0 < |sample| && w <= |sample|
    ensures ValidWidth(w) && w <= |sample| ==> r.Ok? || r == Err(Overrun)
  {
    if |sample| < w then Err(ShortSample) else ParseFrom(sample, w, 0)
  }

  /**
   * An empty sample is rejected as too short for every supported width;
   * only with width 0 does the loop not run and an empty list come back.
   */
  lemma EmptySample(w: nat)
    ensures ValidWidth(w) ==> ParseSample([], w) == Err(ShortSample)
    ensures ParseSample([], 0) == Ok([])
  {
  }

  /** On success, the views are non-empty, framed by their length fields, in order and disjoint. */
  lemma ParseSampleWellFormed(sample: seq<byte>, w: nat)
    ensures ParseSample(sample, w).Ok? ==> WellFormed(sample, w, 0, ParseSample(sample, w).value)
  {
    if w <= |sample| {
      ParseFromWellFormed(sample, w, 0);
    }
  }

  /** The bytes of each view, in order: what the implementation returns as sub-slices of the sample. */
  function Payloads(s: seq<byte>, units: seq<Nalu>): (r: seq<seq<byte>>)
    requires InBounds(|s|, units)
    ensures |r| == |units|
  {
    seq(|units|, i requires 0 <= i < |units| => s[units[i].offset .. units[i].offset + units[i].length])
  }

  /**
   * The switch on the width of the length field at pos: one byte as is,
   * two or four bytes through the big-endian readers, any other width
   * rejected.
   */
  method ReadLength(sample: seq<byte>, pos: nat, naluLengthSize: uint32) returns (known: bool, naluLength: nat)
    requires pos + naluLengthSize <= |sample|
    ensures known <==> ValidWidth(naluLengthSize)
    ensures known ==> naluLength == BigEndian(sample[pos .. pos + naluLengthSize])
  {
    match naluLengthSize {
      case 1 =>
        assert sample[pos .. pos + 1] == [sample[pos]];
        assert BigEndian(sample[pos .. pos + 1]) == sample[pos];
        known, naluLength := true, sample[pos];
      case 2 =>
        known, naluLength := true, Uint16(sample[pos .. pos + 2]);
      case 4 =>
        known, naluLength := true, Uint32(sample[pos .. pos + 4]);
      case _ =>
        known, naluLength := false, 0;
    }
  }

  /**
   * The extraction loop. Integers are unbounded here: the Go code adds
   * uint32 values (pos + naluLengthSize, pos + naluLength), and a 4-byte
   * length near 2^32 can wrap the sum so that the overrun test passes and
   * the slice that follows panics. The model performs the comparison the
   * code intends, without wrap-around, and does not model the panic.
   */
  method GetNalusFromSample(sample: seq<byte>, naluLengthSize: uint32) returns (r: Result<seq<Nalu>>)
    requires |sample| < 0x1_0000_0000
    ensures r == ParseSample(sample, naluLengthSize)
  {
    var length := |sample|;
    if length < naluLengthSize {
      return Err(ShortSample);
    }
    var naluList: seq<Nalu> := [];
    var pos: nat := 0;
    ghost var whole := ParseFrom(sample, naluLengthSize, 0);
    assert whole == ParseSample(sample, naluLengthSize);
    assert whole.Ok? ==> [] + whole.value == whole.value;
    while pos < length
      invariant pos <= length
      invariant whole == Prepend(naluList, ParseFrom(sample, naluLengthSize, pos))
      decreases length - pos
    {
      if pos + naluLengthSize > length {
        break;
      }
      var known, naluLength := ReadLength(sample, pos, naluLengthSize);
      if !known {
        return Err(InvalidWidth);
      }
      pos := pos + naluLengthSize;
      if naluLength == 0 {
        continue;
      }
      if pos + naluLength > length {
        return Err(Overrun);
      }
      ghost var rest := ParseFrom(sample, naluLengthSize, pos + naluLength);
      assert rest.Ok? ==> naluList + [Nalu(pos, naluLength)] + rest.value == naluList + ([Nalu(pos, naluLength)] + rest.value);
      naluList := naluList + [Nalu(pos, naluLength)];
      pos := pos + naluLength;
    }
    assert naluList + [] == naluList;
    return Ok(naluList);
  }

  /** Go's uint32 addition: the sum taken modulo 2^32. */
  function AddUint32(a: uint32, b: uint32): (r: uint32)
    ensures r == a + b || r == a + b - 0x1_0000_0000
    ensures r < a <==> a + b >= 0x1_0000_0000
  {
    (a + b) % 0x1_0000_0000
  }

  /** The overrun test of the Go loop as written: a comparison of a wrapped uint32 sum. */
  predicate OverrunTestAsWritten(pos: uint32, naluLength: uint32, length: uint32): (r: bool)
    ensures pos + naluLength < 0x1_0000_0000 ==> (r <==> pos + naluLength > length)
    ensures pos + naluLength >= 0x1_0000_0000 ==> (r <==> pos + naluLength - 0x1_0000_0000 > length)
  {
    AddUint32(pos, naluLength) > length
  }

  /**
   * An 8-byte sample whose 4-byte length field holds 0xFFFFFFFF: with the
   * cursor at 4 the wrapped sum is 3, so the test as written lets the unit
   * through with an end offset before its start (and the slice expression
   * that follows panics), while the unbounded test of ParseSample reports
   * an overrun.
   */
  lemma WrappedLengthPassesOverrunTest()
    ensures var sample: seq<byte> := [0xFF, 0xFF, 0xFF, 0xFF, 0, 0, 0, 0];
      var n := BigEndian(sample[0 .. 4]);
      n == 0xFFFF_FFFF && 4 + n > |sample| &&
      !OverrunTestAsWritten(4, n, |sample|) && AddUint32(4, n) < 4 &&
      ParseSample(sample, 4) == Err(Overrun)
  {
    var sample: seq<byte> := [0xFF, 0xFF, 0xFF, 0xFF, 0, 0, 0, 0];
    assert Uint32(sample[0 .. 4]) == 0xFFFF_FFFF;
  }
}
