/**
 * The writing side of the length-prefixed format, and what the extractor
 * does on everything it can produce: encoding payloads with w-byte
 * big-endian length fields and extracting with the same w gives back the
 * non-empty payloads; a sample is accepted exactly when it is such an
 * encoding followed by fewer than w trailing bytes; and a length field
 * that runs past the end is reported as an overrun.
 */
module Framing {
  import opened ByteOrder
  import opened Nalus

  /** Each payload's length can be written in a w-byte length field. */
  predicate Fits(w: nat, payloads: seq<seq<byte>>) {
    forall i :: 0 <= i < |payloads| ==> |payloads[i]| < Pow256(w)
  }

  /** Each payload preceded by its length as a w-byte big-endian field. */
  function Encode(w: nat, payloads: seq<seq<byte>>): (r: seq<byte>)
    requires Fits(w, payloads)
    ensures payloads != [] ==> w <= |r|
  {
    if payloads == [] then []
    else
      assert Fits(w, payloads[1..]) by {
        forall i | 0 <= i < |payloads| - 1 ensures |payloads[1..][i]| < Pow256(w) {
          assert payloads[1..][i] == payloads[i + 1];
        }
      }
      EncodeBE(w, |payloads[0]|) + payloads[0] + Encode(w, payloads[1..])
  }

  /** The payloads that are not empty, in their order. */
  function NonEmpty(payloads: seq<seq<byte>>): (r: seq<seq<byte>>)
    ensures forall i :: 0 <= i < |r| ==> |r[i]| > 0
  {
    if payloads == [] then []
    else
      var rest := NonEmpty(payloads[1..]);
      var r := (if payloads[0] == [] then [] else [payloads[0]]) + rest;
      assert payloads[0] != [] ==> forall i :: 1 <= i < |r| ==> r[i] == rest[i - 1];
      r
  }

  /** Filtering payloads none of which is empty keeps them all. */
  lemma {:induction false} NonEmptyKeepsAll(payloads: seq<seq<byte>>)
    requires forall i :: 0 <= i < |payloads| ==> |payloads[i]| > 0
    ensures NonEmpty(payloads) == payloads
  {
    if payloads != [] {
      var rest := payloads[1..];
      assert forall i :: 0 <= i < |rest| ==> rest[i] == payloads[i + 1];
      NonEmptyKeepsAll(rest);
      assert payloads == [payloads[0]] + rest;
    }
  }

  /** The sample is an encoding followed by fewer than w bytes that do not hold a whole length field. */
  ghost predicate IsFramed(s: seq<byte>, w: nat) {
    exists payloads: seq<seq<byte>>, t: seq<byte> ::
      Fits(w, payloads) && |t| < w && s == Encode(w, payloads) + t
  }

  /**
   * s holds the payloads one after another from pos up to end, each after
   * a w-byte big-endian field giving its length.
   */
  ghost predicate Laid(s: seq<byte>, w: nat, pos: nat, payloads: seq<seq<byte>>, end: nat)
    decreases |payloads|
  {
    if payloads == [] then pos == end
    else
      var n := |payloads[0]|;
      pos + w + n <= |s| && BigEndian(s[pos .. pos + w]) == n &&
      s[pos + w .. pos + w + n] == payloads[0] &&
      Laid(s, w, pos + w + n, payloads[1..], end)
  }

  /** The scan from pos succeeds and its views hold exactly the byte sequences ps. */
  ghost predicate Extracts(s: seq<byte>, w: nat, pos: nat, ps: seq<seq<byte>>)
    requires pos <= |s|
  {
    ParseFrom(s, w, pos).Ok? && InBounds(|s|, ParseFrom(s, w, pos).value) &&
    Payloads(s, ParseFrom(s, w, pos).value) == ps
  }

  /** Where the rest of s from pos is a followed by b, a and b can be sliced back out. */
  lemma SplitAt(s: seq<byte>, pos: nat, a: seq<byte>, b: seq<byte>)
    requires pos <= |s| && s[pos..] == a + b
    ensures pos + |a| <= |s|
    ensures s[pos .. pos + |a|] == a
    ensures s[pos + |a| ..] == b
  {
    assert s[pos .. pos + |a|] == s[pos..][..|a|];
    assert s[pos + |a| ..] == s[pos..][|a|..];
  }

  /** Concatenation regrouped to the right: a length field, a payload and the rest of a sample. */
  lemma Regroup(a: seq<byte>, b: seq<byte>, c: seq<byte>, d: seq<byte>)
    ensures a + b + c + d == a + (b + (c + d))
  {
  }

  /** The payloads after the first still fit their length fields. */
  lemma FitsTail(w: nat, payloads: seq<seq<byte>>)
    requires Fits(w, payloads) && payloads != []
    ensures Fits(w, payloads[1..])
  {
    var rest := payloads[1..];
    forall i | 0 <= i < |rest| ensures |rest[i]| < Pow256(w) {
      assert rest[i] == payloads[i + 1];
    }
  }

  /** Where an encoding starts at pos: its first length field, its first payload, and the rest. */
  lemma EncodeFront(s: seq<byte>, w: nat, pos: nat, payloads: seq<seq<byte>>, t: seq<byte>)
    requires Fits(w, payloads) && payloads != []
    requires pos <= |s| && s[pos..] == Encode(w, payloads) + t
    ensures Fits(w, payloads[1..])
    ensures pos + w + |payloads[0]| <= |s|
    ensures BigEndian(s[pos .. pos + w]) == |payloads[0]|
    ensures s[pos + w .. pos + w + |payloads[0]|] == payloads[0]
    ensures s[pos + w + |payloads[0]| ..] == Encode(w, payloads[1..]) + t
  {
    FitsTail(w, payloads);
    var p, rest := payloads[0], Encode(w, payloads[1..]);
    var field := EncodeBE(w, |p|);
    assert Encode(w, payloads) == field + p + rest;
    Regroup(field, p, rest, t);
    SplitAt(s, pos, field, p + (rest + t));
    SplitAt(s, pos + w, p, rest + t);
    assert s[pos .. pos + w] == field;
    assert BigEndian(s[pos .. pos + w]) == |p|;
  }

  /** A zero length field is skipped. */
  lemma SkipStep(s: seq<byte>, w: nat, pos: nat)
    requires ValidWidth(w) && pos + w <= |s| && BigEndian(s[pos .. pos + w]) == 0
    ensures ParseFrom(s, w, pos) == ParseFrom(s, w, pos + w)
  {
  }

  /** A length field declaring n > 0 bytes that fit records one unit after it. */
  lemma UnitStep(s: seq<byte>, w: nat, pos: nat, n: nat)
    requires ValidWidth(w) && 0 < n && pos + w + n <= |s| && BigEndian(s[pos .. pos + w]) == n
    ensures ParseFrom(s, w, pos) == Prepend([Nalu(pos + w, n)], ParseFrom(s, w, pos + w + n))
  {
  }

  /** A length field declaring n > 0 bytes when fewer follow is an overrun. */
  lemma OverrunStep(s: seq<byte>, w: nat, pos: nat, n: nat)
    requires ValidWidth(w) && 0 < n && pos + w <= |s| < pos + w + n && BigEndian(s[pos .. pos + w]) == n
    ensures ParseFrom(s, w, pos) == Err(Overrun)
  {
  }

  /** NonEmpty unfolded once: an empty first payload is dropped, a non-empty one kept in front. */
  lemma NonEmptyCons(payloads: seq<seq<byte>>)
    requires payloads != []
    ensures |payloads[0]| == 0 ==> NonEmpty(payloads) == NonEmpty(payloads[1..])
    ensures |payloads[0]| > 0 ==> NonEmpty(payloads) == [payloads[0]] + NonEmpty(payloads[1..])
  {
    if |payloads[0]| == 0 {
      assert payloads[0] == [];
      assert [] + NonEmpty(payloads[1..]) == NonEmpty(payloads[1..]);
    }
  }

  /** The bytes of a view put in front of a list of views are the bytes of the longer list. */
  lemma PayloadsCons(s: seq<byte>, u: Nalu, units: seq<Nalu>)
    requires u.offset + u.length <= |s| && InBounds(|s|, units)
    ensures InBounds(|s|, [u] + units)
    ensures Payloads(s, [u] + units) == [s[u.offset .. u.offset + u.length]] + Payloads(s, units)
  {
    var all := [u] + units;
    assert all[1..] == units;
    assert forall i :: 1 <= i < |all| ==> all[i] == units[i - 1];
  }

  /** The scan at the end of a layout: no whole length field is left. */
  lemma EndCase(s: seq<byte>, w: nat, pos: nat)
    requires pos <= |s| && |s| - pos < w
    ensures Extracts(s, w, pos, [])
  {
  }

  /** A zero length field in front of a successful scan adds no view. */
  lemma ZeroCase(s: seq<byte>, w: nat, pos: nat, ps: seq<seq<byte>>)
    requires ValidWidth(w) && pos + w <= |s| && BigEndian(s[pos .. pos + w]) == 0
    requires Extracts(s, w, pos + w, ps)
    ensures Extracts(s, w, pos, ps)
  {
    SkipStep(s, w, pos);
  }

  /** A length field framing payload p in front of a successful scan adds p's view first. */
  lemma UnitCase(s: seq<byte>, w: nat, pos: nat, p: seq<byte>, ps: seq<seq<byte>>)
    requires ValidWidth(w) && 0 < |p| && pos + w + |p| <= |s| && BigEndian(s[pos .. pos + w]) == |p|
    requires s[pos + w .. pos + w + |p|] == p
    requires Extracts(s, w, pos + w + |p|, ps)
    ensures Extracts(s, w, pos, [p] + ps)
  {
    UnitStep(s, w, pos, |p|);
    PayloadsCons(s, Nalu(pos + w, |p|), ParseFrom(s, w, pos + w + |p|).value);
  }

  /** An encoding followed by t, starting at pos, is laid out up to where t starts. */
  lemma {:induction false} LaidOfEncode(s: seq<byte>, w: nat, pos: nat, payloads: seq<seq<byte>>, t: seq<byte>)
    requires Fits(w, payloads)
    requires pos <= |s| && s[pos..] == Encode(w, payloads) + t
    ensures Laid(s, w, pos, payloads, |s| - |t|)
    decreases |payloads|
  {
    if payloads != [] {
      EncodeFront(s, w, pos, payloads, t);
      LaidOfEncode(s, w, pos + w + |payloads[0]|, payloads[1..], t);
    }
  }

  /** The payloads of a layout fit their length fields; the end of a layout is not before its start. */
  lemma {:induction false} LaidFits(s: seq<byte>, w: nat, pos: nat, payloads: seq<seq<byte>>, end: nat)
    requires Laid(s, w, pos, payloads, end)
    ensures Fits(w, payloads) && pos <= end
    decreases |payloads|
  {
    if payloads != [] {
      var rest := payloads[1..];
      LaidFits(s, w, pos + w + |payloads[0]|, rest, end);
      assert |s[pos .. pos + w]| == w;
      forall i | 0 <= i < |payloads| ensures |payloads[i]| < Pow256(w) {
        if i > 0 { assert payloads[i] == rest[i - 1]; }
      }
    }
  }

  /** A field and a payload sliced out of s from pos, put back in front of the rest. */
  lemma JoinAt(s: seq<byte>, pos: nat, a: seq<byte>, b: seq<byte>)
    requires pos + |a| + |b| <= |s|
    requires s[pos .. pos + |a|] == a && s[pos + |a| .. pos + |a| + |b|] == b
    ensures s[pos..] == a + b + s[pos + |a| + |b| ..]
  {
    assert s[pos..] == s[pos .. pos + |a|] + s[pos + |a| .. pos + |a| + |b|] + s[pos + |a| + |b| ..];
  }

  /** A layout inside s is an encoding of its payloads, followed by what comes after its end. */
  lemma {:induction false} EncodeOfLaid(s: seq<byte>, w: nat, pos: nat, payloads: seq<seq<byte>>, end: nat)
    requires Laid(s, w, pos, payloads, end) && end <= |s|
    ensures Fits(w, payloads)
    ensures s[pos..] == Encode(w, payloads) + s[end..]
    decreases |payloads|
  {
    LaidFits(s, w, pos, payloads, end);
    if payloads == [] {
      assert s[pos..] == [] + s[end..];
    } else {
      EncodeOfLaid(s, w, pos + w + |payloads[0]|, payloads[1..], end);
      EncodeBack(s, w, pos, payloads, s[end..]);
    }
  }

  /** One length field and payload in front of an encoding extend it by one payload. */
  lemma EncodeBack(s: seq<byte>, w: nat, pos: nat, payloads: seq<seq<byte>>, t: seq<byte>)
    requires Fits(w, payloads) && payloads != []
    requires pos + w + |payloads[0]| <= |s| && BigEndian(s[pos .. pos + w]) == |payloads[0]|
    requires s[pos + w .. pos + w + |payloads[0]|] == payloads[0]
    requires Fits(w, payloads[1..]) && s[pos + w + |payloads[0]| ..] == Encode(w, payloads[1..]) + t
    ensures s[pos..] == Encode(w, payloads) + t
  {
    var p := payloads[0];
    var field := s[pos .. pos + w];
    assert |field| == w;
    EncodeOfDecode(field);
    assert s[pos + |field| .. pos + |field| + |p|] == p;
    JoinAt(s, pos, field, p);
    EncodeCons(w, payloads, field, t);
  }

  /** Encode unfolded once, with the trailer t regrouped. */
  lemma EncodeCons(w: nat, payloads: seq<seq<byte>>, field: seq<byte>, t: seq<byte>)
    requires Fits(w, payloads) && payloads != [] && field == EncodeBE(w, |payloads[0]|)
    ensures Fits(w, payloads[1..])
    ensures Encode(w, payloads) + t == field + payloads[0] + (Encode(w, payloads[1..]) + t)
  {
    FitsTail(w, payloads);
    Regroup(field, payloads[0], Encode(w, payloads[1..]), t);
  }

  /**
   * Scanning a layout that ends fewer than w bytes before the end of s
   * succeeds and yields the non-empty payloads.
   */
  lemma {:induction false} ParseLaid(s: seq<byte>, w: nat, pos: nat, payloads: seq<seq<byte>>, end: nat)
    requires ValidWidth(w) && Laid(s, w, pos, payloads, end) && end <= |s| < end + w
    ensures pos <= |s| && Extracts(s, w, pos, NonEmpty(payloads))
    decreases |payloads|
  {
    if payloads == [] {
      EndCase(s, w, pos);
    } else {
      var p := payloads[0];
      ParseLaid(s, w, pos + w + |p|, payloads[1..], end);
      NonEmptyCons(payloads);
      if |p| == 0 {
        ZeroCase(s, w, pos, NonEmpty(payloads[1..]));
      } else {
        UnitCase(s, w, pos, p, NonEmpty(payloads[1..]));
      }
    }
  }

  /**
   * Scanning a layout followed by a length field that declares n > 0 bytes
   * when fewer than n follow fails with an overrun, whatever units came
   * before it.
   */
  lemma {:induction false} ParseLaidTruncated(s: seq<byte>, w: nat, pos: nat, payloads: seq<seq<byte>>, end: nat, n: nat)
    requires ValidWidth(w) && Laid(s, w, pos, payloads, end) && 0 < n
    requires end + w <= |s| < end + w + n && BigEndian(s[end .. end + w]) == n
    ensures pos <= |s| && ParseFrom(s, w, pos) == Err(Overrun)
    decreases |payloads|
  {
    if payloads == [] {
      OverrunStep(s, w, pos, n);
    } else {
      var p := payloads[0];
      ParseLaidTruncated(s, w, pos + w + |p|, payloads[1..], end, n);
      if |p| == 0 {
        SkipStep(s, w, pos);
      } else {
        UnitStep(s, w, pos, |p|);
      }
    }
  }

  /**
   * Soundness of a successful scan from pos: the rest of s is laid out as
   * some payloads ending fewer than w bytes before its end.
   */
  lemma {:induction false} LaidOfParse(s: seq<byte>, w: nat, pos: nat)
    requires ValidWidth(w) && pos <= |s| && ParseFrom(s, w, pos).Ok?
    ensures exists payloads: seq<seq<byte>>, end: nat ::
      Laid(s, w, pos, payloads, end) && end <= |s| < end + w
    decreases |s| - pos
  {
    if pos == |s| || pos + w > |s| {
      var payloads: seq<seq<byte>> := [];
      assert Laid(s, w, pos, payloads, pos);
    } else {
      var n := BigEndian(s[pos .. pos + w]);
      var next := pos + w + n;
      LaidOfParse(s, w, next);
      var rest: seq<seq<byte>>, end: nat :| Laid(s, w, next, rest, end) && end <= |s| < end + w;
      var payloads := [s[pos + w .. next]] + rest;
      assert payloads[1..] == rest;
      assert Laid(s, w, pos, payloads, end);
    }
  }

  /** The sample-level form of ParseLaid. */
  lemma SampleOfLaid(s: seq<byte>, w: nat, payloads: seq<seq<byte>>, end: nat)
    requires ValidWidth(w) && w <= |s| && Laid(s, w, 0, payloads, end) && end <= |s| < end + w
    ensures ParseSample(s, w).Ok?
    ensures InBounds(|s|, ParseSample(s, w).value)
    ensures Payloads(s, ParseSample(s, w).value) == NonEmpty(payloads)
  {
    ParseLaid(s, w, 0, payloads, end);
  }

  /** A sample that is an encoding followed by t is laid out up to where t starts. */
  lemma LaidOfSample(s: seq<byte>, w: nat, payloads: seq<seq<byte>>, t: seq<byte>)
    requires Fits(w, payloads) && s == Encode(w, payloads) + t
    ensures exists end: nat :: Laid(s, w, 0, payloads, end) && end + |t| == |s| && s[end..] == t
  {
    assert s[0..] == s;
    LaidOfEncode(s, w, 0, payloads, t);
    assert Laid(s, w, 0, payloads, |s| - |t|);
  }

  /** A sample laid out up to end is an encoding of the payloads followed by what comes after end. */
  lemma SampleOfEncoding(s: seq<byte>, w: nat, payloads: seq<seq<byte>>, end: nat)
    requires Laid(s, w, 0, payloads, end) && end <= |s|
    ensures Fits(w, payloads) && s == Encode(w, payloads) + s[end..]
  {
    EncodeOfLaid(s, w, 0, payloads, end);
    assert s[0..] == s;
  }

  /**
   * Round trip: extracting an encoding followed by fewer than w trailing
   * bytes gives back the non-empty payloads, byte for byte and in order;
   * zero-length units are skipped and the trailer is ignored. The sample
   * must hold at least one length field, or it is rejected as too short.
   */
  lemma RoundTrip(w: nat, payloads: seq<seq<byte>>, t: seq<byte>)
    requires ValidWidth(w) && Fits(w, payloads) && |t| < w
    requires w <= |Encode(w, payloads) + t|
    ensures ParseSample(Encode(w, payloads) + t, w).Ok?
    ensures InBounds(|Encode(w, payloads) + t|, ParseSample(Encode(w, payloads) + t, w).value)
    ensures Payloads(Encode(w, payloads) + t, ParseSample(Encode(w, payloads) + t, w).value) == NonEmpty(payloads)
  {
    var s := Encode(w, payloads) + t;
    LaidOfSample(s, w, payloads, t);
    var end: nat :| Laid(s, w, 0, payloads, end) && end + |t| == |s| && s[end..] == t;
    SampleOfLaid(s, w, payloads, end);
  }

  /**
   * The round trip for one or more non-empty payloads and no trailer:
   * exactly the payloads come back. (With no payloads the sample is empty,
   * which the extractor rejects as too short.)
   */
  lemma RoundTripNonEmpty(w: nat, payloads: seq<seq<byte>>)
    requires ValidWidth(w) && Fits(w, payloads) && payloads != []
    requires forall i :: 0 <= i < |payloads| ==> |payloads[i]| > 0
    ensures ParseSample(Encode(w, payloads), w).Ok?
    ensures InBounds(|Encode(w, payloads)|, ParseSample(Encode(w, payloads), w).value)
    ensures Payloads(Encode(w, payloads), ParseSample(Encode(w, payloads), w).value) == payloads
  {
    var s := Encode(w, payloads);
    assert s + [] == s;
    RoundTrip(w, payloads, []);
    NonEmptyKeepsAll(payloads);
  }

  /** A sample of exactly one length field holding 0 is padding: an empty list, no error. */
  lemma PaddingOnly(s: seq<byte>, w: nat)
    requires ValidWidth(w) && |s| == w && BigEndian(s) == 0
    ensures ParseSample(s, w) == Ok([])
  {
    assert s[0 .. w] == s;
    SkipStep(s, w, 0);
  }

  /**
   * The width of the length field does not change what is extracted:
   * the same payloads encoded with two widths they fit in come back equal.
   */
  lemma WidthInvariance(w1: nat, w2: nat, payloads: seq<seq<byte>>)
    requires ValidWidth(w1) && ValidWidth(w2) && payloads != []
    requires Fits(w1, payloads) && Fits(w2, payloads)
    ensures ParseSample(Encode(w1, payloads), w1).Ok? && ParseSample(Encode(w2, payloads), w2).Ok?
    ensures InBounds(|Encode(w1, payloads)|, ParseSample(Encode(w1, payloads), w1).value)
    ensures InBounds(|Encode(w2, payloads)|, ParseSample(Encode(w2, payloads), w2).value)
    ensures Payloads(Encode(w1, payloads), ParseSample(Encode(w1, payloads), w1).value)
         == Payloads(Encode(w2, payloads), ParseSample(Encode(w2, payloads), w2).value)
  {
    var s1, s2 := Encode(w1, payloads), Encode(w2, payloads);
    assert s1 + [] == s1 && s2 + [] == s2;
    RoundTrip(w1, payloads, []);
    RoundTrip(w2, payloads, []);
  }

  /** Truncation is detected: a sample whose last length field overruns it is an error, not a shorter list. */
  lemma TruncationDetected(w: nat, payloads: seq<seq<byte>>, n: nat, tail: seq<byte>)
    requires ValidWidth(w) && Fits(w, payloads) && 0 < n < Pow256(w) && |tail| < n
    ensures ParseSample(Encode(w, payloads) + EncodeBE(w, n) + tail, w) == Err(Overrun)
  {
    var field := EncodeBE(w, n);
    var s := Encode(w, payloads) + field + tail;
    assert s == Encode(w, payloads) + (field + tail);
    LaidOfSample(s, w, payloads, field + tail);
    var end: nat :| Laid(s, w, 0, payloads, end) && end + |field + tail| == |s| && s[end..] == field + tail;
    SplitAt(s, end, field, tail);
    ParseLaidTruncated(s, w, 0, payloads, end, n);
  }

  /**
   * Soundness at the sample level: on success the sample is an encoding of
   * some payloads followed by fewer than w bytes, and the views are the
   * non-empty ones among those payloads.
   */
  lemma SampleFramed(s: seq<byte>, w: nat)
    requires ValidWidth(w) && w <= |s| && ParseSample(s, w).Ok?
    ensures InBounds(|s|, ParseSample(s, w).value)
    ensures exists payloads: seq<seq<byte>>, t: seq<byte> ::
      Fits(w, payloads) && |t| < w && s == Encode(w, payloads) + t &&
      Payloads(s, ParseSample(s, w).value) == NonEmpty(payloads)
  {
    LaidOfParse(s, w, 0);
    var payloads: seq<seq<byte>>, end: nat :| Laid(s, w, 0, payloads, end) && end <= |s| < end + w;
    SampleOfEncoding(s, w, payloads, end);
    SampleOfLaid(s, w, payloads, end);
    var t := s[end..];
    assert Fits(w, payloads) && |t| < w && s == Encode(w, payloads) + t;
  }

  /** Completeness at the sample level: every framed sample holding a length field is accepted. */
  lemma FramedSample(s: seq<byte>, w: nat)
    requires ValidWidth(w) && w <= |s| && IsFramed(s, w)
    ensures ParseSample(s, w).Ok?
  {
    var payloads: seq<seq<byte>>, t: seq<byte> :| Fits(w, payloads) && |t| < w && s == Encode(w, payloads) + t;
    LaidOfSample(s, w, payloads, t);
    var end: nat :| Laid(s, w, 0, payloads, end) && end + |t| == |s| && s[end..] == t;
    SampleOfLaid(s, w, payloads, end);
  }

  /**
   * For a supported width and a sample that holds at least one length
   * field, extraction succeeds exactly on the framed samples and fails with
   * an overrun exactly on the others.
   */
  lemma Characterization(s: seq<byte>, w: nat)
    requires ValidWidth(w) && w <= |s|
    ensures ParseSample(s, w).Ok? <==> IsFramed(s, w)
    ensures ParseSample(s, w) == Err(Overrun) <==> !IsFramed(s, w)
  {
    if ParseSample(s, w).Ok? {
      SampleFramed(s, w);
    }
    if IsFramed(s, w) {
      FramedSample(s, w);
    }
  }
}
