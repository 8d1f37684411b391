/** The transcode loop of main.go:34-54: every captured region is trimmed,
    decoded as JPEG and re-encoded at quality 50; a region that fails to
    decode or to encode is reported with its 1-based index and skipped,
    and the successful payloads are appended in order.

    `jpeg.Decode` and `jpeg.Encode` are foreign code; they are parameters
    here, as total functions that either produce a value or fail. */
module Transcode {
  import opened Bytes
  import Trim

  /** A decoded raster (Go's image.Image); its contents are whatever the
      decoder produced. */
  datatype Raster = Raster(width: nat, height: nat, samples: seq<byte>)

  /** `jpeg.Options`. */
  datatype EncodeOptions = EncodeOptions(quality: int)

  /** The quality every region is re-encoded at (main.go:47). */
  const Quality: int := 50

  /** `jpeg.Decode` applied to a byte reader: a raster, or an error. */
  type Decoder = seq<byte> -> Option<Raster>

  /** `jpeg.Encode` into a fresh buffer: the encoded bytes, or an error. */
  type Encoder = (Raster, EncodeOptions) -> Option<seq<byte>>

  /** Which call failed: jpeg.Decode (main.go:40-44) or jpeg.Encode (main.go:47-51). */
  datatype Stage = DecodeStage | EncodeStage

  /** One printed failure report, "Failed to decode image %d" or "Failed to
      encode and compress image %d": the stage and the 1-based index. */
  datatype Failure = Failure(index: nat, stage: Stage)

  /** What one iteration of the loop makes of one captured region. */
  datatype Outcome = Encoded(payload: seq<byte>) | Failed(stage: Stage)

  function Attempt(capture: seq<byte>, decode: Decoder, encode: Encoder): Outcome
  {
    match decode(Trim.Trim(capture))
    case None => Failed(DecodeStage)
    case Some(img) =>
      match encode(img, EncodeOptions(Quality))
      case None => Failed(EncodeStage)
      case Some(buf) => Encoded(buf)
  }

  /** The outcome of every region, one per region. */
  function Outcomes(cs: seq<seq<byte>>, decode: Decoder, encode: Encoder): (os: seq<Outcome>)
    ensures |os| == |cs|
    ensures forall i :: 0 <= i < |cs| ==> os[i] == Attempt(cs[i], decode, encode)
  {
    seq(|cs|, i requires 0 <= i < |cs| => Attempt(cs[i], decode, encode))
  }

  /** `imageBuffers` once the loop has gone through outcomes os. */
  function Payloads(os: seq<Outcome>): seq<seq<byte>>
  {
    if os == [] then []
    else
      match os[|os| - 1]
      case Encoded(buf) => Payloads(os[..|os| - 1]) + [buf]
      case Failed(_) => Payloads(os[..|os| - 1])
  }

  /** The failure reports printed once the loop has gone through outcomes os. */
  function Failures(os: seq<Outcome>): seq<Failure>
  {
    if os == [] then []
    else
      match os[|os| - 1]
      case Encoded(_) => Failures(os[..|os| - 1])
      case Failed(stage) => Failures(os[..|os| - 1]) + [Failure(|os|, stage)]
  }

  /** Reference definition: the 0-based positions of the successful
      outcomes, in increasing order. */
  function Survivors(os: seq<Outcome>): seq<nat>
  {
    if os == [] then []
    else if os[|os| - 1].Encoded? then Survivors(os[..|os| - 1]) + [|os| - 1]
    else Survivors(os[..|os| - 1])
  }

  /** Some report carries the 1-based index n. */
  predicate Reported(fs: seq<Failure>, n: nat)
  {
    exists k :: 0 <= k < |fs| && fs[k].index == n
  }

  /** ss is strictly increasing. */
  predicate Increasing(ss: seq<nat>)
  {
    forall k :: 0 <= k < |ss| - 1 ==> ss[k] < ss[k + 1]
  }

  /** The loop of main.go:36-54. */
  method TranscodeAll(captures: seq<seq<byte>>, decode: Decoder, encode: Encoder)
    returns (imageBuffers: seq<seq<byte>>, failures: seq<Failure>)
    ensures imageBuffers == Payloads(Outcomes(captures, decode, encode))
    ensures failures == Failures(Outcomes(captures, decode, encode))
  {
    imageBuffers, failures := [], [];
    ghost var os := Outcomes(captures, decode, encode);
    for i := 0 to |captures|
      invariant imageBuffers == Payloads(os[..i])
      invariant failures == Failures(os[..i])
    {
      assert os[..i + 1][..i] == os[..i];
      var imageData := Trim.Trim(captures[i]);
      var img := decode(imageData);
      if img.None? {
        failures := failures + [Failure(i + 1, DecodeStage)];
        continue;
      }
      var buf := encode(img.value, EncodeOptions(Quality));
      if buf.None? {
        failures := failures + [Failure(i + 1, EncodeStage)];
        continue;
      }
      imageBuffers := imageBuffers + [buf.value];
    }
    assert os[..|captures|] == os;
  }

  /** The payloads are, in order, the payloads of the successful outcomes. */
  lemma {:induction false} PayloadsFromSurvivors(os: seq<Outcome>)
    ensures |Payloads(os)| == |Survivors(os)|
    ensures forall k :: 0 <= k < |Survivors(os)| ==>
      Survivors(os)[k] < |os| && os[Survivors(os)[k]] == Encoded(Payloads(os)[k])
  {
    if os != [] {
      var init := os[..|os| - 1];
      PayloadsFromSurvivors(init);
      assert forall i :: 0 <= i < |init| ==> os[i] == init[i];
    }
  }

  /** The survivors are increasing, and an outcome survives exactly when it
      is a success. */
  lemma {:induction false} SurvivorsExact(os: seq<Outcome>)
    ensures Increasing(Survivors(os))
    ensures forall k :: 0 <= k < |Survivors(os)| ==> Survivors(os)[k] < |os|
    ensures forall i :: 0 <= i < |os| ==> (i in Survivors(os) <==> os[i].Encoded?)
  {
    if os != [] {
      var init := os[..|os| - 1];
      SurvivorsExact(init);
      assert forall i :: 0 <= i < |init| ==> os[i] == init[i];
      assert |init| !in Survivors(init);
    }
  }

  /** Every report names a failed outcome by its 1-based index and its
      stage, and reports come in increasing order of index. */
  lemma {:induction false} FailuresLocated(os: seq<Outcome>)
    ensures forall k :: 0 <= k < |Failures(os)| ==>
      1 <= Failures(os)[k].index <= |os| && os[Failures(os)[k].index - 1] == Failed(Failures(os)[k].stage)
    ensures forall k :: 0 <= k < |Failures(os)| - 1 ==> Failures(os)[k].index < Failures(os)[k + 1].index
  {
    if os != [] {
      var init := os[..|os| - 1];
      FailuresLocated(init);
      assert forall i :: 0 <= i < |init| ==> os[i] == init[i];
    }
  }

  /** An outcome is reported exactly when it is a failure. */
  lemma {:induction false} FailuresExact(os: seq<Outcome>)
    ensures forall i :: 0 <= i < |os| ==> (Reported(Failures(os), i + 1) <==> os[i].Failed?)
  {
    if os != [] {
      var init := os[..|os| - 1];
      var before := Failures(init);
      var fs := Failures(os);
      FailuresExact(init);
      FailuresLocated(init);
      assert fs == before || fs == before + [Failure(|os|, os[|os| - 1].stage)];
      forall i | 0 <= i < |os| ensures Reported(fs, i + 1) <==> os[i].Failed? {
        if i < |init| {
          assert os[i] == init[i];
          if Reported(before, i + 1) {
            var k :| 0 <= k < |before| && before[k].index == i + 1;
            assert fs[k] == before[k];
          }
          if Reported(fs, i + 1) {
            var k :| 0 <= k < |fs| && fs[k].index == i + 1;
            if k < |before| {
              assert fs[k] == before[k];
            }
          }
        } else if os[i].Failed? {
          assert fs[|fs| - 1].index == i + 1;
        } else {
          assert fs == before;
        }
      }
    }
  }

  /** Every region is accounted for exactly once: as a payload or as a
      failure report. */
  lemma {:induction false} EachRegionOnce(os: seq<Outcome>)
    ensures |Payloads(os)| + |Failures(os)| == |os|
  {
    if os != [] {
      EachRegionOnce(os[..|os| - 1]);
    }
  }

  /** A region's outcome is a success exactly when decoding the trimmed
      region succeeds and re-encoding the raster at quality 50 succeeds,
      and the payload is what that encode produced. */
  lemma OutcomeOfRegion(cs: seq<seq<byte>>, decode: Decoder, encode: Encoder, i: nat)
    requires i < |cs|
    ensures Outcomes(cs, decode, encode)[i].Encoded? <==>
      decode(Trim.Trim(cs[i])).Some? && encode(decode(Trim.Trim(cs[i])).value, EncodeOptions(50)).Some?
    ensures Outcomes(cs, decode, encode)[i].Encoded? ==>
      Outcomes(cs, decode, encode)[i].payload == encode(decode(Trim.Trim(cs[i])).value, EncodeOptions(50)).value
    ensures Outcomes(cs, decode, encode)[i] == Failed(DecodeStage) <==> decode(Trim.Trim(cs[i])).None?
  {
  }

  /** A region padded with whitespace on either side fares exactly like
      the unpadded region. */
  lemma PaddingDoesNotChangeOutcome(a: seq<byte>, m: seq<byte>, b: seq<byte>, decode: Decoder, encode: Encoder)
    requires Trim.AllCutset(a) && Trim.AllCutset(b)
    ensures Attempt(a + m + b, decode, encode) == Attempt(m, decode, encode)
  {
    Trim.TrimAbsorbsPadding(a, m, b);
  }
}
