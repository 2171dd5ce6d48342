/** One measurement cycle of o2.py's `main`: five frame reads, each payload of
    at least six bytes decoded into a heart rate and an SpO2 value and
    appended to two parallel lists, then the average of each list (0 for an
    empty list). */
module Cycle {

  import opened Wrappers
  import opened Bcd
  import opened FrameSync

  /** The number of frame reads in one cycle (`range(5)`). */
  const Attempts: nat := 5

  /** The shortest payload that holds both fields, at offsets 2..3 and 4..5. */
  const MinPayload: nat := 6

  /** One decoded reading. */
  datatype Sample = Sample(hr: nat, spo2: nat)

  /** What a cycle ends with: the two lists and their averages, plus the input
      left unread; or `Stalled` when a scan for a marker ran off the end of
      the input (where the source waits forever and never averages). */
  datatype CycleOutcome =
    | Stalled
    | Completed(hrValues: seq<nat>, spo2Values: seq<nat>, avgHr: real, avgSpo2: real, rest: seq<Event>)

  /** Two BCD bytes read as a four-digit number: the first gives the hundreds
      and thousands, the second the tens and ones. */
  function Field(hundreds: bv8, ones: bv8): (v: nat)
    ensures v <= 16665
    ensures IsBcd(hundreds) && IsBcd(ones) ==> v <= 9999
  {
    ConvValue(hundreds) * 100 + ConvValue(ones)
  }

  /** The two bytes that carry a four-digit value in valid BCD. */
  function FieldBytes(v: nat): (bs: seq<bv8>)
    requires v < 10000
    ensures |bs| == 2 && IsBcd(bs[0]) && IsBcd(bs[1])
  {
    [ToBcd(v / 100), ToBcd(v % 100)]
  }

  /** The decoding step of the cycle: a payload shorter than MinPayload is
      rejected; otherwise heart rate comes from bytes 2 and 3 and SpO2 from
      bytes 4 and 5, and every other byte is ignored. */
  function DecodeSample(d: seq<bv8>): (r: Option<Sample>)
    ensures r.None? <==> |d| < MinPayload
    ensures r.Some? ==> r.value.hr <= 16665 && r.value.spo2 <= 16665
    ensures r.Some? && IsBcd(d[2]) && IsBcd(d[3]) ==> r.value.hr <= 9999
    ensures r.Some? && IsBcd(d[4]) && IsBcd(d[5]) ==> r.value.spo2 <= 9999
  {
    if |d| < MinPayload then None
    else Some(Sample(Field(d[2], d[3]), Field(d[4], d[5])))
  }

  /** Decoding recovers every four-digit value from its BCD bytes. */
  lemma {:induction false} FieldRoundTrip(v: nat)
    requires v < 10000
    ensures Field(FieldBytes(v)[0], FieldBytes(v)[1]) == v
  {
    ConvValueToBcd(v / 100);
    ConvValueToBcd(v % 100);
  }

  /** On valid BCD bytes the value determines the bytes. */
  lemma {:induction false} FieldBytesRoundTrip(hundreds: bv8, ones: bv8)
    requires IsBcd(hundreds) && IsBcd(ones)
    ensures Field(hundreds, ones) < 10000
    ensures FieldBytes(Field(hundreds, ones)) == [hundreds, ones]
  {
    ToBcdConvValue(hundreds);
    ToBcdConvValue(ones);
    var v := Field(hundreds, ones);
    assert v / 100 == ConvValue(hundreds) && v % 100 == ConvValue(ones);
  }

  /** A payload whose field bytes encode a sample decodes to that sample,
      whatever its other bytes are; and a decoded payload whose field bytes
      are valid BCD has exactly those field bytes. */
  lemma {:induction false} DecodeSampleRoundTrip(d: seq<bv8>, x: Sample)
    requires |d| >= MinPayload && x.hr < 10000 && x.spo2 < 10000
    requires forall i :: 2 <= i < MinPayload ==> IsBcd(d[i])
    ensures DecodeSample(d) == Some(x) <==> d[2..4] == FieldBytes(x.hr) && d[4..6] == FieldBytes(x.spo2)
  {
    FieldRoundTrip(x.hr);
    FieldRoundTrip(x.spo2);
    FieldBytesRoundTrip(d[2], d[3]);
    FieldBytesRoundTrip(d[4], d[5]);
    assert d[2..4] == [d[2], d[3]] && d[4..6] == [d[4], d[5]];
  }

  /** The payloads read by `n` successive frame reads and the input left after
      them; None when one of the scans ran off the end of the input. */
  function ReadFrames(s: seq<Event>, n: nat): (r: Option<(seq<seq<bv8>>, seq<Event>)>)
  {
    if n == 0 then Some(([], s))
    else match ReadFrames(s, n - 1)
      case None => None
      case Some((payloads, cur)) =>
        match Sync(cur)
        case NoMarker => None
        case Frame(p, rest) => Some((payloads + [p], rest))
  }

  /** n successful frame reads give n payloads of at most PayloadLength bytes. */
  lemma {:induction false} ReadFramesShape(s: seq<Event>, n: nat)
    requires ReadFrames(s, n).Some?
    ensures |ReadFrames(s, n).value.0| == n
    ensures forall p :: p in ReadFrames(s, n).value.0 ==> |p| <= PayloadLength
  {
    if n > 0 {
      ReadFramesShape(s, n - 1);
      SyncPayloadBound(ReadFrames(s, n - 1).value.1);
    }
  }

  /** Once a read finds no marker, the cycle can never complete. */
  lemma {:induction false} ReadFramesStalls(s: seq<Event>, i: nat, n: nat)
    requires i < n && ReadFrames(s, i).Some? && Sync(ReadFrames(s, i).value.1) == NoMarker
    ensures ReadFrames(s, n).None?
  {
    if n - 1 > i {
      ReadFramesStalls(s, i, n - 1);
    }
  }

  /** The samples the cycle keeps, in order: short payloads contribute none,
      every other payload contributes its decoded sample. */
  function Decoded(payloads: seq<seq<bv8>>): seq<Sample>
  {
    if payloads == [] then []
    else
      var last := payloads[|payloads| - 1];
      Decoded(payloads[..|payloads| - 1]) + match DecodeSample(last) case None => [] case Some(x) => [x]
  }

  /** The number of payloads long enough to decode. */
  function CountDecodable(payloads: seq<seq<bv8>>): (c: nat)
  {
    if payloads == [] then 0
    else (if |payloads[0]| >= MinPayload then 1 else 0) + CountDecodable(payloads[1..])
  }

  /** The cycle keeps exactly one sample per payload of at least MinPayload
      bytes, so never more samples than attempts. */
  lemma {:induction false} DecodedCount(payloads: seq<seq<bv8>>)
    ensures |Decoded(payloads)| == CountDecodable(payloads) <= |payloads|
  {
    if payloads != [] {
      var n := |payloads|;
      var init := payloads[..n - 1];
      DecodedCount(init);
      CountDecodableSnoc(init, payloads[n - 1]);
      assert init + [payloads[n - 1]] == payloads;
    }
  }

  /** Counting from the back agrees with counting from the front. */
  lemma {:induction false} CountDecodableSnoc(payloads: seq<seq<bv8>>, p: seq<bv8>)
    ensures CountDecodable(payloads + [p]) == CountDecodable(payloads) + (if |p| >= MinPayload then 1 else 0)
  {
    if payloads != [] {
      assert (payloads + [p])[1..] == payloads[1..] + [p];
      CountDecodableSnoc(payloads[1..], p);
    }
  }

  /** Every kept sample is the decoding of some payload of the cycle. */
  lemma {:induction false} DecodedFromPayloads(payloads: seq<seq<bv8>>, x: Sample)
    requires x in Decoded(payloads)
    ensures exists p :: p in payloads && DecodeSample(p) == Some(x)
  {
    var n := |payloads|;
    var last := payloads[n - 1];
    if x in Decoded(payloads[..n - 1]) {
      DecodedFromPayloads(payloads[..n - 1], x);
      var p :| p in payloads[..n - 1] && DecodeSample(p) == Some(x);
      assert p in payloads;
    } else {
      assert DecodeSample(last) == Some(x);
    }
  }

  function Sum(xs: seq<nat>): nat
  {
    if xs == [] then 0 else Sum(xs[..|xs| - 1]) + xs[|xs| - 1]
  }

  /** The average of a list as the source computes it, `sum(xs) / len(xs)`,
      in exact arithmetic; 0 for an empty list. */
  function Mean(xs: seq<nat>): real
  {
    if xs == [] then 0.0 else Sum(xs) as real / |xs| as real
  }

  /** A sum of n values, each between lo and hi, lies between n*lo and n*hi. */
  lemma {:induction false} SumBounds(xs: seq<nat>, lo: nat, hi: nat)
    requires forall i :: 0 <= i < |xs| ==> lo <= xs[i] <= hi
    ensures |xs| * lo <= Sum(xs) <= |xs| * hi
  {
    if xs != [] {
      var n := |xs|;
      SumBounds(xs[..n - 1], lo, hi);
      assert n * lo == (n - 1) * lo + lo && n * hi == (n - 1) * hi + hi;
    }
  }

  /** A non-empty average lies between the smallest and the largest value of
      the list; an empty list averages to 0. */
  lemma MeanBounds(xs: seq<nat>, lo: nat, hi: nat)
    requires forall i :: 0 <= i < |xs| ==> lo <= xs[i] <= hi
    ensures xs == [] ==> Mean(xs) == 0.0
    ensures xs != [] ==> lo as real <= Mean(xs) <= hi as real
  {
    if xs != [] {
      SumBounds(xs, lo, hi);
      DivBetween(Sum(xs) as real, |xs| as real, lo as real, hi as real);
    }
  }

  /** A quotient whose numerator lies between n*lo and n*hi lies between lo
      and hi. */
  lemma DivBetween(total: real, n: real, lo: real, hi: real)
    requires n > 0.0 && n * lo <= total <= n * hi
    ensures lo <= total / n <= hi
  {
    var m := total / n;
    assert m * n == total;
    assert lo * n <= m * n <= hi * n;
  }

  /** A list of equal values averages to that value. */
  lemma MeanOfConstant(xs: seq<nat>, c: nat)
    requires xs != [] && forall i :: 0 <= i < |xs| ==> xs[i] == c
    ensures Mean(xs) == c as real
  {
    MeanBounds(xs, c, c);
  }

  /** The cycle of `main`: five frame reads; a payload shorter than
      MinPayload is skipped without ending the cycle, any other one adds one
      heart rate and one SpO2 value; then both lists are averaged. */
  method RunCycle(s: seq<Event>) returns (out: CycleOutcome)
    ensures out.Stalled? <==> ReadFrames(s, Attempts).None?
    ensures out.Completed? ==>
      var (payloads, rest) := ReadFrames(s, Attempts).value;
      && out.rest == rest
      && |out.hrValues| == |out.spo2Values| == |Decoded(payloads)| == CountDecodable(payloads) <= Attempts
      && (forall j :: 0 <= j < |out.hrValues| ==>
            Decoded(payloads)[j] == Sample(out.hrValues[j], out.spo2Values[j]))
      && out.avgHr == Mean(out.hrValues) && out.avgSpo2 == Mean(out.spo2Values)
      && 0.0 <= out.avgHr <= 16665.0 && 0.0 <= out.avgSpo2 <= 16665.0
  {
    var hrValues: seq<nat> := [];
    var spo2Values: seq<nat> := [];
    ghost var payloads: seq<seq<bv8>> := [];
    var cur := s;
    for i := 0 to Attempts
      invariant ReadFrames(s, i) == Some((payloads, cur))
      invariant |hrValues| == |spo2Values| == |Decoded(payloads)|
      invariant forall j :: 0 <= j < |hrValues| ==>
        Decoded(payloads)[j] == Sample(hrValues[j], spo2Values[j])
    {
      var frame := ReadData(cur);
      if frame.NoMarker? {
        ReadFramesStalls(s, i, Attempts);
        return Stalled;
      }
      var data := frame.payload;
      assert (payloads + [data])[..|payloads|] == payloads;
      payloads := payloads + [data];
      cur := frame.rest;
      if |data| < MinPayload {
        continue;
      }
      var hr := ConvValue(data[2]) * 100 + ConvValue(data[3]);
      var spo2 := ConvValue(data[4]) * 100 + ConvValue(data[5]);
      hrValues := hrValues + [hr];
      spo2Values := spo2Values + [spo2];
    }
    ReadFramesShape(s, Attempts);
    DecodedCount(payloads);
    forall j | 0 <= j < |hrValues| ensures hrValues[j] <= 16665 && spo2Values[j] <= 16665 {
      DecodedFromPayloads(payloads, Decoded(payloads)[j]);
    }
    MeanBounds(hrValues, 0, 16665);
    MeanBounds(spo2Values, 0, 16665);
    out := Completed(hrValues, spo2Values, Mean(hrValues), Mean(spo2Values), cur);
  }

  /** The decoding fixture: bytes 00 78 and 00 95 in the field positions give
      heart rate 78 and SpO2 95. */
  lemma DecodeFixture()
    ensures DecodeSample([0x00, 0x00, 0x00, 0x78, 0x00, 0x95]) == Some(Sample(78, 95))
  {
  }
}
