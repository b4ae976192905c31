/**
 The earlier exporter (src/main.rs): a decoder that keeps battery and
 humidity as unsigned bytes, and a loop that decodes every accepted
 advertisement and prints the reading. The printed readings, in order, are
 the observable result of the loop; the timestamps and the raw service-data
 dump it also prints are left out.
 */
module MainProgram {

  import opened Wrappers
  import opened Layout
  import opened Advertisement

  /** A decoded reading: battery and humidity as bytes, temperature in
      degrees Celsius (exact, where the program uses a 64-bit float). */
  datatype Metrics = Metrics(battery: byte, temperature: real, humidity: byte)

  /** Decodes a service-data payload. The payload must have at least six
      bytes, since byte 5 is read. Battery and humidity are the low seven
      bits of bytes 2 and 5, unclamped; the temperature is the tenths nibble
      of byte 3 plus the low seven bits of byte 4, negated when bit 7 of
      byte 4 is clear. */
  function ParseServiceData(data: seq<byte>): (m: Metrics)
    requires |data| >= PAYLOAD_LENGTH
    ensures m.battery as int == Low7(data[2])
    ensures m.humidity as int == Low7(data[5])
    ensures m.temperature * 10.0 == SignedTenths(data) as real
    ensures HighBit(data[4]) ==> 0.0 <= m.temperature
    ensures !HighBit(data[4]) ==> m.temperature <= 0.0
    ensures -128.5 <= m.temperature <= 128.5
  {
    var battery := data[2] & 0x7F;
    var isTemperatureAboveFreezing := data[4] & 0x80 > 0;
    var temperature := (data[3] & 0x0F) as int as real * 0.1 + (data[4] & 0x7F) as int as real;
    var temperature := if isTemperatureAboveFreezing then temperature else -temperature;
    MaskedFields(data, temperature);
    var humidity := data[5] & 0x7F;
    Metrics(battery, temperature, humidity)
  }

  /** The decoded fields depend only on the seven battery bits, the signed
      temperature and the seven humidity bits: two payloads decode alike
      exactly when those agree. Bytes 0 and 1, bit 7 of bytes 2 and 5 and
      the high nibble of byte 3 never matter. */
  lemma SameMetricsIff(a: seq<byte>, b: seq<byte>)
    requires |a| >= PAYLOAD_LENGTH && |b| >= PAYLOAD_LENGTH
    ensures ParseServiceData(a) == ParseServiceData(b) <==>
              && Low7(a[2]) == Low7(b[2])
              && SignedTenths(a) == SignedTenths(b)
              && Low7(a[5]) == Low7(b[5])
  {
  }

  /** Masking bit by bit: payloads that agree on the bits the decoder keeps
      decode to the same reading. */
  lemma OnlyFieldBitsMatter(a: seq<byte>, b: seq<byte>)
    requires |a| >= PAYLOAD_LENGTH && |b| >= PAYLOAD_LENGTH
    requires a[2] & 0x7F == b[2] & 0x7F
    requires a[3] & 0x0F == b[3] & 0x0F
    requires a[4] == b[4]
    requires a[5] & 0x7F == b[5] & 0x7F
    ensures ParseServiceData(a) == ParseServiceData(b)
  {
  }

  /** Decoding inverts `Encode` on every canonical reading. */
  lemma DecodeEncode(battery: int, tenths: int, humidity: int)
    requires Encodable(battery, tenths, humidity)
    ensures ParseServiceData(Encode(battery, tenths, humidity))
            == Metrics(ByteOf(battery), tenths as real / 10.0, ByteOf(humidity))
  {
  }

  /** The worked example of the payload format: 50 % battery, 24.3 degrees,
      40 % humidity. */
  lemma WorkedExample(b0: byte, b1: byte)
    ensures ParseServiceData([b0, b1, 0x32, 0x03, 0x98, 0x28]) == Metrics(50, 24.3, 40)
  {
  }

  /** A tenths nibble above 9 aliases a whole degree: two different payloads
      decode to 1.0 degree, and the largest magnitude is 128.5. */
  lemma TenthsNibbleAliasing()
    ensures ParseServiceData([0, 0, 0, 0x0A, 0x80, 0]).temperature == 1.0
    ensures ParseServiceData([0, 0, 0, 0x00, 0x81, 0]).temperature == 1.0
    ensures ParseServiceData([0, 0, 0, 0x0F, 0xFF, 0]).temperature == 128.5
    ensures ParseServiceData([0, 0, 0, 0x0F, 0x7F, 0]).temperature == -128.5
  {
  }

  /** The readings the loop prints, in order, for a finite stream of events:
      one per event that passes the filter, nothing for the others. */
  function Printed(events: seq<Event>): (out: seq<Metrics>)
    ensures |out| <= |events|
    ensures |events| > 0 && SelectPayload(events[0]).Some? ==>
              |out| > 0 && out[0] == ParseServiceData(SelectPayload(events[0]).value)
  {
    if |events| == 0 then
      []
    else
      var rest := Printed(events[1..]);
      match SelectPayload(events[0])
      case None => rest
      case Some(payload) => [ParseServiceData(payload)] + rest
  }

  /** The payloads that pass the filter, in stream order. */
  function AcceptedPayloads(events: seq<Event>): (ps: seq<seq<byte>>)
    ensures forall k :: 0 <= k < |ps| ==> |ps[k]| == PAYLOAD_LENGTH
  {
    if |events| == 0 then
      []
    else
      match SelectPayload(events[|events| - 1])
      case None => AcceptedPayloads(events[..|events| - 1])
      case Some(payload) => AcceptedPayloads(events[..|events| - 1]) + [payload]
  }

  /** The loop prints exactly the decodes of the accepted payloads, one for
      one and in the same order. */
  lemma {:induction false} PrintedDecodesAccepted(events: seq<Event>)
    ensures |Printed(events)| == |AcceptedPayloads(events)|
    ensures forall k :: 0 <= k < |Printed(events)| ==>
              Printed(events)[k] == ParseServiceData(AcceptedPayloads(events)[k])
    decreases |events|
  {
    if |events| > 0 {
      var n := |events| - 1;
      var init, last := events[..n], events[n];
      assert events == init + [last];
      PrintedAppend(init, [last]);
      PrintedDecodesAccepted(init);
      assert [last][1..] == [];
    }
  }

  /** Processing a stream in two pieces prints the same as processing it at
      once. */
  lemma {:induction false} PrintedAppend(a: seq<Event>, b: seq<Event>)
    ensures Printed(a + b) == Printed(a) + Printed(b)
    decreases |a|
  {
    if |a| > 0 {
      assert (a + b)[0] == a[0];
      assert (a + b)[1..] == a[1..] + b;
      PrintedAppend(a[1..], b);
      match SelectPayload(a[0])
      case None =>
      case Some(payload) =>
        var m := ParseServiceData(payload);
        assert Printed(a + b) == [m] + (Printed(a[1..]) + Printed(b));
        assert Printed(a) == [m] + Printed(a[1..]);
    } else {
      assert a + b == b;
    }
  }

  /** An event the filter rejects adds nothing to the output. */
  lemma SkippedEventPrintsNothing(events: seq<Event>, e: Event)
    requires SelectPayload(e).None?
    ensures Printed(events + [e]) == Printed(events)
  {
    PrintedAppend(events, [e]);
    assert [e][1..] == [];
  }
}
