/**
 The later exporter (src/scan.rs): a decoder whose fields are all floats,
 and a scan loop that writes each accepted reading into three process-wide
 gauges (battery, temperature, humidity). A gauge is written only when it
 has been registered. The event stream is a finite sequence; the loop's
 effect is a fold of one step per event over the gauge state.
 */
module Scan {

  import opened Wrappers
  import opened Layout
  import opened Advertisement

  /** A decoded reading with every field a number (exact reals standing for
      the program's 64-bit floats). */
  datatype SensorData = SensorData(battery: real, temperature: real, humidity: real)

  /** Decodes a service-data payload of at least six bytes. Battery and
      humidity are the low seven bits of bytes 2 and 5 as numbers, unclamped;
      the temperature is the tenths nibble of byte 3 plus the low seven bits
      of byte 4, negated when bit 7 of byte 4 is clear. */
  function ParseServiceData(data: seq<byte>): (d: SensorData)
    requires |data| >= PAYLOAD_LENGTH
    ensures d.battery == Low7(data[2]) as real
    ensures d.humidity == Low7(data[5]) as real
    ensures d.temperature * 10.0 == SignedTenths(data) as real
    ensures HighBit(data[4]) ==> 0.0 <= d.temperature
    ensures !HighBit(data[4]) ==> d.temperature <= 0.0
    ensures -128.5 <= d.temperature <= 128.5
  {
    var battery := (data[2] & 0x7F) as int as real;
    var isTemperatureAboveFreezing := data[4] & 0x80 > 0;
    var temperature := (data[3] & 0x0F) as int as real * 0.1 + (data[4] & 0x7F) as int as real;
    var temperature := if isTemperatureAboveFreezing then temperature else -temperature;
    MaskedFields(data, temperature);
    var humidity := (data[5] & 0x7F) as int as real;
    SensorData(battery, temperature, humidity)
  }

  /** A gauge slot: not registered, or registered holding the last value
      written to it (None until the first write). */
  datatype Gauge = Unregistered | Registered(last: Option<real>)

  /** The three process-wide gauges the scan loop writes. */
  datatype Gauges = Gauges(battery: Gauge, temperature: Gauge, humidity: Gauge)

  /** Writes a value to a gauge if it is registered; an unregistered gauge
      is left alone. */
  function SetGauge(g: Gauge, v: real): (g': Gauge)
    ensures g'.Registered? <==> g.Registered?
    ensures g'.Registered? ==> g'.last == Some(v)
  {
    match g
    case Unregistered => Unregistered
    case Registered(_) => Registered(Some(v))
  }

  /** Both states have the same gauges registered. */
  predicate SameRegistration(a: Gauges, b: Gauges)
  {
    && (a.battery.Registered? <==> b.battery.Registered?)
    && (a.temperature.Registered? <==> b.temperature.Registered?)
    && (a.humidity.Registered? <==> b.humidity.Registered?)
  }

  /** The gauges hold exactly reading d: every registered gauge carries its
      field of d. */
  predicate Shows(gs: Gauges, d: SensorData)
  {
    && (gs.battery.Registered? ==> gs.battery.last == Some(d.battery))
    && (gs.temperature.Registered? ==> gs.temperature.last == Some(d.temperature))
    && (gs.humidity.Registered? ==> gs.humidity.last == Some(d.humidity))
  }

  /** Writes one reading into the gauges. Registration is unchanged, and
      the result is fully determined by the registration and the reading:
      whatever the gauges held before is overwritten. */
  function Publish(gs: Gauges, d: SensorData): (r: Gauges)
    ensures SameRegistration(r, gs)
    ensures Shows(r, d)
  {
    Gauges(SetGauge(gs.battery, d.battery),
           SetGauge(gs.temperature, d.temperature),
           SetGauge(gs.humidity, d.humidity))
  }

  /** The last write wins: publishing over any state with the same
      registration gives the same gauges. */
  lemma PublishOverwrites(a: Gauges, b: Gauges, d: SensorData)
    requires SameRegistration(a, b)
    ensures Publish(a, d) == Publish(b, d)
  {
  }

  /** One pass of the loop body: filter the event, and on an accepted
      payload decode it and publish the reading. */
  function Step(gs: Gauges, e: Event): Gauges
  {
    match SelectPayload(e)
    case None => gs
    case Some(payload) => Publish(gs, ParseServiceData(payload))
  }

  /** The gauge state after the loop has consumed a finite stream, first
      event first. */
  function Run(gs: Gauges, events: seq<Event>): Gauges
    decreases |events|
  {
    if |events| == 0 then gs else Run(Step(gs, events[0]), events[1..])
  }

  /** The last payload in the stream that passes the filter, found by
      searching from the end. */
  function LastValidPayload(events: seq<Event>): (r: Option<seq<byte>>)
    ensures r.Some? ==> |r.value| == PAYLOAD_LENGTH
    ensures r.Some? <==> exists i :: 0 <= i < |events| && SelectPayload(events[i]).Some?
  {
    if |events| == 0 then
      None
    else
      var last := events[|events| - 1];
      match SelectPayload(last)
      case Some(payload) => Some(payload)
      case None =>
        assert forall i :: 0 <= i < |events| - 1 ==> events[..|events| - 1][i] == events[i];
        LastValidPayload(events[..|events| - 1])
  }

  /** The gauge state that a stream whose last valid payload is `last`
      leaves behind, starting from gs. */
  function Expected(gs: Gauges, last: Option<seq<byte>>): Gauges
    requires last.Some? ==> |last.value| >= PAYLOAD_LENGTH
  {
    match last
    case None => gs
    case Some(payload) => Publish(gs, ParseServiceData(payload))
  }

  /** An event the filter rejects leaves every gauge as it was. */
  lemma SkippedEventLeavesGauges(gs: Gauges, e: Event)
    requires SelectPayload(e).None?
    ensures Step(gs, e) == gs
  {
  }

  /** After an accepted payload, every registered gauge holds its field of
      that payload's decode, unregistered gauges stay unregistered, and the
      registered ones are all still written. */
  lemma AcceptedEventPublishes(gs: Gauges, e: Event)
    requires SelectPayload(e).Some?
    ensures SameRegistration(Step(gs, e), gs)
    ensures Shows(Step(gs, e), ParseServiceData(e.serviceData[SERVICE_UUID]))
  {
  }

  /** Looking for the last valid payload from the front: it is the last
      valid payload of the tail, or the head's when the tail has none. */
  lemma {:induction false} LastValidPayloadCons(events: seq<Event>)
    requires |events| > 0
    ensures LastValidPayload(events) ==
              match LastValidPayload(events[1..])
              case Some(p) => Some(p)
              case None => SelectPayload(events[0])
    decreases |events|
  {
    var n := |events| - 1;
    if n > 0 {
      var init := events[..n];
      assert init[1..] == events[1..][..n - 1];
      assert events[1..][n - 1] == events[n];
      if SelectPayload(events[n]).None? {
        LastValidPayloadCons(init);
        assert init[0] == events[0];
      }
    } else {
      assert events[1..] == [];
    }
  }

  /** The loop's final gauge state is the decode of the last valid payload
      published over the initial state, or the initial state untouched when
      no event passed the filter. */
  lemma {:induction false} RunPublishesLastValid(gs: Gauges, events: seq<Event>)
    ensures Run(gs, events) == Expected(gs, LastValidPayload(events))
    decreases |events|
  {
    if |events| > 0 {
      var gs' := Step(gs, events[0]);
      RunPublishesLastValid(gs', events[1..]);
      LastValidPayloadCons(events);
      if LastValidPayload(events[1..]).Some? {
        PublishOverwrites(gs', gs, ParseServiceData(LastValidPayload(events[1..]).value));
      }
    }
  }

  /** The loop never registers or unregisters a gauge. */
  lemma {:induction false} RunKeepsRegistration(gs: Gauges, events: seq<Event>)
    ensures SameRegistration(Run(gs, events), gs)
    decreases |events|
  {
    if |events| > 0 {
      RunKeepsRegistration(Step(gs, events[0]), events[1..]);
    }
  }

  /** Consuming a stream in two pieces is consuming it at once. */
  lemma {:induction false} RunAppend(gs: Gauges, a: seq<Event>, b: seq<Event>)
    ensures Run(gs, a + b) == Run(Run(gs, a), b)
    decreases |a|
  {
    if |a| > 0 {
      assert (a + b)[0] == a[0];
      assert (a + b)[1..] == a[1..] + b;
      RunAppend(Step(gs, a[0]), a[1..], b);
    } else {
      assert a + b == b;
    }
  }

  /** The scan loop over a finite stream: consumes the events one at a
      time, skipping rejected ones and publishing accepted ones. The final
      gauges show the last valid payload's reading, or are the initial
      gauges when there was none. */
  method ScanLoop(gs: Gauges, events: seq<Event>) returns (r: Gauges)
    ensures r == Run(gs, events)
    ensures SameRegistration(r, gs)
    ensures LastValidPayload(events).None? ==> r == gs
    ensures LastValidPayload(events).Some? ==>
              Shows(r, ParseServiceData(LastValidPayload(events).value))
  {
    r := gs;
    var i := 0;
    while i < |events|
      invariant 0 <= i <= |events|
      invariant Run(r, events[i..]) == Run(gs, events)
      invariant SameRegistration(r, gs)
    {
      var e := events[i];
      assert events[i..][1..] == events[i + 1..];
      match SelectPayload(e) {
        case None =>
        case Some(payload) =>
          var reading := ParseServiceData(payload);
          r := Publish(r, reading);
      }
      i := i + 1;
    }
    assert events[i..] == [];
    RunPublishesLastValid(gs, events);
  }
}
