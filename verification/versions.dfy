/**
 The two versions of the exporter side by side: the later decoder returns
 the same numbers as the earlier one, only as floats, and the gauges the
 later loop leaves behind show the last reading the earlier loop prints.
 */
module Versions {

  import opened Wrappers
  import opened Layout
  import opened Advertisement
  import MainProgram
  import Scan

  /** Converts an earlier reading to the later record type: each unsigned
      byte becomes the number it denotes, the temperature is kept. */
  function Widen(m: MainProgram.Metrics): Scan.SensorData
  {
    Scan.SensorData(m.battery as int as real, m.temperature, m.humidity as int as real)
  }

  /** Both decoders give the same numeric values on every payload of at
      least six bytes. */
  lemma DecodersAgree(data: seq<byte>)
    requires |data| >= PAYLOAD_LENGTH
    ensures Scan.ParseServiceData(data) == Widen(MainProgram.ParseServiceData(data))
  {
  }

  /** The last valid payload is the last of the accepted payloads, and
      there is one exactly when some payload was accepted. */
  lemma {:induction false} LastValidIsLastAccepted(events: seq<Event>)
    ensures var ps := MainProgram.AcceptedPayloads(events);
            Scan.LastValidPayload(events) == if |ps| == 0 then None else Some(ps[|ps| - 1])
    decreases |events|
  {
    if |events| > 0 {
      LastValidIsLastAccepted(events[..|events| - 1]);
    }
  }

  /** The gauges after the later loop are the initial gauges when the
      earlier loop prints nothing, and otherwise show the last reading it
      prints. */
  lemma RunShowsLastPrinted(gs: Scan.Gauges, events: seq<Event>)
    ensures var out := MainProgram.Printed(events);
            Scan.Run(gs, events) ==
              if |out| == 0 then gs else Scan.Publish(gs, Widen(out[|out| - 1]))
  {
    Scan.RunPublishesLastValid(gs, events);
    LastValidIsLastAccepted(events);
    MainProgram.PrintedDecodesAccepted(events);
    var ps := MainProgram.AcceptedPayloads(events);
    if |ps| > 0 {
      DecodersAgree(ps[|ps| - 1]);
    }
  }
}
