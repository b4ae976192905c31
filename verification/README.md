# SwitchBot TH advertisement decoder, in Dafny

This project models the core of a Prometheus exporter for SwitchBot TH
(thermometer/hygrometer) sensors. The sensor broadcasts a 6-byte service-data
payload in its BLE advertisements, under the service UUID
`0000fd3d-0000-1000-8000-00805f9b34fb`. The exporter keeps only those
advertisements and decodes the packed bit fields into battery percentage,
temperature and relative humidity. The repository holds two versions of the
program:

- `src/main.rs`, the earlier version. Its decoder returns battery and
  humidity as bytes, and its loop prints each reading.
- `src/scan.rs`, the later version. Its decoder returns every field as a
  float, and its loop writes each reading into three process-wide gauges.
  A gauge is written only if it has been registered.

Modules:

- `Layout` (`layout.dfy`): the payload layout as plain arithmetic on byte
  values. This is the reference the decoders are proved against. `Encode` is
  its inverse: it builds a canonical payload for a given reading.
- `Advertisement` (`advertisement.dfy`): the BLE central's events, the
  service UUID, and the three-guard filter shared by both loops.
- `MainProgram` (`main_program.dfy`): the earlier decoder, and the sequence
  of readings its loop prints.
- `Scan` (`scan.dfy`): the later decoder, the gauges, the loop body as a
  step over gauge state, its fold over a finite event stream, and a `ScanLoop`
  method with loop invariants.
- `Versions` (`versions.dfy`): the two versions compared.
- `Wrappers` (`wrappers.dfy`): `Option`.

Bytes are `bv8`, so the decoders apply the same masks as the Rust code.
Temperatures are exact `real`s computed by the same formula,
`nibble * 0.1 + whole`. The event stream is a finite `seq` of events, which
stands for a stream that eventually ends.

## Model

| member | source | states |
|---|---|---|
| Layout.Encode | src/main.rs:58-67 | For every battery and humidity in 0..127 and every temperature within ±127.9 degrees, builds a six-byte payload whose fields are those values: battery and humidity in the low seven bits with bit 7 clear, the tenths digit 0..9 in the low nibble of byte 3, and the sign bit set exactly for temperatures of zero and above |
| Layout.MaskedFields | src/scan.rs:61-69 | The masks `& 0x7F`, `& 0x0F` and the `& 0x80 > 0` test compute the low seven bits, the low nibble and bit 7. The temperature formula equals the signed tenths over ten, is ≥ 0 when bit 7 of byte 4 is set and ≤ 0 when it is clear, and lies in [-128.5, 128.5] |
| Advertisement.SelectPayload | src/main.rs:25-32 | An event yields a payload exactly when all three hold: it is a service-data advertisement, its map has the SwitchBot UUID, and the value under that UUID has length exactly 6. The payload is that value, so the decoder is always called with enough bytes |
| Advertisement.SelectConsultsOnlyServiceKey | src/scan.rs:34-37 | Two service-data events that agree on the entry under the fixed UUID select the same payload, whatever other keys and peripheral ids they carry |
| Advertisement.ForeignPayloadsSkipped | src/main.rs:25-29 | A six-byte payload under any other UUID, or in a manufacturer-data advertisement, is skipped |
| MainProgram.ParseServiceData | src/main.rs:58-74 | For every payload of at least six bytes: battery and humidity are the low seven bits of bytes 2 and 5, so 0..127 and unclamped above 100. Ten times the temperature is the signed tenths. The temperature is ≥ 0 when bit 7 of byte 4 is set and ≤ 0 when it is clear, and lies in [-128.5, 128.5] |
| MainProgram.SameMetricsIff | src/main.rs:58-67 | Two payloads decode to the same reading if and only if their battery bits, signed temperature and humidity bits agree. So bytes 0-1 and the unused bits never affect a field |
| MainProgram.OnlyFieldBitsMatter | src/main.rs:59-67 | Payloads that agree on `b2 & 0x7F`, `b3 & 0x0F`, `b4` and `b5 & 0x7F` decode alike |
| MainProgram.DecodeEncode | src/main.rs:58-74 | Decoding `Encode(battery, tenths, humidity)` gives back battery, tenths/10 and humidity, for every canonical reading |
| MainProgram.WorkedExample | src/main.rs:58-74 | `[_, _, 0x32, 0x03, 0x98, 0x28]` decodes to battery 50, temperature 24.3, humidity 40 |
| MainProgram.TenthsNibbleAliasing | src/main.rs:61 | Because the tenths nibble can reach 15, `0x0A/0x80` and `0x00/0x81` both decode to 1.0 degree, and magnitudes up to 128.5 are reachable in both signs |
| MainProgram.Printed | src/main.rs:24-44 | The loop prints at most one reading per event. When the first event passes the filter, the first printed reading is that payload's decode |
| MainProgram.PrintedDecodesAccepted | src/main.rs:24-41 | The printed readings are, one for one and in order, the decodes of the payloads that pass the filter |
| MainProgram.PrintedAppend | src/main.rs:24-44 | Consuming a stream in two pieces prints the concatenation of what each piece prints |
| MainProgram.SkippedEventPrintsNothing | src/main.rs:25-32 | An event the filter rejects adds no reading to the output |
| Scan.ParseServiceData | src/scan.rs:60-76 | Battery and humidity are the low seven bits of bytes 2 and 5 as numbers. Ten times the temperature is the signed tenths. The sign follows bit 7 of byte 4, and the temperature lies in [-128.5, 128.5] |
| Scan.SetGauge | src/scan.rs:43-51 | Writing to a gauge leaves its registration as it was. A registered gauge then holds the written value |
| Scan.Publish | src/scan.rs:41-51 | Publishing a reading leaves every gauge's registration unchanged. Every registered gauge then holds its field of the reading, and an unregistered gauge does not stop the others from being written |
| Scan.PublishOverwrites | src/scan.rs:43-51 | The last write wins: publishing a reading over two states with the same registration gives the same gauges |
| Scan.SkippedEventLeavesGauges | src/scan.rs:36-40 | An event that is not service data, lacks the UUID, or carries a payload whose length is not 6 leaves every gauge unchanged |
| Scan.AcceptedEventPublishes | src/scan.rs:41-51 | After an accepted event, registration is unchanged and every registered gauge holds its field of the decoded payload |
| Scan.RunPublishesLastValid | src/scan.rs:35-54 | After a finite stream, the gauges are the initial gauges if no payload passed the filter. Otherwise they are the initial gauges with the last valid payload's decode published |
| Scan.RunKeepsRegistration | src/scan.rs:43-51 | The loop never registers or unregisters a gauge |
| Scan.RunAppend | src/scan.rs:35-54 | Consuming a stream in two pieces leaves the same gauges as consuming it at once |
| Scan.ScanLoop | src/scan.rs:34-57 | The imperative loop computes the fold and keeps registration. With no valid payload it leaves the gauges untouched. Otherwise the registered gauges show the decode of the last valid payload |
| Versions.DecodersAgree | src/scan.rs:60-76 | The later decoder returns the same numbers as the decoder of src/main.rs (lines 58-74) on every payload of at least six bytes. Only the field types differ |
| Versions.LastValidIsLastAccepted | src/scan.rs:35-40 | The last valid payload found by searching back from the end is the last payload the filter accepts. It exists exactly when some payload is accepted |
| Versions.RunShowsLastPrinted | src/scan.rs:35-54 | The later loop leaves the gauges untouched exactly when the earlier loop prints nothing. Otherwise it publishes the last reading the earlier loop prints |

## Left out

- BLE transport: `Manager::new`, adapter lookup (including the "No Bluetooth adapter found" error), `events()`, `start_scan` and `stop_scan`. These are foreign calls. The event stream is a given finite sequence, and the loop's exit when the stream ends is the end of that sequence.
- The tokio runtime and the `await` on the stream. These are scheduling, not logic.
- `println!`, `chrono::Local::now()` and `info!`. They have no effect on the readings. `MainProgram.Printed` keeps only the readings printed, not the timestamps or the raw service-data dump printed for every service-data event.
- `Uuid::from_str`: the UUID is the constant 128-bit value. In src/main.rs the parse happens inside the loop and could in principle return an error through `?`. It never does for this constant string, so that exit is not modelled.
- The `BATTERY`, `TEMPERATURE` and `HUMIDITY` statics are defined in a file that is not part of this model. Each is modelled as a slot that is either unregistered or registered, with the last value written (`None` before the first write). The Prometheus gauge type is not modelled: a real gauge starts at 0.0 rather than "unset".
- IEEE-754 behaviour: the rounding of `* 0.1` and the `-0.0` that a negative-flagged zero produces. Temperatures are exact reals, so `-0.0` and `0.0` are the same value.
- Vapor-pressure deficit, discomfort index and a single atomic snapshot record. They do not appear in the modelled code. The later version writes three independent gauges one after another, and the model follows that code.
- Decoder precondition: the code reads up to byte 5, so the model requires a length of at least 6 rather than exactly 6. Both call sites pass exactly 6.
