/**
 The advertisement events the BLE transport delivers, and the filter both
 versions of the exporter apply to each event before decoding: the event
 must be a service-data advertisement, its map must hold the SwitchBot
 service UUID, and the payload under that key must be exactly six bytes.
 Every other event is skipped silently.
 */
module Advertisement {

  import opened Wrappers
  import opened Layout

  /** A 128-bit service UUID, as its numeric value. */
  newtype Uuid = x: int | 0 <= x < 0x1_0000_0000_0000_0000_0000_0000_0000_0000

  /** The transport's identifier of the peripheral that sent an event. */
  type PeripheralId = string

  /** The SwitchBot service UUID 0000fd3d-0000-1000-8000-00805f9b34fb,
      fixed once and the only key the filter looks up. */
  const SERVICE_UUID: Uuid := 0x0000fd3d_0000_1000_8000_00805f9b34fb

  /** The kinds of event the BLE central reports. */
  datatype Event =
    | DeviceDiscovered(id: PeripheralId)
    | DeviceUpdated(id: PeripheralId)
    | DeviceConnected(id: PeripheralId)
    | DeviceDisconnected(id: PeripheralId)
    | ManufacturerDataAdvertisement(id: PeripheralId, manufacturerData: map<int, seq<byte>>)
    | ServiceDataAdvertisement(id: PeripheralId, serviceData: map<Uuid, seq<byte>>)
    | ServicesAdvertisement(id: PeripheralId, services: seq<Uuid>)

  /** The payload an event hands to the decoder, or None when the event is
      skipped. A selected payload is always exactly six bytes long, which is
      what the decoder's indexing needs. */
  function SelectPayload(e: Event): (r: Option<seq<byte>>)
    ensures r.Some? ==> |r.value| == PAYLOAD_LENGTH
    ensures r.Some? <==>
              && e.ServiceDataAdvertisement?
              && SERVICE_UUID in e.serviceData
              && |e.serviceData[SERVICE_UUID]| == PAYLOAD_LENGTH
    ensures r.Some? ==> r.value == e.serviceData[SERVICE_UUID]
  {
    match e
    case ServiceDataAdvertisement(_, serviceData) =>
      if SERVICE_UUID in serviceData then
        var payload := serviceData[SERVICE_UUID];
        if |payload| != PAYLOAD_LENGTH then None else Some(payload)
      else
        None
    case _ => None
  }

  /** Only the entry under the SwitchBot UUID is consulted: two service-data
      events that agree on that entry select the same payload, whatever
      other services and peripherals they carry. */
  lemma SelectConsultsOnlyServiceKey(e1: Event, e2: Event)
    requires e1.ServiceDataAdvertisement? && e2.ServiceDataAdvertisement?
    requires SERVICE_UUID in e1.serviceData <==> SERVICE_UUID in e2.serviceData
    requires SERVICE_UUID in e1.serviceData ==>
               e1.serviceData[SERVICE_UUID] == e2.serviceData[SERVICE_UUID]
    ensures SelectPayload(e1) == SelectPayload(e2)
  {
  }

  /** A six-byte payload under any other key, or in manufacturer data, is
      not selected. */
  lemma ForeignPayloadsSkipped(id: PeripheralId, key: Uuid, key2: int, payload: seq<byte>)
    requires key != SERVICE_UUID
    ensures SelectPayload(ServiceDataAdvertisement(id, map[key := payload])).None?
    ensures SelectPayload(ManufacturerDataAdvertisement(id, map[key2 := payload])).None?
  {
  }
}
