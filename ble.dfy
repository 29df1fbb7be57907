// The wireless stack as the driver sees it: an oracle that answers whether
// the link comes up, which services and characteristics the peripheral offers,
// and whether each characteristic can notify.

module Ble {

  datatype Option<+T> = None | Some(value: T)

  /** A 128-bit service or characteristic identifier, in its textual form. */
  type Uuid = string

  /** A device found by the scanner: its advertised name and link-layer address. */
  datatype DiscoveredDevice = DiscoveredDevice(name: string, address: string)

  /** A characteristic handle obtained from a service. */
  datatype RemoteCharacteristic = RemoteCharacteristic(uuid: Uuid, canNotify: bool)

  /** A service handle: its identifier and, per characteristic identifier, whether it can notify. */
  datatype RemoteService = RemoteService(uuid: Uuid, characteristics: map<Uuid, bool>)

  /** What the peripheral does when the driver connects: whether the link comes
      up, and the services it offers (service id -> characteristic id -> can notify). */
  datatype Peripheral = Peripheral(acceptsConnection: bool, services: map<Uuid, map<Uuid, bool>>)

  /** The service lookup of the client; None stands for a null handle. */
  function GetService(p: Peripheral, id: Uuid): (r: Option<RemoteService>)
    ensures r.Some? <==> id in p.services
    ensures r.Some? ==> r.value.uuid == id
  {
    if id in p.services then Some(RemoteService(id, p.services[id])) else None
  }

  /** The characteristic lookup of a service; None stands for a null handle. */
  function GetCharacteristic(s: RemoteService, id: Uuid): (r: Option<RemoteCharacteristic>)
    ensures r.Some? <==> id in s.characteristics
    ensures r.Some? ==> r.value.uuid == id
  {
    if id in s.characteristics then Some(RemoteCharacteristic(id, s.characteristics[id])) else None
  }
}
