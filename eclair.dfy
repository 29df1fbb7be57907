// The Eclair scale driver (src/scales/eclair.cpp): connection handshake,
// notification routing and decoding, the tare command and the keep-alive.

module Eclair {
  import opened Ble
  import opened EclairMessages
  import opened EclairFrames

  const SERVICE_UUID: Uuid := "B905EAEA-2E63-0E04-7582-7913F10D8F81"
  const DATA_CHAR_UUID: Uuid := "AD736C5F-BBC9-1F96-D304-CB5D5F41E160"
  const CONFIG_CHAR_UUID: Uuid := "4F9A45BA-8E1B-4E07-E157-0814D393B968"

  // ---------------------------------------------------------------------------
  // Keep-alive timing
  // ---------------------------------------------------------------------------

  /** `uint32_t`, the type of `millis()` and of the keep-alive timestamp. */
  type Uint32 = x: int | 0 <= x < 0x1_0000_0000

  /** `uint32_t` subtraction, which wraps around modulo 2^32. */
  function Sub32(a: Uint32, b: Uint32): Uint32
  {
    (a - b) % 0x1_0000_0000
  }

  /** Milliseconds between two keep-alive messages. */
  const HEARTBEAT_INTERVAL: Uint32 := 2000

  /** The keep-alive frame: timer-status tag, value 0x00, checksum 0x00. */
  const HEARTBEAT_FRAME: seq<bv8> := [0x43, 0x00, 0x00]

  /** The driver's test `now - lastHeartbeat < 2000`, negated. */
  predicate HeartbeatDue(now: Uint32, last: Uint32)
  {
    !(Sub32(now, last) < HEARTBEAT_INTERVAL)
  }

  /** On a clock that wraps around, the wrapped difference of two readings is
      the true time between them, as long as less than 2^32 ms have passed. */
  lemma WrappedDifferenceIsElapsedTime(tLast: int, tNow: int)
    requires 0 <= tLast <= tNow < tLast + 0x1_0000_0000
    ensures Sub32(tNow % 0x1_0000_0000, tLast % 0x1_0000_0000) == tNow - tLast
    ensures HeartbeatDue(tNow % 0x1_0000_0000, tLast % 0x1_0000_0000) <==> tNow - tLast >= 2000
  {
    var q1, q2 := tLast / 0x1_0000_0000, tNow / 0x1_0000_0000;
    assert tLast == q1 * 0x1_0000_0000 + tLast % 0x1_0000_0000;
    assert tNow == q2 * 0x1_0000_0000 + tNow % 0x1_0000_0000;
    var d := tNow % 0x1_0000_0000 - tLast % 0x1_0000_0000;
    assert d == tNow - tLast - (q2 - q1) * 0x1_0000_0000;
    assert q2 == q1 || q2 == q1 + 1;
  }

  /** The times at which a connected driver sends a keep-alive when `update`
      is called at each of `calls` in turn, the last one having been sent at `last`. */
  function HeartbeatsSent(last: Uint32, calls: seq<Uint32>): seq<Uint32>
    decreases |calls|
  {
    if |calls| == 0 then []
    else if HeartbeatDue(calls[0], last) then [calls[0]] + HeartbeatsSent(calls[0], calls[1..])
    else HeartbeatsSent(last, calls[1..])
  }

  /** The timestamp of the last keep-alive once `update` has been called at
      each of `calls` in turn, starting from `last`. */
  function LastHeartbeat(last: Uint32, calls: seq<Uint32>): Uint32
    decreases |calls|
  {
    if |calls| == 0 then last
    else if HeartbeatDue(calls[0], last) then LastHeartbeat(calls[0], calls[1..])
    else LastHeartbeat(last, calls[1..])
  }

  /** The timestamp after a run of calls is the time of the last keep-alive
      sent, or the starting one if none was sent. */
  lemma {:induction false} LastHeartbeatIsLastSent(last: Uint32, calls: seq<Uint32>)
    ensures |HeartbeatsSent(last, calls)| == 0 ==> LastHeartbeat(last, calls) == last
    ensures |HeartbeatsSent(last, calls)| > 0 ==>
              LastHeartbeat(last, calls) == HeartbeatsSent(last, calls)[|HeartbeatsSent(last, calls)| - 1]
    decreases |calls|
  {
    if |calls| > 0 {
      if HeartbeatDue(calls[0], last) {
        LastHeartbeatIsLastSent(calls[0], calls[1..]);
      } else {
        LastHeartbeatIsLastSent(last, calls[1..]);
      }
    }
  }

  /** `n` keep-alive frames, as written to the config characteristic. */
  function KeepAlives(n: nat): (r: seq<seq<bv8>>)
    ensures |r| == n
    ensures forall k :: 0 <= k < n ==> r[k] == HEARTBEAT_FRAME
  {
    if n == 0 then [] else [HEARTBEAT_FRAME] + KeepAlives(n - 1)
  }

  /** Keep-alives go out only at call times, each one a full interval after the previous one. */
  lemma {:induction false} HeartbeatsSpaced(last: Uint32, calls: seq<Uint32>)
    ensures forall k :: 0 <= k < |HeartbeatsSent(last, calls)| ==> HeartbeatsSent(last, calls)[k] in calls
    ensures |HeartbeatsSent(last, calls)| > 0 ==> HeartbeatDue(HeartbeatsSent(last, calls)[0], last)
    ensures forall k :: 0 <= k < |HeartbeatsSent(last, calls)| - 1 ==>
              HeartbeatDue(HeartbeatsSent(last, calls)[k + 1], HeartbeatsSent(last, calls)[k])
    decreases |calls|
  {
    if |calls| > 0 {
      var rest := calls[1..];
      if HeartbeatDue(calls[0], last) {
        HeartbeatsSpaced(calls[0], rest);
        var tail := HeartbeatsSent(calls[0], rest);
        assert HeartbeatsSent(last, calls) == [calls[0]] + tail;
        forall k | 0 <= k < |tail| ensures tail[k] in calls {
          assert tail[k] in rest;
        }
      } else {
        HeartbeatsSpaced(last, rest);
        var sent := HeartbeatsSent(last, rest);
        forall k | 0 <= k < |sent| ensures sent[k] in calls {
          assert sent[k] in rest;
        }
      }
    }
  }

  /** Two calls less than an interval apart send at most one keep-alive. */
  lemma {:induction false} AtMostOneHeartbeatPerInterval(last: Uint32, t1: Uint32, t2: Uint32)
    requires !HeartbeatDue(t2, t1)
    ensures |HeartbeatsSent(last, [t1, t2])| <= 1
  {
    assert [t1, t2][1..] == [t2];
    assert [t2][1..] == [];
    assert HeartbeatsSent(t1, [t2]) == [];
    assert |HeartbeatsSent(last, [t2])| <= 1;
  }

  /** A call a full interval after a keep-alive sends the next one. */
  lemma {:induction false} NextHeartbeatAfterInterval(last: Uint32, t1: Uint32, t2: Uint32)
    requires HeartbeatDue(t1, last) && HeartbeatDue(t2, t1)
    ensures HeartbeatsSent(last, [t1, t2]) == [t1, t2]
  {
    assert [t1, t2][1..] == [t2];
    assert [t2][1..] == [];
    assert HeartbeatsSent(t1, [t2]) == [t2];
  }

  /** Across the wrap-around of the clock: 0x800 ms have passed, 0x200 ms have not sufficed. */
  lemma HeartbeatAcrossWrapAround()
    ensures Sub32(0x0000_0500, 0xFFFF_FD00) == 0x800 && HeartbeatDue(0x0000_0500, 0xFFFF_FD00)
    ensures Sub32(0x0000_0100, 0xFFFF_FF00) == 0x200 && !HeartbeatDue(0x0000_0100, 0xFFFF_FF00)
  {
  }

  // ---------------------------------------------------------------------------
  // Handshake
  // ---------------------------------------------------------------------------

  /** The identifiers of a characteristic the driver subscribes to: itself if it can notify. */
  function Subscribable(c: RemoteCharacteristic): set<Uuid>
  {
    if c.canNotify then {c.uuid} else {}
  }

  /** The link comes up, and the service and both characteristics are found. */
  predicate ConnectSucceeds(p: Peripheral)
  {
    && p.acceptsConnection
    && SERVICE_UUID in p.services
    && DATA_CHAR_UUID in p.services[SERVICE_UUID]
    && CONFIG_CHAR_UUID in p.services[SERVICE_UUID]
  }

  // ---------------------------------------------------------------------------
  // The driver
  // ---------------------------------------------------------------------------

  class EclairScales {
    const device: DiscoveredDevice
    /** The header byte of the tare command. */
    const tareTag: TareTag

    /** Whether the client's link is up (`clientIsConnected`). */
    var linked: bool
    var service: Option<RemoteService>
    var dataCharacteristic: Option<RemoteCharacteristic>
    var configCharacteristic: Option<RemoteCharacteristic>
    /** Characteristics whose notifications are delivered to `NotifyCallback`. */
    var subscriptions: set<Uuid>
    /** The last weight, as the raw signed milligram count. */
    var rawWeight: Int32
    var battery: bv8
    var lastHeartbeat: Uint32
    /** Every frame written to the config characteristic, oldest first. */
    var configWrites: seq<seq<bv8>>

    /** Handles are looked up by identifier and stay those of the lookup. */
    ghost predicate HandlesWellFormed()
      reads this`dataCharacteristic, this`configCharacteristic
    {
      && (dataCharacteristic.Some? ==> dataCharacteristic.value.uuid == DATA_CHAR_UUID)
      && (configCharacteristic.Some? ==> configCharacteristic.value.uuid == CONFIG_CHAR_UUID)
    }

    /** A live link always has the service and both characteristics, and only
        a live link has subscriptions. */
    ghost predicate Valid()
      reads this`linked, this`service, this`dataCharacteristic, this`configCharacteristic, this`subscriptions
    {
      && HandlesWellFormed()
      && (linked ==> service.Some? && dataCharacteristic.Some? && configCharacteristic.Some?)
      && (!linked ==> subscriptions == {})
      && subscriptions <= {DATA_CHAR_UUID, CONFIG_CHAR_UUID}
    }

    /** The weight in grams. */
    function WeightGrams(): real
      reads this`rawWeight
    {
      Grams(rawWeight)
    }

    function IsConnected(): bool
      reads this`linked
    {
      linked
    }

    constructor (device: DiscoveredDevice, tareTag: TareTag)
      ensures Valid()
      ensures this.device == device && this.tareTag == tareTag
      ensures service == None && dataCharacteristic == None && configCharacteristic == None
      ensures !linked && subscriptions == {} && configWrites == []
      ensures rawWeight == 0 && battery == 0 && lastHeartbeat == 0
    {
      this.device := device;
      this.tareTag := tareTag;
      linked := false;
      service := None;
      dataCharacteristic := None;
      configCharacteristic := None;
      subscriptions := {};
      rawWeight := 0;
      battery := 0;
      lastHeartbeat := 0;
      configWrites := [];
    }

    // ---- client effects (the wireless stack) ----

    method ClientConnect(p: Peripheral) returns (ok: bool)
      modifies this`linked
      ensures ok == p.acceptsConnection && linked == ok
    {
      linked := p.acceptsConnection;
      ok := linked;
    }

    method ClientCleanup()
      modifies this`linked, this`subscriptions
      ensures !linked && subscriptions == {}
    {
      linked := false;
      subscriptions := {};
    }

    // ---- connection ----

    method Connect(p: Peripheral, now: Uint32) returns (ok: bool)
      requires Valid()
      modifies this`linked, this`service, this`dataCharacteristic, this`configCharacteristic,
               this`subscriptions, this`rawWeight, this`lastHeartbeat
      ensures Valid()
      // already connected: nothing changes
      ensures old(linked) ==> ok && unchanged(this)
      // otherwise the outcome is decided by the peripheral, and failure leaves the link down
      ensures !old(linked) ==> (ok <==> ConnectSucceeds(p))
      ensures !ok ==> !linked && subscriptions == {}
      ensures !old(linked) && !p.acceptsConnection ==>
                service == old(service) && dataCharacteristic == old(dataCharacteristic)
                && configCharacteristic == old(configCharacteristic)
      ensures !old(linked) && p.acceptsConnection ==> service == GetService(p, SERVICE_UUID)
      ensures !old(linked) && p.acceptsConnection && service.Some? ==>
                dataCharacteristic == GetCharacteristic(service.value, DATA_CHAR_UUID)
                && configCharacteristic == GetCharacteristic(service.value, CONFIG_CHAR_UUID)
      ensures !old(linked) && p.acceptsConnection && service.None? ==>
                dataCharacteristic == old(dataCharacteristic) && configCharacteristic == old(configCharacteristic)
      ensures !ok ==> rawWeight == old(rawWeight) && lastHeartbeat == old(lastHeartbeat)
      // success: subscribed where notification is supported, weight reset, keep-alive clock started
      ensures !old(linked) && ok ==>
                linked
                && subscriptions == Subscribable(dataCharacteristic.value) + Subscribable(configCharacteristic.value)
                && rawWeight == 0 && lastHeartbeat == now
    {
      if IsConnected() {
        return true;
      }
      var result := ClientConnect(p);
      if !result {
        ClientCleanup();
        return false;
      }
      var handshake := PerformConnectionHandshake(p);
      if !handshake {
        return false;
      }
      SubscribeToNotifications();
      rawWeight := 0;
      lastHeartbeat := now;
      return true;
    }

    method Disconnect()
      requires Valid()
      modifies this`linked, this`subscriptions
      ensures Valid()
      ensures !linked && subscriptions == {}
    {
      ClientCleanup();
    }

    method PerformConnectionHandshake(p: Peripheral) returns (ok: bool)
      requires linked && subscriptions == {} && HandlesWellFormed()
      modifies this`service, this`dataCharacteristic, this`configCharacteristic, this`linked, this`subscriptions
      ensures HandlesWellFormed() && subscriptions == {}
      ensures service == GetService(p, SERVICE_UUID)
      ensures service.Some? ==>
                dataCharacteristic == GetCharacteristic(service.value, DATA_CHAR_UUID)
                && configCharacteristic == GetCharacteristic(service.value, CONFIG_CHAR_UUID)
      ensures service.None? ==>
                dataCharacteristic == old(dataCharacteristic) && configCharacteristic == old(configCharacteristic)
      ensures ok <==> service.Some? && dataCharacteristic.Some? && configCharacteristic.Some?
      ensures linked == ok
    {
      service := GetService(p, SERVICE_UUID);
      if service == None {
        ClientCleanup();
        return false;
      }
      dataCharacteristic := GetCharacteristic(service.value, DATA_CHAR_UUID);
      configCharacteristic := GetCharacteristic(service.value, CONFIG_CHAR_UUID);
      if dataCharacteristic == None || configCharacteristic == None {
        ClientCleanup();
        return false;
      }
      return true;
    }

    method SubscribeToNotifications()
      requires dataCharacteristic.Some? && configCharacteristic.Some?
      modifies this`subscriptions
      ensures subscriptions == old(subscriptions) + Subscribable(dataCharacteristic.value)
                               + Subscribable(configCharacteristic.value)
    {
      if dataCharacteristic.value.canNotify {
        subscriptions := subscriptions + {dataCharacteristic.value.uuid};
      }
      if configCharacteristic.value.canNotify {
        subscriptions := subscriptions + {configCharacteristic.value.uuid};
      }
    }

    // ---- outgoing commands ----

    method CalculateXor(data: array<bv8>, from: nat, length: nat) returns (result: bv8)
      requires from + length <= data.Length
      ensures result == XorOf(data[from..from + length])
    {
      result := 0;
      var i := 0;
      while i < length
        invariant 0 <= i <= length
        invariant result == XorOf(data[from..from + i])
      {
        assert data[from..from + i + 1][..i] == data[from..from + i];
        result := result ^ data[from + i];
        i := i + 1;
      }
    }

    method SendMessage(msgType: MessageType, data: array<bv8>)
      requires configCharacteristic.Some?
      modifies this`configWrites
      ensures configWrites == old(configWrites) + [EncodeFrame(TagByte(msgType), data[..])]
    {
      var totalLength := 1 + data.Length + 1;
      var bytes := new bv8[totalLength];
      bytes[0] := TagByte(msgType);
      forall i | 0 <= i < data.Length {
        bytes[1 + i] := data[i];
      }
      var checksum := CalculateXor(bytes, 1, data.Length);
      bytes[totalLength - 1] := checksum;
      assert bytes[1..totalLength - 1] == data[..];
      assert bytes[..] == [TagByte(msgType)] + data[..] + [XorOf(data[..])];
      configWrites := configWrites + [bytes[..]];
    }

    method Tare() returns (ok: bool)
      requires Valid()
      modifies this`configWrites
      ensures ok == linked
      ensures configWrites == if ok then old(configWrites) + [[tareTag, 0x01, 0x01]] else old(configWrites)
    {
      if !IsConnected() {
        return false;
      }
      var tareCommand := new bv8[] [tareTag, 0x01];
      var checksum := CalculateXor(tareCommand, 1, 1);
      assert tareCommand[1..2] == [0x01];
      assert XorOf([0x01]) == XorOf([]) ^ 0x01;
      var message := new bv8[] [tareCommand[0], tareCommand[1], checksum];
      assert message[..] == [tareTag as bv8, 0x01, 0x01];
      configWrites := configWrites + [message[..]];
      return true;
    }

    method SendHeartbeat(now: Uint32)
      requires Valid()
      modifies this`configWrites, this`lastHeartbeat
      ensures if old(linked) && HeartbeatDue(now, old(lastHeartbeat))
              then configWrites == old(configWrites) + [HEARTBEAT_FRAME] && lastHeartbeat == now
              else configWrites == old(configWrites) && lastHeartbeat == old(lastHeartbeat)
    {
      if !IsConnected() {
        return;
      }
      if Sub32(now, lastHeartbeat) < HEARTBEAT_INTERVAL {
        return;
      }
      var heartbeatCommand := new bv8[] [0x00];
      assert heartbeatCommand[..] == [0x00];
      SendMessage(Config, heartbeatCommand);
      HeartbeatFrameIsTimerStatus();
      lastHeartbeat := now;
    }

    method Update(now: Uint32)
      requires Valid()
      modifies this`configWrites, this`lastHeartbeat
      ensures if old(linked) && HeartbeatDue(now, old(lastHeartbeat))
              then configWrites == old(configWrites) + [HEARTBEAT_FRAME] && lastHeartbeat == now
              else configWrites == old(configWrites) && lastHeartbeat == old(lastHeartbeat)
    {
      SendHeartbeat(now);
    }

    /** The host's polling loop: while the driver is connected, `update` is
        called once per pass, here at each time of `calls` in turn. */
    method RunUpdates(calls: seq<Uint32>)
      requires Valid()
      modifies this`configWrites, this`lastHeartbeat
      ensures linked ==> configWrites == old(configWrites) + KeepAlives(|HeartbeatsSent(old(lastHeartbeat), calls)|)
      ensures linked ==> lastHeartbeat == LastHeartbeat(old(lastHeartbeat), calls)
      ensures !linked ==> configWrites == old(configWrites) && lastHeartbeat == old(lastHeartbeat)
    {
      var i := 0;
      while i < |calls|
        invariant 0 <= i <= |calls|
        invariant Valid()
        invariant linked ==> configWrites + KeepAlives(|HeartbeatsSent(lastHeartbeat, calls[i..])|)
                             == old(configWrites) + KeepAlives(|HeartbeatsSent(old(lastHeartbeat), calls)|)
        invariant linked ==> LastHeartbeat(lastHeartbeat, calls[i..]) == LastHeartbeat(old(lastHeartbeat), calls)
        invariant !linked ==> configWrites == old(configWrites) && lastHeartbeat == old(lastHeartbeat)
      {
        assert calls[i..][0] == calls[i] && calls[i..][1..] == calls[i + 1..];
        if IsConnected() {
          Update(calls[i]);
        }
        i := i + 1;
      }
      assert calls[i..] == [];
    }

    // ---- incoming notifications ----

    method NotifyCallback(characteristic: Uuid, data: array<bv8>)
      modifies this`rawWeight, this`battery
      ensures characteristic == DATA_CHAR_UUID ==>
                rawWeight == WeightAfterData(data[..], old(rawWeight)) && battery == old(battery)
      ensures characteristic == CONFIG_CHAR_UUID ==>
                battery == BatteryAfterConfig(data[..], old(battery)) && rawWeight == old(rawWeight)
      ensures characteristic != DATA_CHAR_UUID && characteristic != CONFIG_CHAR_UUID ==>
                rawWeight == old(rawWeight) && battery == old(battery)
    {
      if characteristic == DATA_CHAR_UUID {
        var _ := HandleDataNotification(data);
      } else if characteristic == CONFIG_CHAR_UUID {
        var _ := HandleConfigNotification(data);
      }
    }

    method HandleDataNotification(data: array<bv8>) returns (notice: DataNotice)
      modifies this`rawWeight
      ensures notice == DecodeData(data[..])
      ensures rawWeight == WeightAfterData(data[..], old(rawWeight))
    {
      var length := data.Length;
      if length < DATA_MIN_LENGTH {
        return DataTooShort;
      }
      var header := data[0];
      var checksum := data[length - 1];
      var calculatedChecksum := CalculateXor(data, 1, length - 2);
      if calculatedChecksum != checksum {
        return DataBadChecksum(calculatedChecksum, checksum);
      }
      if header == TagByte(Weight) {
        var raw := Int32LE(data[1..5]);
        rawWeight := raw;
        notice := WeightUpdate(raw);
      } else if header == TagByte(Flow) {
        notice := FlowRateData;
      } else {
        notice := UnknownDataHeader(header);
      }
    }

    method HandleConfigNotification(data: array<bv8>) returns (notice: ConfigNotice)
      modifies this`battery
      ensures notice == DecodeConfig(data[..])
      ensures battery == BatteryAfterConfig(data[..], old(battery))
    {
      var length := data.Length;
      if length < CONFIG_MIN_LENGTH {
        return ConfigTooShort;
      }
      var header := data[0];
      var value := data[1];
      var checksum := data[length - 1];
      var calculatedChecksum := CalculateXor(data, 1, length - 2);
      if calculatedChecksum != checksum {
        return ConfigBadChecksum(calculatedChecksum, checksum);
      }
      if header == TagByte(Battery) {
        battery := value;
        notice := BatteryUpdate(value);
      } else if header == TagByte(Config) {
        notice := TimerStatusData(value);
      } else {
        notice := UnknownConfigHeader(header);
      }
    }
  }
}
