/** The Windows 10 GATT back-end (src/warble/cpp/win10_api.cpp): the
    connection object `WarbleGatt_Win10`, its characteristic handles
    `WarbleGattChar_Win10` and `warblegatt_create`.

    Every platform call is replaced by its answer, given as a parameter: the
    device lookup is a function from (address, address type) to an optional
    device, service enumeration is a `ServicesResult` whose services carry the
    answer of their own characteristic enumeration, and the read, write and
    descriptor operations take the status (and value) the platform reports.
    Each completion handler call is returned as a value. */
module Gatt {
  import opened Common
  import opened UuidText
  import opened GattOptions
  import MacAddress

  // ---------------------------------------------------------------- transport

  /** `GattCommunicationStatus`. */
  datatype GattCommunicationStatus = Success | Unreachable | ProtocolError | AccessDenied

  /** `BluetoothConnectionStatus`. */
  datatype BluetoothConnectionStatus = Disconnected | Connected

  /** A `BluetoothLEDevice^` returned by the lookup. */
  datatype BluetoothLEDevice = BluetoothLEDevice(id: nat)

  /** A `GattCharacteristic^` and its `Uuid`. */
  datatype GattCharacteristic = GattCharacteristic(id: nat, uuid: Guid)

  /** `GattCharacteristicsResult`. */
  datatype CharacteristicsResult = CharacteristicsResult(status: GattCommunicationStatus, characteristics: seq<GattCharacteristic>)

  /** A `GattDeviceService^`: its `Uuid` and what its `GetCharacteristicsAsync`
      answers. */
  datatype GattDeviceService = GattDeviceService(uuid: Guid, characteristicsResult: CharacteristicsResult)

  /** `GattDeviceServicesResult`. */
  datatype ServicesResult = ServicesResult(status: GattCommunicationStatus, services: seq<GattDeviceService>)

  /** `GattReadResult`. */
  datatype GattReadResult = GattReadResult(status: GattCommunicationStatus, value: seq<uint8>)

  /** `GattWriteOption`. */
  datatype GattWriteOption = WriteWithResponse | WriteWithoutResponse

  /** `BluetoothLEDevice::FromBluetoothAddressAsync`: null or a device. */
  type Resolver = (uint64, AddressType) -> Option<BluetoothLEDevice>

  /** An `EventRegistrationToken`; the default-constructed token is 0 and
      removing it removes nothing. */
  type Token = nat
  const NoToken: Token := 0

  // ------------------------------------------------------- completion values

  /** `WARBLE_GATT_WRITE_ERROR`, `WARBLE_GATT_READ_ERROR`,
      `WARBLE_GATT_ENABLE_NOTIFY_ERROR` and `WARBLE_GATT_DISABLE_NOTIFY_ERROR`. */
  datatype CharError = WriteError | ReadError | EnableNotifyError | DisableNotifyError

  /** `handler(context, this, error)` of a write or a descriptor change. */
  datatype CharCompletion = CharCompletion(handler: Callback, context: Pointer, origin: GattChar, error: Option<CharError>)

  /** `handler(context, this, data, length, error)` of a read. */
  datatype ReadCompletion = ReadCompletion(
    handler: Callback, context: Pointer, origin: GattChar,
    data: Option<seq<uint8>>, length: uint8, error: Option<CharError>)

  /** The `WriteValueAsync` request: the characteristic, the buffer and the
      write option. */
  datatype WriteRequest = WriteRequest(characteristic: GattCharacteristic, payload: seq<uint8>, option: GattWriteOption)

  /** A registered value-changed handler and its context. */
  datatype NotifySlot = NotifySlot(context: Pointer, handler: Callback)

  /** `handler(context, this, data, length)` for one value-changed event. */
  datatype Notification = Notification(handler: Callback, context: Pointer, origin: GattChar, value: seq<uint8>, length: uint8)

  /** `on_disconnect_handler(on_disconnect_context, this, status)`. */
  datatype DisconnectNotice = DisconnectNotice(handler: Callback, context: Pointer, gatt: WarbleGatt, status: int)

  /** How `connect_async` ends: its completion handler is called with an
      error message or null, or (before any platform call) the `erase` or
      `stoull` on the address text throws to the caller. */
  datatype ConnectOutcome = Completed(error: Option<string>) | Raised(exception: MacAddress.StdException)

  const DeviceNotFoundError := "Failed to discover device (FromBluetoothAddressAsync returned nullptr)"
  const ServicesError := "Failed to discover gatt services"
  const CharacteristicsError := "Failed to discover gatt characteristics"

  /** The error a characteristic operation reports for a platform status. */
  function StatusError(status: GattCommunicationStatus, failure: CharError): (r: Option<CharError>)
    ensures r.None? <==> status == Success
    ensures r.Some? ==> r.value == failure
  {
    if status == Success then None else Some(failure)
  }

  /** The value a handler's `uint8_t` length parameter receives for a buffer. */
  function LengthByte(value: seq<uint8>): (n: uint8)
    ensures |value| < 256 ==> n == |value|
  {
    |value| % 256
  }

  // ------------------------------------------------- the connect pipeline

  /** The device step of `connect_async`: a held device is used as it is;
      otherwise the address text is parsed (which may throw) and looked up. */
  function DeviceStep(held: Option<BluetoothLEDevice>, mac: string, addrType: AddressType, resolve: Resolver)
    : (r: Result<BluetoothLEDevice, ConnectOutcome>)
    ensures held.Some? ==> r == Ok(held.value)
    ensures r.Err? ==> held.None? && (r.error.Raised? || r.error == Completed(Some(DeviceNotFoundError)))
    ensures r.Err? && r.error.Raised? <==> held.None? && MacAddress.ParseMac(mac).Err?
    ensures r.Ok? && held.None? ==> MacAddress.ParseMac(mac).Ok? &&
                                    resolve(MacAddress.ParseMac(mac).value, addrType) == Some(r.value)
  {
    if held.Some? then Ok(held.value)
    else
      match MacAddress.ParseMac(mac)
      case Err(e) => Err(Raised(e))
      case Ok(address) =>
        match resolve(address, addrType)
        case None => Err(Completed(Some(DeviceNotFoundError)))
        case Some(d) => Ok(d)
  }

  /** The characteristic enumeration answers, in service order. */
  function Results(services: seq<GattDeviceService>): (r: seq<CharacteristicsResult>)
    ensures |r| == |services|
    ensures forall i | 0 <= i < |services| :: r[i] == services[i].characteristicsResult
  {
    seq(|services|, i requires 0 <= i < |services| => services[i].characteristicsResult)
  }

  /** The position of the first failed characteristic enumeration, or the
      number of answers when none failed. */
  function FirstFailure(results: seq<CharacteristicsResult>): (k: nat)
    ensures k <= |results|
    ensures forall i | 0 <= i < k :: results[i].status == Success
    ensures k < |results| ==> results[k].status != Success
    decreases |results|
  {
    if results == [] || results[0].status != Success then 0
    else
      var k := 1 + FirstFailure(results[1..]);
      assert forall i | 1 <= i < k :: results[i] == results[1..][i - 1];
      k
  }

  /** The (UUID, characteristic) pairs of one enumeration, in order. */
  function Entries(chars: seq<GattCharacteristic>): (r: seq<(Guid, GattCharacteristic)>)
    ensures |r| == |chars|
    ensures forall j | 0 <= j < |chars| :: r[j] == (chars[j].uuid, chars[j])
  {
    seq(|chars|, j requires 0 <= j < |chars| => (chars[j].uuid, chars[j]))
  }

  /** All pairs of a sequence of enumeration answers, in the order they are
      emplaced. */
  function CharEntries(results: seq<CharacteristicsResult>): seq<(Guid, GattCharacteristic)>
    decreases |results|
  {
    if results == [] then []
    else CharEntries(results[..|results| - 1]) + Entries(results[|results| - 1].characteristics)
  }

  /** The UUIDs of the enumerated services. */
  function ServiceUuids(services: seq<GattDeviceService>): set<Guid>
    decreases |services|
  {
    if services == [] then {}
    else ServiceUuids(services[..|services| - 1]) + {services[|services| - 1].uuid}
  }

  /** Every emplaced pair is keyed by its own characteristic's UUID. */
  lemma {:induction false} CharEntriesKeyed(results: seq<CharacteristicsResult>)
    ensures forall k | 0 <= k < |CharEntries(results)| :: CharEntries(results)[k].1.uuid == CharEntries(results)[k].0
    decreases |results|
  {
    if results != [] {
      var prefix := results[..|results| - 1];
      CharEntriesKeyed(prefix);
      var last := Entries(results[|results| - 1].characteristics);
      assert CharEntries(results) == CharEntries(prefix) + last;
    }
  }

  /** Some characteristic in `chars` has UUID `g`. */
  predicate Lists(chars: seq<GattCharacteristic>, g: Guid) {
    exists j | 0 <= j < |chars| :: chars[j].uuid == g
  }

  /** `g` is the UUID of some characteristic in the answers. */
  predicate Enumerates(results: seq<CharacteristicsResult>, g: Guid) {
    exists i, j | 0 <= i < |results| && 0 <= j < |results[i].characteristics| ::
      results[i].characteristics[j].uuid == g
  }

  /** Emplacing pairs each keyed by its characteristic's UUID files every new
      key under a characteristic with that UUID. */
  lemma {:induction false} EmplaceKeyed(m: map<Guid, GattCharacteristic>, entries: seq<(Guid, GattCharacteristic)>)
    requires forall k | 0 <= k < |entries| :: entries[k].1.uuid == entries[k].0
    ensures forall u | u in EmplaceAll(m, entries) && u !in m :: EmplaceAll(m, entries)[u].uuid == u
    decreases |entries|
  {
    if entries != [] {
      var prefix := entries[..|entries| - 1];
      EmplaceKeyed(m, prefix);
    }
  }

  /** Emplacing one more characteristic of an answer. */
  lemma EmplaceEntriesStep(m: map<Guid, GattCharacteristic>, prior: seq<(Guid, GattCharacteristic)>,
                           chars: seq<GattCharacteristic>, j: nat)
    requires j < |chars|
    ensures EmplaceAll(m, prior + Entries(chars[..j + 1])) ==
              var prev := EmplaceAll(m, prior + Entries(chars[..j]));
              if chars[j].uuid in prev then prev else prev[chars[j].uuid := chars[j]]
  {
    var longer := prior + Entries(chars[..j + 1]);
    assert longer[..|longer| - 1] == prior + Entries(chars[..j]);
    assert longer[|longer| - 1] == (chars[j].uuid, chars[j]);
    EmplaceAllLast(m, longer);
  }

  /** The pairs of one more answer follow those of the earlier ones. */
  lemma CharEntriesStep(results: seq<CharacteristicsResult>, i: nat)
    requires i < |results|
    ensures CharEntries(results[..i + 1]) == CharEntries(results[..i]) + Entries(results[i].characteristics)
  {
    assert results[..i + 1][..i] == results[..i];
  }

  /** What the completion handler receives (or what is thrown). */
  function ConnectOutcomeOf(step: Result<BluetoothLEDevice, ConnectOutcome>, answer: ServicesResult): (r: ConnectOutcome)
    ensures step.Err? ==> r == step.error
    ensures step.Ok? ==> r.Completed?
    ensures step.Ok? ==> (r.error.None? <==> answer.status == Success && FirstFailure(Results(answer.services)) == |answer.services|)
    ensures step.Ok? && answer.status != Success ==> r == Completed(Some(ServicesError))
  {
    if step.Err? then step.error
    else if answer.status != Success then Completed(Some(ServicesError))
    else if FirstFailure(Results(answer.services)) < |answer.services| then Completed(Some(CharacteristicsError))
    else Completed(None)
  }

  /** `services` after `connect_async`. */
  function ServicesAfter(services: set<Guid>, step: Result<BluetoothLEDevice, ConnectOutcome>, answer: ServicesResult)
    : (r: set<Guid>)
    ensures services <= r
    ensures step.Err? || answer.status != Success ==> r == services
    ensures step.Ok? && answer.status == Success ==> forall i | 0 <= i < |answer.services| :: answer.services[i].uuid in r
  {
    if step.Ok? && answer.status == Success then
      forall i | 0 <= i < |answer.services|
        ensures answer.services[i].uuid in ServiceUuids(answer.services)
      {
        ServiceUuidsMembers(answer.services, answer.services[i].uuid);
      }
      services + ServiceUuids(answer.services)
    else services
  }

  /** The characteristic handles in `characteristics` after `connect_async`:
      the answers up to the first failure are emplaced. */
  function HandlesAfter(handles: map<Guid, GattCharacteristic>, step: Result<BluetoothLEDevice, ConnectOutcome>,
                        answer: ServicesResult): (r: map<Guid, GattCharacteristic>)
    ensures handles.Keys <= r.Keys && forall u | u in handles :: r[u] == handles[u]
    ensures step.Err? || answer.status != Success ==> r == handles
    ensures forall u | u in r && u !in handles :: r[u].uuid == u
  {
    var results := Results(answer.services);
    CharEntriesKeyed(results[..FirstFailure(results)]);
    EmplaceKeyed(handles, CharEntries(results[..FirstFailure(results)]));
    if step.Ok? && answer.status == Success then
      var results := Results(answer.services);
      EmplaceAll(handles, CharEntries(results[..FirstFailure(results)]))
    else handles
  }

  // ----------------------------------------------------- characteristic

  /** `WarbleGattChar_Win10`. The platform's list of value-changed handlers
      on the characteristic is kept here as `subscriptions`, keyed by the
      token each registration returned; `cookie` is the one token the object
      remembers, and `released` records that the destructor has run. */
  class GattChar {
    const owner: WarbleGatt
    const characteristic: GattCharacteristic
    /** `substr(1, 36)` of the braced GUID text. */
    const uuidStr: string := UuidString(characteristic.uuid)
    var cookie: Token
    var subscriptions: map<Token, NotifySlot>
    var nextToken: Token
    var released: bool

    /** Tokens handed out are positive and below `nextToken`. */
    ghost predicate Valid()
      reads this
    {
      cookie < nextToken && forall t | t in subscriptions :: NoToken < t < nextToken
    }

    /** The state of a newly constructed handle. */
    predicate Pristine()
      reads this
    {
      cookie == NoToken && subscriptions == map[] && nextToken == 1 && !released
    }

    /** After the destructor: the remembered token is removed and nothing
        else. */
    predicate RetiredFrom(subs: map<Token, NotifySlot>, token: Token, next: Token)
      reads this
    {
      released && cookie == token && nextToken == next && subscriptions == subs - {token}
    }

    constructor (owner: WarbleGatt, characteristic: GattCharacteristic)
      ensures this.owner == owner && this.characteristic == characteristic
      ensures Pristine() && Valid()
    {
      this.owner := owner;
      this.characteristic := characteristic;
      cookie := NoToken;
      subscriptions := map[];
      nextToken := 1;
      released := false;
    }

    /** `~WarbleGattChar_Win10`: unsubscribes the remembered token. */
    method Destroy()
      modifies this`subscriptions, this`released
      ensures subscriptions == old(subscriptions) - {cookie}
      ensures released
      ensures old(Valid()) ==> Valid()
    {
      subscriptions := subscriptions - {cookie};
      released := true;
    }

    /** `write_inner_async`: copies `len` bytes into a new buffer, sends it,
        and completes with the write error unless the platform reports
        Success. */
    method WriteInner(option: GattWriteOption, value: seq<uint8>, len: uint8, context: Pointer, handler: Callback,
                      status: GattCommunicationStatus)
      returns (request: WriteRequest, done: CharCompletion)
      requires len <= |value|
      requires !released
      ensures request.characteristic == characteristic && request.option == option
      ensures |request.payload| == len && forall i | 0 <= i < len :: request.payload[i] == value[i]
      ensures done.handler == handler && done.context == context && done.origin == this
      ensures done.error == StatusError(status, WriteError)
    {
      var wrapper := new uint8[len];
      var i := 0;
      while i < len
        invariant 0 <= i <= len
        invariant forall k | 0 <= k < i :: wrapper[k] == value[k]
      {
        wrapper[i] := value[i];
        i := i + 1;
      }
      request := WriteRequest(characteristic, wrapper[..], option);
      done := CharCompletion(handler, context, this, StatusError(status, WriteError));
    }

    /** `write_async`: a write with response. */
    method WriteAsync(value: seq<uint8>, len: uint8, context: Pointer, handler: Callback, status: GattCommunicationStatus)
      returns (request: WriteRequest, done: CharCompletion)
      requires len <= |value|
      requires !released
      ensures request == WriteRequest(characteristic, value[..len], WriteWithResponse)
      ensures done == CharCompletion(handler, context, this, StatusError(status, WriteError))
    {
      request, done := WriteInner(WriteWithResponse, value, len, context, handler, status);
      assert request.payload == value[..len];
    }

    /** `write_without_resp_async`: a write without response. */
    method WriteWithoutResponseAsync(value: seq<uint8>, len: uint8, context: Pointer, handler: Callback,
                                     status: GattCommunicationStatus)
      returns (request: WriteRequest, done: CharCompletion)
      requires len <= |value|
      requires !released
      ensures request == WriteRequest(characteristic, value[..len], WriteWithoutResponse)
      ensures done == CharCompletion(handler, context, this, StatusError(status, WriteError))
    {
      request, done := WriteInner(WriteWithoutResponse, value, len, context, handler, status);
      assert request.payload == value[..len];
    }

    /** `read_async`: either the value or the read error, never both. */
    method ReadAsync(context: Pointer, handler: Callback, result: GattReadResult) returns (done: ReadCompletion)
      requires !released
      ensures done.handler == handler && done.context == context && done.origin == this
      ensures done.error.None? <==> result.status == Success
      ensures done.data.Some? <==> done.error.None?
      ensures done.data.Some? ==> done.data.value == result.value && done.length == LengthByte(result.value)
      ensures done.error.Some? ==> done.error.value == ReadError && done.length == 0
    {
      if result.status == Success {
        done := ReadCompletion(handler, context, this, Some(result.value), LengthByte(result.value), None);
      } else {
        done := ReadCompletion(handler, context, this, None, 0, Some(ReadError));
      }
    }

    /** `enable_notifications_async`: writes Notify to the configuration
        descriptor and reports the outcome. */
    method EnableNotificationsAsync(context: Pointer, handler: Callback, status: GattCommunicationStatus)
      returns (done: CharCompletion)
      requires !released
      ensures done == CharCompletion(handler, context, this, StatusError(status, EnableNotifyError))
    {
      if status == Success {
        done := CharCompletion(handler, context, this, None);
      } else {
        done := CharCompletion(handler, context, this, Some(EnableNotifyError));
      }
    }

    /** `disable_notifications_async`: writes None to the configuration
        descriptor; on success the remembered subscription is removed. */
    method DisableNotificationsAsync(context: Pointer, handler: Callback, status: GattCommunicationStatus)
      returns (done: CharCompletion)
      requires Valid() && !released
      modifies this`subscriptions
      ensures Valid()
      ensures subscriptions == if status == Success then old(subscriptions) - {cookie} else old(subscriptions)
      ensures done == CharCompletion(handler, context, this, StatusError(status, DisableNotifyError))
    {
      if status == Success {
        subscriptions := subscriptions - {cookie};
        done := CharCompletion(handler, context, this, None);
      } else {
        done := CharCompletion(handler, context, this, Some(DisableNotifyError));
      }
    }

    /** `on_notification_received`: subscribes a new handler under a new
        token and remembers that token; earlier subscriptions stay live. */
    method OnNotificationReceived(context: Pointer, handler: Callback)
      requires Valid() && !released
      modifies this`cookie, this`subscriptions, this`nextToken
      ensures Valid()
      ensures cookie != NoToken && cookie !in old(subscriptions)
      ensures subscriptions == old(subscriptions)[cookie := NotifySlot(context, handler)]
    {
      cookie := nextToken;
      nextToken := nextToken + 1;
      subscriptions := subscriptions[cookie := NotifySlot(context, handler)];
    }

    /** The handler calls one value-changed event causes, keyed by the
        token of the registration that makes each: one call per live
        subscription, so a handler registered twice is called twice. */
    function Notifications(value: seq<uint8>): (r: map<Token, Notification>)
      reads this
      ensures r.Keys == subscriptions.Keys && |r| == |subscriptions|
      ensures forall t | t in r ::
                r[t].handler == subscriptions[t].handler && r[t].context == subscriptions[t].context &&
                r[t].origin == this && r[t].value == value && r[t].length == LengthByte(value)
    {
      map t | t in subscriptions ::
        Notification(subscriptions[t].handler, subscriptions[t].context, this, value, LengthByte(value))
    }

    /** `get_uuid`. */
    function GetUuid(): (s: string)
      ensures s == characteristic.uuid && |s| == 36
    {
      uuidStr
    }

    /** `get_gatt`. */
    function GetGatt(): (g: WarbleGatt)
      ensures g == owner
    {
      owner
    }
  }

  // ------------------------------------------------------------- connection

  /** `WarbleGatt_Win10`. */
  class WarbleGatt {
    const mac: string
    const addrType: AddressType
    var device: Option<BluetoothLEDevice>
    var services: set<Guid>
    var characteristics: map<Guid, GattChar>
    var onDisconnectContext: Pointer
    var onDisconnectHandler: Option<Callback>

    /** Every handle in `characteristics` belongs to this connection and is
        filed under its own UUID. */
    ghost predicate Valid()
      reads this
    {
      forall u | u in characteristics :: characteristics[u].owner == this && characteristics[u].characteristic.uuid == u
    }

    /** The platform characteristic behind each entry of `characteristics`. */
    function Handles(): (h: map<Guid, GattCharacteristic>)
      reads this
      ensures h.Keys == characteristics.Keys
    {
      map u | u in characteristics :: characteristics[u].characteristic
    }

    ghost function Chars(): set<GattChar>
      reads this
    {
      set u | u in characteristics :: characteristics[u]
    }

    constructor (mac: string, addrType: AddressType)
      ensures this.mac == mac && this.addrType == addrType
      ensures device.None? && services == {} && characteristics == map[]
      ensures onDisconnectContext == 0 && onDisconnectHandler.None?
      ensures Valid()
    {
      this.mac := mac;
      this.addrType := addrType;
      device := None;
      services := {};
      characteristics := map[];
      onDisconnectContext := 0;
      onDisconnectHandler := None;
    }

    /** `connect_async`. */
    method ConnectAsync(resolve: Resolver, answer: ServicesResult) returns (outcome: ConnectOutcome)
      requires Valid()
      modifies this`device, this`services, this`characteristics
      ensures Valid()
      ensures outcome == ConnectOutcomeOf(DeviceStep(old(device), mac, addrType, resolve), answer)
      ensures var step := DeviceStep(old(device), mac, addrType, resolve);
              device == (if step.Ok? then Some(step.value) else old(device))
      ensures services == ServicesAfter(old(services), DeviceStep(old(device), mac, addrType, resolve), answer)
      ensures Handles() == HandlesAfter(old(Handles()), DeviceStep(old(device), mac, addrType, resolve), answer)
      ensures forall u | u in old(characteristics) :: u in characteristics && characteristics[u] == old(characteristics[u])
      ensures forall u | u in characteristics && u !in old(characteristics) ::
                fresh(characteristics[u]) && characteristics[u].Pristine()
    {
      if device.None? {
        var digits := MacAddress.StripMacSeparators(mac);
        if digits.None? {
          return Raised(MacAddress.OutOfRange);
        }
        var address := MacAddress.Stoull16(digits.value);
        if address.Err? {
          return Raised(address.error);
        }
        var found := resolve(address.value, addrType);
        if found.None? {
          return Completed(Some(DeviceNotFoundError));
        }
        device := found;
      }
      if answer.status != Success {
        return Completed(Some(ServicesError));
      }
      AddServices(answer.services);
      var ok := AddCharacteristics(Results(answer.services));
      if ok {
        outcome := Completed(None);
      } else {
        outcome := Completed(Some(CharacteristicsError));
      }
    }

    /** The loop inserting each service UUID into `services`. */
    method AddServices(list: seq<GattDeviceService>)
      modifies this`services
      ensures services == old(services) + ServiceUuids(list)
    {
      var i := 0;
      while i < |list|
        invariant 0 <= i <= |list|
        invariant services == old(services) + ServiceUuids(list[..i])
      {
        assert list[..i + 1][..i] == list[..i];
        services := services + {list[i].uuid};
        i := i + 1;
      }
      assert list[..i] == list;
    }

    /** The loop over the enumeration answers: each successful answer's
        characteristics are emplaced; the first failed one stops the loop. */
    method AddCharacteristics(results: seq<CharacteristicsResult>) returns (ok: bool)
      requires Valid()
      modifies this`characteristics
      ensures Valid()
      ensures ok <==> FirstFailure(results) == |results|
      ensures Handles() == EmplaceAll(old(Handles()), CharEntries(results[..FirstFailure(results)]))
      ensures forall u | u in old(characteristics) :: u in characteristics && characteristics[u] == old(characteristics[u])
      ensures forall u | u in characteristics && u !in old(characteristics) ::
                fresh(characteristics[u]) && characteristics[u].Pristine()
    {
      var i := 0;
      assert results[..0] == [];
      while i < |results|
        invariant 0 <= i <= |results|
        invariant i <= FirstFailure(results)
        invariant Valid()
        invariant Handles() == EmplaceAll(old(Handles()), CharEntries(results[..i]))
        invariant forall u | u in old(characteristics) :: u in characteristics && characteristics[u] == old(characteristics[u])
        invariant forall u | u in characteristics && u !in old(characteristics) ::
                    fresh(characteristics[u]) && characteristics[u].Pristine()
      {
        if results[i].status != Success {
          return false;
        }
        CharEntriesStep(results, i);
        EmplaceCharacteristics(results[i].characteristics, old(Handles()), CharEntries(results[..i]));
        i := i + 1;
      }
      assert results[..i] == results;
      return true;
    }

    /** The inner loop: `characteristics.emplace(uuid, new handle)` for each
        characteristic of one answer, continuing the emplacing of `prior`
        into `base`. */
    method EmplaceCharacteristics(chars: seq<GattCharacteristic>, ghost base: map<Guid, GattCharacteristic>,
                                  ghost prior: seq<(Guid, GattCharacteristic)>)
      requires Valid()
      requires Handles() == EmplaceAll(base, prior)
      modifies this`characteristics
      ensures Valid()
      ensures Handles() == EmplaceAll(base, prior + Entries(chars))
      ensures forall u | u in old(characteristics) :: u in characteristics && characteristics[u] == old(characteristics[u])
      ensures forall u | u in characteristics && u !in old(characteristics) ::
                fresh(characteristics[u]) && characteristics[u].Pristine()
    {
      var j := 0;
      assert prior + Entries(chars[..0]) == prior;
      while j < |chars|
        invariant 0 <= j <= |chars|
        invariant Valid()
        invariant Handles() == EmplaceAll(base, prior + Entries(chars[..j]))
        invariant forall u | u in old(characteristics) :: u in characteristics && characteristics[u] == old(characteristics[u])
        invariant forall u | u in characteristics && u !in old(characteristics) ::
                    fresh(characteristics[u]) && characteristics[u].Pristine()
      {
        EmplaceEntriesStep(base, prior, chars, j);
        EmplaceOne(chars[j]);
        j := j + 1;
      }
      assert chars[..j] == chars;
    }

    /** One `characteristics.emplace(uuid, new WarbleGattChar_Win10(this, ch))`:
        a new handle is filed only when the UUID is absent. */
    method EmplaceOne(ch: GattCharacteristic)
      requires Valid()
      modifies this`characteristics
      ensures Valid()
      ensures Handles() == if ch.uuid in old(Handles()) then old(Handles()) else old(Handles())[ch.uuid := ch]
      ensures forall u | u in old(characteristics) :: u in characteristics && characteristics[u] == old(characteristics[u])
      ensures forall u | u in characteristics && u !in old(characteristics) ::
                fresh(characteristics[u]) && characteristics[u].Pristine()
    {
      if ch.uuid !in characteristics {
        var c := new GattChar(this, ch);
        characteristics := characteristics[ch.uuid := c];
      }
    }

    /** `cleanup`: every handle is destroyed, then both containers are cleared
        and the device (with its status subscription) is released. */
    method Cleanup()
      requires Valid()
      modifies this`device, this`services, this`characteristics, Chars()
      ensures device.None? && services == {} && characteristics == map[]
      ensures forall u | u in old(characteristics) ::
                old(characteristics)[u].RetiredFrom(old(characteristics[u].subscriptions),
                                                    old(characteristics[u].cookie), old(characteristics[u].nextToken))
      ensures Valid()
    {
      var pending := characteristics.Keys;
      while pending != {}
        invariant pending <= characteristics.Keys
        invariant characteristics == old(characteristics)
        invariant forall u | u in characteristics ::
                    characteristics[u].cookie == old(characteristics[u].cookie) &&
                    characteristics[u].nextToken == old(characteristics[u].nextToken)
        invariant forall u | u in pending ::
                    characteristics[u].subscriptions == old(characteristics[u].subscriptions)
        invariant forall u | u in characteristics && u !in pending ::
                    characteristics[u].RetiredFrom(old(characteristics[u].subscriptions),
                                                   old(characteristics[u].cookie), old(characteristics[u].nextToken))
        decreases pending
      {
        var u :| u in pending;
        characteristics[u].Destroy();
        pending := pending - {u};
      }
      characteristics := map[];
      services := {};
      device := None;
    }

    /** The notice the disconnect handler slot yields, if a handler is set. */
    function Notice(): (r: Option<DisconnectNotice>)
      reads this
      ensures r.Some? <==> onDisconnectHandler.Some?
      ensures r.Some? ==> r.value.handler == onDisconnectHandler.value && r.value.context == onDisconnectContext &&
                          r.value.gatt == this && r.value.status == 0
    {
      if onDisconnectHandler.Some? then Some(DisconnectNotice(onDisconnectHandler.value, onDisconnectContext, this, 0))
      else None
    }

    /** `disconnect`: cleanup, then the handler is notified if one is set,
        whatever the previous state. */
    method Disconnect() returns (notice: Option<DisconnectNotice>)
      requires Valid()
      modifies this`device, this`services, this`characteristics, Chars()
      ensures device.None? && services == {} && characteristics == map[]
      ensures forall u | u in old(characteristics) ::
                old(characteristics)[u].RetiredFrom(old(characteristics[u].subscriptions),
                                                    old(characteristics[u].cookie), old(characteristics[u].nextToken))
      ensures Valid()
      ensures notice == Notice()
    {
      Cleanup();
      notice := Notice();
    }

    /** `on_disconnect`: replaces the single handler slot. */
    method OnDisconnect(context: Pointer, handler: Option<Callback>)
      modifies this`onDisconnectContext, this`onDisconnectHandler
      ensures onDisconnectContext == context && onDisconnectHandler == handler
      ensures handler.Some? ==> Notice() == Some(DisconnectNotice(handler.value, context, this, 0))
      ensures handler.None? ==> Notice().None?
    {
      onDisconnectContext := context;
      onDisconnectHandler := handler;
    }

    /** The `ConnectionStatusChanged` subscription made when a device is
        found: while the device is held, a change to Disconnected notifies
        the current handler slot. */
    function StatusChanged(status: BluetoothConnectionStatus): (r: Option<DisconnectNotice>)
      reads this
      ensures r.Some? <==> device.Some? && status == Disconnected && onDisconnectHandler.Some?
      ensures r.Some? ==> r == Notice()
    {
      if device.Some? && status == Disconnected then Notice() else None
    }

    /** `is_connected`, given the held device's `ConnectionStatus`. */
    function IsConnected(status: BluetoothConnectionStatus): (r: bool)
      reads this
      ensures device.None? ==> !r
      ensures r <==> device.Some? && status == Connected
    {
      device.Some? && status == Connected
    }

    /** `find_characteristic`: the caller's text is wrapped in braces and
        parsed; unparsable or unknown UUIDs give null. */
    function FindCharacteristic(uuid: string, iid: string -> Option<Guid>): (r: Option<GattChar>)
      reads this
      ensures r.Some? <==> iid(WrapInBraces(uuid)).Some? && iid(WrapInBraces(uuid)).value in characteristics
      ensures r.Some? ==> r.value == characteristics[iid(WrapInBraces(uuid)).value]
    {
      match iid(WrapInBraces(uuid))
      case None => None
      case Some(g) => if g in characteristics then Some(characteristics[g]) else None
    }

    /** `service_exists`: as `find_characteristic`, on `services`. */
    function ServiceExists(uuid: string, iid: string -> Option<Guid>): (r: bool)
      reads this
      ensures r <==> iid(WrapInBraces(uuid)).Some? && iid(WrapInBraces(uuid)).value in services
    {
      match iid(WrapInBraces(uuid))
      case None => false
      case Some(g) => g in services
    }

    /** With a parser that reads braced GUID text, looking up a GUID's text
        answers exactly whether it is a key, and gives that entry. */
    lemma FindReflectsCharacteristics(g: Guid, iid: string -> Option<Guid>)
      requires ParsesBracedText(iid)
      ensures FindCharacteristic(g, iid).Some? <==> g in characteristics
      ensures g in characteristics ==> FindCharacteristic(g, iid) == Some(characteristics[g])
    {
      GuidOfCanonical(g);
    }

    /** Likewise for services. */
    lemma ServiceExistsReflectsServices(g: Guid, iid: string -> Option<Guid>)
      requires ParsesBracedText(iid)
      ensures ServiceExists(g, iid) <==> g in services
    {
      GuidOfCanonical(g);
    }

    /** The parser ignores the case of the digits, so both lookups answer for
        upper-case text as for the GUID's own text. */
    lemma LookupsIgnoreCase(t: string, iid: string -> Option<Guid>)
      requires ParsesBracedText(iid) && IsGuidText(t)
      ensures FindCharacteristic(t, iid) == FindCharacteristic(GuidOf(t), iid)
      ensures ServiceExists(t, iid) == ServiceExists(GuidOf(t), iid)
    {
      GuidOfCanonical(GuidOf(t));
    }

    /** Text that is not GUID text finds nothing. */
    lemma LookupsRejectMalformed(t: string, iid: string -> Option<Guid>)
      requires ParsesBracedText(iid) && !IsGuidText(t)
      ensures FindCharacteristic(t, iid).None? && !ServiceExists(t, iid)
    {
      assert iid(WrapInBraces(t)).None?;
    }

    /** Each handle reports this connection and its own key, and looking its
        `get_uuid` text up finds the handle itself. */
    lemma HandlesPointBack(iid: string -> Option<Guid>)
      requires Valid() && ParsesBracedText(iid)
      ensures forall u | u in characteristics ::
                characteristics[u].GetGatt() == this && characteristics[u].GetUuid() == u &&
                FindCharacteristic(characteristics[u].GetUuid(), iid) == Some(characteristics[u])
    {
      forall u | u in characteristics
        ensures FindCharacteristic(characteristics[u].GetUuid(), iid) == Some(characteristics[u])
      {
        GuidOfCanonical(u);
      }
    }
  }

  // ---------------------------------------------------------- construction

  /** `warblegatt_create`, with "random" selecting Random: the options are
      checked, then a connection with no device, services or characteristics
      is made. It fails exactly when the code as written fails, with the same
      message, and builds the same connection unless `address-type` is given
      more than once. */
  method WarbleGattCreate(opts: seq<WarbleOption>) returns (r: Result<WarbleGatt, string>)
    ensures r.Ok? <==> CreateConfig(opts).Ok?
    ensures r.Err? ==> r.error == CreateConfig(opts).error
    ensures r.Ok? ==> fresh(r.value) && r.value.Valid() &&
                      r.value.mac == CreateConfig(opts).value.mac && r.value.addrType == CreateConfig(opts).value.addrType &&
                      r.value.device.None? && r.value.services == {} && r.value.characteristics == map[] &&
                      r.value.onDisconnectHandler.None? && r.value.onDisconnectContext == 0
    ensures r.Ok? <==> CreateConfigAsWritten(opts).Ok?
    ensures r.Err? ==> r.error == CreateConfigAsWritten(opts).error
    ensures r.Ok? ==> r.value.mac == CreateConfigAsWritten(opts).value.mac
    ensures r.Ok? && (forall i, j | 0 <= i < j < |opts| && opts[i].key == "address-type" :: opts[j].key != "address-type") ==>
              r.value.addrType == CreateConfigAsWritten(opts).value.addrType
  {
    if forall i, j | 0 <= i < j < |opts| && opts[i].key == "address-type" :: opts[j].key != "address-type" {
      CreateConfigMatchesAsWritten(opts);
    }
    var config := ParseOptions(opts);
    if config.Err? {
      return Err(config.error);
    }
    var gatt := new WarbleGatt(config.value.mac, config.value.addrType);
    return Ok(gatt);
  }

  // ------------------------------------------------------------ properties

  /** Each step of the pipeline has its own outcome: an exception exactly when
      no device is held and the address text does not parse; the lookup error
      exactly when the parsed address is not found; and no error exactly when
      every enumeration succeeds. A held device skips the lookup. */
  lemma ConnectOutcomeCases(held: Option<BluetoothLEDevice>, mac: string, addrType: AddressType, resolve: Resolver,
                            answer: ServicesResult)
    ensures held.Some? ==> DeviceStep(held, mac, addrType, resolve) == Ok(held.value)
    ensures ConnectOutcomeOf(DeviceStep(held, mac, addrType, resolve), answer).Raised? <==>
              held.None? && MacAddress.ParseMac(mac).Err?
    ensures ConnectOutcomeOf(DeviceStep(held, mac, addrType, resolve), answer) == Completed(Some(DeviceNotFoundError)) <==>
              held.None? && MacAddress.ParseMac(mac).Ok? && resolve(MacAddress.ParseMac(mac).value, addrType).None?
    ensures ConnectOutcomeOf(DeviceStep(held, mac, addrType, resolve), answer) == Completed(None) <==>
              DeviceStep(held, mac, addrType, resolve).Ok? && answer.status == Success &&
              forall i | 0 <= i < |answer.services| :: answer.services[i].characteristicsResult.status == Success
  {
    assert |DeviceNotFoundError| != |ServicesError| && |DeviceNotFoundError| != |CharacteristicsError|;
    var results := Results(answer.services);
    if forall i | 0 <= i < |answer.services| :: answer.services[i].characteristicsResult.status == Success {
      assert FirstFailure(results) == |results|;
    }
  }

  /** When the lookup fails (or the address does not parse), nothing is
      added; when service enumeration fails, nothing is added either. */
  lemma FailedLookupAddsNothing(services: set<Guid>, handles: map<Guid, GattCharacteristic>,
                                step: Result<BluetoothLEDevice, ConnectOutcome>, answer: ServicesResult)
    requires step.Err? || answer.status != Success
    ensures ServicesAfter(services, step, answer) == services
    ensures HandlesAfter(handles, step, answer) == handles
  {
  }

  /** A GUID is a key of the pairs emplaced from some answers exactly when
      one of those answers lists a characteristic with that UUID. */
  lemma {:induction false} CharEntriesKeys(results: seq<CharacteristicsResult>, g: Guid)
    ensures g in KeysOf(CharEntries(results)) <==> Enumerates(results, g)
    decreases |results|
  {
    if results != [] {
      var n := |results| - 1;
      var prefix := results[..n];
      var last := results[n].characteristics;
      CharEntriesKeys(prefix, g);
      KeysOfAppend(CharEntries(prefix), Entries(last));
      EnumeratesSplit(results, g);
      assert g in KeysOf(Entries(last)) <==> Lists(last, g) by {
        if g in KeysOf(Entries(last)) {
          var j :| 0 <= j < |Entries(last)| && Entries(last)[j].0 == g;
          assert last[j].uuid == g;
        }
        if Lists(last, g) {
          var j :| 0 <= j < |last| && last[j].uuid == g;
          assert Entries(last)[j].0 == g;
        }
      }
    }
  }

  /** A UUID is enumerated by some answers iff it is enumerated by all but
      the last of them, or listed by the last one. */
  lemma EnumeratesSplit(results: seq<CharacteristicsResult>, g: Guid)
    requires results != []
    ensures Enumerates(results, g) <==>
              Enumerates(results[..|results| - 1], g) || Lists(results[|results| - 1].characteristics, g)
  {
    var n := |results| - 1;
    var prefix := results[..n];
    if Enumerates(results, g) {
      var i, j :| 0 <= i < |results| && 0 <= j < |results[i].characteristics| && results[i].characteristics[j].uuid == g;
      if i < n {
        assert prefix[i] == results[i];
      }
    }
    if Enumerates(prefix, g) {
      var i, j :| 0 <= i < |prefix| && 0 <= j < |prefix[i].characteristics| && prefix[i].characteristics[j].uuid == g;
      assert results[i] == prefix[i];
    }
  }

  /** A GUID is among the enumerated services exactly when some service has
      that UUID. */
  lemma {:induction false} ServiceUuidsMembers(list: seq<GattDeviceService>, g: Guid)
    ensures g in ServiceUuids(list) <==> exists i | 0 <= i < |list| :: list[i].uuid == g
    decreases |list|
  {
    if list != [] {
      var n := |list| - 1;
      ServiceUuidsMembers(list[..n], g);
      if exists i | 0 <= i < |list| :: list[i].uuid == g {
        var i :| 0 <= i < |list| && list[i].uuid == g;
        if i < n {
          assert list[..n][i] == list[i];
        }
      }
      if exists i | 0 <= i < n :: list[..n][i].uuid == g {
        var i :| 0 <= i < n && list[..n][i].uuid == g;
        assert list[i] == list[..n][i];
      }
    }
  }

  /** A successful connect keeps what was there and adds every enumerated
      service and every enumerated characteristic UUID. */
  lemma ConnectSuccessContents(services: set<Guid>, handles: map<Guid, GattCharacteristic>,
                               step: Result<BluetoothLEDevice, ConnectOutcome>, answer: ServicesResult)
    requires step.Ok? && ConnectOutcomeOf(step, answer) == Completed(None)
    ensures ServicesAfter(services, step, answer) == services + ServiceUuids(answer.services)
    ensures HandlesAfter(handles, step, answer).Keys == handles.Keys + KeysOf(CharEntries(Results(answer.services)))
    ensures forall u | u in handles :: HandlesAfter(handles, step, answer)[u] == handles[u]
    ensures forall g: Guid :: Enumerates(Results(answer.services), g) ==> g in HandlesAfter(handles, step, answer)
  {
    var results := Results(answer.services);
    assert results[..FirstFailure(results)] == results;
    forall g: Guid | Enumerates(results, g)
      ensures g in HandlesAfter(handles, step, answer)
    {
      CharEntriesKeys(results, g);
    }
  }

  /** When a characteristic enumeration fails, the error is reported, all
      services are recorded, and exactly the characteristics of the answers
      before it are added to what was there. */
  lemma ConnectCharacteristicFailure(services: set<Guid>, handles: map<Guid, GattCharacteristic>,
                                     step: Result<BluetoothLEDevice, ConnectOutcome>, answer: ServicesResult, k: nat)
    requires step.Ok? && answer.status == Success
    requires k < |answer.services| && answer.services[k].characteristicsResult.status != Success
    requires forall i | 0 <= i < k :: answer.services[i].characteristicsResult.status == Success
    ensures ConnectOutcomeOf(step, answer) == Completed(Some(CharacteristicsError))
    ensures ServicesAfter(services, step, answer) == services + ServiceUuids(answer.services)
    ensures forall u | u in handles :: HandlesAfter(handles, step, answer)[u] == handles[u]
    ensures forall g: Guid :: g in HandlesAfter(handles, step, answer) <==>
              g in handles || Enumerates(Results(answer.services)[..k], g)
  {
    var results := Results(answer.services);
    assert FirstFailure(results) == k;
    forall g: Guid
      ensures g in HandlesAfter(handles, step, answer) <==> g in handles || Enumerates(results[..k], g)
    {
      CharEntriesKeys(results[..k], g);
    }
  }

  /** A connection made from empty state holds exactly the enumerated
      services and characteristics after a successful connect. */
  lemma ConnectFromEmpty(step: Result<BluetoothLEDevice, ConnectOutcome>, answer: ServicesResult)
    requires step.Ok? && ConnectOutcomeOf(step, answer) == Completed(None)
    ensures forall g: Guid :: g in ServicesAfter({}, step, answer) <==>
              exists i | 0 <= i < |answer.services| :: answer.services[i].uuid == g
    ensures forall g: Guid :: g in HandlesAfter(map[], step, answer) <==> Enumerates(Results(answer.services), g)
  {
    var results := Results(answer.services);
    assert results[..FirstFailure(results)] == results;
    forall g: Guid
      ensures g in ServicesAfter({}, step, answer) <==> exists i | 0 <= i < |answer.services| :: answer.services[i].uuid == g
      ensures g in HandlesAfter(map[], step, answer) <==> Enumerates(results, g)
    {
      ServiceUuidsMembers(answer.services, g);
      CharEntriesKeys(results, g);
    }
  }

  /** Connecting with the text the scanner printed for an address looks up
      that address (its low 48 bits). */
  lemma ConnectLooksUpScannedAddress(a: uint64, addrType: AddressType, resolve: Resolver)
    ensures DeviceStep(None, MacAddress.FormatMac(a), addrType, resolve) ==
              match resolve(a % MacAddress.Pow48, addrType)
              case None => Err(Completed(Some(DeviceNotFoundError)))
              case Some(d) => Ok(d)
  {
    MacAddress.ParseFormatRoundTrip(a);
  }

  // ------------------------------------------------------------ scenarios

  /** A parser for braced GUID text: GUID text of either case between '{'
      and '}', and nothing else. */
  function BracedGuidParser(s: string): (r: Option<Guid>)
    ensures r.Some? <==> |s| == 38 && s[0] == '{' && s[37] == '}' && IsGuidText(s[1..37])
  {
    if |s| == 38 && s[0] == '{' && s[37] == '}' && IsGuidText(s[1..37]) then Some(GuidOf(s[1..37])) else None
  }

  /** It meets what the model asks of `IIDFromString`. */
  lemma BracedGuidParserParsesBracedText()
    ensures ParsesBracedText(BracedGuidParser)
  {
    forall t: string
      ensures BracedGuidParser(WrapInBraces(t)) == if IsGuidText(t) then Some(GuidOf(t)) else None
    {
      if |t| == 36 {
        assert WrapInBraces(t)[1..37] == t;
      }
    }
  }

  /** After a successful connect of a new connection, lookups answer exactly
      for the enumerated services and characteristics. */
  method ConnectNew(mac: string, addrType: AddressType, resolve: Resolver, answer: ServicesResult,
                    iid: string -> Option<Guid>)
    returns (gatt: WarbleGatt, outcome: ConnectOutcome)
    requires ParsesBracedText(iid)
    ensures outcome == ConnectOutcomeOf(DeviceStep(None, mac, addrType, resolve), answer)
    ensures outcome == Completed(None) ==>
              forall g: Guid ::
                (gatt.ServiceExists(g, iid) <==> exists i | 0 <= i < |answer.services| :: answer.services[i].uuid == g) &&
                (gatt.FindCharacteristic(g, iid).Some? <==> Enumerates(Results(answer.services), g))
  {
    gatt := new WarbleGatt(mac, addrType);
    assert gatt.Handles() == map[];
    outcome := gatt.ConnectAsync(resolve, answer);
    if outcome == Completed(None) {
      ConnectOutcomeCases(None, mac, addrType, resolve, answer);
      ConnectFromEmpty(DeviceStep(None, mac, addrType, resolve), answer);
      forall g: Guid
        ensures (gatt.ServiceExists(g, iid) <==> exists i | 0 <= i < |answer.services| :: answer.services[i].uuid == g) &&
                (gatt.FindCharacteristic(g, iid).Some? <==> Enumerates(Results(answer.services), g))
      {
        gatt.ServiceExistsReflectsServices(g, iid);
        gatt.FindReflectsCharacteristics(g, iid);
      }
    }
  }

  const ScenarioMac := "a4:34:f1:00:11:22"
  const HeartRateService: Guid := "0000180d-0000-1000-8000-00805f9b34fb"
  const HeartRateMeasurement: Guid := "00002a37-0000-1000-8000-00805f9b34fb"

  /** The scenario's address text parses, to the address printed as that
      same text. */
  lemma ScenarioMacParses()
    ensures MacAddress.ParseMac(ScenarioMac).Ok?
    ensures MacAddress.FormatMac(MacAddress.ParseMac(ScenarioMac).value) == ScenarioMac
  {
    ScenarioMacIsLowerMacText();
    MacAddress.FormatParseRoundTrip(ScenarioMac);
  }

  lemma ScenarioMacIsLowerMacText()
    ensures MacAddress.IsMacText(ScenarioMac)
    ensures MacAddress.Lower(ScenarioMac) == ScenarioMac
  {
    forall i | 0 <= i < |ScenarioMac|
      ensures MacAddress.Lower(ScenarioMac)[i] == ScenarioMac[i]
    {
      assert !('A' <= ScenarioMac[i] <= 'Z');
    }
  }

  /** A device at a4:34:f1:00:11:22 with one service and one characteristic:
      the connect completes without error, the service exists and the
      characteristic is found. */
  method HeartRateScenario() returns (gatt: WarbleGatt, outcome: ConnectOutcome)
    ensures outcome == Completed(None)
    ensures gatt.ServiceExists(HeartRateService, BracedGuidParser)
    ensures gatt.FindCharacteristic(HeartRateMeasurement, BracedGuidParser).Some?
  {
    var measurement := GattCharacteristic(2, HeartRateMeasurement);
    var service := GattDeviceService(HeartRateService, CharacteristicsResult(Success, [measurement]));
    var answer := ServicesResult(Success, [service]);
    var resolve: Resolver := (a: uint64, t: AddressType) =>
      if MacAddress.FormatMac(a) == ScenarioMac then Some(BluetoothLEDevice(1)) else None;
    BracedGuidParserParsesBracedText();
    ScenarioMacParses();
    assert FirstFailure(Results(answer.services)) == 1;
    gatt, outcome := ConnectNew(ScenarioMac, Random, resolve, answer, BracedGuidParser);
    assert answer.services[0].uuid == HeartRateService;
    assert Results(answer.services)[0].characteristics[0].uuid == HeartRateMeasurement;
  }

  /** A handle that subscribed once and then disabled notifications
      delivers no value-changed event. */
  method SubscribeThenDisable(owner: WarbleGatt, characteristic: GattCharacteristic) returns (c: GattChar)
    ensures c.Notifications([7]) == map[]
  {
    c := new GattChar(owner, characteristic);
    c.OnNotificationReceived(1, 10);
    var _ := c.DisableNotificationsAsync(0, 0, Success);
    assert c.subscriptions == map[];
  }

  /** A handle that subscribed twice and then disabled notifications still
      delivers events to the first handler: only the second token was
      remembered. */
  method SubscribeTwiceThenDisable(owner: WarbleGatt, characteristic: GattCharacteristic) returns (c: GattChar)
    ensures |c.Notifications([7])| == 1 && c.Notifications([7]).Values == {Notification(10, 1, c, [7], 1)}
  {
    c := new GattChar(owner, characteristic);
    c.OnNotificationReceived(1, 10);
    ghost var first := c.cookie;
    c.OnNotificationReceived(2, 20);
    var _ := c.DisableNotificationsAsync(0, 0, Success);
    assert c.subscriptions == map[first := NotifySlot(1, 10)];
  }

  /** The same handler and context registered twice are called twice per
      value change; one successful disable leaves one call. */
  method SubscribeSameHandlerTwice(owner: WarbleGatt, characteristic: GattCharacteristic)
    returns (c: GattChar, before: nat, after: nat)
    ensures before == 2 && after == 1
    ensures c.Notifications([7]).Values == {Notification(10, 1, c, [7], 1)}
  {
    c := new GattChar(owner, characteristic);
    c.OnNotificationReceived(1, 10);
    ghost var first := c.cookie;
    c.OnNotificationReceived(1, 10);
    ghost var second := c.cookie;
    assert c.subscriptions == map[first := NotifySlot(1, 10), second := NotifySlot(1, 10)];
    before := |c.Notifications([7])|;
    var _ := c.DisableNotificationsAsync(0, 0, Success);
    assert c.subscriptions == map[first := NotifySlot(1, 10)];
    after := |c.Notifications([7])|;
  }

  /** `disconnect` notifies the handler on every call, not only on the first. */
  method DisconnectTwice(gatt: WarbleGatt) returns (first: Option<DisconnectNotice>, second: Option<DisconnectNotice>)
    requires gatt.Valid() && gatt.onDisconnectHandler.Some?
    modifies gatt, gatt.Chars()
    ensures first.Some? && second.Some? && first == second
  {
    first := gatt.Disconnect();
    second := gatt.Disconnect();
  }
}
