/** The Windows 10 advertisement scanner (`BleatScanner_Win10`,
    src/bleat/cpp/win10_scanner.cpp). Every advertisement the watcher receives
    is folded into a per-address record of `seen_devices`; scan-response
    frames are reported to the registered handler together with the record. */
module Scanner {
  import opened Common
  import opened UuidText
  import MacAddress

  /** `BluetoothLEAdvertisementType`. */
  datatype AdvertisementType =
    | ConnectableUndirected
    | ConnectableDirected
    | ScannableUndirected
    | NonConnectableUndirected
    | ScanResponse

  /** One `Received` event of the watcher: the 64-bit address, the frame type,
      the advertised service UUIDs, the manufacturer-data sections as
      (company id, payload) in the order the platform enumerates them, the
      local name as UTF-16 code units, and the raw signal strength. */
  datatype Frame = Frame(
    address: uint64,
    kind: AdvertisementType,
    serviceUuids: seq<Guid>,
    manufacturerData: seq<(uint16, seq<uint8>)>,
    localName: seq<uint16>,
    rssi: int16)

  /** `BleatScanPrivateData`: the service-UUID strings and the manufacturer data
      kept for one address. */
  datatype ScanRecord = ScanRecord(serviceUuids: set<string>, manufacturerData: map<uint16, seq<uint8>>)

  const EmptyRecord := ScanRecord({}, map[])

  /** `BleatScanResult`: formatted address, local name, signal strength and the
      address's record as it stands when the handler is called. The two texts
      are what a C reader of the `const char*` fields sees. */
  datatype ScanResult = ScanResult(mac: string, name: string, rssi: int, record: ScanRecord)

  /** One call `scan_result_handler(scan_result_context, &result)`. */
  datatype Delivery = Delivery(handler: Callback, context: Pointer, result: ScanResult)

  /** `BleatOption`, accepted by `start` and then ignored. */
  datatype ScanOption = ScanOption(key: string, value: string)

  /** `string(wide.begin(), wide.end())`: every UTF-16 code unit is narrowed to
      a `char`, keeping its low eight bits. */
  function Narrow(wide: seq<uint16>): (s: string)
    ensures |s| == |wide|
    ensures forall i | 0 <= i < |wide| :: s[i] as int == wide[i] % 256
  {
    seq(|wide|, i requires 0 <= i < |wide| => (wide[i] % 256) as char)
  }

  /** What a C reader of `s.c_str()` sees: the characters before the first
      NUL. */
  function UntilNul(s: string): (r: string)
    ensures |r| <= |s| && r == s[..|r|]
    ensures forall i | 0 <= i < |r| :: r[i] != '\0'
    ensures |r| < |s| ==> s[|r|] == '\0'
    decreases |s|
  {
    if s == [] || s[0] == '\0' then []
    else
      var rest := UntilNul(s[1..]);
      assert s[..1 + |rest|] == [s[0]] + s[1..][..|rest|];
      [s[0]] + rest
  }

  /** The strings the scanner records for a frame's service UUIDs
      (`substr(1, 36)` of each braced text). */
  function ServiceStrings(uuids: seq<Guid>): set<string> {
    if uuids == [] then {}
    else ServiceStrings(uuids[..|uuids| - 1]) + {UuidString(uuids[|uuids| - 1])}
  }

  /** The recorded strings are exactly the texts of the frame's UUIDs. */
  lemma {:induction false} ServiceStringsAreTheUuids(uuids: seq<Guid>)
    ensures forall x :: x in ServiceStrings(uuids) <==> x in uuids
    decreases |uuids|
  {
    if uuids != [] {
      var prefix := uuids[..|uuids| - 1];
      ServiceStringsAreTheUuids(prefix);
      assert uuids == prefix + [uuids[|uuids| - 1]];
    }
  }

  /** The record after one frame, given whether a handler is registered. */
  function Absorb(rec: ScanRecord, f: Frame, handlerSet: bool): (r: ScanRecord)
    ensures rec.serviceUuids <= r.serviceUuids
    ensures f.kind == ScanResponse ==> r.serviceUuids == rec.serviceUuids
    ensures f.kind != ScanResponse || !handlerSet ==> r.manufacturerData == rec.manufacturerData
    ensures f.kind == ScanResponse && handlerSet ==> r.manufacturerData.Keys == KeysOf(f.manufacturerData)
  {
    if f.kind != ScanResponse then
      rec.(serviceUuids := rec.serviceUuids + ServiceStrings(f.serviceUuids))
    else if handlerSet then
      rec.(manufacturerData := EmplaceAll(map[], f.manufacturerData))
    else
      rec
  }

  /** The record kept for `address`, or the empty record created on first sight. */
  function RecordOf(table: map<uint64, ScanRecord>, address: uint64): ScanRecord {
    if address in table then table[address] else EmptyRecord
  }

  /** `seen_devices` after one frame: only the frame's address is touched, and
      it is present afterwards. */
  function SeenAfter(table: map<uint64, ScanRecord>, f: Frame, handlerSet: bool): (r: map<uint64, ScanRecord>)
    ensures r.Keys == table.Keys + {f.address}
    ensures forall a | a in table && a != f.address :: r[a] == table[a]
    ensures r[f.address] == Absorb(RecordOf(table, f.address), f, handlerSet)
  {
    table[f.address := Absorb(RecordOf(table, f.address), f, handlerSet)]
  }

  /** The result reported for a scan-response frame with a handler registered:
      the `%02x` text of the address, which parses back to its low 48 bits;
      the local name narrowed unit by unit up to its first NUL; the signal
      strength unchanged; and the address's record. */
  function ResultFor(f: Frame, record: ScanRecord): (r: ScanResult)
    ensures r.mac == MacAddress.FormatMac(f.address)
    ensures MacAddress.ParseMac(r.mac) == Ok(f.address % MacAddress.Pow48)
    ensures |r.name| <= |f.localName|
    ensures forall i | 0 <= i < |r.name| :: r.name[i] as int == f.localName[i] % 256 != 0
    ensures |r.name| < |f.localName| ==> f.localName[|r.name|] % 256 == 0
    ensures r.rssi == f.rssi && r.record == record
  {
    MacAddress.ParseFormatRoundTrip(f.address);
    NarrowedName(f.localName);
    ScanResult(MacAddress.FormatMac(f.address), UntilNul(Narrow(f.localName)), f.rssi as int, record)
  }

  /** The name a C reader sees: the narrowed units up to the first one whose
      low byte is 0. */
  lemma NarrowedName(wide: seq<uint16>)
    ensures |UntilNul(Narrow(wide))| <= |wide|
    ensures forall i | 0 <= i < |UntilNul(Narrow(wide))| :: UntilNul(Narrow(wide))[i] as int == wide[i] % 256 != 0
    ensures |UntilNul(Narrow(wide))| < |wide| ==> wide[|UntilNul(Narrow(wide))|] % 256 == 0
  {
    var n := Narrow(wide);
    var r := UntilNul(n);
    forall i | 0 <= i < |r|
      ensures r[i] as int == wide[i] % 256 != 0
    {
      assert r[i] == n[i];
    }
    if |r| < |wide| {
      assert n[|r|] == '\0';
    }
  }

  /** A local name none of whose units narrows to NUL reaches the handler
      whole. */
  lemma NameWithoutNulKept(f: Frame, record: ScanRecord)
    requires forall i | 0 <= i < |f.localName| :: f.localName[i] % 256 != 0
    ensures ResultFor(f, record).name == Narrow(f.localName)
  {
    var r := ResultFor(f, record);
    assert |r.name| == |f.localName|;
    assert Narrow(f.localName)[..|r.name|] == Narrow(f.localName);
  }

  class BleatScanner {
    var context: Pointer
    var handler: Option<Callback>
    var seenDevices: map<uint64, ScanRecord>
    /** Whether the platform watcher has been started and not stopped since. */
    var watching: bool

    constructor ()
      ensures context == 0 && handler == None && seenDevices == map[] && !watching
    {
      context := 0;
      handler := None;
      seenDevices := map[];
      watching := false;
    }

    /** `set_handler`: the single context/handler slot is overwritten. */
    method SetHandler(context: Pointer, handler: Option<Callback>)
      modifies this`context, this`handler
      ensures this.context == context && this.handler == handler
      ensures seenDevices == old(seenDevices) && watching == old(watching)
    {
      this.context := context;
      this.handler := handler;
    }

    /** `start`: the options are not looked at. */
    method Start(options: seq<ScanOption>)
      modifies this`watching
      ensures watching
      ensures seenDevices == old(seenDevices)
    {
      watching := true;
    }

    /** `stop`: the watcher stops; `seen_devices` is kept as it is. */
    method Stop()
      modifies this`watching
      ensures !watching
      ensures seenDevices == old(seenDevices)
    {
      watching := false;
    }

    /** The watcher's `Received` handler. */
    method OnFrame(f: Frame) returns (delivery: Option<Delivery>)
      modifies this`seenDevices
      ensures seenDevices == SeenAfter(old(seenDevices), f, handler.Some?)
      ensures delivery.Some? <==> f.kind == ScanResponse && handler.Some?
      ensures delivery.Some? ==>
                delivery.value == Delivery(handler.value, context, ResultFor(f, seenDevices[f.address]))
    {
      if f.address !in seenDevices {
        seenDevices := seenDevices[f.address := EmptyRecord];
      }
      if f.kind != ScanResponse {
        MergeServiceUuids(f.address, f.serviceUuids);
        delivery := None;
      } else if handler.Some? {
        ReplaceManufacturerData(f.address, f.manufacturerData);
        var result := ScanResult(MacAddress.FormatMac(f.address), UntilNul(Narrow(f.localName)), f.rssi as int, seenDevices[f.address]);
        delivery := Some(Delivery(handler.value, context, result));
      } else {
        delivery := None;
      }
    }

    /** The loop of `service_uuids.emplace` calls for a non-scan-response frame. */
    method MergeServiceUuids(address: uint64, uuids: seq<Guid>)
      requires address in seenDevices
      modifies this`seenDevices
      ensures seenDevices == old(seenDevices)[address :=
                old(seenDevices)[address].(serviceUuids := old(seenDevices)[address].serviceUuids + ServiceStrings(uuids))]
    {
      ghost var start := seenDevices;
      ghost var rec0 := start[address];
      assert uuids[..0] == [];
      assert rec0.(serviceUuids := rec0.serviceUuids + {}) == rec0;
      assert start[address := rec0] == start;
      var i := 0;
      while i < |uuids|
        invariant 0 <= i <= |uuids|
        invariant seenDevices == start[address := rec0.(serviceUuids := rec0.serviceUuids + ServiceStrings(uuids[..i]))]
      {
        assert uuids[..i + 1][..i] == uuids[..i];
        var str := UuidString(uuids[i]);
        assert ServiceStrings(uuids[..i + 1]) == ServiceStrings(uuids[..i]) + {str};
        var rec := seenDevices[address];
        assert rec.serviceUuids + {str} == rec0.serviceUuids + ServiceStrings(uuids[..i + 1]);
        seenDevices := seenDevices[address := rec.(serviceUuids := rec.serviceUuids + {str})];
        i := i + 1;
      }
      assert uuids[..i] == uuids;
    }

    /** `manufacturer_data.clear()` followed by the loop of
        `manufacturer_data.emplace` calls for a scan-response frame. */
    method ReplaceManufacturerData(address: uint64, sections: seq<(uint16, seq<uint8>)>)
      requires address in seenDevices
      modifies this`seenDevices
      ensures seenDevices == old(seenDevices)[address :=
                old(seenDevices)[address].(manufacturerData := EmplaceAll(map[], sections))]
    {
      ghost var start := seenDevices;
      ghost var rec0 := start[address];
      var rec := seenDevices[address];
      seenDevices := seenDevices[address := rec.(manufacturerData := map[])];
      assert sections[..0] == [];
      var i := 0;
      while i < |sections|
        invariant 0 <= i <= |sections|
        invariant seenDevices == start[address := rec0.(manufacturerData := EmplaceAll(map[], sections[..i]))]
      {
        assert sections[..i + 1][..i] == sections[..i];
        var (companyId, data) := sections[i];
        rec := seenDevices[address];
        if companyId !in rec.manufacturerData {
          seenDevices := seenDevices[address := rec.(manufacturerData := rec.manufacturerData[companyId := data])];
        }
        i := i + 1;
      }
      assert sections[..i] == sections;
    }
  }

  // ------------------------------------------------------------ properties

  /** A non-scan-response frame unites its UUID strings into the record's set
      and changes nothing else, with or without a handler. */
  lemma AdvertisementMergesServices(rec: ScanRecord, f: Frame, handlerSet: bool)
    requires f.kind != ScanResponse
    ensures forall x :: x in Absorb(rec, f, handlerSet).serviceUuids <==> x in rec.serviceUuids || x in f.serviceUuids
    ensures Absorb(rec, f, handlerSet).manufacturerData == rec.manufacturerData
  {
    ServiceStringsAreTheUuids(f.serviceUuids);
  }

  /** A scan-response frame with a handler replaces the manufacturer data with
      exactly the frame's sections: company ids from earlier frames are gone,
      and a company id repeated within the frame keeps its first payload. */
  lemma ScanResponseReplacesManufacturerData(rec: ScanRecord, f: Frame)
    requires f.kind == ScanResponse
    ensures Absorb(rec, f, true).serviceUuids == rec.serviceUuids
    ensures Absorb(rec, f, true).manufacturerData.Keys == KeysOf(f.manufacturerData)
    ensures forall i | 0 <= i < |f.manufacturerData| && FirstOfItsId(f.manufacturerData, i) ::
              Absorb(rec, f, true).manufacturerData[f.manufacturerData[i].0] == f.manufacturerData[i].1
  {
    forall i | 0 <= i < |f.manufacturerData| && FirstOfItsId(f.manufacturerData, i)
      ensures EmplaceAll(map[], f.manufacturerData)[f.manufacturerData[i].0] == f.manufacturerData[i].1
    {
      EmplaceAllFirstWins(map[], f.manufacturerData, i);
    }
  }

  /** No earlier section of the frame has the company id of section `i`. */
  predicate FirstOfItsId(sections: seq<(uint16, seq<uint8>)>, i: nat)
    requires i < |sections|
  {
    forall j | 0 <= j < i :: sections[j].0 != sections[i].0
  }

  /** Without a handler a scan-response frame leaves the record as it was. */
  lemma ScanResponseWithoutHandlerKeepsRecord(rec: ScanRecord, f: Frame)
    requires f.kind == ScanResponse
    ensures Absorb(rec, f, false) == rec
  {
  }

  /** The record after a sequence of frames for one address, the handler slot
      staying as it is throughout. */
  function AbsorbAll(rec: ScanRecord, frames: seq<Frame>, handlerSet: bool): ScanRecord
    decreases |frames|
  {
    if frames == [] then rec
    else Absorb(AbsorbAll(rec, frames[..|frames| - 1], handlerSet), frames[|frames| - 1], handlerSet)
  }

  /** Along any run of frames the set of service UUID strings only grows:
      what an earlier point of the run recorded is still there at the end. */
  lemma {:induction false} ServicesNeverShrink(rec: ScanRecord, frames: seq<Frame>, handlerSet: bool, i: nat)
    requires i <= |frames|
    ensures AbsorbAll(rec, frames[..i], handlerSet).serviceUuids <= AbsorbAll(rec, frames, handlerSet).serviceUuids
    decreases |frames|
  {
    if i < |frames| {
      var prefix := frames[..|frames| - 1];
      assert frames[..i] == prefix[..i];
      ServicesNeverShrink(rec, prefix, handlerSet, i);
    } else {
      assert frames[..i] == frames;
    }
  }

  /** Some non-scan-response frame of `frames` advertised `x`. */
  predicate Advertised(frames: seq<Frame>, x: string) {
    exists i | 0 <= i < |frames| :: frames[i].kind != ScanResponse && x in frames[i].serviceUuids
  }

  /** After any sequence of frames the set of service UUID strings is the
      starting set united with every UUID carried by a non-scan-response frame,
      whatever the order and however often a UUID repeats. */
  lemma {:induction false} AccumulatedServices(rec: ScanRecord, frames: seq<Frame>, handlerSet: bool)
    ensures forall x :: x in AbsorbAll(rec, frames, handlerSet).serviceUuids <==>
                          x in rec.serviceUuids || Advertised(frames, x)
    decreases |frames|
  {
    if frames != [] {
      var prefix := frames[..|frames| - 1];
      var last := frames[|frames| - 1];
      AccumulatedServices(rec, prefix, handlerSet);
      ServiceStringsAreTheUuids(last.serviceUuids);
      forall x
        ensures Advertised(frames, x) <==> Advertised(prefix, x) || (last.kind != ScanResponse && x in last.serviceUuids)
      {
        if Advertised(prefix, x) {
          var i :| 0 <= i < |prefix| && prefix[i].kind != ScanResponse && x in prefix[i].serviceUuids;
          assert frames[i] == prefix[i];
        }
        if Advertised(frames, x) {
          var i :| 0 <= i < |frames| && frames[i].kind != ScanResponse && x in frames[i].serviceUuids;
          if i < |prefix| {
            assert prefix[i] == frames[i];
          }
        }
      }
    }
  }

  /** With a handler registered, the manufacturer data after a sequence of
      frames is that of the last scan-response frame alone (the starting data
      if there is none). */
  lemma {:induction false} LastScanResponseWins(rec: ScanRecord, frames: seq<Frame>, k: nat)
    requires k < |frames| && frames[k].kind == ScanResponse
    requires forall j | k < j < |frames| :: frames[j].kind != ScanResponse
    ensures AbsorbAll(rec, frames, true).manufacturerData == EmplaceAll(map[], frames[k].manufacturerData)
    decreases |frames|
  {
    if k < |frames| - 1 {
      LastScanResponseWins(rec, frames[..|frames| - 1], k);
    }
  }

  /** The stale-data case: sections {1: "a"} then {2: "b"} leave only {2: "b"}. */
  lemma StaleManufacturerDataDropped(rec: ScanRecord, address: uint64, a: seq<uint8>, b: seq<uint8>)
    ensures
      var f1 := Frame(address, ScanResponse, [], [(1, a)], [], 0);
      var f2 := Frame(address, ScanResponse, [], [(2, b)], [], 0);
      AbsorbAll(rec, [f1, f2], true).manufacturerData == map[2 := b]
  {
    var f1 := Frame(address, ScanResponse, [], [(1, a)], [], 0);
    var f2 := Frame(address, ScanResponse, [], [(2, b)], [], 0);
    LastScanResponseWins(rec, [f1, f2], 1);
    assert [(2, b)][..0] == [];
  }
}
