# Warble / Bleat Windows 10 back-ends, modelled in Dafny

Warble is a C API for Bluetooth Low Energy GATT clients. Bleat is its
advertisement scanner. This project models their Windows 10 back-ends:

- **`BleatScanner_Win10`** (`src/bleat/cpp/win10_scanner.cpp`). Every
  advertisement the watcher receives is folded into a per-address record of
  `seen_devices`:
  - a non-scan-response frame adds its service UUID strings to the record;
  - a scan-response frame, when a handler is registered, replaces the
    record's manufacturer data and reports the formatted address, the local
    name, the signal strength and the record to the handler.
- **`WarbleGatt_Win10`** (`src/warble/cpp/win10_api.cpp`). It covers:
  - option parsing in `warblegatt_create`;
  - the `connect_async` pipeline: MAC text to address, device lookup, service
    enumeration, characteristic enumeration, completion;
  - `cleanup`, `disconnect`, `on_disconnect` and `is_connected`;
  - the `find_characteristic` and `service_exists` lookups.
- **`WarbleGattChar_Win10`** (the same file). It covers the status-to-completion
  mapping of write, read, enable and disable; the byte-by-byte write copy; the
  value-changed subscription; and `uuid_str`.

The platform's asynchronous answers are parameters of the model:

- the result of `FromBluetoothAddressAsync`, as a resolver function;
- the answers of `GetGattServicesAsync` and `GetCharacteristicsAsync`;
- the statuses of read, write and descriptor writes.

Each pipeline therefore runs as sequential steps driven by those values.

Modules:

| file | module | contents |
|---|---|---|
| common.dfy | `Common` | `Option`, `Result`, integer widths, `EmplaceAll` (a run of `unordered_map::emplace` calls) |
| mac_address.dfy | `MacAddress` | the scanner's `%02x:…` formatter; the erase-then-`stoull` parser of `connect_async`; both round trips |
| uuid_text.dfy | `UuidText` | GUIDs as their 36-character text; `substr(1, 36)`; the brace wrapping of `UUID_TO_GUID` |
| scanner.dfy | `Scanner` | the `BleatScanner` class and the properties of its record fold |
| gatt_options.dfy | `GattOptions` | `warblegatt_create` option rules, as written and as intended |
| gatt.dfy | `Gatt` | the `GattChar` and `WarbleGatt` classes, the connect pipeline and its properties |

Behaviours of the code that the model keeps as they are:

- The characteristic operations (write, read, enable and disable
  notifications) do not check that the connection is still up; they go
  straight to the platform, whose status decides the completion.
- A failed connect keeps the device, the services and the characteristics
  of earlier successful results. Partial state is not discarded.
- `disconnect` notifies the handler on every call, also when nothing was
  connected.
- `on_notification_received` overwrites the subscription token without
  unsubscribing the previous handler. `disable_notifications_async`, and
  the destructor, retire only the latest token.
- `stop` does not clear `seen_devices`.
- `address-type=random` is accepted but does not assign Random (see
  "## Findings"). The option functions and lemmas exist in both forms: the
  `…AsWritten` members follow the code, and the others, which
  `WarbleGattCreate` and `ParseOptions` use, follow the evidently intended
  rule. They differ only in `addr_type`, and only when `address-type` is
  given more than once.

## Model

| member | source | states |
|---|---|---|
| Common.EmplaceAll | src/bleat/cpp/win10_scanner.cpp:59-73 | A run of `emplace` calls: the keys are the old keys plus every key in the run, and an existing key keeps its value |
| Common.EmplaceAllFirstWins | src/warble/cpp/win10_api.cpp:198-202 | A key absent from the map ends up bound to the value of its first occurrence in the run |
| MacAddress.Hex2 | src/bleat/cpp/win10_scanner.cpp:81 | `%02x` of a byte: two lower-case hex digits, the first worth the byte divided by 16 and the second the byte modulo 16, so together their value is the byte |
| MacAddress.Byte | src/bleat/cpp/win10_scanner.cpp:78-81 | `bytes[k]` of the little-endian address is the address divided by 256^k, modulo 256 |
| MacAddress.DivDiv | src/bleat/cpp/win10_scanner.cpp:79-81 | Dividing by 256 and then by 256^(k-1) is dividing by 256^k, so successive `bytes[k]` are successive octets |
| MacAddress.JoinOctets | src/bleat/cpp/win10_scanner.cpp:81 | Six two-digit lower-case octets joined by ':' form 17-character address text, lower-case at every digit position |
| MacAddress.FormatMac | src/bleat/cpp/win10_scanner.cpp:78-81 | The text is 17 characters: lower-case hex octets with ':' at every third position |
| MacAddress.StripMacSeparators | src/warble/cpp/win10_api.cpp:154-159 | The five in-place `erase(2k+2, 1)` calls remove the characters at original positions 2, 5, 8, 11 and 14; text shorter than 14 makes `erase` throw |
| MacAddress.Erase | src/warble/cpp/win10_api.cpp:155 | `erase(pos, 1)` throws past the end, erases nothing at the end, and otherwise drops exactly the character at `pos` |
| MacAddress.MacDigits | src/warble/cpp/win10_api.cpp:154-159 | The text left after the five erases: an exception for text shorter than 14 characters, otherwise the text without positions 2, 5, 8, 11 and 14 |
| MacAddress.Stoull16 | src/warble/cpp/win10_api.cpp:161-162 | `stoull(…, 16)` reads the longest hex prefix: invalid_argument iff there is none, out_of_range iff its value is at least 2^64, and otherwise that value |
| MacAddress.ParseMac | src/warble/cpp/win10_api.cpp:154-162 | Text shorter than 14 characters raises out_of_range; otherwise invalid_argument iff the erased text has no hex prefix, and a success is the value of that prefix |
| MacAddress.ParseFormatRoundTrip | src/warble/cpp/win10_api.cpp:154-162 | Parsing the scanner's text of an address gives back its low 48 bits |
| MacAddress.FormatParseRoundTrip | src/bleat/cpp/win10_scanner.cpp:78-81 | Any well-formed `xx:xx:xx:xx:xx:xx` text parses, to a value below 2^48, and formats back to the same text in lower case |
| MacAddress.HexOctetsValue | src/warble/cpp/win10_api.cpp:162 | The hex value of the first `n` octet digit pairs of an address is the address modulo 256^n |
| MacAddress.HexOctetsOfValue | src/bleat/cpp/win10_scanner.cpp:81 | Formatting the value of 2n hex digits as n octets gives back those digits in lower case |
| MacAddress.MacDigitsOfFormat | src/warble/cpp/win10_api.cpp:154-159 | Erasing the separators of formatted text leaves exactly the twelve octet digits |
| MacAddress.DigitsAgree | src/bleat/cpp/win10_scanner.cpp:81 | When formatted text and some MAC text have the same digits up to case, each digit of the first is the lower-case digit of the second |
| MacAddress.LowerFromDigits | src/bleat/cpp/win10_scanner.cpp:81 | Two MAC texts whose digits agree up to case are equal up to case, separators included |
| UuidText.GuidOf | src/warble/cpp/win10_api.cpp:254 | The GUID that GUID text of either case names is its lower-case text |
| UuidText.GuidOfCanonical | src/warble/cpp/win10_api.cpp:254 | A GUID's own text is GUID text and names that GUID |
| UuidText.GuidOfIgnoresCase | src/warble/cpp/win10_api.cpp:254 | GUID text and its lower-case form name the same GUID |
| UuidText.UuidString | src/warble/cpp/win10_api.cpp:275-278 | `substr(1, 36)` of a GUID's braced text is the GUID's 36-character text |
| UuidText.Substr | src/bleat/cpp/win10_scanner.cpp:55 | `substr(pos, count)` yields at most `count` characters, copied from `pos` on |
| UuidText.WrapInBraces | src/warble/cpp/win10_api.cpp:247-250 | The text handed to `IIDFromString` is the caller's text between '{' and '}' |
| UuidText.WrapUuidString | src/warble/cpp/win10_api.cpp:247-254 | Wrapping a characteristic's `uuid_str` gives back exactly the platform's braced text of its GUID |
| UuidText.StripThenWrap | src/warble/cpp/win10_api.cpp:277 | Stripping the braces of any 38-character braced text with `substr(1, 36)` and wrapping again restores that text |
| Scanner.Narrow | src/bleat/cpp/win10_scanner.cpp:75-76 | The narrow copy of the local name has one `char` per UTF-16 unit, holding that unit's low eight bits |
| Scanner.ServiceStringsAreTheUuids | src/bleat/cpp/win10_scanner.cpp:53-56 | The strings recorded for a frame are exactly the texts of its service UUIDs |
| Scanner.UntilNul | src/bleat/cpp/win10_scanner.cpp:85 | What `c_str()` hands on: the longest prefix without NUL, which stops at the first NUL or at the end |
| Scanner.Absorb | src/bleat/cpp/win10_scanner.cpp:52-73 | A frame never removes a service string; a scan response keeps the services; the manufacturer data changes only for a scan response with a handler set, and then its keys are the frame's company ids |
| Scanner.SeenAfter | src/bleat/cpp/win10_scanner.cpp:44-50 | After a frame, the frame's address has a record (empty on first sight) and every other address keeps its record |
| Scanner.ResultFor | src/bleat/cpp/win10_scanner.cpp:75-89 | The address text is `FormatMac` of the address and parses back to its low 48 bits. The name is the narrowed local name up to its first NUL unit: each character is a unit's non-zero low byte, and a shorter name stops at a unit whose low byte is 0. The signal strength and the record are passed unchanged |
| Scanner.NarrowedName | src/bleat/cpp/win10_scanner.cpp:75-85 | The `c_str()` of the narrowed name is a prefix of the local name's low bytes, none of them 0, ending at the first 0 |
| Scanner.NameWithoutNulKept | src/bleat/cpp/win10_scanner.cpp:75-85 | A local name none of whose units has a zero low byte is reported whole |
| Scanner.BleatScanner.constructor | src/bleat/cpp/win10_scanner.cpp:40-43 | No context, no handler, an empty table and the watcher idle |
| Scanner.BleatScanner.SetHandler | src/bleat/cpp/win10_scanner.cpp:99-102 | The single context/handler slot is overwritten; the table is untouched |
| Scanner.BleatScanner.Start | src/bleat/cpp/win10_scanner.cpp:104-106 | The watcher runs; the options are ignored; the table is untouched |
| Scanner.BleatScanner.Stop | src/bleat/cpp/win10_scanner.cpp:108-110 | The watcher stops; `seen_devices` is kept as it is |
| Scanner.BleatScanner.OnFrame | src/bleat/cpp/win10_scanner.cpp:43-91 | The table becomes the one-frame fold of the old table. A delivery happens iff the frame is a scan response and a handler is set; it carries the handler, the context and the result for the updated record |
| Scanner.BleatScanner.MergeServiceUuids | src/bleat/cpp/win10_scanner.cpp:53-57 | The `emplace` loop unites the frame's UUID strings into the address's set and changes nothing else |
| Scanner.BleatScanner.ReplaceManufacturerData | src/bleat/cpp/win10_scanner.cpp:59-73 | `clear()` and then the `emplace` loop leave exactly the first-wins map of the frame's sections; nothing else changes |
| Scanner.AdvertisementMergesServices | src/bleat/cpp/win10_scanner.cpp:52-57 | A non-scan-response frame makes the set the old set united with the frame's UUIDs, and keeps the manufacturer data |
| Scanner.ScanResponseReplacesManufacturerData | src/bleat/cpp/win10_scanner.cpp:58-73 | With a handler set, the manufacturer data's keys are exactly the frame's company ids, each bound to its first payload in the frame; the services are kept |
| Scanner.ScanResponseWithoutHandlerKeepsRecord | src/bleat/cpp/win10_scanner.cpp:58 | Without a handler, a scan response leaves the record as it was |
| Scanner.ServicesNeverShrink | src/bleat/cpp/win10_scanner.cpp:52-57 | Along any run of frames, every service UUID string recorded at an earlier point is still recorded at the end |
| Scanner.AccumulatedServices | src/bleat/cpp/win10_scanner.cpp:52-57 | After any sequence of frames, the set is the starting set plus every UUID that any non-scan-response frame carried |
| Scanner.LastScanResponseWins | src/bleat/cpp/win10_scanner.cpp:58-73 | With a handler set, the manufacturer data after a sequence of frames is that of the last scan response alone |
| Scanner.StaleManufacturerDataDropped | src/bleat/cpp/win10_scanner.cpp:59 | Sections {1: a} and then {2: b} leave only {2: b} |
| GattOptions.AddressTypeAsWritten | src/warble/cpp/win10_api.cpp:115-123 | The processor as written accepts exactly public, random and unspecified and reports the fixed error otherwise; "random" keeps the current type; the other values agree with `AddressTypeOf` |
| GattOptions.AddressTypeOf | src/warble/cpp/win10_api.cpp:115-123 | Corrected processor: the same accepted values and error, but "random" selects Random |
| GattOptions.Step | src/warble/cpp/win10_api.cpp:126-131 | One pass succeeds iff the option is accepted, else throws that option's message; `mac` takes the value of a `mac` option; other keys leave `addr_type` alone |
| GattOptions.ApplyFrom | src/warble/cpp/win10_api.cpp:126-132 | A loop that fails reports the message of some rejected option; a `mac` that was set stays set |
| GattOptions.CreateConfigAsWritten | src/warble/cpp/win10_api.cpp:110-138 | The code as written fails exactly when the corrected rule fails, with the same message, and otherwise yields the same `mac` |
| GattOptions.ProcessorsAgreeOnMac | src/warble/cpp/win10_api.cpp:114-131 | From the same `mac`, the written and the corrected loops stop at the same option with the same message, or both succeed with the same `mac` |
| GattOptions.ParseOptions | src/warble/cpp/win10_api.cpp:110-138 | Corrected option loop: it computes the configuration of `CreateConfig` |
| GattOptions.ApplyFromOutcome | src/warble/cpp/win10_api.cpp:126-132 | The loop succeeds iff every option is accepted; otherwise it reports the error of the first rejected option |
| GattOptions.ApplyFromOkIffAccepted | src/warble/cpp/win10_api.cpp:126-132 | With either processor, the loop gets through iff every option is accepted |
| GattOptions.ApplyFromFirstRejected | src/warble/cpp/win10_api.cpp:126-131 | The loop stops at the first rejected option and throws its message |
| GattOptions.ApplyFromMac | src/warble/cpp/win10_api.cpp:114-131 | With either processor, the last `mac` option decides `mac`; without one, the starting value stays |
| GattOptions.ApplyFromLastWins | src/warble/cpp/win10_api.cpp:114-131 | Corrected loop: the last `mac` option and the last `address-type` option decide; without one, the starting value stays |
| GattOptions.ApplyFromAsWrittenAddressType | src/warble/cpp/win10_api.cpp:115-131 | Loop as written: `addr_type` is the type of the last "public" or "unspecified" option, or the starting type when there is none |
| GattOptions.CreateConfigOutcome | src/warble/cpp/win10_api.cpp:126-135 | Creation succeeds iff every key is known, every address type is valid and `mac` is set. It reports the first bad option's error, or the missing-mac error |
| GattOptions.CreateConfigLastWins | src/warble/cpp/win10_api.cpp:112-131 | Corrected rule: the result holds the last `mac` value and the last address type, or Random when none is given |
| GattOptions.CreateConfigAsWrittenLastWins | src/warble/cpp/win10_api.cpp:112-131 | As written: the result holds the last `mac` value and the type of the last "public" or "unspecified" option, or Random when there is none |
| GattOptions.LastIndexOf | src/warble/cpp/win10_api.cpp:126-131 | The index of the option that decides a key's value is the last one with that key |
| GattOptions.RandomAfterPublicIgnoredAsWritten | src/warble/cpp/win10_api.cpp:115-123 | mac, address-type=public, address-type=random gives Public as written and Random as intended |
| GattOptions.AgreeWithoutAddressType | src/warble/cpp/win10_api.cpp:115-123 | Without an `address-type` option, the as-written and the intended loops agree |
| GattOptions.AgreeWithSingleAddressType | src/warble/cpp/win10_api.cpp:115-123 | From the Random default, with at most one `address-type` option, both loops agree |
| GattOptions.CreateConfigMatchesAsWritten | src/warble/cpp/win10_api.cpp:110-138 | With at most one `address-type` option, the corrected `warblegatt_create` and the one as written agree |
| Gatt.StatusError | src/warble/cpp/win10_api.cpp:58-62 | A completion carries no error iff the status is Success; otherwise it carries the operation's fixed error |
| Gatt.LengthByte | src/warble/cpp/win10_api.cpp:298 | The length handed to a read handler equals the value's length when that fits in a byte |
| Gatt.DeviceStep | src/warble/cpp/win10_api.cpp:151-166 | A held device is used as it is. Otherwise `stoull` throws iff the mac text does not parse, a null lookup gives the device-not-found error, and a found device is the resolver's answer for the parsed address |
| Gatt.FirstFailure | src/warble/cpp/win10_api.cpp:198-205 | The loop stops at the first characteristic result that is not Success; all results before it succeeded |
| Gatt.Entries | src/warble/cpp/win10_api.cpp:200-201 | The emplaced pairs are the characteristics keyed by their UUIDs, in order |
| Gatt.CharEntriesKeyed | src/warble/cpp/win10_api.cpp:198-202 | Every emplaced pair is keyed by its own characteristic's UUID |
| Gatt.EmplaceKeyed | src/warble/cpp/win10_api.cpp:200-201 | Emplacing such pairs files each new key under a characteristic with that UUID |
| Gatt.EnumeratesSplit | src/warble/cpp/win10_api.cpp:197-202 | A UUID is enumerated by some answers iff the earlier answers or the last one list it |
| Gatt.ConnectOutcomeOf | src/warble/cpp/win10_api.cpp:151-213 | A failed device step is the outcome; otherwise the completion has no error iff the services and every characteristic answer succeeded, and a failed service answer gives the services error |
| Gatt.ServicesAfter | src/warble/cpp/win10_api.cpp:183-191 | `services` only grows; it is unchanged after a failed step or service answer, and otherwise holds every enumerated service |
| Gatt.HandlesAfter | src/warble/cpp/win10_api.cpp:195-206 | Existing handles keep their keys and values; nothing is added after a failed step or service answer; every new key holds a characteristic with that UUID |
| Gatt.CharEntriesKeys | src/warble/cpp/win10_api.cpp:198-202 | A UUID is among the emplaced keys iff some result lists a characteristic with it |
| Gatt.ServiceUuidsMembers | src/warble/cpp/win10_api.cpp:188-191 | A UUID is inserted iff some enumerated service has it |
| Gatt.GattChar.constructor | src/warble/cpp/win10_api.cpp:275-278 | The owner and characteristic are kept, `uuid_str` is the GUID's text, and there are no subscriptions |
| Gatt.GattChar.Destroy | src/warble/cpp/win10_api.cpp:280-283 | The destructor retires the current token only, and releases the characteristic |
| Gatt.GattChar.WriteInner | src/warble/cpp/win10_api.cpp:50-64 | The request carries a byte-for-byte copy of the first `len` bytes with the given option; the completion has the write error iff the status is not Success |
| Gatt.GattChar.WriteAsync | src/warble/cpp/win10_api.cpp:285-287 | A write with response of exactly `value[..len]`, completing with null or WARBLE_GATT_WRITE_ERROR |
| Gatt.GattChar.WriteWithoutResponseAsync | src/warble/cpp/win10_api.cpp:289-291 | The same as a write, with the without-response option |
| Gatt.GattChar.ReadAsync | src/warble/cpp/win10_api.cpp:293-303 | Success gives the value and its byte-sized length and no error. Failure gives no payload, length 0 and WARBLE_GATT_READ_ERROR |
| Gatt.GattChar.EnableNotificationsAsync | src/warble/cpp/win10_api.cpp:305-314 | Completes with null on Success and WARBLE_GATT_ENABLE_NOTIFY_ERROR otherwise; subscriptions are untouched |
| Gatt.GattChar.DisableNotificationsAsync | src/warble/cpp/win10_api.cpp:316-326 | On Success the current token is retired; on failure the subscriptions stay. The completion gets null or WARBLE_GATT_DISABLE_NOTIFY_ERROR |
| Gatt.GattChar.OnNotificationReceived | src/warble/cpp/win10_api.cpp:328-334 | A fresh token, unused before, is added with the new slot; earlier subscriptions stay registered |
| Gatt.GattChar.Notifications | src/warble/cpp/win10_api.cpp:329-333 | A value change makes one handler call per live registration, keyed by its token, so there are as many calls as subscriptions. Each call carries that registration's handler and context, this characteristic, the value and its byte-sized length |
| Gatt.GattChar.GetUuid | src/warble/cpp/win10_api.cpp:336-338 | The UUID text is the characteristic's 36-character GUID text |
| Gatt.GattChar.GetGatt | src/warble/cpp/win10_api.cpp:340-342 | The owning connection object |
| Gatt.WarbleGatt.Handles | src/warble/cpp/win10_api.cpp:106 | The platform characteristics behind the handles, under exactly the characteristic map's keys |
| Gatt.WarbleGatt.constructor | src/warble/cpp/win10_api.cpp:140-141 | mac and address type are kept; no device, no services, no characteristics, no disconnect handler |
| Gatt.WarbleGatt.ConnectAsync | src/warble/cpp/win10_api.cpp:147-215 | The outcome and the new device, services and characteristics are those of the pipeline. Existing handles are kept; new handles are fresh, unsubscribed and owned by this object |
| Gatt.WarbleGatt.AddServices | src/warble/cpp/win10_api.cpp:188-191 | The insert loop unites the enumerated service UUIDs into `services` |
| Gatt.WarbleGatt.AddCharacteristics | src/warble/cpp/win10_api.cpp:197-206 | The loop succeeds iff every result is Success. The handles become the old map with the characteristics of the results before the first failure emplaced |
| Gatt.WarbleGatt.EmplaceCharacteristics | src/warble/cpp/win10_api.cpp:200-202 | One result's characteristics are emplaced in order, first wins |
| Gatt.WarbleGatt.EmplaceOne | src/warble/cpp/win10_api.cpp:201 | `emplace` adds a fresh handle only when the UUID is absent |
| Gatt.WarbleGatt.Cleanup | src/warble/cpp/win10_api.cpp:225-236 | Every handle is destroyed, and the containers are emptied, and the device is dropped |
| Gatt.WarbleGatt.Notice | src/warble/cpp/win10_api.cpp:220-222 | A notice exists iff a disconnect handler is registered, and it carries that handler, its context, this object and status 0 |
| Gatt.WarbleGatt.Disconnect | src/warble/cpp/win10_api.cpp:217-223 | Cleans up, then notifies the registered handler, on every call |
| Gatt.WarbleGatt.OnDisconnect | src/warble/cpp/win10_api.cpp:238-241 | The single handler slot is overwritten; later notices use the new slot |
| Gatt.WarbleGatt.StatusChanged | src/warble/cpp/win10_api.cpp:167-175 | A status-change event notifies iff a device is held, the status is Disconnected and a handler is set |
| Gatt.WarbleGatt.IsConnected | src/warble/cpp/win10_api.cpp:243-245 | True iff a device is held and its status is Connected; false whenever no device is held |
| Gatt.WarbleGatt.FindCharacteristic | src/warble/cpp/win10_api.cpp:256-264 | A handle is found iff the braced text parses to a key of the map, and then it is that key's handle |
| Gatt.WarbleGatt.ServiceExists | src/warble/cpp/win10_api.cpp:266-273 | True iff the braced text parses to a member of `services` |
| Gatt.WarbleGatt.FindReflectsCharacteristics | src/warble/cpp/win10_api.cpp:256-264 | With a faithful GUID parser, looking up a GUID's text finds a handle iff the GUID is a key, and then that key's handle |
| Gatt.WarbleGatt.ServiceExistsReflectsServices | src/warble/cpp/win10_api.cpp:266-273 | With a faithful GUID parser, `service_exists` of a GUID's text holds iff the GUID is in `services` |
| Gatt.WarbleGatt.LookupsIgnoreCase | src/warble/cpp/win10_api.cpp:247-273 | `IIDFromString` ignores case, so both lookups answer for GUID text of any case as for the GUID's own text |
| Gatt.WarbleGatt.LookupsRejectMalformed | src/warble/cpp/win10_api.cpp:247-273 | Text that is not GUID text makes both lookups answer not found |
| Gatt.WarbleGatt.HandlesPointBack | src/warble/cpp/win10_api.cpp:256-264 | Looking up any handle's own `get_uuid()` text finds that very handle |
| Gatt.WarbleGattCreate | src/warble/cpp/win10_api.cpp:110-141 | Corrected creation: it succeeds iff the option rules accept the options, and reports their error otherwise; a new object holds the configured mac and address type, has no device, services, characteristics or disconnect handler, and a null disconnect context. It succeeds and fails exactly as the code as written, with the same message and `mac`, and has the same address type unless `address-type` is repeated |
| Gatt.ConnectOutcomeCases | src/warble/cpp/win10_api.cpp:151-213 | A held device skips the lookup. `stoull`'s exception escapes iff there is no device and the mac text does not parse. A null lookup reports the device-not-found error. Success iff services and every characteristic result are Success |
| Gatt.FailedLookupAddsNothing | src/warble/cpp/win10_api.cpp:163-166 | After a failed lookup or a failed service enumeration, no services or characteristics are added |
| Gatt.ConnectSuccessContents | src/warble/cpp/win10_api.cpp:185-210 | After a successful connect, every enumerated service is in `services` and every enumerated characteristic UUID is a key, and old entries are kept |
| Gatt.ConnectCharacteristicFailure | src/warble/cpp/win10_api.cpp:197-212 | A failing characteristic result reports the characteristics error. All services, and the characteristics of the results before it, stay in place |
| Gatt.ConnectFromEmpty | src/warble/cpp/win10_api.cpp:183-210 | Starting empty, a successful connect leaves exactly the enumerated services and characteristic UUIDs |
| Gatt.ConnectLooksUpScannedAddress | src/warble/cpp/win10_api.cpp:154-163 | Connecting with the scanner's text of an address looks up the low 48 bits of that address |
| Gatt.BracedGuidParser | src/warble/cpp/win10_api.cpp:254 | An example `IIDFromString`: it parses exactly 38-character text of GUID text, of either case, between braces |
| Gatt.BracedGuidParserParsesBracedText | src/warble/cpp/win10_api.cpp:254 | That parser meets what the model asks of `IIDFromString`: braced GUID text gives its GUID, and any other text gives nothing |
| Gatt.ConnectNew | src/warble/cpp/win10_api.cpp:147-273 | After a new object connects successfully, `service_exists` and `find_characteristic` answer true exactly for the enumerated UUIDs |
| Gatt.ScenarioMacParses | src/warble/cpp/win10_api.cpp:154-162 | "a4:34:f1:00:11:22" parses, and formats back to itself |
| Gatt.HeartRateScenario | src/warble/cpp/win10_api.cpp:147-264 | Connecting to a heart-rate sensor completes without error, and its service and measurement characteristic can then be looked up |
| Gatt.SubscribeThenDisable | src/warble/cpp/win10_api.cpp:316-334 | One subscription and a successful disable leave no handler receiving value changes |
| Gatt.SubscribeTwiceThenDisable | src/warble/cpp/win10_api.cpp:316-334 | Two subscriptions and one successful disable leave exactly one call per value change, to the first handler |
| Gatt.SubscribeSameHandlerTwice | src/warble/cpp/win10_api.cpp:316-334 | The same handler and context subscribed twice are called twice per value change; one successful disable leaves one call |
| Gatt.DisconnectTwice | src/warble/cpp/win10_api.cpp:217-223 | Two disconnects in a row both notify the handler, with the same notice |

## Left out

- The WinRT task machinery (`create_task`, `.then`, `when_all`, `task_completion_event`) and threading are not modelled. Each pipeline runs as sequential steps on supplied answers, so concurrent callbacks and their interleavings are outside the model.
- Platform calls are parameters:
  - `FromBluetoothAddressAsync` is a resolver function;
  - the `GetGattServicesAsync`/`GetCharacteristicsAsync` answers are a value;
  - read, write and descriptor-write statuses are values;
  - the watcher's `Start`/`Stop` are a flag.
- `IIDFromString` is a function parameter. Lemmas that need it to be faithful require that it maps braced GUID text of either case to that GUID, and any other text to nothing. Its other accepted forms (registry lookups of interface names) are not modelled.
- `Guid::GetHashCode`/`Equals` are not modelled: GUIDs are keys given by their canonical lower-case 36-character text. The model assumes the platform's `Guid::ToString` prints lower-case hex, so `uuid_str` is that text.
- Wide-to-narrow conversion of GUID text is the identity. GUID text is ASCII, so nothing is lost.
- MacAddress.Stoull16: leading white space, a sign and a "0x" prefix, which `stoull` also accepts, are not modelled. Text formed as `xx:xx:xx:xx:xx:xx` never has them.
- MacAddress.ParseMac: it inherits the gap of `Stoull16`; erased text that starts with white space, a sign or "0x" is not parsed as `stoull` would parse it.
- GattOptions.Step: option values are always strings; a NULL `value` pointer is not modelled. In the code, `{"mac", NULL}` resets `mac` to null, so creation then fails with the missing-mac error even after an earlier `mac` option. A NULL `address-type` value reaches `strcmp`, which is undefined behaviour.
- Memory management (`new`/`delete`, `ref new`) and the lifetime of the `BleatScanResult` pointer are not modelled. Deleting a handle is modelled as retiring its subscription and marking it released.
- Using a characteristic handle after `cleanup` has deleted it is undefined behaviour in the code and is not modelled: the characteristic operations require `!released`.
- Gatt.GattChar.Destroy: it keeps `Valid()` only when it held before; a handle whose state was already inconsistent is not repaired.
- `CryptographicBuffer` copying is not modelled: read and notification payloads are the platform's values.
- The `mft_data` vector is not modelled, because it is built and never used.
- Event tokens are a counter: each new subscription gets an unused token.
- The connection-status subscription token of the device (`cookie` at src/warble/cpp/win10_api.cpp:167, removed in `cleanup`) is not modelled. Its effect is modelled by `StatusChanged`, which fires only while a device is held.
- The scanner's destructor only stops the watcher, and is not modelled.
- The error texts of `error_messages.h` are not part of this model. `CharError` names the four constants instead.
- Gatt.WarbleGatt.ConnectAsync: it does not model the handler's `context` argument, which is passed through unchanged. The outcome stands for the single completion call.
- GattOptions.AddressTypeOf: states the corrected rule, in which "random" selects Random; the code as written is `GattOptions.AddressTypeAsWritten`.
- GattOptions.ParseOptions: computes the corrected configuration; the code as written is `GattOptions.CreateConfigAsWritten`, and `GattOptions.CreateConfigMatchesAsWritten` shows they agree unless `address-type` is repeated.
- GattOptions.ApplyFromLastWins: states the last-wins rule of the corrected loop; for the loop as written see `GattOptions.ApplyFromAsWrittenAddressType`.
- GattOptions.CreateConfigLastWins: states the corrected rule; for the code as written see `GattOptions.CreateConfigAsWrittenLastWins`.
- Gatt.WarbleGattCreate: builds the object from the corrected configuration; its address type is stated equal to the code as written's only when `address-type` is not repeated.
- Gatt.LengthByte: the length is the value's length modulo 256, as the source's `uint8_t` parameter truncates it; only lengths below 256 are stated as equal.

## Findings

| source | as written | input that shows it | evidently intended | confidence | as-written member | corrected member |
|---|---|---|---|---|---|---|
| src/warble/cpp/win10_api.cpp:115-123 | `address-type=random` only passes validation and leaves `addr_type` as it was | options `mac=…`, `address-type=public`, `address-type=random` yield Public | every accepted value selects its own type, so the later `random` gives Random, as a later option overrides an earlier one for `public` and `unspecified` | not executed | GattOptions.AddressTypeAsWritten, GattOptions.CreateConfigAsWritten, GattOptions.CreateConfigAsWrittenLastWins, GattOptions.RandomAfterPublicIgnoredAsWritten | GattOptions.AddressTypeOf, GattOptions.ParseOptions, GattOptions.CreateConfig, GattOptions.CreateConfigLastWins, Gatt.WarbleGattCreate |
