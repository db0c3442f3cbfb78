/** Option handling of `warblegatt_create` (src/warble/cpp/win10_api.cpp):
    a loop over key/value options that collects the device address text and
    the address type, and the errors it raises. The `runtime_error`s thrown
    there are the `Err` values here, carrying the exception's message. */
module GattOptions {
  import opened Common

  /** `BluetoothAddressType`. */
  datatype AddressType = Public | Random | Unspecified

  /** `WarbleOption`: one key/value pair. */
  datatype WarbleOption = WarbleOption(key: string, value: string)

  /** What the loop has collected so far: `mac` (null until given) and `addr_type`. */
  datatype Settings = Settings(mac: Option<string>, addrType: AddressType)

  /** The arguments handed to the `WarbleGatt_Win10` constructor. */
  datatype GattConfig = GattConfig(mac: string, addrType: AddressType)

  /** `mac` starts null and `addr_type` starts as Random. */
  const Initial := Settings(None, Random)

  const InvalidAddressTypeError :=
    "invalid value for 'address-type' option (win10 api): one of [public, random, unspecified]"
  const MissingMacError := "required option 'mac' was not set"

  function UnknownOptionError(key: string): string {
    "option '" + key + "' does not exist"
  }

  predicate IsAddressTypeValue(value: string) {
    value == "public" || value == "random" || value == "unspecified"
  }

  /** An option the loop accepts: a known key, and one of the three values for
      `address-type`. */
  predicate Accepted(opt: WarbleOption) {
    opt.key == "mac" || (opt.key == "address-type" && IsAddressTypeValue(opt.value))
  }

  /** The message of the exception a rejected option raises. */
  function Rejection(opt: WarbleOption): string
    requires !Accepted(opt)
  {
    if opt.key == "address-type" then InvalidAddressTypeError else UnknownOptionError(opt.key)
  }

  /** The `address-type` processor as written: "public" and "unspecified"
      assign, any value other than "random" throws, and "random" is accepted
      without assigning, so it leaves the current type in place. */
  function AddressTypeAsWritten(value: string, current: AddressType): (r: Result<AddressType, string>)
    ensures r.Ok? <==> IsAddressTypeValue(value)
    ensures r.Err? ==> r.error == InvalidAddressTypeError
    ensures value == "random" ==> r == Ok(current)
    ensures value != "random" ==> r == AddressTypeOf(value)
  {
    if value == "public" then Ok(Public)
    else if value == "unspecified" then Ok(Unspecified)
    else if value != "random" then Err(InvalidAddressTypeError)
    else Ok(current)
  }

  /** The evidently intended processor: each accepted value selects its type. */
  function AddressTypeOf(value: string): (r: Result<AddressType, string>)
    ensures r.Ok? <==> IsAddressTypeValue(value)
    ensures r.Err? ==> r.error == InvalidAddressTypeError
    ensures value == "random" ==> r == Ok(Random)
  {
    if value == "public" then Ok(Public)
    else if value == "unspecified" then Ok(Unspecified)
    else if value != "random" then Err(InvalidAddressTypeError)
    else Ok(Random)
  }

  /** One pass of the loop; `asWritten` chooses the `address-type` processor. */
  function Step(st: Settings, opt: WarbleOption, asWritten: bool): (r: Result<Settings, string>)
    ensures r.Ok? <==> Accepted(opt)
    ensures r.Err? ==> !Accepted(opt) && r.error == Rejection(opt)
    ensures r.Ok? ==> r.value.mac == if opt.key == "mac" then Some(opt.value) else st.mac
    ensures r.Ok? && opt.key != "address-type" ==> r.value.addrType == st.addrType
  {
    if opt.key == "mac" then Ok(st.(mac := Some(opt.value)))
    else if opt.key == "address-type" then
      match if asWritten then AddressTypeAsWritten(opt.value, st.addrType) else AddressTypeOf(opt.value)
      case Err(e) => Err(e)
      case Ok(t) => Ok(st.(addrType := t))
    else Err(UnknownOptionError(opt.key))
  }

  /** The loop run over `opts` from the settings `st`; the first error ends it. */
  function ApplyFrom(st: Settings, opts: seq<WarbleOption>, asWritten: bool): (r: Result<Settings, string>)
    ensures r.Ok? && st.mac.Some? ==> r.value.mac.Some?
    ensures r.Err? ==> exists k | 0 <= k < |opts| :: !Accepted(opts[k]) && r.error == Rejection(opts[k])
    decreases |opts|
  {
    if opts == [] then Ok(st)
    else
      match Step(st, opts[0], asWritten)
      case Err(e) => Err(e)
      case Ok(next) => ApplyFrom(next, opts[1..], asWritten)
  }

  /** The check for a missing `mac` after the loop. */
  function Finish(r: Result<Settings, string>): Result<GattConfig, string> {
    match r
    case Err(e) => Err(e)
    case Ok(st) => if st.mac.None? then Err(MissingMacError) else Ok(GattConfig(st.mac.value, st.addrType))
  }

  /** `warblegatt_create`'s option handling as the code is written. */
  function CreateConfigAsWritten(opts: seq<WarbleOption>): (r: Result<GattConfig, string>)
    ensures r.Ok? <==> CreateConfig(opts).Ok?
    ensures r.Err? ==> r == CreateConfig(opts)
    ensures r.Ok? ==> r.value.mac == CreateConfig(opts).value.mac
  {
    ProcessorsAgreeOnMac(Initial, Initial, opts);
    Finish(ApplyFrom(Initial, opts, true))
  }

  /** The two processors differ in `addr_type` only: from settings with the
      same `mac`, both loops stop at the same option with the same message,
      or both get through with the same `mac`. */
  lemma {:induction false} ProcessorsAgreeOnMac(st1: Settings, st2: Settings, opts: seq<WarbleOption>)
    requires st1.mac == st2.mac
    ensures ApplyFrom(st1, opts, true).Ok? <==> ApplyFrom(st2, opts, false).Ok?
    ensures ApplyFrom(st1, opts, true).Err? ==> ApplyFrom(st1, opts, true) == ApplyFrom(st2, opts, false)
    ensures ApplyFrom(st1, opts, true).Ok? ==> ApplyFrom(st1, opts, true).value.mac == ApplyFrom(st2, opts, false).value.mac
    decreases |opts|
  {
    if opts != [] && Accepted(opts[0]) {
      ProcessorsAgreeOnMac(Step(st1, opts[0], true).value, Step(st2, opts[0], false).value, opts[1..]);
    }
  }

  /** `warblegatt_create`'s option handling with "random" selecting Random. */
  function CreateConfig(opts: seq<WarbleOption>): Result<GattConfig, string> {
    Finish(ApplyFrom(Initial, opts, false))
  }

  /** The option loop of `warblegatt_create`, updating `mac` and `addr_type`
      in place (with "random" assigning Random). */
  method ParseOptions(opts: seq<WarbleOption>) returns (r: Result<GattConfig, string>)
    ensures r == CreateConfig(opts)
  {
    var mac: Option<string> := None;
    var addrType := Random;
    var i := 0;
    while i < |opts|
      invariant 0 <= i <= |opts|
      invariant ApplyFrom(Settings(mac, addrType), opts[i..], false) == ApplyFrom(Initial, opts, false)
    {
      var opt := opts[i];
      assert opts[i..][1..] == opts[i + 1..];
      if opt.key == "mac" {
        mac := Some(opt.value);
      } else if opt.key == "address-type" {
        if opt.value == "public" {
          addrType := Public;
        } else if opt.value == "unspecified" {
          addrType := Unspecified;
        } else if opt.value == "random" {
          addrType := Random;
        } else {
          return Err(InvalidAddressTypeError);
        }
      } else {
        return Err(UnknownOptionError(opt.key));
      }
      i := i + 1;
    }
    if mac.None? {
      return Err(MissingMacError);
    }
    return Ok(GattConfig(mac.value, addrType));
  }

  // ------------------------------------------------------------ properties

  /** The loop gets through the options exactly when each is accepted, and
      otherwise stops with the message of the first rejected one. */
  lemma ApplyFromOutcome(st: Settings, opts: seq<WarbleOption>, asWritten: bool)
    ensures ApplyFrom(st, opts, asWritten).Ok? <==> forall i | 0 <= i < |opts| :: Accepted(opts[i])
    ensures forall k | 0 <= k < |opts| && !Accepted(opts[k]) && (forall j | 0 <= j < k :: Accepted(opts[j])) ::
              ApplyFrom(st, opts, asWritten) == Err(Rejection(opts[k]))
  {
    ApplyFromOkIffAccepted(st, opts, asWritten);
    forall k | 0 <= k < |opts| && !Accepted(opts[k]) && (forall j | 0 <= j < k :: Accepted(opts[j]))
      ensures ApplyFrom(st, opts, asWritten) == Err(Rejection(opts[k]))
    {
      ApplyFromFirstRejected(st, opts, asWritten, k);
    }
  }

  /** The loop gets through exactly when every option is accepted. */
  lemma {:induction false} ApplyFromOkIffAccepted(st: Settings, opts: seq<WarbleOption>, asWritten: bool)
    ensures ApplyFrom(st, opts, asWritten).Ok? <==> forall i | 0 <= i < |opts| :: Accepted(opts[i])
    decreases |opts|
  {
    if opts != [] && Accepted(opts[0]) {
      ApplyFromOkIffAccepted(Step(st, opts[0], asWritten).value, opts[1..], asWritten);
      assert forall i | 0 <= i < |opts| - 1 :: opts[1..][i] == opts[i + 1];
    }
  }

  /** The loop stops at the first rejected option `k`, with its message. */
  lemma {:induction false} ApplyFromFirstRejected(st: Settings, opts: seq<WarbleOption>, asWritten: bool, k: nat)
    requires k < |opts| && !Accepted(opts[k])
    requires forall j | 0 <= j < k :: Accepted(opts[j])
    ensures ApplyFrom(st, opts, asWritten) == Err(Rejection(opts[k]))
    decreases k
  {
    if k > 0 {
      assert Accepted(opts[0]);
      assert opts[1..][k - 1] == opts[k];
      assert forall j | 0 <= j < k - 1 :: opts[1..][j] == opts[j + 1];
      ApplyFromFirstRejected(Step(st, opts[0], asWritten).value, opts[1..], asWritten, k - 1);
    }
  }

  /** Of the options with key `key`, index `i` is the last one. */
  predicate LastWithKey(opts: seq<WarbleOption>, key: string, i: int) {
    0 <= i < |opts| && opts[i].key == key && forall j | i < j < |opts| :: opts[j].key != key
  }

  predicate HasKey(opts: seq<WarbleOption>, key: string) {
    exists i | 0 <= i < |opts| :: opts[i].key == key
  }

  /** With either processor, when the loop gets through, `mac` holds the
      value of the last `mac` option, or its starting value when there is
      none. */
  lemma {:induction false} ApplyFromMac(st: Settings, opts: seq<WarbleOption>, asWritten: bool)
    requires ApplyFrom(st, opts, asWritten).Ok?
    ensures !HasKey(opts, "mac") ==> ApplyFrom(st, opts, asWritten).value.mac == st.mac
    ensures forall i | LastWithKey(opts, "mac", i) :: ApplyFrom(st, opts, asWritten).value.mac == Some(opts[i].value)
    decreases |opts|
  {
    if opts != [] {
      var next := Step(st, opts[0], asWritten).value;
      var rest := opts[1..];
      ApplyFromMac(next, rest, asWritten);
      assert forall j | 0 <= j < |rest| :: rest[j] == opts[j + 1];
      if HasKey(rest, "mac") {
        var j :| 0 <= j < |rest| && rest[j].key == "mac";
        assert opts[j + 1].key == "mac";
      }
      forall i | LastWithKey(opts, "mac", i)
        ensures ApplyFrom(st, opts, asWritten).value.mac == Some(opts[i].value)
      {
        if i > 0 {
          assert LastWithKey(rest, "mac", i - 1);
        } else {
          assert !HasKey(rest, "mac");
        }
      }
    }
  }

  /** With "random" assigning, when the loop gets through, `mac` holds the
      value of the last `mac` option and `addr_type` the type of the last
      `address-type` option; keys that never occur keep their starting value. */
  lemma {:induction false} ApplyFromLastWins(st: Settings, opts: seq<WarbleOption>)
    requires ApplyFrom(st, opts, false).Ok?
    ensures !HasKey(opts, "mac") ==> ApplyFrom(st, opts, false).value.mac == st.mac
    ensures forall i | LastWithKey(opts, "mac", i) :: ApplyFrom(st, opts, false).value.mac == Some(opts[i].value)
    ensures !HasKey(opts, "address-type") ==> ApplyFrom(st, opts, false).value.addrType == st.addrType
    ensures forall i | LastWithKey(opts, "address-type", i) ::
              Ok(ApplyFrom(st, opts, false).value.addrType) == AddressTypeOf(opts[i].value)
    decreases |opts|
  {
    ApplyFromMac(st, opts, false);
    if opts != [] {
      var next := Step(st, opts[0], false).value;
      var rest := opts[1..];
      ApplyFromLastWins(next, rest);
      assert forall j | 0 <= j < |rest| :: rest[j] == opts[j + 1];
      if HasKey(rest, "address-type") {
        var j :| 0 <= j < |rest| && rest[j].key == "address-type";
        assert opts[j + 1].key == "address-type";
      }
      forall i | LastWithKey(opts, "address-type", i)
        ensures Ok(ApplyFrom(st, opts, false).value.addrType) == AddressTypeOf(opts[i].value)
      {
        if i > 0 {
          assert LastWithKey(rest, "address-type", i - 1);
        } else {
          assert !HasKey(rest, "address-type");
        }
      }
    }
  }

  /** An option the written processor assigns from: `address-type` with
      "public" or "unspecified". */
  predicate Assigns(opt: WarbleOption) {
    opt.key == "address-type" && (opt.value == "public" || opt.value == "unspecified")
  }

  /** Of the assigning options, index `i` is the last one. */
  predicate LastAssigning(opts: seq<WarbleOption>, i: int) {
    0 <= i < |opts| && Assigns(opts[i]) && forall j | i < j < |opts| :: !Assigns(opts[j])
  }

  /** The type an assigning option selects. */
  function AssignedType(opt: WarbleOption): AddressType {
    if opt.value == "public" then Public else Unspecified
  }

  /** As written, when the loop gets through, `addr_type` is the type of the
      last "public" or "unspecified" option, and the starting type when there
      is none: a "random" option never changes it. */
  lemma {:induction false} ApplyFromAsWrittenAddressType(st: Settings, opts: seq<WarbleOption>)
    requires ApplyFrom(st, opts, true).Ok?
    ensures (forall i | 0 <= i < |opts| :: !Assigns(opts[i])) ==> ApplyFrom(st, opts, true).value.addrType == st.addrType
    ensures forall i | LastAssigning(opts, i) :: ApplyFrom(st, opts, true).value.addrType == AssignedType(opts[i])
    decreases |opts|
  {
    if opts != [] {
      var next := Step(st, opts[0], true).value;
      var rest := opts[1..];
      ApplyFromAsWrittenAddressType(next, rest);
      assert forall j | 0 <= j < |rest| :: rest[j] == opts[j + 1];
      if !Assigns(opts[0]) {
        assert next.addrType == st.addrType;
      }
      forall i | LastAssigning(opts, i)
        ensures ApplyFrom(st, opts, true).value.addrType == AssignedType(opts[i])
      {
        if i > 0 {
          assert LastAssigning(rest, i - 1);
        } else {
          assert forall j | 0 <= j < |rest| :: !Assigns(rest[j]);
        }
      }
    }
  }

  /** `warblegatt_create` accepts the options exactly when every key is known,
      every `address-type` value is one of the three names and a `mac` is
      given; the error is that of the first rejected option, or the missing
      `mac`. */
  lemma CreateConfigOutcome(opts: seq<WarbleOption>)
    ensures CreateConfig(opts).Ok? <==> (forall i | 0 <= i < |opts| :: Accepted(opts[i])) && HasKey(opts, "mac")
    ensures forall k | 0 <= k < |opts| && !Accepted(opts[k]) && (forall j | 0 <= j < k :: Accepted(opts[j])) ::
              CreateConfig(opts) == Err(Rejection(opts[k]))
    ensures (forall i | 0 <= i < |opts| :: Accepted(opts[i])) && !HasKey(opts, "mac") ==>
              CreateConfig(opts) == Err(MissingMacError)
  {
    ApplyFromOutcome(Initial, opts, false);
    if ApplyFrom(Initial, opts, false).Ok? {
      ApplyFromLastWins(Initial, opts);
      if HasKey(opts, "mac") {
        var i := LastIndexOf(opts, "mac");
      }
    }
  }

  /** An accepted option list yields the last `mac` value and the type of the
      last `address-type` value, Random when there is none. */
  lemma CreateConfigLastWins(opts: seq<WarbleOption>)
    requires CreateConfig(opts).Ok?
    ensures forall i | LastWithKey(opts, "mac", i) :: CreateConfig(opts).value.mac == opts[i].value
    ensures forall i | LastWithKey(opts, "address-type", i) ::
              Ok(CreateConfig(opts).value.addrType) == AddressTypeOf(opts[i].value)
    ensures !HasKey(opts, "address-type") ==> CreateConfig(opts).value.addrType == Random
  {
    ApplyFromLastWins(Initial, opts);
  }

  /** `warblegatt_create` as written: an accepted option list yields the last
      `mac` value, and the type of the last "public" or "unspecified" option,
      Random when there is none. */
  lemma CreateConfigAsWrittenLastWins(opts: seq<WarbleOption>)
    requires CreateConfigAsWritten(opts).Ok?
    ensures forall i | LastWithKey(opts, "mac", i) :: CreateConfigAsWritten(opts).value.mac == opts[i].value
    ensures forall i | LastAssigning(opts, i) :: CreateConfigAsWritten(opts).value.addrType == AssignedType(opts[i])
    ensures (forall i | 0 <= i < |opts| :: !Assigns(opts[i])) ==> CreateConfigAsWritten(opts).value.addrType == Random
  {
    ApplyFromMac(Initial, opts, true);
    ApplyFromAsWrittenAddressType(Initial, opts);
  }

  /** Index of the last option with the given key. */
  function LastIndexOf(opts: seq<WarbleOption>, key: string): (i: nat)
    requires HasKey(opts, key)
    ensures LastWithKey(opts, key, i)
  {
    if opts[|opts| - 1].key == key then |opts| - 1
    else
      var prefix := opts[..|opts| - 1];
      var j :| 0 <= j < |opts| && opts[j].key == key;
      assert prefix[j] == opts[j];
      LastIndexOf(prefix, key)
  }

  // -------------------------------------------------------------- finding

  /** As written, "random" after "public" does not select Random: the later
      option does not override the earlier one. */
  lemma RandomAfterPublicIgnoredAsWritten(mac: string)
    ensures
      var opts := [WarbleOption("mac", mac), WarbleOption("address-type", "public"),
                   WarbleOption("address-type", "random")];
      CreateConfigAsWritten(opts) == Ok(GattConfig(mac, Public)) &&
      CreateConfig(opts) == Ok(GattConfig(mac, Random))
  {
    var opts := [WarbleOption("mac", mac), WarbleOption("address-type", "public"),
                 WarbleOption("address-type", "random")];
    var s1 := Settings(Some(mac), Random);
    var s2 := Settings(Some(mac), Public);
    assert opts[1..] == [opts[1], opts[2]];
    assert opts[1..][1..] == [opts[2]];
    assert opts[1..][1..][1..] == [];
    assert ApplyFrom(s2, [opts[2]], true) == Ok(s2);
    assert ApplyFrom(s2, [opts[2]], false) == Ok(s2.(addrType := Random));
    assert ApplyFrom(s1, opts[1..], true) == Ok(s2);
    assert ApplyFrom(s1, opts[1..], false) == Ok(s2.(addrType := Random));
  }

  /** With no `address-type` option, the written and the intended loops agree
      from any settings. */
  lemma {:induction false} AgreeWithoutAddressType(st: Settings, opts: seq<WarbleOption>)
    requires !HasKey(opts, "address-type")
    ensures ApplyFrom(st, opts, true) == ApplyFrom(st, opts, false)
    decreases |opts|
  {
    if opts != [] {
      assert opts[0].key != "address-type";
      if Step(st, opts[0], true).Ok? {
        var rest := opts[1..];
        assert forall j | 0 <= j < |rest| :: rest[j] == opts[j + 1];
        AgreeWithoutAddressType(Step(st, opts[0], true).value, rest);
      }
    }
  }

  /** The written loop differs from the intended one only when `address-type`
      is given more than once: with at most one such option, starting from
      Random, both yield the same outcome. */
  lemma {:induction false} AgreeWithSingleAddressType(st: Settings, opts: seq<WarbleOption>)
    requires st.addrType == Random
    requires forall i, j | 0 <= i < j < |opts| && opts[i].key == "address-type" :: opts[j].key != "address-type"
    ensures ApplyFrom(st, opts, true) == ApplyFrom(st, opts, false)
    decreases |opts|
  {
    if opts != [] {
      var rest := opts[1..];
      assert forall j | 0 <= j < |rest| :: rest[j] == opts[j + 1];
      if opts[0].key == "address-type" {
        assert Step(st, opts[0], true) == Step(st, opts[0], false);
        if Step(st, opts[0], true).Ok? {
          assert !HasKey(rest, "address-type");
          AgreeWithoutAddressType(Step(st, opts[0], true).value, rest);
        }
      } else if Step(st, opts[0], true).Ok? {
        AgreeWithSingleAddressType(Step(st, opts[0], true).value, rest);
      }
    }
  }

  /** Hence the finding only affects repeated `address-type` options. */
  lemma CreateConfigMatchesAsWritten(opts: seq<WarbleOption>)
    requires forall i, j | 0 <= i < j < |opts| && opts[i].key == "address-type" :: opts[j].key != "address-type"
    ensures CreateConfigAsWritten(opts) == CreateConfig(opts)
  {
    AgreeWithSingleAddressType(Initial, opts);
  }
}
