/**
 * The eBlocker device record: the two status enums with their wire names,
 * the URL of a device and the mutable device object the other parts of the
 * app update in place.
 */
module Device {
  import opened Wrappers

  // ---------------------------------------------------------------------
  // Execution and registration state
  // ---------------------------------------------------------------------

  /** The execution state reported by a device; `Unknown` and `Offline` are the app's own. */
  datatype DeviceState =
    | Unknown
    | Offline
    | ShuttingDown
    | Booting
    | Running
    | Error
    | ShuttingDownForReboot
    | Updating
  {
    /** The raw value: the case name as the device's JSON spells it. */
    function WireName(): string
    {
      match this
      case Unknown => "UNKNOWN"
      case Offline => "OFFLINE"
      case ShuttingDown => "SHUTTING_DOWN"
      case Booting => "BOOTING"
      case Running => "RUNNING"
      case Error => "ERROR"
      case ShuttingDownForReboot => "SHUTTING_DOWN_FOR_REBOOT"
      case Updating => "UPDATING"
    }
  }

  /** Decoding a raw value: only the eight wire names are accepted. */
  function ParseDeviceState(s: string): Option<DeviceState>
  {
    if s == "UNKNOWN" then Some(DeviceState.Unknown)
    else if s == "OFFLINE" then Some(Offline)
    else if s == "SHUTTING_DOWN" then Some(ShuttingDown)
    else if s == "BOOTING" then Some(Booting)
    else if s == "RUNNING" then Some(Running)
    else if s == "ERROR" then Some(Error)
    else if s == "SHUTTING_DOWN_FOR_REBOOT" then Some(ShuttingDownForReboot)
    else if s == "UPDATING" then Some(Updating)
    else None
  }

  /** A raw value decodes to a state exactly when it is that state's wire name. */
  lemma DeviceStateWireNames(s: string, st: DeviceState)
    ensures ParseDeviceState(s) == Some(st) <==> s == st.WireName()
  {
  }

  /** The registration state reported by a device; `Unknown` is the app's own. */
  datatype RegistrationState =
    | Unknown
    | New
    | Ok
    | Invalid
    | Revoked
  {
    function WireName(): string
    {
      match this
      case Unknown => "UNKNOWN"
      case New => "NEW"
      case Ok => "OK"
      case Invalid => "INVALID"
      case Revoked => "REVOKED"
    }
  }

  function ParseRegistrationState(s: string): Option<RegistrationState>
  {
    if s == "UNKNOWN" then Some(RegistrationState.Unknown)
    else if s == "NEW" then Some(New)
    else if s == "OK" then Some(Ok)
    else if s == "INVALID" then Some(Invalid)
    else if s == "REVOKED" then Some(Revoked)
    else None
  }

  lemma RegistrationStateWireNames(s: string, st: RegistrationState)
    ensures ParseRegistrationState(s) == Some(st) <==> s == st.WireName()
  {
  }

  // ---------------------------------------------------------------------
  // URLs
  // ---------------------------------------------------------------------

  /** A URL, represented by its absolute string. */
  datatype Url = Url(absoluteString: string)

  /**
   * `appendingPathComponent`: the component is joined to the path with
   * exactly one '/' between them.
   */
  function AppendingPathComponent(url: Url, component: string): Url
  {
    var base := url.absoluteString;
    var tail := if component != [] && component[0] == '/' then component[1..] else component;
    if base != [] && base[|base| - 1] == '/' then Url(base + tail) else Url(base + "/" + tail)
  }

  /**
   * The appended URL extends the original one and ends with '/' and the
   * component, with nothing else in between: it is one character longer than
   * the URL and the component together unless the URL already ends with '/'.
   */
  lemma AppendingExtends(url: Url, component: string)
    requires component != [] && component[0] != '/'
    ensures var r := AppendingPathComponent(url, component).absoluteString;
      && |r| > |component|
      && url.absoluteString <= r
      && r[|r| - |component| - 1..] == "/" + component
      && |r| == |url.absoluteString| + |component|
           + (if url.absoluteString != [] && url.absoluteString[|url.absoluteString| - 1] == '/' then 0 else 1)
  {
    var base := url.absoluteString;
    var r := AppendingPathComponent(url, component).absoluteString;
    if base != [] && base[|base| - 1] == '/' {
      var front := base[..|base| - 1];
      assert base == front + "/";
      assert r == front + ("/" + component);
    } else {
      assert r == base + ("/" + component);
    }
  }

  // ---------------------------------------------------------------------
  // The device object
  // ---------------------------------------------------------------------

  /** The fields of a device at one moment, as a value. */
  datatype DeviceRecord = DeviceRecord(
    name: string,
    url: Url,
    ipAddress: Option<string>,
    osVersion: Option<string>,
    productName: Option<string>,
    state: DeviceState,
    registrationState: RegistrationState,
    createdManually: bool)

  /** A device as it is created: everything but its name and URL at its default. */
  function NewRecord(name: string, url: Url): (d: DeviceRecord)
    ensures d.name == name && d.url == url
    ensures d.ipAddress.None? && d.osVersion.None? && d.productName.None?
    ensures d.state == DeviceState.Unknown && d.registrationState == RegistrationState.Unknown
    ensures !d.createdManually
  {
    DeviceRecord(name, url, None, None, None, DeviceState.Unknown, RegistrationState.Unknown, false)
  }

  /** Equality of devices looks at the name and the URL only. */
  predicate SameIdentity(a: DeviceRecord, b: DeviceRecord)
  {
    a.name == b.name && a.url == b.url
  }

  lemma SameIdentityIsEquivalence(a: DeviceRecord, b: DeviceRecord, c: DeviceRecord)
    ensures SameIdentity(a, a)
    ensures SameIdentity(a, b) ==> SameIdentity(b, a)
    ensures SameIdentity(a, b) && SameIdentity(b, c) ==> SameIdentity(a, c)
  {
  }

  /** Changing any field other than the name and the URL keeps a device equal to the same devices. */
  lemma SameIdentityIgnoresOtherFields(a: DeviceRecord, a': DeviceRecord, b: DeviceRecord)
    requires a'.name == a.name && a'.url == a.url
    ensures SameIdentity(a', b) <==> SameIdentity(a, b)
  {
  }

  /** The address of the web dashboard of a device. */
  function DashboardUrl(d: DeviceRecord): Url
  {
    AppendingPathComponent(d.url, "dashboard/")
  }

  /** The key of a device: its URL's absolute string. */
  function Key(d: DeviceRecord): string
  {
    d.url.absoluteString
  }

  /**
   * The dashboard lies directly below the device URL: the URL, then
   * "/dashboard/", sharing the '/' when the URL already ends with one.
   */
  lemma DashboardUrlBelowUrl(d: DeviceRecord)
    ensures var r := DashboardUrl(d).absoluteString;
      && d.url.absoluteString <= r
      && r[|r| - 11..] == "/dashboard/"
      && |r| == |d.url.absoluteString|
           + (if d.url.absoluteString != [] && d.url.absoluteString[|d.url.absoluteString| - 1] == '/' then 10 else 11)
  {
    AppendingExtends(d.url, "dashboard/");
    assert "/" + "dashboard/" == "/dashboard/";
  }

  /** Devices with the same URL share a key, and the key determines the URL. */
  lemma KeyIsUrl(a: DeviceRecord, b: DeviceRecord)
    ensures Key(a) == Key(b) <==> a.url == b.url
  {
  }

  /** An eBlocker device; other parts of the app update its fields in place. */
  class EblockerDevice {
    var name: string
    var url: Url
    var ipAddress: Option<string>
    var osVersion: Option<string>
    var productName: Option<string>
    var state: DeviceState
    var registrationState: RegistrationState
    var createdManually: bool

    /** The current fields as a value. */
    function Snapshot(): DeviceRecord
      reads this
    {
      DeviceRecord(name, url, ipAddress, osVersion, productName, state, registrationState, createdManually)
    }

    constructor(name: string, url: Url)
      ensures Snapshot() == NewRecord(name, url)
    {
      this.name := name;
      this.url := url;
      ipAddress := None;
      osVersion := None;
      productName := None;
      state := DeviceState.Unknown;
      registrationState := RegistrationState.Unknown;
      createdManually := false;
    }
  }
}
