/**
 * The logic of the device list screen without its views: the list of devices,
 * the routing of a manually entered address, the "eBlocker not found" alert
 * and the decisions that pick what a row shows.
 *
 * Calls into the API client are logged in `updateRequests`; table reloads
 * and the hints header are view updates and are not modelled.
 */
module DeviceList {
  import opened Wrappers
  import opened IpUtils
  import opened Device

  const EblockerDefaultPort: nat := 3000

  // ---------------------------------------------------------------------
  // Finding a device in the list
  // ---------------------------------------------------------------------

  /** The fields of the listed devices, in list order. */
  function Records(ds: seq<EblockerDevice>): (rs: seq<DeviceRecord>)
    reads ds
    ensures |rs| == |ds|
    ensures forall i | 0 <= i < |ds| :: rs[i] == ds[i].Snapshot()
  {
    if ds == [] then [] else [ds[0].Snapshot()] + Records(ds[1..])
  }

  /** `firstIndex(where: { $0 == device })`. */
  function FirstEqual(rs: seq<DeviceRecord>, d: DeviceRecord): (i: Option<nat>)
    ensures i.Some? ==> i.value < |rs| && SameIdentity(rs[i.value], d)
    ensures i.Some? ==> forall j | 0 <= j < i.value :: !SameIdentity(rs[j], d)
    ensures i.None? <==> forall j | 0 <= j < |rs| :: !SameIdentity(rs[j], d)
  {
    if rs == [] then None
    else if SameIdentity(rs[0], d) then Some(0)
    else
      match FirstEqual(rs[1..], d)
      case Some(k) => Some(k + 1)
      case None =>
        assert forall j | 0 <= j < |rs| :: !SameIdentity(rs[j], d) by {
          forall j | 0 <= j < |rs|
            ensures !SameIdentity(rs[j], d)
          {
            if j > 0 {
              assert rs[j] == rs[1..][j - 1];
            }
          }
        }
        None
  }

  /** The list after removing the entry at `i`, if any. */
  function RemoveAt<T>(xs: seq<T>, i: Option<nat>): seq<T>
  {
    match i
    case Some(k) => if k < |xs| then xs[..k] + xs[k + 1..] else xs
    case None => xs
  }

  /**
   * Removing the first equal entry: the entries before it stay, the ones after
   * it move up by one, and the list is unchanged when nothing is equal.
   */
  lemma RemoveFirstEqual<T>(xs: seq<T>, rs: seq<DeviceRecord>, d: DeviceRecord)
    requires |xs| == |rs|
    ensures var i := FirstEqual(rs, d);
      var ys := RemoveAt(xs, i);
      && (i.None? ==> ys == xs)
      && (i.Some? ==>
            && |ys| == |xs| - 1
            && (forall j | 0 <= j < i.value :: ys[j] == xs[j] && !SameIdentity(rs[j], d))
            && (forall j | i.value <= j < |ys| :: ys[j] == xs[j + 1]))
  {
  }

  /** Appending an entry equal to `d` only matters when no earlier entry is equal to `d`. */
  lemma {:induction false} FirstEqualAppend(rs: seq<DeviceRecord>, d: DeviceRecord)
    ensures FirstEqual(rs + [d], d) == if FirstEqual(rs, d).Some? then FirstEqual(rs, d) else Some(|rs|)
  {
    if rs == [] {
      assert rs + [d] == [d];
    } else {
      assert (rs + [d])[0] == rs[0];
      assert (rs + [d])[1..] == rs[1..] + [d];
      FirstEqualAppend(rs[1..], d);
    }
  }

  /**
   * No deduplication: adding a device that is already listed and then
   * removing it removes the older entry and keeps the new one at the end.
   */
  lemma AddThenRemove<T>(xs: seq<T>, x: T, rs: seq<DeviceRecord>, d: DeviceRecord)
    requires |xs| == |rs|
    ensures var i := FirstEqual(rs + [d], d);
      && (FirstEqual(rs, d).None? ==> RemoveAt(xs + [x], i) == xs)
      && (FirstEqual(rs, d).Some? ==>
            RemoveAt(xs + [x], i) == RemoveAt(xs, FirstEqual(rs, d)) + [x])
  {
    FirstEqualAppend(rs, d);
    match FirstEqual(rs, d)
    case None =>
      assert (xs + [x])[..|xs|] == xs;
    case Some(k) =>
      assert (xs + [x])[..k] == xs[..k];
      assert (xs + [x])[k + 1..] == xs[k + 1..] + [x];
  }

  // ---------------------------------------------------------------------
  // Routing a manually entered address
  // ---------------------------------------------------------------------

  /** Local IPv4 addresses go to HTTP on the default port, anything else to HTTPS. */
  function ManualUrlString(address: string): string
  {
    match ParseIpv4(address)
    case Some(n) =>
      if IsLocal(n) then "http://" + address + ":" + NatToDecimal(EblockerDefaultPort)
      else "https://" + address
    case None => "https://" + address
  }

  lemma DefaultPortSpelling()
    ensures NatToDecimal(EblockerDefaultPort) == "3000"
  {
    assert NatToDecimal(3) == "3";
    assert NatToDecimal(30) == "30";
    assert NatToDecimal(300) == "300";
  }

  /** HTTP on port 3000 exactly for a local IPv4 address; HTTPS on its default port otherwise. */
  lemma ManualUrlRouting(address: string)
    ensures var local := ParseIpv4(address).Some? && IsLocal(ParseIpv4(address).value);
      && (local <==> ManualUrlString(address) == "http://" + address + ":3000")
      && (!local <==> ManualUrlString(address) == "https://" + address)
  {
    DefaultPortSpelling();
    var http := "http://" + address + ":3000";
    var https := "https://" + address;
    assert http[4] == ':' && https[4] == 's';
  }

  /** A parsed address in a local network gets the HTTP URL on the default port. */
  lemma ManualUrlOfLocal(address: string, n: U32)
    requires ParseIpv4(address) == Some(n) && IsLocal(n)
    ensures ManualUrlString(address) == "http://" + address + ":3000"
  {
    ManualUrlRouting(address);
  }

  /** A host name is no IPv4 address and goes to HTTPS. */
  lemma ManualUrlOfHostName()
    ensures ManualUrlString("fritz.box") == "https://fritz.box"
  {
    RejectsTwoParts();
  }

  /** The device made for a manually entered address. */
  function ManualDevice(address: string): (d: DeviceRecord)
    ensures d.name == "eBlocker" && d.createdManually && d.ipAddress == Some(address)
    ensures d.url == Url(ManualUrlString(address))
    ensures d.state == DeviceState.Unknown && d.registrationState == RegistrationState.Unknown
    ensures d.osVersion.None? && d.productName.None?
  {
    NewRecord("eBlocker", Url(ManualUrlString(address))).(createdManually := true, ipAddress := Some(address))
  }

  // ---------------------------------------------------------------------
  // What a row shows
  // ---------------------------------------------------------------------

  /** The text of the state-or-product label, as a tag per message. */
  datatype StateLabel =
    | ProductNameLabel(productName: string)
    | NotRegisteredLabel
    | ConnectingLabel
    | BootingLabel
    | ErrorLabel
    | OfflineLabel
    | InstallingUpdateLabel
    | ShuttingDownLabel
    | RebootingLabel

  function StateLabelOf(d: DeviceRecord): StateLabel
  {
    match d.state
    case Running =>
      (match d.productName
       case Some(p) => ProductNameLabel(p)
       case None => NotRegisteredLabel)
    case Unknown => ConnectingLabel
    case Booting => BootingLabel
    case Error => ErrorLabel
    case Offline => OfflineLabel
    case Updating => InstallingUpdateLabel
    case ShuttingDown => ShuttingDownLabel
    case ShuttingDownForReboot => RebootingLabel
  }

  predicate SpinnerAnimating(state: DeviceState)
  {
    match state
    case Running | Error | Offline => false
    case _ => true
  }

  /** The version label: "eOS " and the version, or the unknown-version text. */
  function VersionLabel(d: DeviceRecord): Option<string>
  {
    match d.osVersion
    case Some(v) => Some("eOS " + v)
    case None => None
  }

  /** The version label tells the versions apart, and shows none exactly when the version is unknown. */
  lemma VersionLabelShowsVersion(d: DeviceRecord, e: DeviceRecord)
    ensures VersionLabel(d).None? <==> d.osVersion.None?
    ensures VersionLabel(d) == VersionLabel(e) ==> d.osVersion == e.osVersion
  {
    if VersionLabel(d) == VersionLabel(e) && d.osVersion.Some? {
      assert d.osVersion.value == VersionLabel(d).value[4..];
      assert e.osVersion.value == VersionLabel(e).value[4..];
    }
  }

  predicate LicenseButtonHidden(d: DeviceRecord)
  {
    !(d.registrationState == New && d.state == Running)
  }

  predicate AlternativeViewHidden(d: DeviceRecord)
  {
    !LicenseButtonHidden(d)
  }

  /**
   * The spinner stops exactly in the settled states, which are the ones whose
   * label is final: the product name, "not registered", "Error" or "Offline".
   */
  lemma SpinnerStopsWhenSettled(d: DeviceRecord)
    ensures !SpinnerAnimating(d.state) <==> d.state == Running || d.state == Error || d.state == Offline
    ensures !SpinnerAnimating(d.state) <==>
      StateLabelOf(d).ProductNameLabel? || StateLabelOf(d) == NotRegisteredLabel
      || StateLabelOf(d) == ErrorLabel || StateLabelOf(d) == OfflineLabel
  {
  }

  /** A running device shows its product name, or "not registered" when it has none. */
  lemma RunningLabel(d: DeviceRecord)
    requires d.state == Running
    ensures d.productName.Some? ==> StateLabelOf(d) == ProductNameLabel(d.productName.value)
    ensures d.productName.None? ==> StateLabelOf(d) == NotRegisteredLabel
  {
  }

  /**
   * The license button shows exactly for a new registration on a running
   * device; then the spinner is stopped. The alternative view shows exactly
   * when the button does not.
   */
  lemma LicenseButtonRule(d: DeviceRecord)
    ensures !LicenseButtonHidden(d) <==> d.registrationState == New && d.state == Running
    ensures !LicenseButtonHidden(d) ==> !SpinnerAnimating(d.state)
    ensures AlternativeViewHidden(d) != LicenseButtonHidden(d)
  {
  }

  // ---------------------------------------------------------------------
  // The controller
  // ---------------------------------------------------------------------

  /** The "eBlocker not found" alert, with the device its OK button removes. */
  datatype Alert = DeviceNotFoundAlert(device: EblockerDevice, address: string)

  class DeviceListController {
    var devices: seq<EblockerDevice>
    var showingDeviceNotFoundAlert: bool
    /** The alert on screen, if any. */
    var presentedAlert: Option<Alert>
    /** Whether the refresh timer is scheduled. */
    var refreshTimerScheduled: bool
    /** Every `updateEblockerDeviceData` call, in order. */
    var updateRequests: seq<EblockerDevice>

    /** The flag says whether an alert is up. */
    predicate Valid()
      reads this
    {
      showingDeviceNotFoundAlert <==> presentedAlert.Some?
    }

    constructor()
      ensures Valid()
      ensures devices == [] && updateRequests == []
      ensures !showingDeviceNotFoundAlert && !refreshTimerScheduled
    {
      devices := [];
      showingDeviceNotFoundAlert := false;
      presentedAlert := None;
      refreshTimerScheduled := false;
      updateRequests := [];
    }

    method StartScanning()
      modifies this
      ensures refreshTimerScheduled
      ensures devices == old(devices) && updateRequests == old(updateRequests)
      ensures showingDeviceNotFoundAlert == old(showingDeviceNotFoundAlert) && presentedAlert == old(presentedAlert)
    {
      refreshTimerScheduled := true;
    }

    method StopScanning()
      modifies this
      ensures !refreshTimerScheduled
      ensures devices == old(devices) && updateRequests == old(updateRequests)
      ensures showingDeviceNotFoundAlert == old(showingDeviceNotFoundAlert) && presentedAlert == old(presentedAlert)
    {
      refreshTimerScheduled := false;
    }

    /** One update request per listed device, in list order. */
    method RefreshDevicesData()
      modifies this
      ensures updateRequests == old(updateRequests) + devices
      ensures devices == old(devices) && refreshTimerScheduled == old(refreshTimerScheduled)
      ensures showingDeviceNotFoundAlert == old(showingDeviceNotFoundAlert) && presentedAlert == old(presentedAlert)
    {
      for i := 0 to |devices|
        invariant devices == old(devices)
        invariant updateRequests == old(updateRequests) + devices[..i]
        invariant refreshTimerScheduled == old(refreshTimerScheduled)
        invariant showingDeviceNotFoundAlert == old(showingDeviceNotFoundAlert) && presentedAlert == old(presentedAlert)
      {
        assert devices[..i + 1] == devices[..i] + [devices[i]];
        updateRequests := updateRequests + [devices[i]];
      }
      assert devices[..|devices|] == devices;
    }

    /** The device goes at the end, even when an equal one is listed, and its data is requested. */
    method FoundEblockerDevice(device: EblockerDevice)
      modifies this
      ensures devices == old(devices) + [device]
      ensures updateRequests == old(updateRequests) + [device]
      ensures refreshTimerScheduled == old(refreshTimerScheduled)
      ensures showingDeviceNotFoundAlert == old(showingDeviceNotFoundAlert) && presentedAlert == old(presentedAlert)
    {
      devices := devices + [device];
      updateRequests := updateRequests + [device];
    }

    /** The first listed device equal to `device` is removed, if there is one. */
    method EblockerDeviceDisappeared(device: EblockerDevice)
      modifies this
      ensures devices == old(RemoveAt(devices, FirstEqual(Records(devices), device.Snapshot())))
      ensures updateRequests == old(updateRequests) && refreshTimerScheduled == old(refreshTimerScheduled)
      ensures showingDeviceNotFoundAlert == old(showingDeviceNotFoundAlert) && presentedAlert == old(presentedAlert)
    {
      var i := FirstEqual(Records(devices), device.Snapshot());
      if i.Some? {
        devices := devices[..i.value] + devices[i.value + 1..];
      }
    }

    /** Whether `deviceDataUpdated` puts up the alert for `device`. */
    predicate AlertsFor(device: EblockerDevice)
      reads this, devices, device
    {
      && FirstEqual(Records(devices), device.Snapshot()).Some?
      && device.createdManually
      && device.state == Offline
      && !showingDeviceNotFoundAlert
    }

    /**
     * `deviceDataUpdated`: a listed, manually created device that is offline
     * gets the alert unless one is already up. The alert force-unwraps the
     * device's IP address.
     */
    method DeviceDataUpdated(device: EblockerDevice)
      requires Valid()
      requires AlertsFor(device) ==> device.ipAddress.Some?
      modifies this
      ensures Valid()
      ensures old(AlertsFor(device)) ==>
        showingDeviceNotFoundAlert && presentedAlert == Some(DeviceNotFoundAlert(device, device.ipAddress.value))
      ensures !old(AlertsFor(device)) ==>
        showingDeviceNotFoundAlert == old(showingDeviceNotFoundAlert) && presentedAlert == old(presentedAlert)
      ensures devices == old(devices) && updateRequests == old(updateRequests)
      ensures refreshTimerScheduled == old(refreshTimerScheduled)
    {
      var i := FirstEqual(Records(devices), device.Snapshot());
      if i.Some? {
        if device.createdManually && device.state == Offline {
          ShowDeviceNotFoundAlert(device);
        }
      }
    }

    method ShowDeviceNotFoundAlert(device: EblockerDevice)
      requires Valid()
      requires !showingDeviceNotFoundAlert ==> device.ipAddress.Some?
      modifies this
      ensures Valid()
      ensures old(showingDeviceNotFoundAlert) ==> presentedAlert == old(presentedAlert)
      ensures !old(showingDeviceNotFoundAlert) ==> presentedAlert == Some(DeviceNotFoundAlert(device, device.ipAddress.value))
      ensures devices == old(devices) && updateRequests == old(updateRequests)
      ensures refreshTimerScheduled == old(refreshTimerScheduled)
    {
      if showingDeviceNotFoundAlert {
        return;
      }
      var alert := DeviceNotFoundAlert(device, device.ipAddress.value);
      showingDeviceNotFoundAlert := true;
      presentedAlert := Some(alert);
    }

    /** The OK button of the alert: the flag is cleared and the device removed. */
    method AlertConfirmed()
      requires Valid() && presentedAlert.Some?
      modifies this
      ensures Valid() && !showingDeviceNotFoundAlert
      ensures devices == old(RemoveAt(devices, FirstEqual(Records(devices), presentedAlert.value.device.Snapshot())))
      ensures updateRequests == old(updateRequests) && refreshTimerScheduled == old(refreshTimerScheduled)
    {
      var device := presentedAlert.value.device;
      showingDeviceNotFoundAlert := false;
      presentedAlert := None;
      EblockerDeviceDisappeared(device);
    }

    /** `ipAddressEntered`: a manual device for the address is added like a found one. */
    method IpAddressEntered(address: string)
      modifies this
      ensures |devices| == |old(devices)| + 1 && devices[..|old(devices)|] == old(devices)
      ensures var device := devices[|devices| - 1];
        fresh(device) && device.Snapshot() == ManualDevice(address)
      ensures updateRequests == old(updateRequests) + [devices[|devices| - 1]]
      ensures showingDeviceNotFoundAlert == old(showingDeviceNotFoundAlert) && presentedAlert == old(presentedAlert)
      ensures refreshTimerScheduled == old(refreshTimerScheduled)
    {
      var urlString := "https://" + address;
      var addressNum := Ipv4ToInt(address);
      if addressNum.Some? {
        var local := IsLocalIpv4Address(addressNum.value);
        if local {
          urlString := "http://" + address + ":" + NatToDecimal(EblockerDefaultPort);
        }
      }
      var device := new EblockerDevice("eBlocker", Url(urlString));
      device.createdManually := true;
      device.ipAddress := Some(address);
      FoundEblockerDevice(device);
      assert devices[..|old(devices)|] == old(devices);
    }
  }
}
