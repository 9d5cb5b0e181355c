/**
 * The Bonjour scanner: it retains the services it finds, turns each resolved
 * service whose host name starts with "eblocker" into a device, and forgets
 * the service and its device when the service goes away.
 *
 * A service is an opaque identity. What resolution tells about it (name, host
 * name, port and addresses) is passed in as a `Resolution`, with every
 * address already decoded into its dotted-quad string when it is IPv4.
 */
module Scanner {
  import opened Wrappers
  import opened IpUtils
  import opened Device

  datatype Service = Service(id: nat)

  /** What resolving a service produced; an address is `None` when it is not IPv4. */
  datatype Resolution = Resolution(
    name: string,
    hostName: Option<string>,
    port: int,
    addresses: Option<seq<Option<string>>>)

  // ---------------------------------------------------------------------
  // Choosing the address
  // ---------------------------------------------------------------------

  /** The last IPv4 address of the list, if there is one. */
  function LastIpv4(xs: seq<Option<string>>): Option<string>
  {
    if xs == [] then None
    else if xs[|xs| - 1].Some? then xs[|xs| - 1]
    else LastIpv4(xs[..|xs| - 1])
  }

  /** `LastIpv4` picks the entry after which no IPv4 address follows, and is absent only when none is IPv4. */
  lemma {:induction false} LastIpv4IsLast(xs: seq<Option<string>>)
    ensures LastIpv4(xs).None? <==> forall i | 0 <= i < |xs| :: xs[i].None?
    ensures LastIpv4(xs).Some? ==>
      exists i | 0 <= i < |xs| :: xs[i] == LastIpv4(xs) && forall j | i < j < |xs| :: xs[j].None?
    decreases |xs|
  {
    if xs != [] && xs[|xs| - 1].None? {
      var front := xs[..|xs| - 1];
      LastIpv4IsLast(front);
      if LastIpv4(xs).Some? {
        var i :| 0 <= i < |front| && front[i] == LastIpv4(front) && forall j | i < j < |front| :: front[j].None?;
        assert xs[i] == LastIpv4(xs) && forall j | i < j < |xs| :: xs[j].None?;
      } else {
        assert forall i | 0 <= i < |xs| :: xs[i].None? by {
          forall i | 0 <= i < |xs|
            ensures xs[i].None?
          {
            if i < |front| {
              assert front[i] == xs[i];
            }
          }
        }
      }
    }
  }

  /** The address the loop settles on: the last IPv4 one, none when the service has no addresses. */
  function ChosenAddress(addresses: Option<seq<Option<string>>>): Option<string>
  {
    match addresses
    case None => None
    case Some(xs) => LastIpv4(xs)
  }

  /** The loop over the addresses: every IPv4 hit overwrites the previous one. */
  method ChooseAddress(addresses: Option<seq<Option<string>>>) returns (ipAddress: Option<string>)
    ensures ipAddress == ChosenAddress(addresses)
  {
    ipAddress := None;
    if addresses.Some? {
      var xs := addresses.value;
      for i := 0 to |xs|
        invariant ipAddress == LastIpv4(xs[..i])
      {
        assert xs[..i + 1][..i] == xs[..i];
        if xs[i].Some? {
          ipAddress := xs[i];
        }
      }
      assert xs[..|xs|] == xs;
    }
  }

  // ---------------------------------------------------------------------
  // The device URL
  // ---------------------------------------------------------------------

  /** Swift's `String(n)` for an `Int`. */
  function IntToDecimal(n: int): (s: string)
    ensures s != []
  {
    if n < 0 then "-" + NatToDecimal(-n) else NatToDecimal(n)
  }

  /** Printing an integer loses nothing. */
  lemma IntToDecimalInjective(m: int, n: int)
    requires IntToDecimal(m) == IntToDecimal(n)
    ensures m == n
  {
    var s := IntToDecimal(m);
    assert (s[0] == '-') == (m < 0);
    assert (s[0] == '-') == (n < 0);
    if m < 0 {
      assert s[1..] == NatToDecimal(-m);
      assert s[1..] == NatToDecimal(-n);
    }
  }

  function ServiceUrlString(host: string, port: int): string
  {
    "http://" + host + ":" + IntToDecimal(port)
  }

  predicate ColonFree(s: string)
  {
    forall i | 0 <= i < |s| :: s[i] != ':'
  }

  /** Index of the first ':' in `s`, or `|s|` when there is none. */
  function FirstColon(s: string): nat
  {
    if s == [] || s[0] == ':' then 0 else 1 + FirstColon(s[1..])
  }

  lemma {:induction false} FirstColonAfter(h: string, d: string)
    requires ColonFree(h)
    ensures FirstColon(h + ":" + d) == |h|
  {
    if h != [] {
      assert (h + ":" + d)[1..] == h[1..] + ":" + d;
      FirstColonAfter(h[1..], d);
    } else {
      assert h + ":" + d == ":" + d;
    }
  }

  /** The first ':' separates a colon-free head from the rest. */
  lemma SplitAtColon(h: string, d: string, h': string, d': string)
    requires ColonFree(h) && ColonFree(h')
    requires h + ":" + d == h' + ":" + d'
    ensures h == h' && d == d'
  {
    var s := h + ":" + d;
    FirstColonAfter(h, d);
    FirstColonAfter(h', d');
    assert h == s[..|h|] == h';
    assert d == s[|h| + 1..] == d';
  }

  /** Removing the scheme leaves what followed it. */
  lemma DropScheme(u: string, u': string)
    requires "http://" + u == "http://" + u'
    ensures u == u'
  {
    assert u == ("http://" + u)[7..];
    assert u' == ("http://" + u')[7..];
  }

  /** For a host without ':', the URL string determines the host and the port. */
  lemma ServiceUrlStringInjective(h: string, p: int, h': string, p': int)
    requires ColonFree(h) && ColonFree(h')
    requires ServiceUrlString(h, p) == ServiceUrlString(h', p')
    ensures h == h' && p == p'
  {
    var d, d' := IntToDecimal(p), IntToDecimal(p');
    assert ServiceUrlString(h, p) == "http://" + (h + ":" + d);
    assert ServiceUrlString(h', p') == "http://" + (h' + ":" + d');
    DropScheme(h + ":" + d, h' + ":" + d');
    SplitAtColon(h, d, h', d');
    IntToDecimalInjective(p, p');
  }

  // ---------------------------------------------------------------------
  // The resolve rule
  // ---------------------------------------------------------------------

  /** Only hosts whose name starts with "eblocker" are eBlocker devices. */
  predicate IsEblockerHost(res: Resolution)
  {
    res.hostName.Some? && "eblocker" <= res.hostName.value
  }

  /** The device a resolution yields: named after the service, at the chosen address or else the host name. */
  function ResolvedDevice(res: Resolution): (d: Option<DeviceRecord>)
    ensures d.Some? <==> IsEblockerHost(res)
  {
    if !IsEblockerHost(res) then None
    else
      var ip := ChosenAddress(res.addresses);
      var host := ip.GetOr(res.hostName.value);
      Some(NewRecord(res.name, Url(ServiceUrlString(host, res.port))).(ipAddress := ip))
  }

  /**
   * The URL of a resolved device names the last IPv4 address when there is one,
   * which is then also its IP address, and the host name otherwise, with no IP address.
   */
  lemma ResolvedDeviceAddress(res: Resolution)
    requires IsEblockerHost(res)
    ensures var d := ResolvedDevice(res).value;
      && d.name == res.name
      && d.state == DeviceState.Unknown && d.registrationState == RegistrationState.Unknown
      && d.osVersion.None? && d.productName.None? && !d.createdManually
      && (res.addresses.Some? && (exists i | 0 <= i < |res.addresses.value| :: res.addresses.value[i].Some?) ==>
            && d.ipAddress.Some?
            && d.url == Url(ServiceUrlString(d.ipAddress.value, res.port))
            && (exists i | 0 <= i < |res.addresses.value| ::
                  res.addresses.value[i] == d.ipAddress
                  && forall j | i < j < |res.addresses.value| :: res.addresses.value[j].None?))
      && (res.addresses.None? || (forall i | 0 <= i < |res.addresses.value| :: res.addresses.value[i].None?) ==>
            d.ipAddress.None? && d.url == Url(ServiceUrlString(res.hostName.value, res.port)))
  {
    if res.addresses.Some? {
      LastIpv4IsLast(res.addresses.value);
    }
  }

  // ---------------------------------------------------------------------
  // The scanner object
  // ---------------------------------------------------------------------

  class EblockerScanner {
    /** The services found so far; retained so that they can resolve. */
    var services: set<Service>
    /** The device made for each resolved eBlocker service. */
    var devices: map<Service, EblockerDevice>

    constructor()
      ensures services == {} && devices == map[]
    {
      services := {};
      devices := map[];
    }

    /** `didFind`: the service is retained while it resolves. */
    method DidFind(service: Service)
      modifies this
      ensures services == old(services) + {service}
      ensures devices == old(devices)
    {
      services := services + {service};
    }

    /**
     * `netServiceDidResolveAddress`: the device made for the service, if any,
     * which is stored under the service and passed to `foundEblockerDevice`.
     */
    method DidResolve(service: Service, res: Resolution) returns (found: Option<EblockerDevice>)
      modifies this
      ensures services == old(services)
      ensures found.None? <==> ResolvedDevice(res).None?
      ensures found.None? ==> devices == old(devices)
      ensures found.Some? ==>
        && fresh(found.value)
        && found.value.Snapshot() == ResolvedDevice(res).value
        && devices == old(devices)[service := found.value]
    {
      var ipAddress := ChooseAddress(res.addresses);
      var addressOrHost := ipAddress;
      if res.hostName.None? {
        return None;
      }
      var hostName := res.hostName.value;
      if !("eblocker" <= hostName) {
        return None;
      }
      if addressOrHost.None? {
        addressOrHost := Some(hostName);
      }
      var urlString := "http://" + addressOrHost.value + ":" + IntToDecimal(res.port);
      var device := new EblockerDevice(res.name, Url(urlString));
      device.ipAddress := ipAddress;
      devices := devices[service := device];
      return Some(device);
    }

    /**
     * `didRemove`: the device stored for the service, if any, disappears with
     * it; every other service and its device stay as they were.
     */
    method DidRemove(service: Service) returns (disappeared: Option<EblockerDevice>)
      modifies this
      ensures services == old(services) - {service}
      ensures devices == old(devices) - {service}
      ensures service !in services && service !in devices
      ensures forall s | s in old(services) && s != service :: s in services
      ensures forall s | s in old(devices) && s != service :: s in devices && devices[s] == old(devices)[s]
      ensures disappeared == (if service in old(devices) then Some(old(devices)[service]) else None)
    {
      services := services - {service};
      if service in devices {
        disappeared := Some(devices[service]);
        devices := devices - {service};
      } else {
        disappeared := None;
      }
    }
  }
}
