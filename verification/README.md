# eBlocker device discovery and status, in Dafny

This project models the core of the eBlocker iOS app: the logic that finds
eBlocker devices on the local network, asks each one for its status, and
keeps the device list the app shows. It has five modules, one per source file,
plus `Wrappers` (an `Option` type).

- `IpUtils` covers `ipv4ToInt`, `LocalIpv4Network` and `isLocalIpv4Address`.
  - Swift's `split(separator: ".")` drops empty pieces, and the model does too.
  - Swift's `UInt32(String)` parse is modelled with its sign rules.
  - Swift's smart shifts are modelled.
  - Swift's overflow traps are modelled.
  - `ipv4ToInt` and `isLocalIpv4Address` are loops with early returns. Each is proved against a reference function.
- `Device` covers the two state enums and their wire names, and the device record with its identity equality, dashboard URL and key. It also holds the class `EblockerDevice`, whose fields other code updates in place.
- `ApiClient` covers the status reconciler:
  - classifying a response the way `get` does;
  - `normalize` of product names;
  - `processResults`.
  - One run of `updateEblockerDeviceData` becomes a state machine. Its events are request completions, which arrive one at a time in any order. The class `DeviceDataUpdate` mirrors the `results` accumulator that the completion closures share.
- `Scanner` covers the Bonjour scanner's `services` set and `devices` map, with the find, resolve and remove handlers.
- `DeviceList` covers the device list controller without its views:
  - the `devices` array;
  - the alert flag;
  - the refresh fan-out;
  - routing of a manually entered address;
  - what a row shows.
  - Delegate calls into the API client are logged in `updateRequests`.

Three behaviours of the code that are easy to miss:

- When a service resolves, the device uses the **last** IPv4 address in the list. Each IPv4 hit overwrites the one before.
- Found devices are **not** deduplicated. `foundEblockerDevice` always appends. `AddThenRemove` shows what a later removal then does.
- `ipv4ToInt` ignores empty pieces, so `"1..2.3.4"` parses. A part may also carry a leading `+`, or be `-0`, because Swift's `UInt32` parser accepts both.

## Model

| member | source | states |
|---|---|---|
| IpUtils.Split | ios/eBlocker/eBlocker/IpUtils.swift:39 | Every piece of the split is non-empty and free of dots. |
| IpUtils.SplitJoinDots | ios/eBlocker/eBlocker/IpUtils.swift:39 | Splitting non-empty, dot-free pieces joined with dots gives back exactly those pieces. |
| IpUtils.SplitDropsEmptyPieces | ios/eBlocker/eBlocker/IpUtils.swift:39 | A doubled dot leaves no empty piece, so `a..b.c.d` has the four parts a, b, c and d. |
| IpUtils.ParseNatToDecimal | ios/eBlocker/eBlocker/IpUtils.swift:43 | Parsing the decimal spelling of any 32-bit value gives that value back. |
| IpUtils.ParseUInt32Signs | ios/eBlocker/eBlocker/IpUtils.swift:43 | The integer parse accepts "+42" and "-0", and rejects "-1" and a lone "+". |
| IpUtils.ParseRejectsPart | ios/eBlocker/eBlocker/IpUtils.swift:43-44 | If any of the four parts does not parse or is 256 or more, the address is rejected. |
| IpUtils.ShiftLeftNoOverflow | ios/eBlocker/eBlocker/IpUtils.swift:45-46 | A left shift whose exact product still fits in 32 bits loses no bits, so it multiplies by a power of two. |
| IpUtils.OctetGuard | ios/eBlocker/eBlocker/IpUtils.swift:42-44 | The loop guard rejects exactly the parts that are not octets, and a part that passes extends the octets read so far by its value. |
| IpUtils.ParseIpv4OfOctets | ios/eBlocker/eBlocker/IpUtils.swift:38-49 | Four parts that spell four octets parse to those octets packed big-endian. |
| IpUtils.PackPrefixBound | ios/eBlocker/eBlocker/IpUtils.swift:41-47 | After k octets the running sum still leaves room for 2^(8(4-k)) more, so the sum stays below 2^32. |
| IpUtils.PackStep | ios/eBlocker/eBlocker/IpUtils.swift:45-46 | One pass of `result += num << offset` adds the next octet in its big-endian place, with no overflow trap. |
| IpUtils.Ipv4ToInt | ios/eBlocker/eBlocker/IpUtils.swift:38-49 | The loop with its early returns gives nil unless there are exactly four parts and each is an octet. Otherwise it returns p0·2^24 + p1·2^16 + p2·2^8 + p3. |
| IpUtils.ParseFourOctets | ios/eBlocker/eBlocker/IpUtils.swift:38-49 | Whatever four octets the four parts spell are packed big-endian. |
| IpUtils.ParseDottedQuad | ios/eBlocker/eBlocker/IpUtils.swift:38-49 | Parsing a printed dotted quad gives back the packed value of its octets. |
| IpUtils.UnpackPack | ios/eBlocker/eBlocker/IpUtils.swift:45-46 | The four octets can be recovered from the packed value. |
| IpUtils.PackInjective | ios/eBlocker/eBlocker/IpUtils.swift:45-46 | Distinct octet quadruples pack to distinct integers. |
| IpUtils.ParsesPrivateAddress | ios/eBlocker/eBlockerTests/IpUtilsTests.swift:22-23 | "192.168.23.42" parses to 3232241450. |
| IpUtils.ParsesZeroAddress | ios/eBlocker/eBlockerTests/IpUtilsTests.swift:25 | "0.0.0.0" parses to 0. |
| IpUtils.ParsesBroadcastAddress | ios/eBlocker/eBlockerTests/IpUtilsTests.swift:26 | "255.255.255.255" parses to 0xFFFFFFFF. |
| IpUtils.ParsesOnesAddress | ios/eBlocker/eBlockerTests/IpUtilsTests.swift:27 | "1.1.1.1" parses to 0x01010101. |
| IpUtils.ParsesNinesAddress | ios/eBlocker/eBlockerTests/IpUtilsTests.swift:28 | "9.9.9.9" parses to 0x09090909. |
| IpUtils.RejectsThreeParts | ios/eBlocker/eBlockerTests/IpUtilsTests.swift:30 | "192.168.0" is rejected because it has three parts. |
| IpUtils.RejectsOctet256 | ios/eBlocker/eBlockerTests/IpUtilsTests.swift:31 | "192.168.0.256" is rejected because its last part is not an octet. |
| IpUtils.RejectsDomainName | ios/eBlocker/eBlockerTests/IpUtilsTests.swift:32 | "www.google.com" is rejected. |
| IpUtils.RejectsTwoParts | ios/eBlocker/eBlockerTests/IpUtilsTests.swift:33 | "fritz.box" is rejected. |
| IpUtils.RejectsHostName | ios/eBlocker/eBlockerTests/IpUtilsTests.swift:34 | "localhost" is rejected. |
| IpUtils.NetworkOf | ios/eBlocker/eBlocker/IpUtils.swift:55-58 | The initializer keeps the parsed address and the prefix length. It may only be given an address that parses, because it force-unwraps. |
| IpUtils.ParsesNetwork10 | ios/eBlocker/eBlocker/IpUtils.swift:67 | "10.0.0.0" parses, so the force-unwrap holds, and the network is 0x0A000000/8. |
| IpUtils.ParsesNetwork172 | ios/eBlocker/eBlocker/IpUtils.swift:68 | "172.16.0.0" parses, and the network is 0xAC100000/12. |
| IpUtils.ParsesNetwork192 | ios/eBlocker/eBlocker/IpUtils.swift:69 | "192.168.0.0" parses, and the network is 0xC0A80000/16. |
| IpUtils.ParsesNetwork169 | ios/eBlocker/eBlocker/IpUtils.swift:70 | "169.254.0.0" parses, and the network is 0xA9FE0000/16. |
| IpUtils.ContainsBlock | ios/eBlocker/eBlocker/IpUtils.swift:60-63 | For a prefix length from 0 to 32, `contains(a)` holds exactly when `a` agrees with the network address on the top prefix bits. Those addresses form the aligned block of 2^(32-prefix) addresses. |
| IpUtils.IsLocalIpv4Address | ios/eBlocker/eBlocker/IpUtils.swift:73-80 | The loop with its early return answers true exactly when some listed network contains the address. |
| IpUtils.IsLocalIffPrivateRange | ios/eBlocker/eBlocker/IpUtils.swift:66-80 | An address is local exactly when it lies in 10/8, 172.16/12, 192.168/16 or 169.254/16. |
| IpUtils.LocalTestAddresses | ios/eBlocker/eBlockerTests/IpUtilsTests.swift:37-47 | 10.10.10.10, 169.254.0.255, 192.168.42.23 and 172.23.1.55 are local. 9.10.10.10, 196.254.0.255, 192.169.42.23 and 172.32.0.0 are not. |
| Device.DeviceStateWireNames | ios/eBlocker/eBlocker/EblockerDevice.swift:20-32 | A raw string decodes to an execution state exactly when it is that state's case name. |
| Device.RegistrationStateWireNames | ios/eBlocker/eBlocker/EblockerDevice.swift:34-40 | A raw string decodes to a registration state exactly when it is that state's case name. |
| Device.NewRecord | ios/eBlocker/eBlocker/EblockerDevice.swift:52-58 | A new device keeps its name and URL. Both states are UNKNOWN, it is not manual, and it has no IP address, version or product name. |
| Device.EblockerDevice.constructor | ios/eBlocker/eBlocker/EblockerDevice.swift:52-58 | The fields of a new device object are those defaults. |
| Device.SameIdentityIsEquivalence | ios/eBlocker/eBlocker/EblockerDevice.swift:60-62 | Device equality is reflexive, symmetric and transitive. |
| Device.SameIdentityIgnoresOtherFields | ios/eBlocker/eBlocker/EblockerDevice.swift:60-62 | Changing any field other than the name and the URL does not change which devices a device equals. |
| Device.AppendingExtends | ios/eBlocker/eBlocker/EblockerDevice.swift:66 | Appending a path component gives exactly the URL, one '/' and the component: the URL is a prefix, '/' and the component are the suffix, and the length leaves nothing in between. A '/' that ends the URL is shared. |
| Device.DashboardUrlBelowUrl | ios/eBlocker/eBlocker/EblockerDevice.swift:64-68 | The dashboard URL is the device URL directly followed by "/dashboard/", sharing a '/' that ends the URL: the URL is a prefix, "/dashboard/" the suffix, and the exact length leaves nothing in between. |
| Device.KeyIsUrl | ios/eBlocker/eBlocker/EblockerDevice.swift:70-74 | Two devices have the same key exactly when they have the same URL. |
| ApiClient.ClassifySuccess | ios/eBlocker/eBlocker/EblockerApiClient.swift:143-166 | A response succeeds, with value v, exactly when it is HTTP 200 with a body that decodes to v. |
| ApiClient.ClassifyFailures | ios/eBlocker/eBlocker/EblockerApiClient.swift:146-161 | Each failure maps to its own error: transport error, missing HTTP status, `invalidHttpStatus(status)` for a status other than 200, or a decoding error for 200 with an undecodable body. |
| ApiClient.ClassifyNotFound | ios/eBlocker/eBlocker/EblockerApiClient.swift:88 | The legacy fallback is taken exactly for an HTTP 404. |
| ApiClient.CloseIndex | ios/eBlocker/eBlocker/EblockerApiClient.swift:170 | The lazy `.*?\)` ends at the first ')' that no line terminator precedes, and fails when there is no such ')'. |
| ApiClient.MatchLength | ios/eBlocker/eBlocker/EblockerApiClient.swift:170 | A match starts with " (" or "(" and ends at the first ')' after it, with no ')' or line terminator in between. A match exists whenever such a ')' follows. |
| ApiClient.Normalize | ios/eBlocker/eBlocker/EblockerApiClient.swift:168-171 | Removing the matches never makes the name longer. |
| ApiClient.NormalizeWithoutParen | ios/eBlocker/eBlocker/EblockerApiClient.swift:168-171 | A name without "(" is left unchanged. |
| ApiClient.NormalizeDropsSuffix | ios/eBlocker/eBlocker/EblockerApiClient.swift:168-171 | A parenthesised suffix after a space is removed along with the space. |
| ApiClient.NormalizeFamilyCube | ios/eBlocker/eBlocker/EblockerApiClient.swift:169 | "Family (Cube)" becomes "Family". |
| ApiClient.ApplyStatusFields | ios/eBlocker/eBlocker/EblockerApiClient.swift:109-116 | A status success sets the version and the state. An error sets the state to OFFLINE and leaves the version unchanged. |
| ApiClient.ApplyRegistrationFields | ios/eBlocker/eBlocker/EblockerApiClient.swift:118-129 | A registration success sets the registration state, the name only when it was sent, and the normalized product name only when it was sent. An error changes none of these fields. |
| ApiClient.ApplyKeepsConnectionFields | ios/eBlocker/eBlocker/EblockerApiClient.swift:107-132 | Processing never changes the URL, the IP address or the manual flag. |
| ApiClient.ApplyIdempotent | ios/eBlocker/eBlocker/EblockerApiClient.swift:107-132 | Processing the same outcomes twice leaves the same fields as processing them once. |
| ApiClient.ProcessResults | ios/eBlocker/eBlocker/EblockerApiClient.swift:107-132 | The device's new fields are those outcomes applied to its old fields. It needs both slots filled, because it force-unwraps them. |
| ApiClient.InitialCycleInv | ios/eBlocker/eBlocker/EblockerApiClient.swift:76-104 | A new cycle satisfies the cycle invariant. |
| ApiClient.StepInv | ios/eBlocker/eBlocker/EblockerApiClient.swift:79-104 | Each completion of an outstanding request preserves the cycle invariant. In that invariant, a slot is empty exactly while its request is outstanding. The two status requests are never outstanding together. Processing has happened once when nothing is outstanding, and not at all before. |
| ApiClient.RunInv | ios/eBlocker/eBlocker/EblockerApiClient.swift:79-104 | Any sequence of completions preserves the invariant and is no longer than the completions outstanding. |
| ApiClient.RunStatus | ios/eBlocker/eBlocker/EblockerApiClient.swift:86-99 | The status slot is written at most once, only while it is empty, and keeps what was written. |
| ApiClient.RunRegistration | ios/eBlocker/eBlocker/EblockerApiClient.swift:101-104 | The registration slot is written at most once, only while it is empty, and keeps what was written. |
| ApiClient.RunRequested | ios/eBlocker/eBlocker/EblockerApiClient.swift:86-94 | The legacy request is issued during a run exactly when the primary request answers 404 in it. |
| ApiClient.CycleProcessesOnce | ios/eBlocker/eBlocker/EblockerApiClient.swift:79-84 | Whatever order the completions arrive in, a finished cycle has run `processResults` exactly once, with the one status outcome and the one registration outcome it stored. |
| ApiClient.CycleProcessesOnlyWhenComplete | ios/eBlocker/eBlocker/EblockerApiClient.swift:79-84 | Nothing is processed while a request is outstanding, and a cycle has at most three completions. |
| ApiClient.LegacyRequestOnNotFound | ios/eBlocker/eBlocker/EblockerApiClient.swift:86-99 | The requests are the primary status and the registration, plus the legacy status exactly when the primary one answered 404. |
| ApiClient.StatusOutcomeIsFinal | ios/eBlocker/eBlocker/EblockerApiClient.swift:88-97 | A primary status outcome other than 404 is final. So is any legacy outcome, including a second 404. |
| ApiClient.DeviceDataUpdate.constructor | ios/eBlocker/eBlocker/EblockerApiClient.swift:69-77 | The three URLs are the device URL with the three paths appended. The cycle starts with both slots empty and the primary status and registration requests issued. |
| ApiClient.DeviceDataUpdate.Continuation | ios/eBlocker/eBlocker/EblockerApiClient.swift:79-84 | It processes, and so updates the device, only when both slots are filled. |
| ApiClient.DeviceDataUpdate.PrimaryStatusCompleted | ios/eBlocker/eBlocker/EblockerApiClient.swift:86-99 | On a 404 it clears the slot and issues the legacy request. Otherwise it stores the outcome and continues. The device changes as the cycle step says. |
| ApiClient.DeviceDataUpdate.LegacyStatusCompleted | ios/eBlocker/eBlocker/EblockerApiClient.swift:91-94 | It stores the legacy outcome and continues. |
| ApiClient.DeviceDataUpdate.RegistrationCompleted | ios/eBlocker/eBlocker/EblockerApiClient.swift:101-104 | It stores the registration outcome and continues. |
| Scanner.LastIpv4IsLast | ios/eBlocker/eBlocker/EblockerScanner.swift:47-54 | The chosen entry is IPv4 and no IPv4 entry follows it. There is none exactly when no entry is IPv4. |
| Scanner.ChooseAddress | ios/eBlocker/eBlocker/EblockerScanner.swift:45-54 | The loop settles on the last IPv4 address, and on none when the service has no addresses. |
| Scanner.IntToDecimalInjective | ios/eBlocker/eBlocker/EblockerScanner.swift:66 | Printing the port loses nothing. |
| Scanner.ServiceUrlStringInjective | ios/eBlocker/eBlocker/EblockerScanner.swift:66 | For hosts without ':', the URL string "http://host:port" determines the host and the port. |
| Scanner.ResolvedDevice | ios/eBlocker/eBlocker/EblockerScanner.swift:56-61 | A resolution yields a device exactly when its host name is present and starts with "eblocker". |
| Scanner.ResolvedDeviceAddress | ios/eBlocker/eBlocker/EblockerScanner.swift:43-71 | The device is named after the service. Its state and registration state are unknown, it has no version or product name, and it is not manual. With an IPv4 address, its IP and URL host are the last IPv4 address. Otherwise it has no IP and its URL host is the host name. |
| Scanner.EblockerScanner.constructor | ios/eBlocker/eBlocker/EblockerScanner.swift:22-23 | A new scanner retains no services and has no devices. |
| Scanner.EblockerScanner.DidFind | ios/eBlocker/eBlocker/EblockerScanner.swift:36-41 | A found service is retained, and the devices are unchanged. |
| Scanner.EblockerScanner.DidResolve | ios/eBlocker/eBlocker/EblockerScanner.swift:43-76 | A non-eBlocker host yields no device and no map change. An eBlocker host yields a new device equal to the resolved record, stored under the service and returned for `foundEblockerDevice`. |
| Scanner.EblockerScanner.DidRemove | ios/eBlocker/eBlocker/EblockerScanner.swift:78-83 | The service leaves both collections, and every other service and device stays. The device stored for it is returned for `eblockerDeviceDisappeared` exactly when there was one. |
| DeviceList.FirstEqual | ios/eBlocker/eBlocker/MasterViewController.swift:243 | The index found is that of the first listed device equal to the given one. There is none exactly when no listed device is equal. |
| DeviceList.RemoveFirstEqual | ios/eBlocker/eBlocker/MasterViewController.swift:242-248 | Only the first equal entry is removed: the ones before it stay, the ones after move up by one, and nothing changes when none is equal. |
| DeviceList.FirstEqualAppend | ios/eBlocker/eBlocker/MasterViewController.swift:204 | An appended duplicate is found only when no earlier entry is equal. |
| DeviceList.AddThenRemove | ios/eBlocker/eBlocker/MasterViewController.swift:203-248 | Because found devices are not deduplicated, removing after re-adding an equal device removes the older entry and keeps the new one at the end. |
| DeviceList.DefaultPortSpelling | ios/eBlocker/eBlocker/MasterViewController.swift:22 | The default port prints as "3000". |
| DeviceList.ManualUrlRouting | ios/eBlocker/eBlocker/MasterViewController.swift:257-264 | The manual URL is "http://addr:3000" exactly when the address parses as IPv4 and is local. Otherwise it is "https://addr". |
| DeviceList.ManualUrlOfLocal | ios/eBlocker/eBlocker/MasterViewController.swift:261-264 | A parsed local address gets the HTTP URL on port 3000. |
| DeviceList.ManualUrlOfHostName | ios/eBlocker/eBlocker/MasterViewController.swift:260 | "fritz.box" is routed to "https://fritz.box". |
| DeviceList.ManualDevice | ios/eBlocker/eBlocker/MasterViewController.swift:266-270 | A manual device is named "eBlocker", is manual, has the entered address as its IP and has the routed URL. Its other fields keep their defaults. |
| DeviceList.VersionLabelShowsVersion | ios/eBlocker/eBlocker/MasterViewController.swift:130-135 | The version label shows the unknown-version text exactly when the version is unknown, and different versions show differently. |
| DeviceList.SpinnerStopsWhenSettled | ios/eBlocker/eBlocker/MasterViewController.swift:146-171 | The spinner stops exactly for RUNNING, ERROR and OFFLINE. Those are exactly the states whose label is the product name, "not registered", "Error" or "Offline". |
| DeviceList.RunningLabel | ios/eBlocker/eBlocker/MasterViewController.swift:148-153 | A running device shows its product name, or "not registered" when it has none. |
| DeviceList.LicenseButtonRule | ios/eBlocker/eBlocker/MasterViewController.swift:173-180 | The license button shows exactly for a NEW registration on a RUNNING device, and the spinner is then stopped. The alternative view shows exactly when the button does not. |
| DeviceList.DeviceListController.constructor | ios/eBlocker/eBlocker/MasterViewController.swift:25-30 | The list is empty, no alert is up and no timer is scheduled. |
| DeviceList.DeviceListController.StartScanning | ios/eBlocker/eBlocker/MasterViewController.swift:80-85 | The refresh timer is scheduled, and nothing else changes. |
| DeviceList.DeviceListController.StopScanning | ios/eBlocker/eBlocker/MasterViewController.swift:87-92 | The refresh timer is cancelled, and nothing else changes. |
| DeviceList.DeviceListController.RefreshDevicesData | ios/eBlocker/eBlocker/MasterViewController.swift:94-98 | One update is requested per listed device, in list order. |
| DeviceList.DeviceListController.FoundEblockerDevice | ios/eBlocker/eBlocker/MasterViewController.swift:203-211 | The device is appended even when an equal one is already listed, and its data is requested. |
| DeviceList.DeviceListController.EblockerDeviceDisappeared | ios/eBlocker/eBlocker/MasterViewController.swift:242-248 | The first listed device equal to the given one is removed, if there is one. |
| DeviceList.DeviceListController.DeviceDataUpdated | ios/eBlocker/eBlocker/MasterViewController.swift:214-224 | The alert goes up exactly for a listed, manual, offline device while no alert is up, and carries the device's address. Otherwise nothing changes. |
| DeviceList.DeviceListController.ShowDeviceNotFoundAlert | ios/eBlocker/eBlocker/MasterViewController.swift:226-240 | The call does nothing while an alert is up. Otherwise it sets the flag and presents the alert for the device. |
| DeviceList.DeviceListController.AlertConfirmed | ios/eBlocker/eBlocker/MasterViewController.swift:234-237 | OK clears the flag and removes the first device equal to the alert's device. |
| DeviceList.DeviceListController.IpAddressEntered | ios/eBlocker/eBlocker/MasterViewController.swift:257-272 | A new manual device for the address, with the routed URL, is appended and its data requested. |

## Left out

- `unpackIpv4Address` calls `sockaddr` loads and `inet_ntoa`, which are foreign. The scanner instead receives each resolved address already decoded, as an optional dotted-quad string.
- URLSession, its configuration and timeouts, data tasks and JSON decoding are left out. A response is given as transport error, non-HTTP response, or HTTP status with an optional decoded body. The force-unwrap of `data!` on a 200 is not modelled.
- Real concurrency is left out: the completion closures running on URLSession queues, and `DispatchQueue.main.async`. Completions are events delivered one at a time, in any order.
- The `processed` log stands for the `deviceDataUpdated` notification. Each call of `processResults` makes one entry.
- NetServiceBrowser, the resolve timeouts, and the scanner's `start` and `stop` are left out. They are operating-system plumbing; services are opaque identities.
- UIKit is left out: table reloads, `updateHints`, the hints view, web views, the help link, NotificationCenter observers and `asyncAfter`. The localized texts become tags (`StateLabel`, and `None` for the unknown version). The repeating Timer is a flag, and a firing is a call of `RefreshDevicesData`.
- The row-delete handler is left out. `canEditRowAt` returns false, so it cannot run.
- EnterIpAddressViewController is not part of this model. Its only logic is trimming whitespace before `ipAddressEntered`.
- `URL(string:)` is taken to succeed, so the branches where a URL fails to build are not modelled.
- AppendingPathComponent: Foundation's `appendingPathComponent` is simplified to joining with exactly one '/'.
- A URL is its absolute string.
- Split, IsEblockerHost, SameIdentity: strings are sequences of Unicode scalars. Swift's `split(separator:)`, `starts(with:)` and `==` work on grapheme clusters under canonical equivalence; the model compares scalars one by one. For example, "e\u{301}" and "\u{E9}" are different names here, and a host name such as "eblocker\u{301}x" is accepted, though Swift rejects it.
- Normalize: the regular expression engine is modelled only for the pattern ` ?\(.*?\)`, removing leftmost, non-overlapping matches. Characters are Unicode scalars, not UTF-16 units or grapheme clusters.
- LocalTestAddresses: the `isLocalIpv4Address` test vectors are stated on packed values. Parsing their strings is covered by the same lemmas that cover the `ipv4ToInt` vectors.
- The port is an unbounded integer. Its fixed machine width is not modelled. The `%d` formatting of the constant port 3000 is modelled only as printing a whole number.
