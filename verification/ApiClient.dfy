/**
 * The status reconciler of the app: one update cycle of a device asks the
 * device for its system status and its registration, falls back once to the
 * legacy status path when the current one answers 404, and writes the two
 * outcomes into the device once both have arrived.
 *
 * Completions arrive one at a time in any order; each is an `Event` of the
 * state machine `Step`, and the class `DeviceDataUpdate` is the accumulator
 * the completion handlers share.
 */
module ApiClient {
  import opened Wrappers
  import opened Device

  // ---------------------------------------------------------------------
  // Payloads, results and errors
  // ---------------------------------------------------------------------

  datatype SystemStatus = SystemStatus(executionState: DeviceState, projectVersion: string)

  datatype ProductInfo = ProductInfo(productName: string)

  /** `deviceName` and `productInfo` are only sent by a registered device. */
  datatype Registration = Registration(
    registrationState: RegistrationState,
    deviceName: Option<string>,
    productInfo: Option<ProductInfo>)

  /**
   * The errors a request can end with: the two the client raises itself, and
   * the transport and decoding errors of the platform, kept abstract.
   */
  datatype ApiError =
    | InvalidHttpStatus(status: int)
    | MissingHttpStatus
    | TransportError
    | DecodingError

  datatype ApiResult<T> = Success(value: T) | Failure(error: ApiError)

  /** The outcome that makes the client retry on the legacy path. */
  predicate IsNotFound<T>(r: ApiResult<T>)
  {
    r == Failure(InvalidHttpStatus(404))
  }

  const SystemStatusPath: string := "/api/adminconsole/systemstatus"
  const SystemStatusPathLegacy: string := "/api/systemstatus"
  const RegistrationPath: string := "/registration"

  // ---------------------------------------------------------------------
  // Classification of a response (`get`)
  // ---------------------------------------------------------------------

  /**
   * What the platform hands to the completion handler: a transport error, a
   * response that is not HTTP, or an HTTP status with the body decoded as
   * `T` (`None` when decoding fails).
   */
  datatype Response<T> =
    | TransportFailed
    | NotHttp
    | Http(statusCode: int, body: Option<T>)

  function Classify<T>(response: Response<T>): ApiResult<T>
  {
    match response
    case TransportFailed => Failure(TransportError)
    case NotHttp => Failure(MissingHttpStatus)
    case Http(code, body) =>
      if code == 200 then
        match body
        case Some(v) => Success(v)
        case None => Failure(DecodingError)
      else Failure(InvalidHttpStatus(code))
  }

  /** Only a 200 with a decodable body succeeds, and then with that body. */
  lemma ClassifySuccess<T>(response: Response<T>, v: T)
    ensures Classify(response) == Success(v) <==> response == Http(200, Some(v))
  {
  }

  /** Each way of failing gives its own error. */
  lemma ClassifyFailures<T>(response: Response<T>)
    ensures response.TransportFailed? ==> Classify(response) == Failure(TransportError)
    ensures response.NotHttp? ==> Classify(response) == Failure(MissingHttpStatus)
    ensures response.Http? && response.statusCode != 200 ==>
      Classify(response) == Failure(InvalidHttpStatus(response.statusCode))
    ensures response.Http? && response.statusCode == 200 && response.body.None? ==>
      Classify(response) == Failure(DecodingError)
  {
  }

  /** The fallback is taken exactly for an HTTP 404. */
  lemma ClassifyNotFound<T>(response: Response<T>)
    ensures IsNotFound(Classify(response)) <==> response.Http? && response.statusCode == 404
  {
  }

  // ---------------------------------------------------------------------
  // normalize: remove every match of ` ?\(.*?\)`
  // ---------------------------------------------------------------------

  /** The characters that the regular expression's '.' does not match. */
  predicate IsLineTerminator(c: char)
  {
    c == '\n' || c == '\U{000B}' || c == '\U{000C}' || c == '\r'
    || c == '\U{0085}' || c == '\U{2028}' || c == '\U{2029}'
  }

  predicate NoTerminatorBefore(t: string, k: nat)
    requires k <= |t|
  {
    forall j | 0 <= j < k :: !IsLineTerminator(t[j])
  }

  /** Where the lazy `.*?\)` ends: the first ')' not preceded by a line terminator. */
  function CloseIndex(t: string): (k: Option<nat>)
    ensures k.Some? ==> k.value < |t| && t[k.value] == ')' && NoTerminatorBefore(t, k.value)
    ensures k.Some? ==> forall j | 0 <= j < k.value :: t[j] != ')'
    ensures k.None? ==> forall i | 0 <= i < |t| && t[i] == ')' :: !NoTerminatorBefore(t, i)
  {
    if t == [] then None
    else if t[0] == ')' then Some(0)
    else if IsLineTerminator(t[0]) then None
    else
      match CloseIndex(t[1..])
      case Some(k) => Some(k + 1)
      case None =>
        assert forall i | 1 <= i < |t| && t[i] == ')' :: !NoTerminatorBefore(t, i) by {
          forall i | 1 <= i < |t| && t[i] == ')'
            ensures !NoTerminatorBefore(t, i)
          {
            assert t[1..][i - 1] == ')';
            var j :| 0 <= j < i - 1 && IsLineTerminator(t[1..][j]);
            assert IsLineTerminator(t[j + 1]);
          }
        }
        None
  }

  /** `s[e]` is the first ')' from `from` on, and no line terminator comes before it. */
  predicate ClosesAt(s: string, from: nat, e: nat)
  {
    from <= e < |s| && s[e] == ')'
    && forall j | from <= j < e :: s[j] != ')' && !IsLineTerminator(s[j])
  }

  /** Some ')' follows position `from` with no line terminator on the way. */
  predicate CloseFollows(s: string, from: nat)
  {
    exists e | from <= e < |s| :: s[e] == ')' && forall j | from <= j < e :: !IsLineTerminator(s[j])
  }

  /** `CloseIndex` on a suffix, read back as positions of the whole string. */
  lemma CloseIndexOfSuffix(s: string, from: nat)
    requires from <= |s|
    ensures CloseIndex(s[from..]).Some? ==> ClosesAt(s, from, from + CloseIndex(s[from..]).value)
    ensures CloseFollows(s, from) <==> CloseIndex(s[from..]).Some?
  {
    var t := s[from..];
    assert forall j | 0 <= j < |t| :: t[j] == s[from + j];
    if CloseFollows(s, from) {
      var e :| from <= e < |s| && s[e] == ')' && forall j | from <= j < e :: !IsLineTerminator(s[j]);
      assert t[e - from] == ')';
      assert NoTerminatorBefore(t, e - from);
    }
    if CloseIndex(t).Some? {
      var k := CloseIndex(t).value;
      assert s[from + k] == ')';
    }
  }

  /**
   * Length of the match of ` ?\(.*?\)` that starts at the head of `s`, or 0
   * when none does. A match runs from "(" or " (" to the first ')' after it,
   * and there is one whenever such a ')' follows with no line terminator
   * before it; the form with the space is tried first.
   */
  function MatchLength(s: string): (n: nat)
    ensures n <= |s|
    ensures n > 0 ==>
      || (s[0] == '(' && ClosesAt(s, 1, n - 1))
      || (n >= 2 && s[0] == ' ' && s[1] == '(' && ClosesAt(s, 2, n - 1))
    ensures |s| >= 2 && s[0] == ' ' && s[1] == '(' && CloseFollows(s, 2) ==> n > 0
    ensures |s| >= 1 && s[0] == '(' && CloseFollows(s, 1) ==> n > 0
  {
    if |s| >= 2 && s[0] == ' ' && s[1] == '(' && CloseIndex(s[2..]).Some? then
      CloseIndexOfSuffix(s, 2);
      CloseIndex(s[2..]).value + 3
    else if |s| >= 1 && s[0] == '(' && CloseIndex(s[1..]).Some? then
      CloseIndexOfSuffix(s, 1);
      CloseIndex(s[1..]).value + 2
    else if |s| >= 2 then
      CloseIndexOfSuffix(s, 2);
      CloseIndexOfSuffix(s, 1);
      0
    else if |s| == 1 then
      CloseIndexOfSuffix(s, 1);
      0
    else 0
  }

  /** Leftmost, non-overlapping matches are removed; the rest is kept in order. */
  function Normalize(s: string): (r: string)
    ensures |r| <= |s|
    decreases |s|
  {
    if s == [] then []
    else
      var n := MatchLength(s);
      if n > 0 then Normalize(s[n..]) else [s[0]] + Normalize(s[1..])
  }

  /** A name without '(' has nothing to remove. */
  lemma {:induction false} NormalizeWithoutParen(s: string)
    requires forall i | 0 <= i < |s| :: s[i] != '('
    ensures Normalize(s) == s
  {
    if s != [] {
      assert MatchLength(s) == 0;
      NormalizeWithoutParen(s[1..]);
      assert s == [s[0]] + s[1..];
    }
  }

  lemma {:induction false} CloseAtEnd(q: string)
    requires forall i | 0 <= i < |q| :: q[i] != ')' && !IsLineTerminator(q[i])
    ensures CloseIndex(q + ")") == Some(|q|)
  {
    if q != [] {
      assert (q + ")")[1..] == q[1..] + ")";
      CloseAtEnd(q[1..]);
    }
  }

  /**
   * A parenthesised suffix after a space is removed together with the space,
   * as in "Family (Cube)" becoming "Family".
   */
  lemma {:induction false} NormalizeDropsSuffix(p: string, q: string)
    requires forall i | 0 <= i < |p| :: p[i] != '('
    requires forall i | 0 <= i < |q| :: q[i] != ')' && !IsLineTerminator(q[i])
    ensures Normalize(p + " (" + q + ")") == p
  {
    var s := p + " (" + q + ")";
    if p == [] {
      var t := " (" + q + ")";
      assert s == t;
      assert t[2..] == q + ")";
      CloseAtEnd(q);
      assert MatchLength(t) == |t|;
      assert t[|t|..] == [];
    } else {
      assert s[0] == p[0];
      assert s[1] != '(' by {
        if |p| >= 2 {
          assert s[1] == p[1];
        } else {
          assert s[1] == ' ';
        }
      }
      assert MatchLength(s) == 0;
      assert s[1..] == p[1..] + " (" + q + ")";
      NormalizeDropsSuffix(p[1..], q);
      assert p == [p[0]] + p[1..];
    }
  }

  lemma NormalizeFamilyCube()
    ensures Normalize("Family (Cube)") == "Family"
  {
    assert "Family" + " (" + "Cube" + ")" == "Family (Cube)";
    NormalizeDropsSuffix("Family", "Cube");
  }

  // ---------------------------------------------------------------------
  // processResults
  // ---------------------------------------------------------------------

  /** Both outcomes of a cycle, as `processResults` receives them. */
  datatype Outcomes = Outcomes(systemStatus: ApiResult<SystemStatus>, registration: ApiResult<Registration>)

  function ApplyStatus(d: DeviceRecord, r: ApiResult<SystemStatus>): DeviceRecord
  {
    match r
    case Success(status) => d.(osVersion := Some(status.projectVersion), state := status.executionState)
    case Failure(_) => d.(state := Offline)
  }

  function ApplyRegistration(d: DeviceRecord, r: ApiResult<Registration>): DeviceRecord
  {
    match r
    case Success(reg) =>
      var named := d.(registrationState := reg.registrationState, name := reg.deviceName.GetOr(d.name));
      if reg.productInfo.Some? then
        named.(productName := Some(Normalize(reg.productInfo.value.productName)))
      else named
    case Failure(_) => d
  }

  /** The fields `processResults` leaves in the device. */
  function Apply(d: DeviceRecord, o: Outcomes): DeviceRecord
  {
    ApplyRegistration(ApplyStatus(d, o.systemStatus), o.registration)
  }

  /** The status outcome sets the version and state on success and only the state, to offline, on error. */
  lemma ApplyStatusFields(d: DeviceRecord, o: Outcomes)
    ensures o.systemStatus.Success? ==>
      && Apply(d, o).osVersion == Some(o.systemStatus.value.projectVersion)
      && Apply(d, o).state == o.systemStatus.value.executionState
    ensures o.systemStatus.Failure? ==>
      Apply(d, o).osVersion == d.osVersion && Apply(d, o).state == Offline
  {
  }

  /**
   * The registration outcome sets the registration state, and the name and
   * product name only when they were sent; an error changes none of them.
   */
  lemma ApplyRegistrationFields(d: DeviceRecord, o: Outcomes)
    ensures o.registration.Success? ==>
      var reg := o.registration.value;
      && Apply(d, o).registrationState == reg.registrationState
      && (reg.deviceName.Some? ==> Apply(d, o).name == reg.deviceName.value)
      && (reg.deviceName.None? ==> Apply(d, o).name == d.name)
      && (reg.productInfo.Some? ==> Apply(d, o).productName == Some(Normalize(reg.productInfo.value.productName)))
      && (reg.productInfo.None? ==> Apply(d, o).productName == d.productName)
    ensures o.registration.Failure? ==>
      && Apply(d, o).registrationState == d.registrationState
      && Apply(d, o).name == d.name
      && Apply(d, o).productName == d.productName
  {
  }

  /** The URL, the IP address and the manual flag are never touched. */
  lemma ApplyKeepsConnectionFields(d: DeviceRecord, o: Outcomes)
    ensures Apply(d, o).url == d.url
    ensures Apply(d, o).ipAddress == d.ipAddress
    ensures Apply(d, o).createdManually == d.createdManually
  {
  }

  /** Processing the same outcomes twice leaves the same fields as processing them once. */
  lemma ApplyIdempotent(d: DeviceRecord, o: Outcomes)
    ensures Apply(Apply(d, o), o) == Apply(d, o)
  {
  }

  /** `processResults`: both slots are force-unwrapped, so both must be filled. */
  method ProcessResults(results: Results, device: EblockerDevice)
    requires results.systemStatus.Some? && results.registration.Some?
    modifies device
    ensures device.Snapshot() == Apply(old(device.Snapshot()), results.Outcome())
  {
    match results.systemStatus.value {
      case Success(status) =>
        device.osVersion := Some(status.projectVersion);
        device.state := status.executionState;
      case Failure(_) =>
        device.state := Offline;
    }
    match results.registration.value {
      case Success(registration) =>
        device.registrationState := registration.registrationState;
        if registration.deviceName.Some? {
          device.name := registration.deviceName.value;
        }
        if registration.productInfo.Some? {
          device.productName := Some(Normalize(registration.productInfo.value.productName));
        }
      case Failure(_) =>
    }
  }

  // ---------------------------------------------------------------------
  // The update cycle as a state machine
  // ---------------------------------------------------------------------

  /** The two slots a cycle fills; `None` while the outcome is outstanding. */
  datatype Results = Results(
    systemStatus: Option<ApiResult<SystemStatus>>,
    registration: Option<ApiResult<Registration>>)
  {
    predicate Complete()
    {
      systemStatus.Some? && registration.Some?
    }

    function Outcome(): Outcomes
      requires Complete()
    {
      Outcomes(systemStatus.value, registration.value)
    }
  }

  datatype Request = PrimaryStatusRequest | LegacyStatusRequest | RegistrationRequest

  /** The completion of one request. */
  datatype Event =
    | PrimaryStatusDone(status: ApiResult<SystemStatus>)
    | LegacyStatusDone(status: ApiResult<SystemStatus>)
    | RegistrationDone(registration: ApiResult<Registration>)
  {
    function Completes(): Request
    {
      match this
      case PrimaryStatusDone(_) => PrimaryStatusRequest
      case LegacyStatusDone(_) => LegacyStatusRequest
      case RegistrationDone(_) => RegistrationRequest
    }
  }

  /**
   * The state of a cycle: the slots, the requests still outstanding, every
   * request issued so far and every call of `processResults` so far.
   */
  datatype Cycle = Cycle(
    results: Results,
    pending: set<Request>,
    requested: seq<Request>,
    processed: seq<Outcomes>)

  /** `updateEblockerDeviceData` issues the status and the registration request. */
  const InitialCycle: Cycle :=
    Cycle(Results(None, None), {PrimaryStatusRequest, RegistrationRequest}, [PrimaryStatusRequest, RegistrationRequest], [])

  /** Nothing is outstanding. */
  predicate Idle(c: Cycle)
  {
    PrimaryStatusRequest !in c.pending && LegacyStatusRequest !in c.pending && RegistrationRequest !in c.pending
  }

  /** A completion can only arrive for an outstanding request. */
  predicate Awaits(c: Cycle, e: Event)
  {
    e.Completes() in c.pending
  }

  /** `continuation`: process once both slots are filled. */
  function Continued(c: Cycle): Cycle
  {
    if c.results.Complete() then c.(processed := c.processed + [c.results.Outcome()]) else c
  }

  function Step(c: Cycle, e: Event): Cycle
    requires Awaits(c, e)
  {
    match e
    case PrimaryStatusDone(r) =>
      if IsNotFound(r) then
        c.(results := c.results.(systemStatus := None),
           pending := c.pending - {PrimaryStatusRequest} + {LegacyStatusRequest},
           requested := c.requested + [LegacyStatusRequest])
      else
        Continued(c.(results := c.results.(systemStatus := Some(r)), pending := c.pending - {PrimaryStatusRequest}))
    case LegacyStatusDone(r) =>
      Continued(c.(results := c.results.(systemStatus := Some(r)), pending := c.pending - {LegacyStatusRequest}))
    case RegistrationDone(r) =>
      Continued(c.(results := c.results.(registration := Some(r)), pending := c.pending - {RegistrationRequest}))
  }

  /**
   * What holds between completions: a slot is empty exactly while its request
   * is outstanding, the two status requests are never outstanding together,
   * the legacy request is issued at most once and only after the primary one
   * has completed, and `processResults` has run once with the filled slots
   * when nothing is outstanding and not at all before.
   */
  ghost predicate Inv(c: Cycle)
  {
    && (c.results.systemStatus.None? <==> PrimaryStatusRequest in c.pending || LegacyStatusRequest in c.pending)
    && !(PrimaryStatusRequest in c.pending && LegacyStatusRequest in c.pending)
    && (c.results.registration.None? <==> RegistrationRequest in c.pending)
    && (c.requested == [PrimaryStatusRequest, RegistrationRequest]
        || c.requested == [PrimaryStatusRequest, RegistrationRequest, LegacyStatusRequest])
    && (PrimaryStatusRequest in c.pending ==> |c.requested| == 2)
    && (LegacyStatusRequest in c.pending ==> |c.requested| == 3)
    && (Idle(c) ==> c.results.Complete() && c.processed == [c.results.Outcome()])
    && (!Idle(c) ==> c.processed == [])
  }

  lemma InitialCycleInv()
    ensures Inv(InitialCycle)
  {
  }

  lemma StepInv(c: Cycle, e: Event)
    requires Inv(c) && Awaits(c, e)
    ensures Inv(Step(c, e))
  {
  }

  /** Completions delivered one after the other, each for an outstanding request. */
  predicate ValidRun(c: Cycle, es: seq<Event>)
    decreases |es|
  {
    es == [] || (Awaits(c, es[0]) && ValidRun(Step(c, es[0]), es[1..]))
  }

  function Run(c: Cycle, es: seq<Event>): Cycle
    requires ValidRun(c, es)
    decreases |es|
  {
    if es == [] then c else Run(Step(c, es[0]), es[1..])
  }

  /** The status outcomes that a run stores in the status slot, in order. */
  function StatusWrites(es: seq<Event>): seq<ApiResult<SystemStatus>>
  {
    if es == [] then []
    else
      var head := match es[0]
        case PrimaryStatusDone(r) => if IsNotFound(r) then [] else [r]
        case LegacyStatusDone(r) => [r]
        case RegistrationDone(_) => [];
      head + StatusWrites(es[1..])
  }

  /** The registration outcomes that a run stores, in order. */
  function RegistrationWrites(es: seq<Event>): seq<ApiResult<Registration>>
  {
    if es == [] then []
    else (if es[0].RegistrationDone? then [es[0].registration] else []) + RegistrationWrites(es[1..])
  }

  /** Outstanding completions still to come: the legacy request counts for a primary one. */
  function Remaining(c: Cycle): nat
  {
    (if PrimaryStatusRequest in c.pending then 2 else 0)
    + (if LegacyStatusRequest in c.pending then 1 else 0)
    + (if RegistrationRequest in c.pending then 1 else 0)
  }

  predicate HasPrimaryNotFound(es: seq<Event>)
  {
    exists i | 0 <= i < |es| :: es[i].PrimaryStatusDone? && IsNotFound(es[i].status)
  }

  /** Over any run the invariant holds, and the run is no longer than the completions outstanding. */
  lemma {:induction false} RunInv(c: Cycle, es: seq<Event>)
    requires Inv(c) && ValidRun(c, es)
    ensures Inv(Run(c, es))
    ensures |es| <= Remaining(c)
    decreases |es|
  {
    if es != [] {
      StepInv(c, es[0]);
      RunInv(Step(c, es[0]), es[1..]);
    }
  }

  /** The status slot is written at most once, only while empty, and keeps what was written. */
  lemma {:induction false} RunStatus(c: Cycle, es: seq<Event>)
    requires Inv(c) && ValidRun(c, es)
    ensures |StatusWrites(es)| <= (if c.results.systemStatus.None? then 1 else 0)
    ensures Run(c, es).results.systemStatus
      == (if StatusWrites(es) == [] then c.results.systemStatus else Some(StatusWrites(es)[0]))
    decreases |es|
  {
    if es != [] {
      StepInv(c, es[0]);
      RunStatus(Step(c, es[0]), es[1..]);
    }
  }

  /** The registration slot is written at most once, only while empty, and keeps what was written. */
  lemma {:induction false} RunRegistration(c: Cycle, es: seq<Event>)
    requires Inv(c) && ValidRun(c, es)
    ensures |RegistrationWrites(es)| <= (if c.results.registration.None? then 1 else 0)
    ensures Run(c, es).results.registration
      == (if RegistrationWrites(es) == [] then c.results.registration else Some(RegistrationWrites(es)[0]))
    decreases |es|
  {
    if es != [] {
      StepInv(c, es[0]);
      RunRegistration(Step(c, es[0]), es[1..]);
    }
  }

  lemma HasPrimaryNotFoundCons(es: seq<Event>)
    requires es != []
    ensures HasPrimaryNotFound(es)
      <==> (es[0].PrimaryStatusDone? && IsNotFound(es[0].status)) || HasPrimaryNotFound(es[1..])
  {
    if HasPrimaryNotFound(es[1..]) {
      var i :| 0 <= i < |es[1..]| && es[1..][i].PrimaryStatusDone? && IsNotFound(es[1..][i].status);
      assert es[i + 1] == es[1..][i];
    }
    if HasPrimaryNotFound(es) && !(es[0].PrimaryStatusDone? && IsNotFound(es[0].status)) {
      var i :| 0 <= i < |es| && es[i].PrimaryStatusDone? && IsNotFound(es[i].status);
      assert i > 0 && es[1..][i - 1] == es[i];
    }
  }

  /** The legacy request is issued during a run exactly when the primary one answers 404 in it. */
  lemma {:induction false} RunRequested(c: Cycle, es: seq<Event>)
    requires Inv(c) && ValidRun(c, es)
    ensures |Run(c, es).requested| == 3 <==> |c.requested| == 3 || HasPrimaryNotFound(es)
    decreases |es|
  {
    if es != [] {
      StepInv(c, es[0]);
      RunRequested(Step(c, es[0]), es[1..]);
      HasPrimaryNotFoundCons(es);
    }
  }

  /**
   * Whatever the order of the completions, a cycle with nothing outstanding
   * has called `processResults` exactly once, with the one status outcome and
   * the one registration outcome the run stored.
   */
  lemma CycleProcessesOnce(es: seq<Event>)
    requires ValidRun(InitialCycle, es) && Idle(Run(InitialCycle, es))
    ensures |StatusWrites(es)| == 1 && |RegistrationWrites(es)| == 1
    ensures Run(InitialCycle, es).processed == [Outcomes(StatusWrites(es)[0], RegistrationWrites(es)[0])]
  {
    InitialCycleInv();
    RunInv(InitialCycle, es);
    RunStatus(InitialCycle, es);
    RunRegistration(InitialCycle, es);
  }

  /** Before the last completion `processResults` has not run; a cycle has at most three completions. */
  lemma CycleProcessesOnlyWhenComplete(es: seq<Event>)
    requires ValidRun(InitialCycle, es)
    ensures !Idle(Run(InitialCycle, es)) ==> Run(InitialCycle, es).processed == []
    ensures |es| <= 3
  {
    InitialCycleInv();
    RunInv(InitialCycle, es);
  }

  /** The legacy status request is issued at most once, and exactly when the primary one answers 404. */
  lemma LegacyRequestOnNotFound(es: seq<Event>)
    requires ValidRun(InitialCycle, es)
    ensures var requested := Run(InitialCycle, es).requested;
      && (requested == [PrimaryStatusRequest, RegistrationRequest]
          || requested == [PrimaryStatusRequest, RegistrationRequest, LegacyStatusRequest])
      && (LegacyStatusRequest in requested <==> HasPrimaryNotFound(es))
  {
    InitialCycleInv();
    RunInv(InitialCycle, es);
    RunRequested(InitialCycle, es);
  }

  /** A stored status outcome is final: the first one written is the one processed. */
  lemma {:induction false} StatusWriteIn(es: seq<Event>, i: nat)
    requires i < |es|
    requires es[i].LegacyStatusDone? || (es[i].PrimaryStatusDone? && !IsNotFound(es[i].status))
    ensures es[i].status in StatusWrites(es)
    decreases |es|
  {
    if i > 0 {
      StatusWriteIn(es[1..], i - 1);
    }
  }

  /**
   * A primary outcome other than 404, or any legacy outcome including a
   * second 404, ends up in the status slot.
   */
  lemma StatusOutcomeIsFinal(es: seq<Event>, i: nat)
    requires ValidRun(InitialCycle, es) && i < |es|
    requires es[i].LegacyStatusDone? || (es[i].PrimaryStatusDone? && !IsNotFound(es[i].status))
    ensures Run(InitialCycle, es).results.systemStatus == Some(es[i].status)
  {
    InitialCycleInv();
    RunStatus(InitialCycle, es);
    StatusWriteIn(es, i);
  }

  // ---------------------------------------------------------------------
  // The accumulator shared by the completion handlers
  // ---------------------------------------------------------------------

  /** The effect on the device of going from cycle `c` to cycle `c'`. */
  ghost predicate DeviceEffect(c: Cycle, c': Cycle, d: DeviceRecord, d': DeviceRecord)
  {
    if |c'.processed| > |c.processed| then d' == Apply(d, c'.processed[|c'.processed| - 1]) else d' == d
  }

  /** One call of `updateEblockerDeviceData`: the URLs it asks and the captured `results`. */
  class DeviceDataUpdate {
    const device: EblockerDevice
    const systemStatusUrl: Url
    const systemStatusUrlLegacy: Url
    const registrationUrl: Url
    var results: Results
    var pending: set<Request>
    var requested: seq<Request>
    /** One entry per call of `processResults`, each followed by one `deviceDataUpdated`. */
    var processed: seq<Outcomes>

    function State(): Cycle
      reads this
    {
      Cycle(results, pending, requested, processed)
    }

    /** Issues the status and registration requests for `device`. */
    constructor(device: EblockerDevice)
      ensures this.device == device
      ensures systemStatusUrl == AppendingPathComponent(device.url, SystemStatusPath)
      ensures systemStatusUrlLegacy == AppendingPathComponent(device.url, SystemStatusPathLegacy)
      ensures registrationUrl == AppendingPathComponent(device.url, RegistrationPath)
      ensures State() == InitialCycle
    {
      this.device := device;
      systemStatusUrl := AppendingPathComponent(device.url, SystemStatusPath);
      systemStatusUrlLegacy := AppendingPathComponent(device.url, SystemStatusPathLegacy);
      registrationUrl := AppendingPathComponent(device.url, RegistrationPath);
      results := Results(None, None);
      pending := {PrimaryStatusRequest, RegistrationRequest};
      requested := [PrimaryStatusRequest, RegistrationRequest];
      processed := [];
    }

    method Continuation()
      modifies this, device
      ensures results == old(results) && pending == old(pending) && requested == old(requested)
      ensures State() == Continued(old(State()))
      ensures DeviceEffect(old(State()), State(), old(device.Snapshot()), device.Snapshot())
    {
      if results.systemStatus.None? || results.registration.None? {
        return;
      }
      ProcessResults(results, device);
      processed := processed + [results.Outcome()];
    }

    /** The completion handler of the request on the current status path. */
    method PrimaryStatusCompleted(r: ApiResult<SystemStatus>)
      requires Awaits(State(), PrimaryStatusDone(r))
      modifies this, device
      ensures State() == Step(old(State()), PrimaryStatusDone(r))
      ensures DeviceEffect(old(State()), State(), old(device.Snapshot()), device.Snapshot())
    {
      pending := pending - {PrimaryStatusRequest};
      if IsNotFound(r) {
        results := results.(systemStatus := None);
        pending := pending + {LegacyStatusRequest};
        requested := requested + [LegacyStatusRequest];
      } else {
        results := results.(systemStatus := Some(r));
        Continuation();
      }
    }

    /** The completion handler of the request on the legacy status path. */
    method LegacyStatusCompleted(r: ApiResult<SystemStatus>)
      requires Awaits(State(), LegacyStatusDone(r))
      modifies this, device
      ensures State() == Step(old(State()), LegacyStatusDone(r))
      ensures DeviceEffect(old(State()), State(), old(device.Snapshot()), device.Snapshot())
    {
      pending := pending - {LegacyStatusRequest};
      results := results.(systemStatus := Some(r));
      Continuation();
    }

    /** The completion handler of the registration request. */
    method RegistrationCompleted(r: ApiResult<Registration>)
      requires Awaits(State(), RegistrationDone(r))
      modifies this, device
      ensures State() == Step(old(State()), RegistrationDone(r))
      ensures DeviceEffect(old(State()), State(), old(device.Snapshot()), device.Snapshot())
    {
      pending := pending - {RegistrationRequest};
      results := results.(registration := Some(r));
      Continuation();
    }
  }
}
