/** HeartRateService: the session that binds one heart-rate device, turns each
    notification of the Heart Rate Measurement characteristic into a log line and
    an update event, and tears the binding down.

    The Windows Bluetooth calls are not modelled; what they answer is an input.
    Each asynchronous operation is the sequence of statuses a poller observes, plus
    the value `GetResults()` gives and the code `ErrorCode` gives.  Service handles
    are opaque values.  The lifecycle lock serialises the lifecycle calls, so they are
    modelled as sequential calls on one object. */
module Service {
  import opened Wrappers
  import opened Text
  import opened ServiceData

  /** `Environment.NewLine` on Windows. */
  const NewLine: string := "\r\n"

  // ---------------------------------------------------------------------------
  // Sensor contact status

  datatype ContactSensorStatus = NotSupported | NotSupported2 | NoContact | Contact {
    /** The enum's underlying value. */
    function Index(): nat {
      match this
      case NotSupported => 0
      case NotSupported2 => 1
      case NoContact => 2
      case Contact => 3
    }
  }

  /** The cast from an integer in 0..3 to the enum. */
  function StatusOfIndex(i: nat): (s: ContactSensorStatus)
    requires i < 4
    ensures s.Index() == i
  {
    [NotSupported, NotSupported2, NoContact, Contact][i]
  }

  lemma ContactBits(f: bv8)
    ensures ((f >> 1) & 3) as int == (if f & 0x02 != 0 then 1 else 0) + (if f & 0x04 != 0 then 2 else 0)
  {
  }

  /** `(ContactSensorStatus)((flags >> 1) & 3)`: the enum value numbered bit 1 + 2 * bit 2.
      Every flags byte gives one of the four declared values. */
  function ContactStatus(flags: uint8): (s: ContactSensorStatus)
    ensures s.Index() == (if Bit(flags, 1) then 1 else 0) + (if Bit(flags, 2) then 2 else 0)
  {
    ContactBits(flags as bv8);
    MaskIsBit(flags);
    StatusOfIndex((((flags as bv8) >> 1) & 3) as int)
  }

  /** The CSV "Contact" column and the event's status read different bits: the column
      is TRUE exactly when the status is NoContact or Contact, that is, when bit 2 is
      set, whether or not bit 1 is. */
  lemma CsvContactColumnIsBit2(data: seq<uint8>, now: string)
    requires Decodable(data)
    ensures Decode(data, now).isSensorInContact <==>
      ContactStatus(data[0]) == NoContact || ContactStatus(data[0]) == Contact
  {
  }

  // ---------------------------------------------------------------------------
  // Notification guard

  /** The length below which a notification is dropped: 3 when bit 0 announces a
      two-byte heart rate, else 2. */
  function MinLength(flags: uint8): (n: nat)
    ensures n == if Bit(flags, 0) then 3 else 2
  {
    LowBit(flags as bv8);
    if (flags as bv8) & 1 == 1 then 3 else 2
  }

  /** The payloads `HeartRate_ValueChanged` goes on to decode. */
  predicate PassesGuard(value: seq<uint8>) {
    |value| != 0 && |value| >= MinLength(value[0])
  }

  /** The guard lets through exactly the payloads the decoder reads within bounds. */
  lemma GuardAdmitsExactlyDecodable(value: seq<uint8>)
    ensures PassesGuard(value) <==> Decodable(value)
  {
  }

  /** Worked payloads: an empty one and a one-byte short-form one are dropped; a
      short-form 60 bpm reading has no intervals and no contact support; a long-form
      60 bpm reading with RR data carries one interval of 0x0140 = 320. */
  lemma ExamplePayloads(now: string)
    ensures !PassesGuard([])
    ensures !PassesGuard([0x00])
    ensures PassesGuard([0x00, 0x3C])
    ensures Decode([0x00, 0x3C], now).heartRate == 60 && Decode([0x00, 0x3C], now).rrIntervals == []
    ensures ContactStatus(0x00) == NotSupported
    ensures PassesGuard([0x11, 0x3C, 0x00, 0x40, 0x01])
    ensures Decode([0x11, 0x3C, 0x00, 0x40, 0x01], now).heartRate == 60
    ensures Decode([0x11, 0x3C, 0x00, 0x40, 0x01], now).rrIntervals == [320]
  {
    var long: seq<uint8> := [0x11, 0x3C, 0x00, 0x40, 0x01];
    assert Bit(long[0], 0) && Bit(long[0], 4);
    assert |Decode(long, now).rrIntervals| == 1;
  }

  /** The arguments `HeartRateUpdated` is raised with. */
  datatype Update = Update(status: ContactSensorStatus, bpm: int)

  /** What `LogData` appends to the log file for one reading: the header line first
      when the file does not exist yet, then the row, each ended by a line break. */
  function LogText(fileExists: bool, m: Measurement): string {
    var line := (if fileExists then "" else GetCsVHeader() + NewLine) + Join(CsvFields(m));
    line + NewLine
  }

  /** The given lines, each followed by `NewLine`. */
  function Records(lines: seq<string>): string {
    if |lines| == 0 then "" else lines[0] + NewLine + Records(lines[1..])
  }

  /** Lines without a line break, once written, give exactly one line feed each. */
  lemma {:induction false} RecordsCount(lines: seq<string>)
    requires forall i :: 0 <= i < |lines| ==> LineFree(lines[i])
    ensures Occurrences(Records(lines), '\n') == |lines|
  {
    if |lines| > 0 {
      RecordsCount(lines[1..]);
      assert Occurrences(NewLine, '\n') == 1 by {
        assert NewLine[1..] == "\n";
        assert NewLine[1..][1..] == "";
      }
      OccurrencesAppend(lines[0], NewLine, '\n');
      OccurrencesAppend(lines[0] + NewLine, Records(lines[1..]), '\n');
    }
  }

  /** A row whose timestamp has no comma and no line break is one line, and has as
      many fields as the header line. */
  lemma RowIsOneLine(m: Measurement)
    requires CommaFree(m.timestamp) && LineFree(m.timestamp)
    ensures LineFree(Join(CsvFields(m)))
    ensures |Split(Join(CsvFields(m)))| == |Split(GetCsVHeader())|
  {
    var fs := CsvFields(m);
    forall k | 0 <= k < |fs| ensures LineFree(fs[k]) {
      if k == 1 {
        assert fs[k] == ContactText(m.isSensorInContact);
      } else if k >= 3 {
        assert fs[k] == RRSlot(m.rrIntervals, k - 3);
      }
    }
    JoinLineFree(fs);
    RowSplitsIntoFields(m);
  }

  /** What one reading appends to the log: the header line only when the file is new,
      then exactly one record line.  Neither contains a line break, so the text holds
      one line feed per line, and the record has as many fields as the header. */
  lemma LogTextIsRecords(fileExists: bool, m: Measurement)
    requires CommaFree(m.timestamp) && LineFree(m.timestamp)
    ensures LineFree(GetCsVHeader()) && LineFree(Join(CsvFields(m)))
    ensures !fileExists ==> LogText(fileExists, m) == Records([GetCsVHeader(), Join(CsvFields(m))])
    ensures fileExists ==> LogText(fileExists, m) == Records([Join(CsvFields(m))])
    ensures Occurrences(LogText(fileExists, m), '\n') == if fileExists then 1 else 2
    ensures |Split(Join(CsvFields(m)))| == |Split(GetCsVHeader())|
  {
    var header, row := GetCsVHeader(), Join(CsvFields(m));
    JoinLineFree(HeaderFields());
    RowIsOneLine(m);
    RecordsOfLog(header, row);
    if fileExists {
      assert "" + row == row;
    }
  }

  /** Written out, one or two one-line texts are each followed by `NewLine`, and the
      result holds one line feed per line. */
  lemma RecordsOfLog(header: string, row: string)
    requires LineFree(header) && LineFree(row)
    ensures Records([row]) == row + NewLine
    ensures Records([header, row]) == header + NewLine + row + NewLine
    ensures Occurrences(Records([row]), '\n') == 1
    ensures Occurrences(Records([header, row]), '\n') == 2
  {
    assert Records([row]) == row + NewLine + Records([]);
    assert [header, row][1..] == [row];
    RecordsCount([row]);
    RecordsCount([header, row]);
  }


  // ---------------------------------------------------------------------------
  // Asynchronous operations

  datatype AsyncStatus = Started | Completed | Canceled | Error

  /** A platform operation as the poller sees it: the status at each successive poll,
      what `GetResults()` returns, and the code `ErrorCode` carries. */
  datatype AsyncOperation<T> = AsyncOperation(statuses: seq<AsyncStatus>, results: T, errorCode: int)

  /** The exceptions `AsyncResult` throws. */
  datatype AsyncError = PlatformError(code: int) | TaskCanceled

  /** What waiting on an operation comes to: it never leaves Started (the poller spins
      forever), or it returns a value, or it throws. */
  datatype Awaited<T> = StillStarted | Returned(value: T) | Raised(error: AsyncError)

  /** The first poll at which the status is no longer Started, if any. */
  function SettledAt(statuses: seq<AsyncStatus>): (k: Option<nat>)
    ensures k.Some? ==>
      k.value < |statuses| && statuses[k.value] != Started &&
      forall i :: 0 <= i < k.value ==> statuses[i] == Started
    ensures k.None? ==> forall i :: 0 <= i < |statuses| ==> statuses[i] == Started
  {
    if |statuses| == 0 then None
    else if statuses[0] != Started then Some(0)
    else match SettledAt(statuses[1..])
      case None => None
      case Some(k) => Some(k + 1)
  }

  /** The outcome of waiting on `op`, decided by the first status that is not Started. */
  function Await<T>(op: AsyncOperation<T>): Awaited<T> {
    match SettledAt(op.statuses)
    case None => StillStarted
    case Some(k) =>
      if op.statuses[k] == Completed then Returned(op.results)
      else if op.statuses[k] == Error then Raised(PlatformError(op.errorCode))
      else Raised(TaskCanceled)
  }

  /** `AsyncResult`: poll until the status leaves Started, then return the results on
      Completed, or throw on Error or Canceled.  `polls` is the number of status reads:
      every read but the last saw Started, the last saw the terminal status, and
      nothing is read after it. */
  method AsyncResult<T>(op: AsyncOperation<T>) returns (r: Result<T, AsyncError>, polls: nat)
    requires Await(op) != StillStarted
    ensures 1 <= polls <= |op.statuses|
    ensures forall i :: 0 <= i < polls - 1 ==> op.statuses[i] == Started
    ensures op.statuses[polls - 1] != Started
    ensures op.statuses[polls - 1] == Completed ==> r == Success(op.results)
    ensures op.statuses[polls - 1] == Error ==> r == Failure(PlatformError(op.errorCode))
    ensures op.statuses[polls - 1] == Canceled ==> r == Failure(TaskCanceled)
    ensures Await(op) == if r.Success? then Returned(r.value) else Raised(r.error)
  {
    ghost var settle := SettledAt(op.statuses).value;
    polls := 0;
    while true
      invariant polls <= settle
      invariant forall i :: 0 <= i < polls ==> op.statuses[i] == Started
      decreases settle - polls
    {
      var status := op.statuses[polls];
      polls := polls + 1;
      match status
      case Started =>
      case Completed =>
        return Success(op.results), polls;
      case Error =>
        return Failure(PlatformError(op.errorCode)), polls;
      case Canceled =>
        return Failure(TaskCanceled), polls;
    }
  }

  // ---------------------------------------------------------------------------
  // Session state

  /** An opaque platform service handle. */
  datatype ServiceHandle = ServiceHandle(id: nat)

  datatype DeviceInformation = DeviceInformation(id: string, name: string)

  /** An opaque characteristic found on a bound service. */
  datatype Characteristic = Characteristic(id: nat)

  datatype GattCommunicationStatus = GattSuccess | GattUnreachable | GattProtocolError | GattAccessDenied

  /** The platform's answers to the four operations `InitiateDefault` waits on: device
      enumeration for the heart-rate service, opening the first device's service,
      looking up characteristic 0x2A37 on it, and enabling notifications.  Opening can
      complete with no service. */
  datatype Platform = Platform(
    findAll: AsyncOperation<seq<DeviceInformation>>,
    fromId: AsyncOperation<Option<ServiceHandle>>,
    getCharacteristics: AsyncOperation<seq<Characteristic>>,
    writeDescriptor: AsyncOperation<GattCommunicationStatus>)

  /** Acquiring and releasing service handles, in order. */
  datatype HandleEvent = Opened(handle: ServiceHandle) | Released(handle: ServiceHandle)

  /** The session's fields, with the history of handle events. */
  datatype Session = Session(
    service: Option<ServiceHandle>,
    isDisposed: bool,
    filename: string,
    handles: seq<HandleEvent>)

  /** Handles are opened and released in turn, and each release is of the handle
      opened just before it. */
  predicate Alternates(t: seq<HandleEvent>) {
    (forall i :: 0 <= i < |t| ==> (t[i].Opened? <==> i % 2 == 0)) &&
    (forall i :: 0 < i < |t| ==> t[i].Released? ==> t[i].handle == t[i - 1].handle)
  }

  /** The field agrees with the history: the history alternates, and the field holds
      exactly the handle opened last and not yet released. */
  predicate HandleConsistent(s: Session) {
    Alternates(s.handles) &&
    (s.service.Some? <==> |s.handles| % 2 == 1) &&
    (s.service.Some? ==> s.service.value == s.handles[|s.handles| - 1].handle)
  }

  /** The session invariant: handle bookkeeping agrees, and a disposed session holds
      no handle. */
  predicate SessionValid(s: Session) {
    HandleConsistent(s) && (s.isDisposed ==> s.service.None?)
  }

  /** Number of handles held after the events `t`. */
  function Held(t: seq<HandleEvent>): int {
    if |t| == 0 then 0
    else Held(t[..|t| - 1]) + (if t[|t| - 1].Opened? then 1 else -1)
  }

  /** In an alternating history no prefix holds more than one handle. */
  lemma {:induction false} AtMostOneHandleHeld(t: seq<HandleEvent>)
    requires Alternates(t)
    ensures forall k :: 0 <= k <= |t| ==> Held(t[..k]) == k % 2
  {
    if |t| > 0 {
      var u := t[..|t| - 1];
      assert Alternates(u);
      AtMostOneHandleHeld(u);
      forall k | 0 <= k <= |t| ensures Held(t[..k]) == k % 2 {
        if k < |t| {
          assert t[..k] == u[..k];
        } else {
          assert t[..k] == t;
          assert t[..k][..k - 1] == u[..k - 1];
        }
      }
    }
  }

  /** A valid session holds one handle when its field is set, none otherwise. */
  lemma HeldMatchesField(s: Session)
    requires SessionValid(s)
    ensures Held(s.handles) == if s.service.Some? then 1 else 0
  {
    AtMostOneHandleHeld(s.handles);
    assert s.handles[..|s.handles|] == s.handles;
  }

  /** `Cleanup`: take the handle out of the field; if there was one, release it.  A
      failing release is caught, so a release is recorded either way. */
  function AfterCleanup(s: Session): Session {
    match s.service
    case None => s
    case Some(h) => s.(service := None, handles := s.handles + [Released(h)])
  }

  /** After cleanup no handle is held; the history grows by one release exactly when
      a handle was held, and that release is of the held handle. */
  lemma CleanupReleasesHeldHandle(s: Session)
    requires HandleConsistent(s)
    ensures SessionValid(AfterCleanup(s))
    ensures AfterCleanup(s).service.None?
    ensures AfterCleanup(s).isDisposed == s.isDisposed && AfterCleanup(s).filename == s.filename
    ensures s.service.None? ==> AfterCleanup(s).handles == s.handles
    ensures s.service.Some? ==> AfterCleanup(s).handles == s.handles + [Released(s.service.value)]
    ensures Held(AfterCleanup(s).handles) == 0
  {
    if s.service.Some? {
      var t := s.handles + [Released(s.service.value)];
      assert forall i :: 0 <= i < |s.handles| ==> t[i] == s.handles[i];
      assert Alternates(t);
    }
    HeldMatchesField(AfterCleanup(s));
  }

  /** A second cleanup releases nothing. */
  lemma CleanupIdempotent(s: Session)
    ensures AfterCleanup(AfterCleanup(s)) == AfterCleanup(s)
  {
  }

  /** `Dispose`: mark the session disposed, then clean up. */
  function AfterDispose(s: Session): Session {
    AfterCleanup(s.(isDisposed := true))
  }

  /** Disposal is final and leaves no handle; disposing again changes nothing. */
  lemma DisposeIsFinal(s: Session)
    requires SessionValid(s)
    ensures SessionValid(AfterDispose(s))
    ensures AfterDispose(s).isDisposed && AfterDispose(s).service.None?
    ensures AfterDispose(AfterDispose(s)) == AfterDispose(s)
    ensures Held(AfterDispose(s).handles) == 0
  {
    HeldMatchesField(AfterDispose(s));
  }

  /** How `InitiateDefault` ends: notifications enabled (with the descriptor write's
      status, kept for diagnostics only), an exception, or a wait that never ends. */
  datatype InitOutcome = Subscribed(status: GattCommunicationStatus) | Failed(error: InitError) | Hung

  /** The exceptions `InitiateDefault` lets out. */
  datatype InitError =
    | AsyncFailed(cause: AsyncError)                      // thrown by AsyncResult
    | DeviceNotFound                                      // no heart-rate device
    | Disposed                                            // the session is disposed
    | NullService                                         // opening completed with no service
    | CharacteristicNotFound(name: string, id: string)    // no 0x2A37 on the device

  datatype InitStep = InitStep(session: Session, outcome: InitOutcome)

  /** The state change and outcome of `InitiateDefault` at time `now`. */
  function AfterInitiate(s: Session, now: string, p: Platform): InitStep {
    var named := s.(filename := "polar" + now + ".csv");
    match Await(p.findAll)
    case StillStarted => InitStep(named, Hung)
    case Raised(e) => InitStep(named, Failed(AsyncFailed(e)))
    case Returned(devices) =>
      if |devices| == 0 then InitStep(named, Failed(DeviceNotFound))
      else if named.isDisposed then InitStep(named, Failed(Disposed))
      else
        var cleaned := AfterCleanup(named);
        match Await(p.fromId)
        case StillStarted => InitStep(cleaned, Hung)
        case Raised(e) => InitStep(cleaned, Failed(AsyncFailed(e)))
        case Returned(answer) =>
          var bound := Bind(cleaned, answer);
          if answer.None? then InitStep(bound, Failed(NullService))
          else AfterBinding(bound, devices[0], p)
  }

  /** Store the newly opened service (possibly none) in the field. */
  function Bind(s: Session, answer: Option<ServiceHandle>): Session {
    match answer
    case None => s.(service := None)
    case Some(h) => s.(service := Some(h), handles := s.handles + [Opened(h)])
  }

  /** The steps after the lock: find the characteristic, enable notifications.  They
      leave the session as it is. */
  function AfterBinding(s: Session, device: DeviceInformation, p: Platform): InitStep {
    match Await(p.getCharacteristics)
    case StillStarted => InitStep(s, Hung)
    case Raised(e) => InitStep(s, Failed(AsyncFailed(e)))
    case Returned(characteristics) =>
      if |characteristics| == 0 then InitStep(s, Failed(CharacteristicNotFound(device.name, device.id)))
      else match Await(p.writeDescriptor)
        case StillStarted => InitStep(s, Hung)
        case Raised(e) => InitStep(s, Failed(AsyncFailed(e)))
        case Returned(status) => InitStep(s, Subscribed(status))
  }

  /** Every way `InitiateDefault` ends keeps the session invariant, so at most one
      handle is ever held. */
  lemma InitiatePreservesValid(s: Session, now: string, p: Platform)
    requires SessionValid(s)
    ensures SessionValid(AfterInitiate(s, now, p).session)
    ensures Held(AfterInitiate(s, now, p).session.handles) <= 1
  {
    var named := s.(filename := "polar" + now + ".csv");
    var r := AfterInitiate(s, now, p);
    if r.session != named {
      var cleaned := AfterCleanup(named);
      CleanupReleasesHeldHandle(named);
      if r.session != cleaned {
        var answer := Await(p.fromId).value;
        assert r.session == Bind(cleaned, answer) by {
          AfterBindingKeepsSession(Bind(cleaned, answer), Await(p.findAll).value[0], p);
        }
        BindKeepsValid(cleaned, answer);
      }
    }
    HeldMatchesField(r.session);
  }

  lemma AfterBindingKeepsSession(s: Session, device: DeviceInformation, p: Platform)
    ensures AfterBinding(s, device, p).session == s
  {
  }

  /** Binding into a session that holds no handle keeps the invariant. */
  lemma BindKeepsValid(s: Session, answer: Option<ServiceHandle>)
    requires SessionValid(s) && s.service.None? && !s.isDisposed
    ensures SessionValid(Bind(s, answer))
  {
  }

  /** With no device found, only the file name changes: no handle is released or
      bound and the disposed flag is untouched. */
  lemma NoDeviceLeavesSession(s: Session, now: string, p: Platform)
    requires Await(p.findAll).Returned? && |Await(p.findAll).value| == 0
    ensures AfterInitiate(s, now, p).outcome == Failed(DeviceNotFound)
    ensures AfterInitiate(s, now, p).session == s.(filename := "polar" + now + ".csv")
  {
  }

  /** A disposed session binds nothing: once a device is found, the call fails with
      Disposed and no handle is released or bound.  (Devices are still enumerated
      first, so an enumeration failure or an empty result is reported instead.) */
  lemma DisposedSessionBindsNothing(s: Session, now: string, p: Platform)
    requires s.isDisposed
    ensures AfterInitiate(s, now, p).session == s.(filename := "polar" + now + ".csv")
    ensures Await(p.findAll).Returned? && |Await(p.findAll).value| > 0 ==>
      AfterInitiate(s, now, p).outcome == Failed(Disposed)
  {
  }

  /** Once a device is found on a live session, the held handle (if any) is released
      before opening is even awaited: whether opening completes, throws or never ends,
      the old handle is gone.  The field then holds what opening returned, or nothing
      when opening did not complete, and a new handle is recorded only when opening
      returned one. */
  lemma ReinitiateReleasesFirst(s: Session, now: string, p: Platform)
    requires !s.isDisposed
    requires Await(p.findAll).Returned? && |Await(p.findAll).value| > 0
    ensures AfterInitiate(s, now, p).session.handles ==
      s.handles
      + (if s.service.Some? then [Released(s.service.value)] else [])
      + (if Await(p.fromId).Returned? && Await(p.fromId).value.Some? then [Opened(Await(p.fromId).value.value)] else [])
    ensures AfterInitiate(s, now, p).session.service ==
      if Await(p.fromId).Returned? then Await(p.fromId).value else None
  {
    var cleaned := AfterCleanup(s.(filename := "polar" + now + ".csv"));
    if Await(p.fromId).Returned? {
      var bound := Bind(cleaned, Await(p.fromId).value);
      assert AfterInitiate(s, now, p).session == (if bound.service.None? then bound else AfterBinding(bound, Await(p.findAll).value[0], p).session);
    } else {
      assert AfterInitiate(s, now, p).session == cleaned;
    }
  }


  /** A missing characteristic is reported with the device's name and id, and the
      newly bound handle stays stored. */
  lemma MissingCharacteristicKeepsHandle(s: Session, now: string, p: Platform)
    requires !s.isDisposed
    requires Await(p.findAll).Returned? && |Await(p.findAll).value| > 0
    requires Await(p.fromId).Returned? && Await(p.fromId).value.Some?
    requires Await(p.getCharacteristics) == Returned([])
    ensures AfterInitiate(s, now, p).outcome ==
      Failed(CharacteristicNotFound(Await(p.findAll).value[0].name, Await(p.findAll).value[0].id))
    ensures AfterInitiate(s, now, p).session.service == Await(p.fromId).value
  {
  }

  // ---------------------------------------------------------------------------
  // The session object

  class HeartRateService {
    var service: Option<ServiceHandle>
    var isDisposed: bool
    /** The log file; null in the source until the first `InitiateDefault`. */
    var filename: string
    /** Every handle opened or released by this session, in order. */
    ghost var handles: seq<HandleEvent>

    ghost function State(): Session
      reads this
    {
      Session(service, isDisposed, filename, handles)
    }

    ghost predicate Valid()
      reads this
    {
      SessionValid(State())
    }

    constructor ()
      ensures Valid()
      ensures State() == Session(None, false, "", [])
    {
      service := None;
      isDisposed := false;
      filename := "";
      handles := [];
    }

    /** `LogData`: the text appended to `filename` for one reading.  `writeFails`
        says whether opening the file for append or writing to it throws (the file
        held by another program, say); the exception leaves `LogData` with nothing
        appended, shown here as `None`. */
    method LogData(data: HeartRateServiceData, fileExists: bool, writeFails: bool)
      returns (appended: Option<string>)
      ensures writeFails ==> appended.None?
      ensures !writeFails ==> appended == Some(LogText(fileExists, data.Value()))
    {
      var line := "";
      if !fileExists {
        line := GetCsVHeader() + NewLine;
      }
      var row := data.ToString();
      line := line + row;
      if writeFails {
        return None;
      }
      appended := Some(line + NewLine);
    }

    /** `HeartRate_ValueChanged`: drop an empty or too-short payload; otherwise decode
        it once, log it once, and raise `HeartRateUpdated` once with the contact
        status and the heart rate.  `now` is the decode time, `fileExists` whether the
        log file exists, `writeFails` whether the log write throws; the results are
        the appended log text and the raised event.  A failing log write leaves the
        handler before the event is raised, so that reading raises no event. */
    method HeartRateValueChanged(value: seq<uint8>, now: string, fileExists: bool, writeFails: bool)
      returns (logged: Option<string>, update: Option<Update>)
      ensures !PassesGuard(value) ==> logged.None? && update.None?
      ensures PassesGuard(value) && writeFails ==> logged.None? && update.None?
      ensures PassesGuard(value) && !writeFails ==>
        logged == Some(LogText(fileExists, Decode(value, now))) &&
        update == Some(Update(ContactStatus(value[0]), Decode(value, now).heartRate as int))
      ensures update.Some? <==> logged.Some?
      ensures update.Some? ==> 0 <= update.value.bpm < 0x1_0000
    {
      if |value| == 0 {
        return None, None;
      }
      var data := new uint8[|value|](i requires 0 <= i < |value| => value[i]);
      assert data[..] == value;
      var flags := data[0];
      var isShort := (flags as bv8) & 1 == 1;
      var contactSensor := StatusOfIndex((((flags as bv8) >> 1) & 3) as int);
      var minLength := if isShort then 3 else 2;
      if |value| < minLength {
        return None, None;
      }
      var hrsd := new HeartRateServiceData(data, now);
      var text := LogData(hrsd, fileExists, writeFails);
      if text.None? {
        return None, None;
      }
      var bpm := hrsd.heartRateMeasurement as int;
      return text, Some(Update(contactSensor, bpm));
    }

    /** `Cleanup`: take the handle out of the field and release it if there was one. */
    method Cleanup()
      requires HandleConsistent(State())
      modifies this
      ensures Valid()
      ensures State() == AfterCleanup(old(State()))
    {
      var held := service;
      service := None;
      if held.None? {
        return;
      }
      handles := handles + [Released(held.value)];
    }

    /** `Dispose`: mark the session disposed for good and release the handle. */
    method Dispose()
      requires Valid()
      modifies this
      ensures Valid()
      ensures State() == AfterDispose(old(State()))
    {
      isDisposed := true;
      Cleanup();
    }

    /** `InitiateDefault`, for platform answers under which it returns. */
    method InitiateDefault(now: string, p: Platform) returns (outcome: InitOutcome)
      requires Valid()
      requires AfterInitiate(State(), now, p).outcome != Hung
      modifies this
      ensures Valid()
      ensures State() == AfterInitiate(old(State()), now, p).session
      ensures outcome == AfterInitiate(old(State()), now, p).outcome
    {
      ghost var before := State();
      ghost var named := before.(filename := "polar" + now + ".csv");
      InitiatePreservesValid(before, now, p);
      filename := "polar" + now + ".csv";
      var devices, _ := AsyncResult(p.findAll);
      if devices.Failure? {
        return Failed(AsyncFailed(devices.error));
      }
      if |devices.value| == 0 {
        return Failed(DeviceNotFound);
      }
      var device := devices.value[0];
      if isDisposed {
        return Failed(Disposed);
      }
      Cleanup();
      var answer, _ := AsyncResult(p.fromId);
      if answer.Failure? {
        return Failed(AsyncFailed(answer.error));
      }
      service := answer.value;
      if answer.value.Some? {
        handles := handles + [Opened(answer.value.value)];
      }
      assert State() == Bind(AfterCleanup(named), answer.value);
      if answer.value.None? {
        return Failed(NullService);
      }
      AfterBindingKeepsSession(State(), device, p);
      assert AfterInitiate(before, now, p) == AfterBinding(State(), device, p);
      var characteristics, _ := AsyncResult(p.getCharacteristics);
      if characteristics.Failure? {
        return Failed(AsyncFailed(characteristics.error));
      }
      if |characteristics.value| == 0 {
        return Failed(CharacteristicNotFound(device.name, device.id));
      }
      var status, _ := AsyncResult(p.writeDescriptor);
      if status.Failure? {
        return Failed(AsyncFailed(status.error));
      }
      return Subscribed(status.value);
    }
  }
}
