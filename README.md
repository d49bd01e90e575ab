# Heart-rate BLE reader: decoder, CSV row and device session

This project models the core of a Windows reader for Bluetooth Low Energy heart-rate
sensors, and proves properties of that model. The reader does three things:

- it decodes each notification of the Heart Rate Measurement characteristic (short
  UUID 0x2A37, Heart Rate Service specification, section 3.1);
- it writes the reading as one CSV row;
- it raises an update event with the sensor-contact status and the heart rate.

It also manages a session that holds at most one open service handle on the device.

Files:

- `wrappers.dfy`: `Option` and `Result`.
- `text.dfy` (module `Text`): the two .NET string operations the row depends on.
  `Join` models `String.Join(",", …)` and `Decimal` models the decimal `ToString()`
  of an unsigned value. `Split` is the inverse of `Join`; it is used to state how
  many fields a row has.
- `service_data.dfy` (module `ServiceData`): `HeartRateServiceData`.
  - The pure function `Decode` is what the class constructor computes. The
    constructor is written as the source writes it: a byte cursor and a `for` loop
    that fills the `rrIntervals` array in place.
  - `ToString` builds the row in a loop, the way the source builds its list.
  - It also holds a standard-layout payload builder (`StandardPayload`). It is the
    partner used to state round trips.
- `service.dfy` (module `Service`): `HeartRateService`.
  - The contact-status enum.
  - The notification guard and dispatch (`HeartRateValueChanged`).
  - The polling loop `AsyncResult`, over a sequence of observed statuses.
  - The session class, whose fields `service` and `isDisposed` are changed by
    `Cleanup`, `Dispose` and `InitiateDefault`. Each of these methods is proved
    against a pure function on a `Session` value: `AfterCleanup`, `AfterDispose`,
    `AfterInitiate`.
  - A ghost history of handle events (`Opened`/`Released`) records every handle
    acquired and released. The session invariant says that this history alternates.
    The invariant is that the field holds exactly the handle opened last, and that a
    disposed session holds none.

Two behaviours of the decoder differ from the Heart Rate Service specification. The
model reproduces both:

- **Energy Expended is not skipped.** When bit 3 (Energy Expended present) is set,
  the cursor does not skip the two-byte Energy Expended field. Its bytes are
  therefore read as the first RR interval. See `EnergyFlagDoesNotMoveCursor` and
  `DecodeStandardPayload`.
- **Bits 1 and 2 have each other's names.** Bit 1 is named "contact supported" and
  bit 2 "in contact". In the standard, bit 2 means supported and bit 1 means detected.
  - The event's `ContactSensorStatus` is the enum value bit 1 + 2 × bit 2, which
    agrees with the standard.
  - The CSV `Contact` column prints bit 2. It therefore reads TRUE for a sensor that
    supports contact detection and reports no contact. See `CsvContactColumnIsBit2`.

Three further behaviours of the code, stated explicitly because they are easy to
misread:

- The enum index is bit 1 + 2 × bit 2, so bit 1 = 1, bit 2 = 0 gives
  `NotSupported2`. It does not give `NoContact`.
- `InitiateDefault` on a disposed session still enumerates devices first. The
  disposed check comes after the device check. So with no device present, the error
  is "device not found", not "disposed".
- `InitiateDefault` throws when `FromIdAsync` completes with no service. That
  exception is a `NullReferenceException` from calling through the null service, and
  the null has already been stored in the field.

## Model

| member | source | states |
|---|---|---|
| `Text.SplitJoin` | HeartRate/HeartRateServiceData.cs:80 | Comma-joining comma-free fields and splitting the text again gives back exactly those fields. So a joined row has as many fields as were joined. |
| `Text.Decimal` | HeartRate/HeartRateServiceData.cs:68 | The decimal text of a number is non-empty and all digits, with no leading zero. Read back, it is the number. |
| `ServiceData.ToUInt16` | HeartRate/HeartRateServiceData.cs:35 | `BitConverter.ToUInt16` is little-endian here: the value mod 256 is `data[i]` and the value div 256 is `data[i+1]`. |
| `ServiceData.MaskIsBit` | HeartRate/HeartRateServiceData.cs:28-32 | Each of the masks 0x01, 0x02, 0x04, 0x08, 0x10 tests exactly bit 0, 1, 2, 3, 4 of the flags byte. |
| `ServiceData.HeartRateEnd` | HeartRate/HeartRateServiceData.cs:33-42 | The cursor after the heart-rate field is 3 if bit 0 is set and 2 otherwise. It depends on nothing else, in particular not on bit 3. |
| `ServiceData.PairsFrom` | HeartRate/HeartRateServiceData.cs:43-51 | Reading from cursor `c` gives `(len - c) / 2` values, rounded down. Value `j` is the little-endian pair at `c + 2j`, in order. An odd trailing byte is dropped. |
| `ServiceData.Decode` | HeartRate/HeartRateServiceData.cs:23-56 | The five booleans are bits 0-4. The heart rate is `data[1] + 256*data[2]` when bit 0 is set, else `data[1]`. With bit 4 clear there are no RR intervals, whatever bytes follow. With bit 4 set, `RR[j]` is the little-endian pair at `cursor + 2j`, and there are `(len - cursor) / 2` of them. |
| `ServiceData.SameFieldsAfterFlags` | HeartRate/HeartRateServiceData.cs:33-55 | Take two payloads that agree after the flags byte and agree on bits 0 and 4. They decode to the same heart rate and the same RR intervals. |
| `ServiceData.EnergyFlagDoesNotMoveCursor` | HeartRate/HeartRateServiceData.cs:31-48 | Toggling bit 3 changes only `isEnergyExpendedIncluded`. The heart rate and the RR intervals stay the same, because RR parsing starts right after the heart-rate field either way. |
| `ServiceData.ReservedBitsIgnored` | HeartRate/HeartRateServiceData.cs:27-32 | Payloads that differ only in flag bits 5-7 decode to the same value. |
| `ServiceData.LittleEndianPairs` | HeartRate/HeartRateServiceData.cs:45-50 | Encoding values as byte pairs puts the low byte of value `j` at `2j` and the high byte at `2j+1`. This is the layout the RR loop reads. |
| `ServiceData.DecodeStandardPayload` | HeartRate/HeartRateServiceData.cs:33-51 | Decoding a payload laid out by the standard gives back its heart rate at either width. Its RR intervals come back in order. When the Energy Expended field is present, its value comes first among the intervals. |
| `ServiceData.HeaderFields` | HeartRate/HeartRateServiceData.cs:60 | The header has twelve column names, none containing a comma. |
| `ServiceData.GetCsVHeader` | HeartRate/HeartRateServiceData.cs:58-61 | The header line splits into exactly the twelve column names Timestamp, Contact, HeartRate, RR1 … RR9. |
| `ServiceData.RowSplitsIntoFields` | HeartRate/HeartRateServiceData.cs:63-81 | A row with a comma-free timestamp splits back into its own fields. There are 12 of them, as many as the header has. |
| `ServiceData.RowFields` | HeartRate/HeartRateServiceData.cs:63-81 | Field 0 is the timestamp. Field 1 is `TRUE` exactly when `isSensorInContact` holds, else `FALSE`. Field 2 reads back as the heart rate. For `i` < 9, slot `i` reads back as `RR[i]` if `i` < the number of intervals, else it is empty. Intervals after the ninth get no slot. |
| `ServiceData.HeartRateServiceData.constructor` | HeartRate/HeartRateServiceData.cs:23-56 | The fields hold `Decode(data, now)`, and `rrIntervals` is a new array. The RR loop is proved with its invariants, including that every read stays in bounds. |
| `ServiceData.HeartRateServiceData.ToString` | HeartRate/HeartRateServiceData.cs:63-81 | The row is the comma-join of timestamp, contact, heart rate and the nine RR slots. With a comma-free timestamp it splits back into exactly those 12 fields. |
| `Service.StatusOfIndex` | HeartRate/HeartRateService.cs:15-21 | The cast from 0..3 gives the enum value whose underlying number is that index. |
| `Service.ContactStatus` | HeartRate/HeartRateService.cs:121 | The status is the enum value numbered bit 1 + 2 × bit 2: 0 NotSupported, 1 NotSupported2, 2 NoContact, 3 Contact. Every flags byte gives one of these four. |
| `Service.CsvContactColumnIsBit2` | HeartRate/HeartRateServiceData.cs:67 | The CSV Contact column is TRUE exactly when the event status is NoContact or Contact. That is, it reports bit 2, not contact. |
| `Service.MinLength` | HeartRate/HeartRateService.cs:120-122 | The minimum length is 3 if bit 0 is set, else 2. |
| `Service.GuardAdmitsExactlyDecodable` | HeartRate/HeartRateService.cs:109-128 | The notification guard passes exactly the payloads the decoder can read in bounds. Nothing shorter reaches the decoder, and nothing decodable is dropped. |
| `Service.ExamplePayloads` | HeartRate/HeartRateService.cs:109-130 | `[]` and `[0x00]` are dropped. `[0x00,0x3C]` gives 60 bpm, no intervals and status NotSupported. `[0x11,0x3C,0x00,0x40,0x01]` gives 60 bpm and intervals `[320]`. |
| `Service.SettledAt` | HeartRate/HeartRateService.cs:163-169 | It finds the first poll whose status is not Started, with every earlier poll Started. If there is none, every observed status is Started. |
| `Service.AsyncResult` | HeartRate/HeartRateService.cs:161-178 | It polls only while the status is Started and stops at the first other status. Completed returns `GetResults()`, Error throws the error code, Canceled throws task-canceled. `polls` is the index of that status + 1, so nothing is polled after it. |
| `Service.AtMostOneHandleHeld` | HeartRate/HeartRateService.cs:71-83 | In an alternating open/release history, every prefix holds 0 or 1 handles. So two handles are never held at once. |
| `Service.HeldMatchesField` | HeartRate/HeartRateService.cs:28 | In a valid session the number of handles held is 1 when the field is set and 0 otherwise. |
| `Service.CleanupReleasesHeldHandle` | HeartRate/HeartRateService.cs:145-159 | Afterwards the field is empty and no handle is held, and the disposed flag and file name are unchanged. Exactly one release is recorded if a handle was held, and it is of that handle. Otherwise nothing is released. |
| `Service.CleanupIdempotent` | HeartRate/HeartRateService.cs:145-152 | A second cleanup changes nothing and releases nothing. |
| `Service.DisposeIsFinal` | HeartRate/HeartRateService.cs:180-188 | After dispose the session is disposed, holds no handle and stays valid. Disposing again changes nothing. |
| `Service.InitiatePreservesValid` | HeartRate/HeartRateService.cs:52-101 | Every way `InitiateDefault` ends keeps the session invariant: success, any exception, or a wait that never ends. So at most one handle is held. |
| `Service.AfterBindingKeepsSession` | HeartRate/HeartRateService.cs:85-100 | The characteristic lookup and the descriptor write after the lock change no session state. |
| `Service.BindKeepsValid` | HeartRate/HeartRateService.cs:80-82 | Storing the newly opened service into a cleaned, live session keeps the invariant. |
| `Service.NoDeviceLeavesSession` | HeartRate/HeartRateService.cs:58-67 | With no device found, the call fails with device-not-found. Only the file name changes: the handle, the disposed flag and the history are untouched. |
| `Service.DisposedSessionBindsNothing` | HeartRate/HeartRateService.cs:71-76 | On a disposed session nothing is released or bound. Once a device is found, the call fails with the disposed error. |
| `Service.ReinitiateReleasesFirst` | HeartRate/HeartRateService.cs:71-83 | On a session that is not disposed and has found a device, the held handle (if any) is released before opening is awaited. This holds whether opening completes, throws or never ends. A new handle is recorded only when opening returns one. The field then holds what opening returned, or nothing when opening did not complete. |
| `Service.MissingCharacteristicKeepsHandle` | HeartRate/HeartRateService.cs:85-92 | A missing characteristic fails with the device's name and id, and the newly bound handle stays stored. |
| `Service.HeartRateService.constructor` | HeartRate/HeartRateService.cs:28-35 | A new session holds no handle, is not disposed and has an empty history. |
| `Service.RowIsOneLine` | HeartRate/HeartRateServiceData.cs:63-81 | A row whose timestamp has no comma and no line break contains no line break, so it is one line of the file. It has as many fields as the header line. |
| `Service.RecordsOfLog` | HeartRate/HeartRateService.cs:42-47 | Writing one or two one-line texts puts `NewLine` after each. The result holds exactly one line feed per line. |
| `Service.LogTextIsRecords` | HeartRate/HeartRateService.cs:37-50 | For such a timestamp, the appended text is the header line followed by the record line when the file does not exist. When the file exists, it is the record line alone. The text has exactly one line feed per line (2 or 1), so each reading adds exactly one record, and the header appears only in a new file. The record has as many fields as the header. |
| `Service.HeartRateService.LogData` | HeartRate/HeartRateService.cs:37-50 | When the write succeeds, the appended text is `LogText` of the reading. By `LogTextIsRecords`, this is the header line only for a new file, then exactly one record line with the header's field count. When opening or writing the file throws, nothing is appended. |
| `Service.HeartRateService.HeartRateValueChanged` | HeartRate/HeartRateService.cs:103-143 | An empty payload or one shorter than the minimum length gives no log text and no event. Otherwise the reading is decoded once. When the log write succeeds, the reading is logged once and the event fires once with `(ContactStatus(flags), heart rate)`. When the log write throws, the exception leaves the handler before the event, so there is no log text and no event. The event fires exactly when the reading was logged. The bpm is in 0..65535. |
| `Service.HeartRateService.Cleanup` | HeartRate/HeartRateService.cs:145-159 | The new state is `AfterCleanup` of the old one, and the session invariant holds afterwards. |
| `Service.HeartRateService.Dispose` | HeartRate/HeartRateService.cs:180-188 | The new state is `AfterDispose` of the old one, and the invariant is kept. |
| `Service.HeartRateService.InitiateDefault` | HeartRate/HeartRateService.cs:52-101 | The new state and the outcome are those of `AfterInitiate`. These are: enumerate; fail if there is no device; fail if disposed; clean up; open and store the service; fail on a null service; fail on a missing characteristic; enable notifications. |

## Left out

- HeartRate/HeartRateForm.cs is not part of this model. It contains the WinForms
  display, the retry loop around `InitiateDefault`, the message box and process exit,
  and close-to-tray.
- File I/O in `LogData` is not modelled. Whether the log file exists and whether the
  write throws are inputs. The method returns the text it would append to `filename`.
  A write that throws partway, after some bytes reached the file, is treated as
  appending nothing.
- `DateTime.Now` is not modelled. The reading's timestamp and the stamp in the log
  file name are string parameters.
- `Debug.WriteLine` diagnostics are not modelled: the too-short message, the per-read
  and per-interval lines, and the descriptor-write status.
- Windows Bluetooth calls are not modelled. The answers of `FindAllAsync`,
  `FromIdAsync`, `GetCharacteristicsForUuidAsync` and
  `WriteClientCharacteristicConfigurationDescriptorAsync` are inputs (`Platform`).
- The `ValueChanged +=` registration is represented only by the `Subscribed`
  outcome. Registrations on characteristics of earlier sessions are not tracked.
- Concurrency is not modelled: `lock`, `Interlocked.Exchange`, `Thread.Sleep(10)`,
  and the race between notifications and teardown. The lifecycle calls are
  sequential calls on one object.
- Service.AsyncResult: an operation that never leaves Started makes the source spin
  forever. The method therefore requires that some observed status is terminal.
- Service.HeartRateService.InitiateDefault: requires that no awaited operation spins
  forever. That case (`Hung`) is modelled only in `AfterInitiate`.
- ServiceData.HeartRateServiceData.constructor: requires a payload that holds the
  flags byte and the whole heart-rate field. On shorter input the source throws an
  index or argument exception. Its only caller checks this first
  (`GuardAdmitsExactlyDecodable`).
- ServiceData.GetCsVHeader: returns the comma-join of the twelve column names rather
  than the string literal. The text is the same. Equality with the literal is not
  proved, because the solver cannot handle long string literals.
- Service.HeartRateService.Cleanup: a failing release takes no parameter. The source
  swallows every release error, so the recorded release and the new state are the
  same whether or not it throws.
- Service.HeartRateService.HeartRateValueChanged: the returned update is what the
  event's subscribers receive. With no subscriber, `?.Invoke` does nothing. The
  subscriber list is not modelled.
- Text.Decimal: culture-specific number formatting is not modelled. Only
  invariant-culture digits are produced.
- The initial `filename`, null in the source, is the empty string.
