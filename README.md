# SmartOBD2 adapter tables and live-PID selection, in Dafny

This project models two pieces of the SmartOBD2 iOS app, a driver for
ELM327-class OBD-II adapters:

- the **protocol registry and setup-step table** of `SmartOBD2/BleComm/Utils.swift`:
  the ELM327 protocol numbers 0 to C plus NONE, each with its raw value, its
  description, its CAN identifier width, its fallback successor and its
  `AT SP h` select command, the ordered case list, and the adapter setup
  steps in declaration order (modules `Protocols` and `SetupSteps` in `utils.dfy`);
- the **live-PID selection** of `SmartOBD2/ViewModels/LiveDataViewModel.swift`:
  the dictionary `data` from command to display item and the list `order` of
  requested commands, which `addPIDToRequest` toggles a command in, capped at
  six; and the three free functions that project a decode result for display
  (module `LiveData` in `live_data.dfy`).

`wrappers.dfy` holds `Option` (Swift's optional) and the raw-value lookup
that Swift synthesises for a `String`-backed enumeration.

The tables are functions over datatypes. `addPIDToRequest` and the default
branch of `init` are a class, `LiveData.LiveDataViewModel`, whose fields
`data` (a `map`) and `order` (a `seq`) its methods reassign. The method is
specified by the function `LiveData.AddPID` on the pair of fields. The
lemmas about that function state what the source promises.

Where the code differs from what its names and texts suggest, the model
follows the code:

- The select commands come from the `return "ATSP…"` arms of `cmd` at
  `Utils.swift` lines 178-181 and 186-220. Inside the unresolved merge
  conflict (lines 144-184), the HEAD-side `cmd` arms at lines 145-174 and the
  `asArray` at line 176 are not modelled: those arms return protocol values
  where strings are expected.
- `idBits` is 29 for protocols A and C, although their descriptions say
  "11* bit ID". `Protocols.IdBitsDifferFromDescriptionForAAndC` records this.
- Fallback from AUTO goes to NONE. NONE is its own successor.
- Toggling a command twice, with room for it, always restores the key set and
  the multiset of `order`. An unselected command gives back the whole
  selection. A selected command ends up last in `order` with a fresh gauge-1
  item, so the selection comes back exactly only when the command was already
  last and its item was such a fresh item.
  `LiveData.AddPIDTwiceReordersPresent` shows the reordering on the default selection.

## Model

| member | source | states |
|---|---|---|
| `Wrappers.FindByRawValue` | SmartOBD2/BleComm/Utils.swift:82-97 | a found case is in the list and has the raw value searched for; when nothing is found, no listed case has it |
| `SetupSteps.Position` | SmartOBD2/BleComm/Utils.swift:68-78 | each step sits at its position in `allCases` |
| `SetupSteps.RawValue` | SmartOBD2/BleComm/Utils.swift:68-78 | every step's raw value is its case name, which starts with "AT" and is 3 to 6 characters long |
| `SetupSteps.AllCasesEnumerates` | SmartOBD2/BleComm/Utils.swift:68-78 | `allCases` has the 10 steps, each exactly once, in declaration order ATD, ATZ, ATRV, ATL0, ATE0, ATH1, ATAT1, ATSTFF, ATDPN, AT0902 |
| `SetupSteps.RawValueInjective` | SmartOBD2/BleComm/Utils.swift:68-78 | distinct steps have distinct raw values |
| `SetupSteps.FromRawValue` | SmartOBD2/BleComm/Utils.swift:68 | `init?(rawValue:)` gives a step exactly when that step has the raw value |
| `SetupSteps.Id` | SmartOBD2/BleComm/Utils.swift:79 | `id` is the raw value, and decoding it gives the step back |
| `Protocols.Index` | SmartOBD2/BleComm/Utils.swift:225-238 | each case sits at its index in `asArray`; index 13 belongs to NONE alone |
| `Protocols.RawValue` | SmartOBD2/BleComm/Utils.swift:82-97 | the raw value of AUTO to C is the single hex digit of its index in `asArray`; NONE's is "NONE" |
| `Protocols.Description` | SmartOBD2/BleComm/Utils.swift:99-116 | every description except NONE's starts with the raw value and ": "; NONE's is "None" |
| `Protocols.IdBits` | SmartOBD2/BleComm/Utils.swift:118-123 | the width is 11 exactly for protocols 6, 8 and B, and 29 for every other case |
| `Protocols.IdBitsAgreeWithCanDescriptions` | SmartOBD2/BleComm/Utils.swift:99-123 | for the ISO 15765-4 CAN protocols 6 to 9, the description names the width that `idBits` returns |
| `Protocols.IdBitsDifferFromDescriptionForAAndC` | SmartOBD2/BleComm/Utils.swift:99-123 | for A and C, `idBits` is 29 while the description names an 11-bit identifier |
| `Protocols.FallbackMap` | SmartOBD2/BleComm/Utils.swift:126-139 | the `protocolMap` literal has a key for exactly the protocols numbered 1 to C, and maps each to the protocol numbered one below |
| `Protocols.Rank` | SmartOBD2/BleComm/Utils.swift:125-142 | a rank of at most 13 that is 0 exactly for NONE |
| `Protocols.NextProtocol` | SmartOBD2/BleComm/Utils.swift:125-142 | every case but NONE falls back exactly one rank down; C to 1 go to the case before them in `asArray`; the result is NONE exactly for AUTO and NONE |
| `Protocols.IterateRank` | SmartOBD2/BleComm/Utils.swift:125-142 | `n` fallbacks lower the rank by `n`, down to 0 |
| `Protocols.FallbackTerminates` | SmartOBD2/BleComm/Utils.swift:125-142 | repeated fallback from any case reaches NONE after exactly its rank in steps, so within 13, and not before |
| `Protocols.FallbackNeverRevisits` | SmartOBD2/BleComm/Utils.swift:125-142 | the fallback sequence has no cycle: a case other than NONE never comes back later |
| `Protocols.FallbackChain` | SmartOBD2/BleComm/Utils.swift:125-142 | the protocols tried before NONE number exactly the rank, with rank falling by one at each step |
| `Protocols.FallbackChainIsIterates` | SmartOBD2/BleComm/Utils.swift:125-142 | the i-th protocol tried is `nextProtocol` applied i times |
| `Protocols.FallbackChainFromC` | SmartOBD2/BleComm/Utils.swift:126-139 | falling back from C tries C, B, A, 9, 8, ..., 1, AUTO, each once: `asArray` without NONE, backwards |
| `Protocols.SelectCommand` | SmartOBD2/BleComm/Utils.swift:186-220 | the select command of AUTO to C is "ATSP" followed by the raw value (the arms for AUTO and 1 are at lines 178-181); NONE selects "" |
| `Protocols.SelectCommandInjective` | SmartOBD2/BleComm/Utils.swift:186-220 | distinct protocols have distinct select commands |
| `Protocols.AllCasesEnumerates` | SmartOBD2/BleComm/Utils.swift:225-238 | `asArray` has the 14 cases, each exactly once, in the order AUTO, 1 to 9, A, B, C, NONE |
| `Protocols.RawValueInjective` | SmartOBD2/BleComm/Utils.swift:82-97 | raw values are pairwise distinct |
| `Protocols.FromRawValue` | SmartOBD2/BleComm/Utils.swift:82 | decoding a raw value gives a case exactly when that case has the raw value |
| `Protocols.RawValueRoundTrip` | SmartOBD2/BleComm/Utils.swift:82-97 | the `Codable` round trip: decoding a case's raw value gives the case back |
| `Protocols.FromRawValueRejects` | SmartOBD2/BleComm/Utils.swift:82-97 | a string that is no case's raw value does not decode |
| `LiveData.NewDataItem` | SmartOBD2/ViewModels/LiveDataViewModel.swift:32-43 | a new item has the given command and gauge, value 0, no unit and no measurements |
| `LiveData.RemoveAt` | SmartOBD2/ViewModels/LiveDataViewModel.swift:111 | `remove(at:)` shortens the list by one, keeps the elements before the position, moves the later ones one place forward, and drops exactly one copy of the removed element |
| `LiveData.RemoveFirst` | SmartOBD2/ViewModels/LiveDataViewModel.swift:110-111 | leaves the list alone when the element is missing; otherwise removes its first occurrence, keeping the elements before and after it in order, and drops exactly one copy of it |
| `LiveData.AddPID` | SmartOBD2/ViewModels/LiveDataViewModel.swift:103-113 | at six or more entries the selection is unchanged; below that, whether `pid` is a key of `data` is toggled; no other key is added or removed |
| `LiveData.FirstIndex` | SmartOBD2/ViewModels/LiveDataViewModel.swift:110 | `firstIndex(of:)` is absent exactly when the element is missing; otherwise it points at the element, with no earlier occurrence |
| `LiveData.RemoveFirstOfDistinct` | SmartOBD2/ViewModels/LiveDataViewModel.swift:110-111 | removing the first occurrence from a list without duplicates removes one position, keeps the others in order, and leaves every other element and no copy of the removed one |
| `LiveData.DefaultSelection` | SmartOBD2/ViewModels/LiveDataViewModel.swift:88-92 | the default selection is in sync, orders RPM before speed, and puts RPM on gauge 1 and speed on gauge 2 |
| `LiveData.AddPIDWhenFull` | SmartOBD2/ViewModels/LiveDataViewModel.swift:104 | with six or more commands in `order`, nothing changes, even for a command that is already selected |
| `LiveData.AddPIDAddsAbsent` | SmartOBD2/ViewModels/LiveDataViewModel.swift:105-107 | adding an unselected command below the cap adds exactly its key, with a fresh gauge-1 item, appends it to `order`, and keeps every other item |
| `LiveData.AddPIDRemovesPresent` | SmartOBD2/ViewModels/LiveDataViewModel.swift:108-112 | removing a selected command below the cap drops its key and its occurrence in `order`, keeps the other items, and keeps the other commands in their relative order |
| `LiveData.AddPIDPreservesInSync` | SmartOBD2/ViewModels/LiveDataViewModel.swift:103-113 | the keys of `data` equal the elements of `order`, `order` has no duplicates and each item belongs to its key; `addPIDToRequest` keeps all three |
| `LiveData.AddPIDBounded` | SmartOBD2/ViewModels/LiveDataViewModel.swift:104-107 | `order` never grows past six commands, and grows by at most one |
| `LiveData.AddPIDTwiceRestoresAbsent` | SmartOBD2/ViewModels/LiveDataViewModel.swift:103-113 | with at most four commands in `order`, toggling an unselected command twice restores `data` and `order` exactly |
| `LiveData.AddPIDTwiceRestoresKeySet` | SmartOBD2/ViewModels/LiveDataViewModel.swift:103-113 | with at most four commands in `order`, toggling any command twice restores the key set and the multiset of `order`; a selected command ends up last, with a fresh item |
| `LiveData.AddPIDTwiceReordersPresent` | SmartOBD2/ViewModels/LiveDataViewModel.swift:103-113 | toggling RPM twice from the default selection gives `order` speed, RPM, so the original order is not restored for a selected command |
| `LiveData.LiveDataViewModel.constructor` | SmartOBD2/ViewModels/LiveDataViewModel.swift:87-93 | the default branch of `init` establishes the sync invariant and the default selection |
| `LiveData.LiveDataViewModel.AddPIDToRequest` | SmartOBD2/ViewModels/LiveDataViewModel.swift:103-113 | the new fields are `AddPID` of the old ones; the sync invariant and the six-command cap are kept |
| `LiveData.DecodeToMeasurement` | SmartOBD2/ViewModels/LiveDataViewModel.swift:217-224 | never nil: the carried measurement for a measurement result, zero km/h for every other result |
| `LiveData.DecodeMeasurementToDouble` | SmartOBD2/ViewModels/LiveDataViewModel.swift:226-238 | 0 for nil, for no result and for any other case; the measurement's value; or the parsed text of a string result, with 0 when parsing fails |
| `LiveData.DecodeMeasurementToString` | SmartOBD2/ViewModels/LiveDataViewModel.swift:240-254 | "N/A" for nil; the text of a string result; the value, a space and the unit symbol for a measurement; "No Result" for no result and any other case |
| `LiveData.Symbol` | SmartOBD2/ViewModels/LiveDataViewModel.swift:248 | `unit.symbol` is "km/h" for kilometres per hour and the unit's own symbol otherwise |
| `LiveData.DisplaysAgree` | SmartOBD2/ViewModels/LiveDataViewModel.swift:217-238 | for every result that is not a string, the double shown equals the value of the measurement `decodeToMeasurement` gives |

## Left out

- `withTimeout` (`Utils.swift`): a race between two concurrent tasks with cancellation. Concurrency is not modelled.
- The commented-out `RESPONSE.ERROR` vocabulary and `GET_DTCS_STEP` in `Utils.swift`, because they are not live code.
- The HEAD-side `cmd` arms at `Utils.swift` lines 145-174 and the `asArray` at line 176, both inside the unresolved merge conflict, because they do not type-check. Those arms return protocol values, and that `asArray` uses case names that do not exist. The ATSP arms at lines 178-181 and 186-220 are modelled.
- The order in which setup steps run: the caller passes it to `setupAdapter(setupOrder:)`, and the ELM327 manager decides what is sent for each step. Neither is part of this model; only the declaration order (`allCases`) is.
- The ELM327 manager, the OBD command catalog, `BatchedResponse` and the OBD service are not part of this model. Commands are abstract keys: only RPM and speed are named.
- `OBDDecodeResult` is defined in the OBD command catalog, which is not part of this model. The model uses a result type with the three cases the helpers name, plus one case for their `default` branches.
- `Measurement<Unit>` is Foundation's generic measurement type, and `Unit`, `UnitSpeed.kilometersPerHour` and `.symbol` are Foundation's too. `MeasureUnit` stands for Foundation's `Unit`: only `kilometersPerHour` is named, and every other unit is reduced to its symbol.
- `GaugeType` is defined outside the modelled files. Only the two gauge types the code names (`gaugeType1`, `gaugeType2`) are concrete; every other gauge type is an opaque index.
- `Double` is modelled as `real`. Parsing a `String` to a `Double` and printing a `Double` are function parameters of `DecodeMeasurementToDouble` and `DecodeMeasurementToString`. Floating-point behaviour is not modelled.
- `decodeMeasurementToBindingDouble`: it builds a SwiftUI `Binding`, which is presentation.
- Polling and timers (`startTimer`, `stopTimer`, `controlRequestingPIDs`, `startAppendMeasurementsTimer`, `startRequestingPIDs`) and the `isRequestingPids` flag, because they use timers, dispatch queues and tasks.
- `appendMeasurements`, because it depends on the wall clock and `Double` samples. `PIDMeasurement` times are abstract.
- `updateDataItems`, because it depends on `BatchedResponse` and the adapter's `requestPIDs`, which are foreign calls.
- The persisted branch of `init` and `saveDataItems`, because they use `UserDefaults` and JSON. The class is built in the default branch only.
- The Combine subscriptions in `init` (connection state, current vehicle) and the `@Published` plumbing, because they are presentation.
- `DataItem` is a Swift class whose fields `updateDataItems` and `appendMeasurements` change through shared references. Both are left out, and `addPIDToRequest` only creates items. So the model treats items as values, and aliasing of items is not captured.
- The SwiftUI views, the Bluetooth delegate callback, the app lifecycle and the settings view model, because they are presentation or transport plumbing.
