# BonjourInWPF discovered-device registry, modelled in Dafny

BonjourInWPF is a WPF desktop browser for mDNS/DNS-SD ("Bonjour") services
on the local network. This project models its core:

- **the registry** (`WpfDiscoverModel`). It keeps one record (`DeviceDetails`)
  per composite key `ip@@serviceKey@@port`. Each resolved-host notification
  inserts, replaces or withdraws records. A periodic expiry pass flags
  records whose TTL has run out and chooses how long to sleep. The registry
  raises Publish, Unpublish, StateChanged and Error events.
- **the read-only summary** (`DiscoveredDevice`), whose image is chosen by
  first-match over twelve service-type prefixes.
- **the view-model** (`WpfDiscoverVM`). It projects the registry's events
  onto the list of shown devices, the set of published keys, the detail pane,
  the on/off switch and a three-colour error pane.

Layout, one Dafny module per concern:

| file | module | content |
|---|---|---|
| `wrappers.dfy` | `Wrappers` | `Option` |
| `strings.dfy` | `Strings` | decimal rendering of an `int` with its inverse; last index of a character |
| `device_details.dfy` | `Records` | class `DeviceDetails` and its value snapshot `RecordInfo` |
| `discovered_device.dfy` | `Summaries` | `DiscoveredDevice`, the image classifier and a first-match reference classifier |
| `discover_model_spec.dfy` | `RegistrySpec` | value-level meaning of ingest, expiry and wake-up; lemmas about them |
| `discover_model.dfy` | `Registry` | class `WpfDiscoverModel`, with each method proved against `RegistrySpec` |
| `discover_vm_spec.dfy` | `ViewSpec` | the projection `View`, one function per event, `Replay`; lemmas |
| `discover_vm.dfy` | `ViewModel` | class `WpfDiscoverVM`, with each handler proved against `ViewSpec` |

How the model is built:

- The registry's dictionary is a `map<string, DeviceDetails>` field. Its
  value view `Store()` maps each key to the record's snapshot. Every
  state-changing method states the new store as a function of the old one:
  `IngestStore` for a notification, `ExpireStore` for an expiry pass.
- Events are appended to a log field `events`, in the order a subscriber
  receives them. The view-model's handlers are methods whose effect on
  `Projection()` is the corresponding `ViewSpec` function.
- `Consistent` is the view-model's invariant, preserved by every handler.
  It says:
  - the list shows exactly the published keys, each once;
  - the pane colour is Green, Red or Black;
  - the pane is Green whenever there is no error text.
- The expiry pass enumerates the dictionary in an unspecified order
  (`:|`). It is proved to compute a delay that depends only on the store:
  `NextWakeup`, characterised by `WakeOver` and unique (`NextWakeupUnique`).
- Time is whole seconds (`now: int`). Its rendering (`stamp: string`), the
  working directory and resolver failures are parameters.

Source quirks that the model follows, because it follows the code:

- `AddNewDevices` passes the `DeviceDetails` constructor arguments in a
  different order from its parameter names. The record's `Service` holds the
  IP address, its `Domain` holds the port text and its `Id` holds the service
  key (`RegistrySpec.NewRecord`, `RegistrySpec.SummaryOfNewRecord`). The
  summary's Service is therefore the IP address cut at its last ':'.
- `SetDefaultImage` tests twelve prefixes, four of them printer prefixes.
  The model uses exactly those twelve.
- A record flagged expired stays in the store and keeps a negative remaining
  time. Every later pass therefore sleeps 0 ms until the record is replaced,
  an announcement with TTL <= 0 withdraws its key (`RemoveKeys`), or the
  registry shuts down (`RegistrySpec.ExpiredRecordForcesZeroWake`).
- `StateChanged(false)` clears the list, the set and the detail pane, but
  not `SelectedItem`.

## Model

| member | source | states |
|---|---|---|
| Strings.IntToStringRoundTrip | wpfDiscoverModel/wpfDiscoverModel.cs:374 | the decimal rendering of the port is parsed back to the same integer, for every integer |
| Strings.IntToStringInjective | wpfDiscoverModel/wpfDiscoverModel.cs:374 | two ports with the same rendering are equal |
| Strings.LastIndexOf | wpfDiscoverModel/wpfDiscoverModel.cs:336 | the result is -1 or an index holding the character, and no later index holds it |
| Records.Created | wpfDiscoverModel/DeviceDetails.cs:36-50 | a new record is not expired, holds its arguments in the matching fields and the receipt time, and its details are the given text followed by the timestamp line |
| Records.AfterSetExpired | wpfDiscoverModel/DeviceDetails.cs:75-79 | expiry sets the flag, keeps the identity fields and appends the expiry line to the details |
| Records.DeviceDetails.constructor | wpfDiscoverModel/DeviceDetails.cs:36-50 | the object's snapshot is `Created` of its arguments |
| Records.DeviceDetails.GetCompleteDeviceData | wpfDiscoverModel/DeviceDetails.cs:54-64 | the rendering is the name, key and domain lines, then the `\nService: ` line followed by `\n\n `, then the details verbatim, each segment at its own offset |
| Records.DeviceDetails.GetDeviceDetails | wpfDiscoverModel/DeviceDetails.cs:66-73 | returns the record's current detail text |
| Records.DeviceDetails.SetExpired | wpfDiscoverModel/DeviceDetails.cs:75-79 | the new snapshot is `AfterSetExpired` of the old one |
| Summaries.FirstMatchIsLeast | wpfDiscoverModel/DiscoveredDevice.cs:56-92 | the first matching table entry decides the kind, whatever later entries match |
| Summaries.FirstMatchUnknownIffNone | wpfDiscoverModel/DiscoveredDevice.cs:88-91 | in a table without Unknown entries, the answer is Unknown exactly when no prefix matches |
| Summaries.ClassifyIsFirstMatch | wpfDiscoverModel/DiscoveredDevice.cs:56-92 | the if/else chain equals first-match over the twelve signatures in their fixed order |
| Summaries.ClassifyUnknownIffNoSignature | wpfDiscoverModel/DiscoveredDevice.cs:88-91 | the unknown image is chosen exactly when none of the twelve prefixes matches |
| Summaries.PrinterSignaturesWin | wpfDiscoverModel/DiscoveredDevice.cs:58-62 | an id starting with any printer prefix gets the printer image |
| Summaries.NewDiscoveredDevice | wpfDiscoverModel/DiscoveredDevice.cs:44-51 | the four text fields are copied; the image is the working directory followed by the first-match image of the id |
| RegistrySpec.ServiceKeyExample | wpfDiscoverModel/wpfDiscoverModel.cs:372-374 | 10.0.0.5 with _http._tcp on port 80 has the key `10.0.0.5@@_http._tcp@@80` |
| RegistrySpec.ServiceKeyInjective | wpfDiscoverModel/wpfDiscoverModel.cs:372-374 | for one address, equal composite keys mean equal service keys and equal ports |
| RegistrySpec.NumeralAfterSeparator | wpfDiscoverModel/wpfDiscoverModel.cs:373-374 | a separator '@' followed by an '@'-free port text fixes where the port text starts |
| RegistrySpec.InsertStep | wpfDiscoverModel/wpfDiscoverModel.cs:364-396 | one more service entry extends the publish list, the unpublish list and the store by that entry alone |
| RegistrySpec.PublishKeysExact | wpfDiscoverModel/wpfDiscoverModel.cs:381-388 | devicesToPublish holds a key exactly when some keyed entry with positive TTL has it |
| RegistrySpec.UnpublishKeysExact | wpfDiscoverModel/wpfDiscoverModel.cs:381-384 | devicesToUnpublish holds a key exactly when some keyed entry with TTL <= 0 has it |
| RegistrySpec.PublishKeysCollect | wpfDiscoverModel/wpfDiscoverModel.cs:381-388 | devicesToPublish, built entry by entry, is the announcing entries' keys in enumeration order |
| RegistrySpec.UnpublishKeysCollect | wpfDiscoverModel/wpfDiscoverModel.cs:381-384 | devicesToUnpublish, built entry by entry, is the withdrawing entries' keys in enumeration order |
| RegistrySpec.IngestEventsOrdered | wpfDiscoverModel/wpfDiscoverModel.cs:398-406 | every Publish precedes every Unpublish; the batch holds only these two kinds, one per listed key, in both directions |
| RegistrySpec.InsertedLeavesOthers | wpfDiscoverModel/wpfDiscoverModel.cs:364-396 | the insertion loop leaves every key no entry names as it was (present or absent, same record) |
| RegistrySpec.InsertedKeys | wpfDiscoverModel/wpfDiscoverModel.cs:385-395 | after insertion the keys are the old keys plus the announced ones |
| RegistrySpec.InsertedHoldsNewRecord | wpfDiscoverModel/wpfDiscoverModel.cs:388-394 | with distinct service keys, each announced key holds the record built from its own entry, replacing any older one |
| RegistrySpec.IngestStoreEffect | wpfDiscoverModel/wpfDiscoverModel.cs:351-416 | after a notification, each announced key holds its new record, each withdrawn key is gone, and every other key keeps its record or its absence |
| RegistrySpec.IngestKeepsPositiveTtl | wpfDiscoverModel/wpfDiscoverModel.cs:381-395 | a record with TTL <= 0 never enters the store |
| RegistrySpec.InsertedPositive | wpfDiscoverModel/wpfDiscoverModel.cs:381-395 | the insertion loop stores only records with positive TTL |
| RegistrySpec.RemoveOneMore | wpfDiscoverModel/wpfDiscoverModel.cs:408-414 | proof helper: removing one more key, present or absent, equals removing the enlarged key set |
| RegistrySpec.ListedOneMore | wpfDiscoverModel/wpfDiscoverModel.cs:408-414 | proof helper: the keys of a list prefix one element longer gain exactly that element |
| RegistrySpec.ExpireStep | wpfDiscoverModel/wpfDiscoverModel.cs:437-451 | one scanned record keeps its identity; records with INVALID_TTL or already expired are untouched; the flag is set exactly when it was set or the record is overdue; details only grow |
| RegistrySpec.ExpireStore | wpfDiscoverModel/wpfDiscoverModel.cs:434-463 | the expiry pass neither adds nor removes keys |
| RegistrySpec.ExpireOver | wpfDiscoverModel/wpfDiscoverModel.cs:434-463 | a partial pass neither adds nor removes keys |
| RegistrySpec.ExpireOverAll | wpfDiscoverModel/wpfDiscoverModel.cs:434-463 | a pass over every key is the whole-store pass |
| RegistrySpec.ExpireOverStep | wpfDiscoverModel/wpfDiscoverModel.cs:434-463 | scanning one more key updates exactly that key's record |
| RegistrySpec.PublishesOfList | wpfDiscoverModel/wpfDiscoverModel.cs:466-469 | publishing a list that names each key once raises one Publish per key and nothing else |
| RegistrySpec.WakeOverNone | wpfDiscoverModel/wpfDiscoverModel.cs:429 | DEFAULT_WAKE_TIME meets the wake-up conditions over no records |
| RegistrySpec.WakeOverStep | wpfDiscoverModel/wpfDiscoverModel.cs:453-462 | one more record's WakeStep keeps the wake-up conditions: within [0, 9000], at most every positive remaining time, 0 exactly when some remaining time is not positive, otherwise the default or a remaining time |
| RegistrySpec.MoveKey | wpfDiscoverModel/wpfDiscoverModel.cs:434 | proof helper: moving one key from unscanned to scanned keeps the partition and shrinks the unscanned set |
| RegistrySpec.NoKeyLeft | wpfDiscoverModel/wpfDiscoverModel.cs:434 | proof helper: when no key is unscanned, every key has been scanned |
| RegistrySpec.ScanProgressStep | wpfDiscoverModel/wpfDiscoverModel.cs:434-463 | scanning one more record lists its key once if it is overdue and takes one WakeStep |
| RegistrySpec.ScanProgressDone | wpfDiscoverModel/wpfDiscoverModel.cs:434-463 | a finished scan has listed exactly the newly overdue keys and found a delay meeting the conditions |
| RegistrySpec.Pick | wpfDiscoverModel/wpfDiscoverModel.cs:434 | proof helper: the chosen key belongs to the set |
| RegistrySpec.WakeFoldMeets | wpfDiscoverModel/wpfDiscoverModel.cs:429-463 | folding WakeStep over any set of records from the default meets the wake-up conditions |
| RegistrySpec.NextWakeupMeets | wpfDiscoverModel/wpfDiscoverModel.cs:429-463 | the delay of a whole pass meets the wake-up conditions |
| RegistrySpec.NextWakeupUnique | wpfDiscoverModel/wpfDiscoverModel.cs:429-463 | at most one delay meets the conditions, so the enumeration order does not matter |
| RegistrySpec.ExpiredRecordForcesZeroWake | wpfDiscoverModel/wpfDiscoverModel.cs:444-458 | a record flagged expired and still past its TTL forces a zero delay |
| RegistrySpec.GetState | wpfDiscoverModel/wpfDiscoverModel.cs:280-289 | the state is true exactly for a boxed true |
| RegistrySpec.StripServiceName | wpfDiscoverModel/wpfDiscoverModel.cs:334-345 | with a ':' after position 0, the text before the last ':'; otherwise the whole text |
| RegistrySpec.SummaryOfNewRecord | wpfDiscoverModel/wpfDiscoverModel.cs:376-379 | a new record's summary has the composite key, the display name, the port text as Domain, the stripped IP address as Service and the image of the service key |
| RegistrySpec.Reversed | wpfDiscoverModel/wpfDiscoverModel.cs:309-312 | proof helper: the reverse has the same length |
| RegistrySpec.ReversedAt | wpfDiscoverModel/wpfDiscoverModel.cs:309-312 | position k of the reverse holds element n-1-k |
| Registry.WpfDiscoverModel.constructor | wpfDiscoverModel/wpfDiscoverModel.cs:54-62 | an empty registry with the default scan time, retry count 2 and retry delay 2000 ms, no events |
| Registry.WpfDiscoverModel.LoadDefaultConfigs | wpfDiscoverModel/wpfDiscoverModel.cs:229-234 | the three settings return to their defaults and nothing else changes |
| Registry.WpfDiscoverModel.BubbleError | wpfDiscoverModel/wpfDiscoverModel.cs:527-530 | one Error event carrying the stamp, the separator and the message; nothing else changes |
| Registry.WpfDiscoverModel.Shutdown | wpfDiscoverModel/wpfDiscoverModel.cs:303-320 | every subscription is disposed, last first; the lists and the store are empty; one StateChanged(false) event |
| Registry.WpfDiscoverModel.DisposeSubscriptions | wpfDiscoverModel/wpfDiscoverModel.cs:309-312 | Dispose is called on the subscriptions in reverse order, and nothing else changes |
| Registry.WpfDiscoverModel.Init | wpfDiscoverModel/wpfDiscoverModel.cs:75-91 | on success two new subscriptions and StateChanged(true); on failure the error event and a shutdown |
| Registry.WpfDiscoverModel.OnNextDomain | wpfDiscoverModel/wpfDiscoverModel.cs:188-205 | on success one resolution and its subscription are added, with no event; on failure the error event and a shutdown |
| Registry.WpfDiscoverModel.OnCompleted | wpfDiscoverModel/wpfDiscoverModel.cs:210-214 | one Error event "Completed Browsing"; nothing else changes |
| Registry.WpfDiscoverModel.OnError | wpfDiscoverModel/wpfDiscoverModel.cs:220-224 | one Error event with the exception's message; nothing else changes |
| Registry.WpfDiscoverModel.OnOff | wpfDiscoverModel/wpfDiscoverModel.cs:117-129 | a boxed true starts the registry as Init does; anything else shuts it down |
| Registry.WpfDiscoverModel.Reset | wpfDiscoverModel/wpfDiscoverModel.cs:97-111 | a boxed true shuts down then starts again (StateChanged(false) followed by Init's events); anything else changes nothing |
| Registry.WpfDiscoverModel.GetDiscoveredDevice | wpfDiscoverModel/wpfDiscoverModel.cs:136-154 | None exactly for an absent key; otherwise the summary of the stored record |
| Registry.WpfDiscoverModel.GetDeviceDetails | wpfDiscoverModel/wpfDiscoverModel.cs:162-179 | the stored record's detail text, and the empty text exactly for an absent key |
| Registry.WpfDiscoverModel.PublishEach | wpfDiscoverModel/wpfDiscoverModel.cs:398-401 | one Publish event per key, in list order |
| Registry.WpfDiscoverModel.UnpublishEach | wpfDiscoverModel/wpfDiscoverModel.cs:403-406 | one Unpublish event per key, in list order |
| Registry.WpfDiscoverModel.Put | wpfDiscoverModel/wpfDiscoverModel.cs:388-394 | the key now maps to the new record; any old one is replaced |
| Registry.WpfDiscoverModel.Drop | wpfDiscoverModel/wpfDiscoverModel.cs:410-411 | the key and its record are removed |
| Registry.WpfDiscoverModel.InsertServices | wpfDiscoverModel/wpfDiscoverModel.cs:364-396 | the store becomes `Inserted` of the old store; the two lists are the announced and withdrawn keys in entry order; new entries are fresh objects |
| Registry.WpfDiscoverModel.RemoveKeys | wpfDiscoverModel/wpfDiscoverModel.cs:408-414 | every listed key is removed, absent ones are skipped, and nothing else changes |
| Registry.WpfDiscoverModel.AddNewDevices | wpfDiscoverModel/wpfDiscoverModel.cs:351-416 | a missing host, address or service list changes nothing; otherwise the store becomes `IngestStore` and the events are `IngestEvents` |
| Registry.WpfDiscoverModel.ScanRecord | wpfDiscoverModel/wpfDiscoverModel.cs:436-462 | one record becomes `ExpireStep` of itself; it reports whether it was overdue; the delay takes one `WakeStep` |
| Registry.WpfDiscoverModel.ScanAll | wpfDiscoverModel/wpfDiscoverModel.cs:431-464 | in any enumeration order: the store becomes `ExpireStore`, the list names each newly overdue key once, the delay is `NextWakeup` |
| Registry.WpfDiscoverModel.ProcessExpiryPass | wpfDiscoverModel/wpfDiscoverModel.cs:427-471 | one pass: the store becomes `ExpireStore`; one Publish per newly overdue key and no other event; the delay is `NextWakeup`; nothing else changes |
| ViewSpec.IndexOfKey | wpfDiscoverViewModel/wpfDiscoverVM.cs:259 | the index of the first device with the key, or -1 when none has it |
| ViewSpec.Without | wpfDiscoverViewModel/wpfDiscoverVM.cs:266 | the list minus position i, with the other elements in order |
| ViewSpec.InitialViewConsistent | wpfDiscoverViewModel/wpfDiscoverVM.cs:92-117 | the view after construction is consistent |
| ViewSpec.KeysOfAppend | wpfDiscoverViewModel/wpfDiscoverVM.cs:225 | appending a device adds its key to the list's keys |
| ViewSpec.KeysOfIndex | wpfDiscoverViewModel/wpfDiscoverVM.cs:259 | a key is in the list's keys exactly when some position holds it |
| ViewSpec.PublishIgnoresKnown | wpfDiscoverViewModel/wpfDiscoverVM.cs:211-219 | an unknown or already published device changes neither the set, the list nor the selection |
| ViewSpec.PublishAppends | wpfDiscoverViewModel/wpfDiscoverVM.cs:220-226 | a new device joins the set and is appended to the list |
| ViewSpec.FirstPublishSelects | wpfDiscoverViewModel/wpfDiscoverVM.cs:228-240 | the publish that makes the set hold one key selects that device and shows its details |
| ViewSpec.PublishPreservesConsistent | wpfDiscoverViewModel/wpfDiscoverVM.cs:195-241 | a Publish event keeps the view consistent |
| ViewSpec.KeysOfWithout | wpfDiscoverViewModel/wpfDiscoverVM.cs:266 | removing one device of a duplicate-free list removes exactly its key |
| ViewSpec.WithoutNoDuplicates | wpfDiscoverViewModel/wpfDiscoverVM.cs:266 | removing one device keeps the keys distinct |
| ViewSpec.WithoutKeepsOthers | wpfDiscoverViewModel/wpfDiscoverVM.cs:266 | removing one device keeps every other device |
| ViewSpec.UnpublishAbsent | wpfDiscoverViewModel/wpfDiscoverVM.cs:253-264 | unpublishing an unpublished key changes neither the set nor the list |
| ViewSpec.UnpublishRemoves | wpfDiscoverViewModel/wpfDiscoverVM.cs:243-268 | unpublishing a published key removes it from the set and its one device from the list, keeping every other device |
| ViewSpec.UnpublishPreservesConsistent | wpfDiscoverViewModel/wpfDiscoverVM.cs:243-268 | an Unpublish event keeps the view consistent |
| ViewSpec.StateChangedEffect | wpfDiscoverViewModel/wpfDiscoverVM.cs:165-188 | the switch follows the state; off empties the list, the set and the details; on changes nothing else |
| ViewSpec.StateChangedPreservesConsistent | wpfDiscoverViewModel/wpfDiscoverVM.cs:165-188 | a StateChanged event keeps the view consistent |
| ViewSpec.ErrorEffect | wpfDiscoverViewModel/wpfDiscoverVM.cs:126-141 | the message and "\r\n" are appended; the pane turns red unless it is open |
| ViewSpec.ErrorPreservesConsistent | wpfDiscoverViewModel/wpfDiscoverVM.cs:126-141 | an Error event keeps the view consistent |
| ViewSpec.PaneActiveEffect | wpfDiscoverViewModel/wpfDiscoverVM.cs:49-65 | opening the pane over some error text turns it black; the flag follows the value |
| ViewSpec.PaneActivePreservesConsistent | wpfDiscoverViewModel/wpfDiscoverVM.cs:49-65 | the pane setter keeps the view consistent |
| ViewSpec.ApplyPreservesConsistent | wpfDiscoverViewModel/wpfDiscoverVM.cs:100-103 | every registry event keeps the view consistent |
| ViewSpec.ReplayStep | wpfDiscoverViewModel/wpfDiscoverVM.cs:100-103 | handling the events up to one more position is handling one more event after the shorter run |
| ViewSpec.ReplayPreservesConsistent | wpfDiscoverViewModel/wpfDiscoverVM.cs:100-103 | every run of events keeps the view consistent |
| ViewSpec.ResetReplay | wpfDiscoverModel/wpfDiscoverModel.cs:97-111 | a registry reset leaves the view empty, the switch on exactly when Init succeeded, Init's error appended and the selection unchanged |
| ViewModel.FirstWithKey | wpfDiscoverViewModel/wpfDiscoverVM.cs:259 | the loop finds the first device with the key, or -1 (`IndexOfKey`) |
| ViewModel.WpfDiscoverVM.constructor | wpfDiscoverViewModel/wpfDiscoverVM.cs:92-117 | a started registry (empty store and resolution list, no disposals, two subscriptions when Init succeeds and none when it fails), the switch on, the pane green, the lists empty; Init's events are dropped |
| ViewModel.WpfDiscoverVM.UpdateSelectedItemDetails | wpfDiscoverViewModel/wpfDiscoverVM.cs:293-305 | a selected device shows the registry's details for its key; no selection changes nothing |
| ViewModel.WpfDiscoverVM.OnPublishDevice | wpfDiscoverViewModel/wpfDiscoverVM.cs:195-241 | the view becomes `OnPublish` of the registry's summary and details for the key, and stays consistent |
| ViewModel.WpfDiscoverVM.ShowPublished | wpfDiscoverViewModel/wpfDiscoverVM.cs:209-240 | given the summary and details, the view becomes `OnPublish` of them, and stays consistent |
| ViewModel.WpfDiscoverVM.OnUnpublish | wpfDiscoverViewModel/wpfDiscoverVM.cs:243-268 | the view becomes `OnUnpublish`, and stays consistent |
| ViewModel.WpfDiscoverVM.OnStateChanged | wpfDiscoverViewModel/wpfDiscoverVM.cs:165-188 | the view becomes `OnStateChanged`, and stays consistent |
| ViewModel.WpfDiscoverVM.OnError | wpfDiscoverViewModel/wpfDiscoverVM.cs:126-141 | the view becomes `OnError`, and stays consistent |
| ViewModel.WpfDiscoverVM.SetErrorPaneActive | wpfDiscoverViewModel/wpfDiscoverVM.cs:49-65 | the view becomes `SetPaneActive`, and stays consistent |
| ViewModel.WpfDiscoverVM.Deliver | wpfDiscoverViewModel/wpfDiscoverVM.cs:100-103 | each event reaches its handler, and the view becomes `Apply` of it |
| ViewModel.WpfDiscoverVM.DeliverFrom | wpfDiscoverViewModel/wpfDiscoverVM.cs:100-103 | the registry's events from a position on are handled in order, and the view becomes `Replay` of them |
| ViewModel.WpfDiscoverVM.DeliverNext | wpfDiscoverViewModel/wpfDiscoverVM.cs:100-103 | hands one event to its handler; the view becomes `Replay` of the run one event longer and the registry is left as it was |
| ViewModel.WpfDiscoverVM.UpdateModelConfig | wpfDiscoverViewModel/wpfDiscoverVM.cs:279-291 | with all three settings zero it reports false and leaves the registry alone; otherwise it copies them |
| ViewModel.WpfDiscoverVM.Reset | wpfDiscoverViewModel/wpfDiscoverVM.cs:147-159 | with some setting given: the settings are copied, the registry resets and the view replays its events (for a boxed true: empty, switch on exactly when Init succeeded); the registry stays valid; for a boxed true its subscriptions are disposed last first, its store and resolution list emptied and two new subscriptions taken when Init succeeds; for anything else the store and subscriptions are unchanged; with no setting given nothing changes |
| ViewModel.WpfDiscoverVM.ResetAndDeliver | wpfDiscoverViewModel/wpfDiscoverVM.cs:156 | the registry resets keeping its settings, raising StateChanged(false) and the Init events for a boxed true and nothing otherwise; the view replays them and, for a boxed true, ends empty with the switch on exactly when Init succeeded; the registry stays valid, and its store and subscriptions follow the registry's Reset |
| ViewModel.WpfDiscoverVM.OnOff | wpfDiscoverViewModel/wpfDiscoverVM.cs:107 | the registry stays valid and switches as its OnOff says (started from the old state, or shut down: subscriptions disposed last first, store and lists empty), and the view replays the resulting events |

## Left out

- The Zeroconf resolver is not modelled: browsing, resolving and the announcement stream. Subscriptions are opaque handles, and a resolver failure is a `failure` parameter.
- Registry.WpfDiscoverModel.Init: only a failure before any subscription is taken is modelled. A failure between the two subscriptions would leave one subscription behind, which the following Shutdown disposes.
- Registry.WpfDiscoverModel.Shutdown: the catch block that reports an exception from Dispose and retries Shutdown is not modelled, because Dispose of an opaque handle cannot fail here.
- The announcement callback and the host and announcement text renderings are not modelled, because they only format resolver data. A host's rendering is the `Rendered` field of `Host`.
- Threads and locks are not modelled: the expiry thread, `lock`, the finalizer that sets `isShutDown`, and `Thread.Sleep`. `ProcessExpiryPass` is one iteration of the expiry loop, and its result is the sleep it would request.
- Registry.WpfDiscoverModel.ProcessExpiryPass: elapsed time is whole seconds (`now - received`), not `TotalSeconds` as a double truncated by the `(int)` cast. Fractional seconds, and the rounding they cause, are not modelled.
- `DateTime.Now` and its rendering are parameters (`now`, `stamp`). The working directory is the constant `currentDir`. NLog logging is not modelled.
- `StartsWith` and `LastIndexOf` are culture-sensitive in .NET. Here they are ordinal prefix and character search.
- Property-change notifications, `ObservableCollection` change events, command objects and collection synchronization are not modelled. A handler's effect is its change to the bound fields.
- The guard that ignores a null event argument in the publish handler is not modelled, because the registry never raises one.
- ViewModel.WpfDiscoverVM.constructor: the `initComplete` flag is not a field. The events the registry raises during construction are dropped, and every later event is handled.
- Null strings (the initial error text and detail text, and an absent detail text) are modelled as the empty string. Appending to null and `?.Count() > 0` behave the same on it.
- The view-model's OnOff and Reset deliver the registry's events after the registry's operation returns, whereas C# events run synchronously inside it. The handlers of these events (StateChanged and Error) do not read the registry, so the view ends the same.
- Events raised by AddNewDevices and the expiry pass reach the view-model only through Deliver. The model does not chain a notification to its delivery, because in the program the two run on the resolver's and the expiry thread. In the program the Publish handlers of one AddNewDevices call run inside it, before the withdrawn keys are removed, while Deliver reads the store after removal. The two views agree when no key is both published and withdrawn by one notification, which holds when the notification's service keys are distinct, as its Services dictionary guarantees.
- Registry.WpfDiscoverModel.AddNewDevices: the model assumes an Unpublish subscriber. wpfDiscoverModel.cs:405 raises Unpublish directly instead of through the null-safe UnpublishDevice helper, so with no subscriber the call throws after the Publish events and the withdrawn keys stay in the store. The view-model subscribes before it calls Init, so every registry it owns has a subscriber.
- RegistrySpec.IngestStoreEffect: distinct service keys within one notification (the Services dictionary's own guarantee) are a hypothesis of the lemma. The entries are a sequence, so AddNewDevices itself is proved for any sequence.
- Registry.WpfDiscoverModel.ScanAll: the dictionary's enumeration order is an arbitrary choice (`:|`). The results are proved the same for every order.
- Integers are unbounded. Port numbers, TTLs, the `ttl - elapsed` product in milliseconds and the `long` scan time are not wrapped to their C# widths.
