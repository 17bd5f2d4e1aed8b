/**
 * Value-level definitions of the view-model's projection of the registry:
 * the list of shown devices, the set of published keys, the detail pane,
 * the on/off switch and the three-colour error pane, and how each registry
 * event moves them. The class in discover_vm.dfy is proved against these.
 */
module ViewSpec {
  import opened Wrappers
  import opened Records
  import opened Summaries
  import opened RegistrySpec

  /** Error-pane colours: no error yet, an unseen error, errors acknowledged. */
  const NO_ERROR: string := "Green"
  const ERROR: string := "Red"
  const ERROR_ACK: string := "Black"
  const NEWLINE: string := "\r\n"

  /** The view-model's state that the handlers change. */
  datatype View = View(
    DiscoveredDevices: seq<DiscoveredDevice>,
    publishedDevices: set<string>,
    DeviceDetails: string,
    SelectedItem: Option<DiscoveredDevice>,
    OnOffSwitch: bool,
    ErrorDetails: string,
    ErrorPaneColor: string,
    errorPaneActive: bool)

  /** The view right after construction. */
  const InitialView: View := View([], {}, "", None, true, "", NO_ERROR, false)

  function KeysOf(list: seq<DiscoveredDevice>): set<string> {
    set d | d in list :: d.Key
  }

  predicate NoDuplicateKeys(list: seq<DiscoveredDevice>) {
    forall i, j :: 0 <= i < j < |list| ==> list[i].Key != list[j].Key
  }

  /**
   * The projection invariant: the list shows exactly the published keys,
   * each once; the pane has one of the three colours, and it is green
   * whenever there is no error text.
   */
  predicate Consistent(v: View) {
    && KeysOf(v.DiscoveredDevices) == v.publishedDevices
    && NoDuplicateKeys(v.DiscoveredDevices)
    && (v.ErrorPaneColor == NO_ERROR || v.ErrorPaneColor == ERROR || v.ErrorPaneColor == ERROR_ACK)
    && (v.ErrorPaneColor != NO_ERROR ==> v.ErrorDetails != "")
  }

  /** Index of the first device with the key, or -1 (FirstOrDefault). */
  function IndexOfKey(list: seq<DiscoveredDevice>, key: string): (r: int)
    ensures -1 <= r < |list|
    ensures r >= 0 ==> list[r].Key == key && forall j :: 0 <= j < r ==> list[j].Key != key
    ensures r == -1 ==> forall j :: 0 <= j < |list| ==> list[j].Key != key
  {
    if list == [] then -1
    else if list[0].Key == key then 0
    else
      var r := IndexOfKey(list[1..], key);
      if r < 0 then -1 else r + 1
  }

  /**
   * A Publish(key) event, where `device` is the registry's summary for the
   * key and `details` the detail text of the device's key. An unknown or
   * already published device only refreshes the detail pane, and only when
   * it is the selected one; a new device is added to the set and appended
   * to the list, and the first one becomes the selection.
   */
  function OnPublish(v: View, key: string, device: Option<DiscoveredDevice>, details: string): View {
    if device.None? || device.value.Key in v.publishedDevices then
      if v.SelectedItem.Some? && v.SelectedItem.value.Key == key && device.Some? then
        v.(DeviceDetails := details)
      else v
    else
      var w := v.(publishedDevices := v.publishedDevices + {device.value.Key},
                  DiscoveredDevices := v.DiscoveredDevices + [device.value]);
      if |w.publishedDevices| > 1 then w
      else w.(SelectedItem := device, DeviceDetails := details)
  }

  /** An Unpublish(key) event: the key leaves the set and its first device leaves the list. */
  function OnUnpublish(v: View, key: string): View {
    var i := IndexOfKey(v.DiscoveredDevices, key);
    v.(publishedDevices := v.publishedDevices - {key},
       DiscoveredDevices := if i < 0 then v.DiscoveredDevices
                            else Without(v.DiscoveredDevices, i))
  }

  /** A StateChanged(on) event: switching off empties the view; the switch follows. */
  function OnStateChanged(v: View, on: bool): View {
    var w := if on then v else v.(DeviceDetails := "", DiscoveredDevices := [], publishedDevices := {});
    w.(OnOffSwitch := on)
  }

  /** An Error(message) event: the message and a line break are appended; red unless the pane is open. */
  function OnError(v: View, message: string): View {
    var w := v.(ErrorDetails := v.ErrorDetails + message + NEWLINE);
    if v.errorPaneActive then w else w.(ErrorPaneColor := ERROR)
  }

  /** The ErrorPaneActive setter: opening the pane over some error text acknowledges it. */
  function SetPaneActive(v: View, active: bool): View {
    var w := if active && |v.ErrorDetails| > 0 then v.(ErrorPaneColor := ERROR_ACK) else v;
    w.(errorPaneActive := active)
  }

  /** The registry's summary for a key, as GetDiscoveredDevice gives it. */
  function Lookup(currentDir: string, store: map<string, RecordInfo>, key: string): Option<DiscoveredDevice> {
    if key in store then Some(Summary(currentDir, store[key])) else None
  }

  /** The registry's detail text for a key, as GetDeviceDetails gives it. */
  function DetailsOf(store: map<string, RecordInfo>, key: string): string {
    if key in store then store[key].details else ""
  }

  /** One registry event, handled against the registry's current store. */
  function Apply(v: View, e: Event, currentDir: string, store: map<string, RecordInfo>): View {
    match e
    case Publish(key) =>
      var device := Lookup(currentDir, store, key);
      OnPublish(v, key, device, if device.Some? then DetailsOf(store, device.value.Key) else "")
    case Unpublish(key) => OnUnpublish(v, key)
    case StateChanged(on) => OnStateChanged(v, on)
    case Error(message) => OnError(v, message)
  }

  /** A run of events, handled in order against an unchanging store. */
  function Replay(v: View, events: seq<Event>, currentDir: string, store: map<string, RecordInfo>): View
    decreases |events|
  {
    if events == [] then v
    else Apply(Replay(v, events[..|events| - 1], currentDir, store), events[|events| - 1], currentDir, store)
  }

  /** UpdateModelConfig's guard: some of the three settings is not zero. */
  predicate ConfigGiven(timeSpan: int, retryCount: int, retryInMs: int) {
    !(timeSpan == 0 && retryCount == 0 && retryInMs == 0)
  }

  // ------------------------------------------------------------- lemmas

  lemma InitialViewConsistent()
    ensures Consistent(InitialView)
  {
  }

  lemma KeysOfAppend(list: seq<DiscoveredDevice>, d: DiscoveredDevice)
    ensures KeysOf(list + [d]) == KeysOf(list) + {d.Key}
  {
    assert forall x :: x in list + [d] <==> x in list || x == d;
  }

  lemma KeysOfIndex(list: seq<DiscoveredDevice>, k: string)
    ensures k in KeysOf(list) <==> exists i :: 0 <= i < |list| && list[i].Key == k
  {
    if k in KeysOf(list) {
      var d :| d in list && d.Key == k;
      var i :| 0 <= i < |list| && list[i] == d;
    }
  }

  /**
   * An unknown device, or one whose key is already published, leaves the
   * set and the list unchanged.
   */
  lemma PublishIgnoresKnown(v: View, key: string, device: Option<DiscoveredDevice>, details: string)
    requires device.None? || device.value.Key in v.publishedDevices
    ensures OnPublish(v, key, device, details).publishedDevices == v.publishedDevices
    ensures OnPublish(v, key, device, details).DiscoveredDevices == v.DiscoveredDevices
    ensures OnPublish(v, key, device, details).SelectedItem == v.SelectedItem
  {
  }

  /** A new device is added to the set and appended to the list. */
  lemma PublishAppends(v: View, key: string, device: Option<DiscoveredDevice>, details: string)
    requires device.Some? && device.value.Key !in v.publishedDevices
    ensures OnPublish(v, key, device, details).publishedDevices == v.publishedDevices + {device.value.Key}
    ensures OnPublish(v, key, device, details).DiscoveredDevices == v.DiscoveredDevices + [device.value]
  {
  }

  /** A publish that makes the set hold exactly one key selects that device and shows its details. */
  lemma FirstPublishSelects(v: View, key: string, device: Option<DiscoveredDevice>, details: string)
    requires Consistent(v)
    requires |OnPublish(v, key, device, details).publishedDevices| == 1
    requires device.Some? && device.value.Key !in v.publishedDevices
    ensures OnPublish(v, key, device, details).SelectedItem == device
    ensures OnPublish(v, key, device, details).DeviceDetails == details
  {
  }

  lemma PublishPreservesConsistent(v: View, key: string, device: Option<DiscoveredDevice>, details: string)
    requires Consistent(v)
    ensures Consistent(OnPublish(v, key, device, details))
  {
    if device.Some? && device.value.Key !in v.publishedDevices {
      var list, d := v.DiscoveredDevices, device.value;
      KeysOfAppend(list, d);
      NoDuplicateKeysAppend(list, d);
      var w := v.(publishedDevices := v.publishedDevices + {d.Key}, DiscoveredDevices := list + [d]);
      assert Consistent(w);
    }
  }

  /** Appending a device whose key is not shown keeps the keys distinct. */
  lemma NoDuplicateKeysAppend(list: seq<DiscoveredDevice>, d: DiscoveredDevice)
    requires NoDuplicateKeys(list) && d.Key !in KeysOf(list)
    ensures NoDuplicateKeys(list + [d])
  {
    forall i | 0 <= i < |list|
      ensures list[i].Key != d.Key
    {
      assert list[i] in list;
    }
  }

  /** The list without its i-th element. */
  function Without(list: seq<DiscoveredDevice>, i: int): (rest: seq<DiscoveredDevice>)
    requires 0 <= i < |list|
    ensures |rest| == |list| - 1
    ensures forall j :: 0 <= j < |rest| ==> rest[j] == if j < i then list[j] else list[j + 1]
  {
    list[..i] + list[i + 1..]
  }

  /** Removing one element of a list without duplicate keys removes exactly its key. */
  lemma KeysOfWithout(list: seq<DiscoveredDevice>, i: int)
    requires 0 <= i < |list| && NoDuplicateKeys(list)
    ensures KeysOf(Without(list, i)) == KeysOf(list) - {list[i].Key}
  {
    var rest := Without(list, i);
    forall k | k in KeysOf(rest)
      ensures k in KeysOf(list) && k != list[i].Key
    {
      KeysOfIndex(rest, k);
      var j :| 0 <= j < |rest| && rest[j].Key == k;
      var j' := if j < i then j else j + 1;
      assert list[j'] == rest[j];
      KeysOfIndex(list, k);
    }
    forall k | k in KeysOf(list) && k != list[i].Key
      ensures k in KeysOf(rest)
    {
      KeysOfIndex(list, k);
      var j :| 0 <= j < |list| && list[j].Key == k;
      var j' := if j < i then j else j - 1;
      assert rest[j'] == list[j];
      KeysOfIndex(rest, k);
    }
  }

  /** Removing one element keeps the keys distinct. */
  lemma WithoutNoDuplicates(list: seq<DiscoveredDevice>, i: int)
    requires 0 <= i < |list| && NoDuplicateKeys(list)
    ensures NoDuplicateKeys(Without(list, i))
  {
    var rest := Without(list, i);
    forall a, b | 0 <= a < b < |rest|
      ensures rest[a].Key != rest[b].Key
    {
      var a' := if a < i then a else a + 1;
      var b' := if b < i then b else b + 1;
      assert rest[a] == list[a'] && rest[b] == list[b'];
    }
  }

  /** Removing one element keeps the others, in order. */
  lemma WithoutKeepsOthers(list: seq<DiscoveredDevice>, i: int)
    requires 0 <= i < |list|
    ensures forall d :: d in list && d != list[i] ==> d in Without(list, i)
  {
    var rest := Without(list, i);
    forall d | d in list && d != list[i]
      ensures d in rest
    {
      var j :| 0 <= j < |list| && list[j] == d;
      var j' := if j < i then j else j - 1;
      assert rest[j'] == d;
    }
  }

  /** Unpublishing a key that is not published changes neither the set nor the list. */
  lemma UnpublishAbsent(v: View, key: string)
    requires Consistent(v) && key !in v.publishedDevices
    ensures OnUnpublish(v, key).publishedDevices == v.publishedDevices
    ensures OnUnpublish(v, key).DiscoveredDevices == v.DiscoveredDevices
  {
    var i := IndexOfKey(v.DiscoveredDevices, key);
    if i >= 0 {
      KeysOfIndex(v.DiscoveredDevices, key);
    }
  }

  /**
   * Unpublishing takes the key out of the set and its one device out of
   * the list, keeping every other device in order.
   */
  lemma UnpublishRemoves(v: View, key: string)
    requires Consistent(v) && key in v.publishedDevices
    ensures OnUnpublish(v, key).publishedDevices == v.publishedDevices - {key}
    ensures |OnUnpublish(v, key).DiscoveredDevices| == |v.DiscoveredDevices| - 1
    ensures KeysOf(OnUnpublish(v, key).DiscoveredDevices) == KeysOf(v.DiscoveredDevices) - {key}
    ensures forall d :: d in v.DiscoveredDevices && d.Key != key ==> d in OnUnpublish(v, key).DiscoveredDevices
  {
    var list := v.DiscoveredDevices;
    KeysOfIndex(list, key);
    var i := IndexOfKey(list, key);
    KeysOfWithout(list, i);
    WithoutKeepsOthers(list, i);
  }

  lemma UnpublishPreservesConsistent(v: View, key: string)
    requires Consistent(v)
    ensures Consistent(OnUnpublish(v, key))
  {
    if key in v.publishedDevices {
      UnpublishRemoves(v, key);
      WithoutNoDuplicates(v.DiscoveredDevices, IndexOfKey(v.DiscoveredDevices, key));
    } else {
      UnpublishAbsent(v, key);
    }
  }

  /** Switching off empties the list, the set and the detail pane; the switch always follows the state. */
  lemma StateChangedEffect(v: View, on: bool)
    ensures OnStateChanged(v, on).OnOffSwitch == on
    ensures !on ==> OnStateChanged(v, on).DiscoveredDevices == [] && OnStateChanged(v, on).publishedDevices == {}
                    && OnStateChanged(v, on).DeviceDetails == ""
    ensures on ==> OnStateChanged(v, on) == v.(OnOffSwitch := true)
  {
  }

  lemma StateChangedPreservesConsistent(v: View, on: bool)
    requires Consistent(v)
    ensures Consistent(OnStateChanged(v, on))
  {
  }

  /** Each error is appended with a line break; the pane turns red unless it is open, when its colour stays. */
  lemma ErrorEffect(v: View, message: string)
    ensures OnError(v, message).ErrorDetails == v.ErrorDetails + message + NEWLINE
    ensures OnError(v, message).ErrorPaneColor == (if v.errorPaneActive then v.ErrorPaneColor else ERROR)
    ensures OnError(v, message).DiscoveredDevices == v.DiscoveredDevices
  {
  }

  lemma ErrorPreservesConsistent(v: View, message: string)
    requires Consistent(v)
    ensures Consistent(OnError(v, message))
  {
    assert |OnError(v, message).ErrorDetails| >= |NEWLINE|;
  }

  /** Opening the pane over some error text turns it black; otherwise the colour stays. */
  lemma PaneActiveEffect(v: View, active: bool)
    ensures SetPaneActive(v, active).errorPaneActive == active
    ensures SetPaneActive(v, active).ErrorPaneColor ==
              (if active && v.ErrorDetails != "" then ERROR_ACK else v.ErrorPaneColor)
  {
  }

  lemma PaneActivePreservesConsistent(v: View, active: bool)
    requires Consistent(v)
    ensures Consistent(SetPaneActive(v, active))
  {
  }

  /** Every event keeps the projection invariant. */
  lemma ApplyPreservesConsistent(v: View, e: Event, currentDir: string, store: map<string, RecordInfo>)
    requires Consistent(v)
    ensures Consistent(Apply(v, e, currentDir, store))
  {
    match e
    case Publish(key) =>
      var device := Lookup(currentDir, store, key);
      PublishPreservesConsistent(v, key, device, if device.Some? then DetailsOf(store, device.value.Key) else "");
    case Unpublish(key) => UnpublishPreservesConsistent(v, key);
    case StateChanged(on) => StateChangedPreservesConsistent(v, on);
    case Error(message) => ErrorPreservesConsistent(v, message);
  }

  /** Two views agreeing on every field are the same view. */
  lemma SameView(v: View, w: View)
    requires v.DiscoveredDevices == w.DiscoveredDevices && v.publishedDevices == w.publishedDevices
    requires v.DeviceDetails == w.DeviceDetails && v.SelectedItem == w.SelectedItem
    requires v.OnOffSwitch == w.OnOffSwitch && v.ErrorDetails == w.ErrorDetails
    requires v.ErrorPaneColor == w.ErrorPaneColor && v.errorPaneActive == w.errorPaneActive
    ensures v == w
  {
  }

  /** Handling the events from `from` up to i + 1 is handling them up to i, then event i. */
  lemma ReplayStep(v: View, events: seq<Event>, from: nat, i: nat, currentDir: string, store: map<string, RecordInfo>)
    requires from <= i < |events|
    ensures Replay(v, events[from..i + 1], currentDir, store)
         == Apply(Replay(v, events[from..i], currentDir, store), events[i], currentDir, store)
  {
    var run := events[from..i + 1];
    assert |run| - 1 == i - from && run[|run| - 1] == events[i];
    assert run[..|run| - 1] == events[from..i];
  }

  /** So does every run of events. */
  lemma {:induction false} ReplayPreservesConsistent(v: View, events: seq<Event>, currentDir: string,
                                                     store: map<string, RecordInfo>)
    requires Consistent(v)
    ensures Consistent(Replay(v, events, currentDir, store))
    decreases |events|
  {
    if events != [] {
      ReplayPreservesConsistent(v, events[..|events| - 1], currentDir, store);
      ApplyPreservesConsistent(Replay(v, events[..|events| - 1], currentDir, store), events[|events| - 1],
                               currentDir, store);
    }
  }

  /**
   * The events of a registry reset (StateChanged(false), then Init's)
   * leave the view empty, the switch on exactly when Init succeeded, and
   * Init's error, if any, appended to the error text.
   */
  lemma ResetReplay(v: View, failure: Option<string>, stamp: string, currentDir: string,
                    store: map<string, RecordInfo>)
    ensures var w := Replay(v, [StateChanged(false)] + InitEvents(failure, stamp), currentDir, store);
      && w.DiscoveredDevices == [] && w.publishedDevices == {} && w.DeviceDetails == ""
      && w.OnOffSwitch == failure.None?
      && w.ErrorDetails == v.ErrorDetails + (if failure.Some? then ErrorText(stamp, failure.value) + NEWLINE else "")
      && w.SelectedItem == v.SelectedItem
  {
    var events := [StateChanged(false)] + InitEvents(failure, stamp);
    var off := OnStateChanged(v, false);
    assert Replay(v, events[..1], currentDir, store) == off by {
      assert events[..1][..0] == [];
    }
    if failure.None? {
      assert events[..|events| - 1] == events[..1];
    } else {
      var errorText := ErrorText(stamp, failure.value);
      assert events[..2][..1] == events[..1];
      assert Replay(v, events[..2], currentDir, store) == OnError(off, errorText);
      assert events[..|events| - 1] == events[..2];
    }
  }
}
