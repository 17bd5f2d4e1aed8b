/**
 * The view-model: it owns a registry, receives the registry's events in
 * order and keeps the projection the window binds to. Property-change
 * notifications are not modelled.
 */
module ViewModel {
  import opened Wrappers
  import opened Summaries
  import opened RegistrySpec
  import opened Registry
  import opened ViewSpec

  /**
   * FirstOrDefault over the shown devices: the index of the first device
   * with the key, or -1 when there is none.
   */
  method FirstWithKey(list: seq<DiscoveredDevice>, key: string) returns (index: int)
    ensures index == IndexOfKey(list, key)
  {
    var i := 0;
    while i < |list|
      invariant 0 <= i <= |list|
      invariant forall j :: 0 <= j < i ==> list[j].Key != key
    {
      if list[i].Key == key {
        return i;
      }
      i := i + 1;
    }
    return -1;
  }

  class WpfDiscoverVM {
    const model: WpfDiscoverModel
    var DiscoveredDevices: seq<DiscoveredDevice>
    var publishedDevices: set<string>
    var DeviceDetails: string
    var SelectedItem: Option<DiscoveredDevice>
    var OnOffSwitch: bool
    /** Scan time in ticks, retry count and retry delay as the window edits them. */
    var TimeSpan: int
    var RetryCount: int
    var RetryInMs: int
    var ErrorDetails: string
    var ErrorPaneColor: string
    var errorPaneActive: bool

    /** The fields the handlers change, as a value. */
    ghost function Projection(): View
      reads this
    {
      ViewSpec.View(DiscoveredDevices, publishedDevices, DeviceDetails, SelectedItem, OnOffSwitch,
           ErrorDetails, ErrorPaneColor, errorPaneActive)
    }

    /** The projection is consistent. */
    ghost predicate Valid()
      reads this
    {
      Consistent(Projection())
    }

    /**
     * Construction: a fresh registry is started (the events of that start
     * arrive before construction completes and are dropped), the switch is
     * on and the error pane green.
     */
    constructor (currentDir: string, failure: Option<string>, stamp: string)
      ensures Valid() && model.Valid() && fresh(model)
      ensures Projection() == InitialView
      ensures TimeSpan == 0 && RetryCount == 0 && RetryInMs == 0
      ensures model.currentDir == currentDir && model.events == InitEvents(failure, stamp)
      ensures model.devices == map[] && model.zObservables == [] && model.disposed == []
      ensures model.subDispose == (if failure.None? then [0, 1] else [])
    {
      var m := new WpfDiscoverModel(currentDir);
      m.Init(failure, stamp);
      assert m.Valid() && m.currentDir == currentDir && m.events == InitEvents(failure, stamp);
      assert m.devices == map[] && m.zObservables == [] && m.disposed == [];
      assert m.subDispose == (if failure.None? then [0, 1] else []);
      model := m;
      DiscoveredDevices := [];
      publishedDevices := {};
      DeviceDetails := "";
      SelectedItem := None;
      OnOffSwitch := true;
      TimeSpan := 0;
      RetryCount := 0;
      RetryInMs := 0;
      ErrorDetails := "";
      ErrorPaneColor := NO_ERROR;
      errorPaneActive := false;
      new;
      assert Projection() == InitialView;
      InitialViewConsistent();
    }

    /**
     * The selection command: shows the registry's detail text for the
     * selected device, when there is one.
     */
    method UpdateSelectedItemDetails(selected: Option<DiscoveredDevice>)
      requires model.StoreValid()
      modifies this`DeviceDetails
      ensures selected.Some? ==> DeviceDetails == model.GetDeviceDetails(selected.value.Key)
      ensures selected.None? ==> DeviceDetails == old(DeviceDetails)
    {
      if selected.Some? {
        DeviceDetails := model.GetDeviceDetails(selected.value.Key);
      }
    }

    /**
     * The handler of the registry's Publish(key) event. The registry's
     * summary and detail text for the key are read first (both reads are
     * pure); the view then changes as OnPublish says.
     */
    method OnPublishDevice(key: string)
      requires Valid() && model.StoreValid()
      modifies this`DiscoveredDevices, this`publishedDevices, this`DeviceDetails, this`SelectedItem
      ensures Valid()
      ensures var device := model.GetDiscoveredDevice(key);
        Projection() == OnPublish(old(Projection()), key, device,
                            if device.Some? then model.GetDeviceDetails(device.value.Key) else "")
    {
      var device := model.GetDiscoveredDevice(key);
      var details := if device.Some? then model.GetDeviceDetails(device.value.Key) else "";
      ShowPublished(key, device, details);
    }

    /** The view side of a Publish(key) event, given the registry's answers. */
    method ShowPublished(key: string, device: Option<DiscoveredDevice>, details: string)
      requires Valid()
      modifies this`DiscoveredDevices, this`publishedDevices, this`DeviceDetails, this`SelectedItem
      ensures Valid()
      ensures Projection() == OnPublish(old(Projection()), key, device, details)
    {
      ghost var target := OnPublish(Projection(), key, device, details);
      PublishPreservesConsistent(Projection(), key, device, details);
      if device.None? || device.value.Key in publishedDevices {
        if SelectedItem.Some? && SelectedItem.value.Key == key && device.Some? {
          DeviceDetails := details;
        }
        assert Projection() == target;
        return;
      }
      publishedDevices := publishedDevices + {device.value.Key};
      DiscoveredDevices := DiscoveredDevices + [device.value];
      if |publishedDevices| > 1 {
        assert Projection() == target;
        return;
      }
      SelectedItem := device;
      DeviceDetails := details;
      assert Projection() == target;
    }

    /** The handler of the registry's Unpublish(key) event. */
    method OnUnpublish(key: string)
      requires Valid()
      modifies this`DiscoveredDevices, this`publishedDevices
      ensures Valid()
      ensures Projection() == ViewSpec.OnUnpublish(old(Projection()), key)
    {
      ghost var v0 := Projection();
      if key in publishedDevices {
        publishedDevices := publishedDevices - {key};
      } else {
        assert publishedDevices == publishedDevices - {key};
      }
      var index := FirstWithKey(DiscoveredDevices, key);
      if index >= 0 {
        DiscoveredDevices := Without(DiscoveredDevices, index);
      }
      SameView(Projection(), ViewSpec.OnUnpublish(v0, key));
      UnpublishPreservesConsistent(v0, key);
    }

    /** The handler of the registry's StateChanged(on) event. */
    method OnStateChanged(on: bool)
      requires Valid()
      modifies this`DiscoveredDevices, this`publishedDevices, this`DeviceDetails, this`OnOffSwitch
      ensures Valid()
      ensures Projection() == ViewSpec.OnStateChanged(old(Projection()), on)
    {
      StateChangedPreservesConsistent(Projection(), on);
      if !on {
        DeviceDetails := "";
        DiscoveredDevices := [];
        publishedDevices := {};
      }
      OnOffSwitch := on;
    }

    /** The handler of the registry's Error(message) event. */
    method OnError(message: string)
      requires Valid()
      modifies this`ErrorDetails, this`ErrorPaneColor
      ensures Valid()
      ensures Projection() == ViewSpec.OnError(old(Projection()), message)
    {
      ErrorPreservesConsistent(Projection(), message);
      ErrorDetails := ErrorDetails + message + NEWLINE;
      if !errorPaneActive {
        ErrorPaneColor := ERROR;
      }
    }

    /** The ErrorPaneActive setter. */
    method SetErrorPaneActive(active: bool)
      requires Valid()
      modifies this`ErrorPaneColor, this`errorPaneActive
      ensures Valid()
      ensures Projection() == SetPaneActive(old(Projection()), active)
    {
      PaneActivePreservesConsistent(Projection(), active);
      if active && |ErrorDetails| > 0 {
        ErrorPaneColor := ERROR_ACK;
      }
      errorPaneActive := active;
    }

    /** Hands one registry event to its handler. */
    method Deliver(e: Event)
      requires Valid() && model.StoreValid()
      modifies this`DiscoveredDevices, this`publishedDevices, this`DeviceDetails, this`SelectedItem,
              this`OnOffSwitch, this`ErrorDetails, this`ErrorPaneColor, this`errorPaneActive
      ensures Valid()
      ensures Projection() == Apply(old(Projection()), e, model.currentDir, model.Store())
    {
      match e
      case Publish(key) =>
        var device := model.GetDiscoveredDevice(key);
        if device.Some? {
          assert model.GetDeviceDetails(device.value.Key) == DetailsOf(model.Store(), device.value.Key);
        }
        OnPublishDevice(key);
      case Unpublish(key) => OnUnpublish(key);
      case StateChanged(on) => OnStateChanged(on);
      case Error(message) => OnError(message);
    }

    /** Hands the registry's events from position `from` on to their handlers, in order. */
    method DeliverFrom(from: nat)
      requires Valid() && model.StoreValid() && from <= |model.events|
      modifies this`DiscoveredDevices, this`publishedDevices, this`DeviceDetails, this`SelectedItem,
              this`OnOffSwitch, this`ErrorDetails, this`ErrorPaneColor, this`errorPaneActive
      ensures Valid()
      ensures Projection() == Replay(old(Projection()), model.events[from..], model.currentDir, model.Store())
    {
      ghost var v0, events, store := Projection(), model.events, model.Store();
      var i := from;
      while i < |model.events|
        invariant from <= i <= |events| && model.events == events && model.Store() == store
        invariant Valid()
        invariant Projection() == Replay(v0, events[from..i], model.currentDir, store)
      {
        DeliverNext(from, i, v0);
        i := i + 1;
      }
      assert events[from..i] == events[from..];
    }

    /** Hands event i to its handler, extending the run handled since `from`. */
    method DeliverNext(from: nat, i: nat, ghost v0: View)
      requires Valid() && model.StoreValid() && from <= i < |model.events|
      requires Projection() == Replay(v0, model.events[from..i], model.currentDir, model.Store())
      modifies this`DiscoveredDevices, this`publishedDevices, this`DeviceDetails, this`SelectedItem,
              this`OnOffSwitch, this`ErrorDetails, this`ErrorPaneColor, this`errorPaneActive
      ensures Valid()
      ensures Projection() == Replay(v0, model.events[from..i + 1], model.currentDir, model.Store())
      ensures model.Store() == old(model.Store())
    {
      ReplayStep(v0, model.events, from, i, model.currentDir, model.Store());
      Deliver(model.events[i]);
    }

    /**
     * Copies the edited settings into the registry, unless all three are
     * zero, in which case it reports false and leaves the registry alone.
     */
    method UpdateModelConfig() returns (ok: bool)
      modifies model`ScanTime, model`RetryCount, model`RetryDelayInMs
      ensures ok == ConfigGiven(TimeSpan, RetryCount, RetryInMs)
      ensures ok ==> model.ScanTime == TimeSpan && model.RetryCount == RetryCount && model.RetryDelayInMs == RetryInMs
      ensures !ok ==> unchanged(model)
    {
      if TimeSpan == 0 && RetryCount == 0 && RetryInMs == 0 {
        return false;
      }
      model.ScanTime := TimeSpan;
      model.RetryCount := RetryCount;
      model.RetryDelayInMs := RetryInMs;
      return true;
    }

    /**
     * The reset command: with some setting given, the settings go to the
     * registry, the registry resets, and its events are handled; otherwise
     * nothing happens.
     */
    method Reset(resetState: Status, failure: Option<string>, stamp: string)
      requires Valid() && model.Valid()
      modifies this`DiscoveredDevices, this`publishedDevices, this`DeviceDetails, this`SelectedItem,
              this`OnOffSwitch, this`ErrorDetails, this`ErrorPaneColor, this`errorPaneActive, model
      ensures Valid() && model.Valid()
      ensures !ConfigGiven(TimeSpan, RetryCount, RetryInMs) ==> unchanged(model) && Projection() == old(Projection())
      ensures ConfigGiven(TimeSpan, RetryCount, RetryInMs) && !GetState(resetState) ==>
                && model.devices == old(model.devices) && model.subDispose == old(model.subDispose)
                && model.zObservables == old(model.zObservables) && model.disposed == old(model.disposed)
      ensures ConfigGiven(TimeSpan, RetryCount, RetryInMs) && GetState(resetState) ==>
                && model.disposed == old(model.disposed) + Reversed(old(model.subDispose))
                && model.devices == map[] && model.zObservables == []
                && model.subDispose == (if failure.None? then [old(model.nextHandle), old(model.nextHandle) + 1] else [])
      ensures ConfigGiven(TimeSpan, RetryCount, RetryInMs) ==>
                && model.ScanTime == TimeSpan && model.RetryCount == RetryCount && model.RetryDelayInMs == RetryInMs
                && model.events == old(model.events) + (if GetState(resetState) then [StateChanged(false)] + InitEvents(failure, stamp) else [])
                && Projection() == Replay(old(Projection()), model.events[|old(model.events)|..], model.currentDir, model.Store())
      ensures ConfigGiven(TimeSpan, RetryCount, RetryInMs) && GetState(resetState) ==>
                && DiscoveredDevices == [] && publishedDevices == {} && DeviceDetails == ""
                && OnOffSwitch == failure.None? && SelectedItem == old(SelectedItem)
    {
      var ok := UpdateModelConfig();
      if !ok {
        return;
      }
      ResetAndDeliver(resetState, failure, stamp);
    }

    /** The registry resets with the settings it has, and its events are handled. */
    method ResetAndDeliver(resetState: Status, failure: Option<string>, stamp: string)
      requires Valid() && model.Valid()
      modifies this`DiscoveredDevices, this`publishedDevices, this`DeviceDetails, this`SelectedItem,
              this`OnOffSwitch, this`ErrorDetails, this`ErrorPaneColor, this`errorPaneActive, model
      ensures Valid() && model.Valid()
      ensures !GetState(resetState) ==> model.OnlyEventsChanged()
      ensures GetState(resetState) ==>
                && model.disposed == old(model.disposed) + Reversed(old(model.subDispose))
                && model.devices == map[] && model.zObservables == []
                && model.subDispose == (if failure.None? then [old(model.nextHandle), old(model.nextHandle) + 1] else [])
      ensures model.ScanTime == old(model.ScanTime) && model.RetryCount == old(model.RetryCount)
      ensures model.RetryDelayInMs == old(model.RetryDelayInMs)
      ensures model.events == old(model.events) + (if GetState(resetState) then [StateChanged(false)] + InitEvents(failure, stamp) else [])
      ensures Projection() == Replay(old(Projection()), model.events[|old(model.events)|..], model.currentDir, model.Store())
      ensures GetState(resetState) ==>
                && DiscoveredDevices == [] && publishedDevices == {} && DeviceDetails == ""
                && OnOffSwitch == failure.None? && SelectedItem == old(SelectedItem)
    {
      var from := |model.events|;
      model.Reset(resetState, failure, stamp);
      ghost var raised := model.events[from..];
      assert raised == if GetState(resetState) then [StateChanged(false)] + InitEvents(failure, stamp) else [];
      DeliverFrom(from);
      if GetState(resetState) {
        ResetReplay(old(Projection()), failure, stamp, model.currentDir, model.Store());
      }
    }

    /** The on/off command: the registry switches, and its events are handled. */
    method OnOff(status: Status, failure: Option<string>, stamp: string)
      requires Valid() && model.Valid()
      modifies this`DiscoveredDevices, this`publishedDevices, this`DeviceDetails, this`SelectedItem,
              this`OnOffSwitch, this`ErrorDetails, this`ErrorPaneColor, this`errorPaneActive, model
      ensures Valid() && model.Valid() && model.ConfigUnchanged()
      ensures GetState(status) ==> model.StartedFrom(failure)
      ensures !GetState(status) ==> model.ShutDownFrom()
      ensures model.events == old(model.events) + (if GetState(status) then InitEvents(failure, stamp) else [StateChanged(false)])
      ensures Projection() == Replay(old(Projection()), model.events[|old(model.events)|..], model.currentDir, model.Store())
    {
      var from := |model.events|;
      model.OnOff(status, failure, stamp);
      DeliverFrom(from);
    }
  }
}
