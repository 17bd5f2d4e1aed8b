/**
 * The discovered-device registry. The store maps composite keys to device
 * records; subscriptions to the resolver are opaque handles; the events the
 * registry raises are appended to a log in the order a listener receives
 * them. Clocks and time-stamp strings are parameters.
 */
module Registry {
  import opened Wrappers
  import opened Strings
  import opened Records
  import opened Summaries
  import opened RegistrySpec

  /** A subscription to the resolver; Dispose is recorded in `disposed`. */
  type Handle = nat

  class WpfDiscoverModel {
    var devices: map<string, DeviceDetails>
    /** Subscriptions in the order they were taken. */
    var subDispose: seq<Handle>
    /** Domains with a continuous resolution open. */
    var zObservables: seq<string>
    /** Every Dispose call so far, in order. */
    var disposed: seq<Handle>
    /** The next handle a subscription receives. */
    var nextHandle: Handle
    /** Every event raised so far, in order. */
    var events: seq<Event>
    /** Scan time in ticks, as TimeSpan keeps it. */
    var ScanTime: int
    var RetryCount: int
    var RetryDelayInMs: int
    /** The working directory under which device images live. */
    const currentDir: string

    /**
     * The registry's invariant: the store is well formed, and the
     * subscriptions are distinct handles taken from the counter.
     */
    ghost predicate Valid()
      reads this`devices, this`subDispose, this`nextHandle, devices.Values
    {
      && StoreValid()
      && (forall i :: 0 <= i < |subDispose| ==> subDispose[i] < nextHandle)
      && (forall i, j :: 0 <= i < j < |subDispose| ==> subDispose[i] != subDispose[j])
    }

    /**
     * Each record is stored under its own key (so different keys never share
     * a record) and its detail text is never empty.
     */
    ghost predicate StoreValid()
      reads this`devices, devices.Values
    {
      forall k :: k in devices ==> devices[k].Key == k && devices[k].ServiceDetails != ""
    }

    /** The store as values. */
    ghost function Store(): map<string, RecordInfo>
      reads this`devices, devices.Values
    {
      map k | k in devices :: devices[k].Snapshot()
    }

    /** The state Shutdown leaves, relative to the state before it. */
    twostate predicate ShutDownFrom()
      reads this
    {
      && devices == map[] && subDispose == [] && zObservables == []
      && disposed == old(disposed) + Reversed(old(subDispose))
      && nextHandle == old(nextHandle)
    }

    /** The state Init leaves, relative to the state before it. */
    twostate predicate StartedFrom(failure: Option<string>)
      reads this
    {
      if failure.None? then
        && subDispose == old(subDispose) + [old(nextHandle), old(nextHandle) + 1]
        && nextHandle == old(nextHandle) + 2
        && devices == old(devices) && zObservables == old(zObservables) && disposed == old(disposed)
      else
        ShutDownFrom()
    }

    /** Nothing but the event log changed. */
    twostate predicate OnlyEventsChanged()
      reads this
    {
      && devices == old(devices) && subDispose == old(subDispose) && zObservables == old(zObservables)
      && disposed == old(disposed) && nextHandle == old(nextHandle) && ConfigUnchanged()
    }

    twostate predicate ConfigUnchanged()
      reads this
    {
      ScanTime == old(ScanTime) && RetryCount == old(RetryCount) && RetryDelayInMs == old(RetryDelayInMs)
    }

    /** Model construction: an empty registry with the default configuration. */
    constructor (currentDir: string)
      ensures Valid()
      ensures devices == map[] && subDispose == [] && zObservables == [] && disposed == [] && events == []
      ensures nextHandle == 0
      ensures ScanTime == 0 && RetryCount == RETRY_COUNT && RetryDelayInMs == RETRY_DELAY_IN_MS
      ensures this.currentDir == currentDir
    {
      devices := map[];
      subDispose := [];
      zObservables := [];
      disposed := [];
      nextHandle := 0;
      events := [];
      ScanTime := 0;
      RetryCount := RETRY_COUNT;
      RetryDelayInMs := RETRY_DELAY_IN_MS;
      this.currentDir := currentDir;
    }

    /** The default scan time, retry count and retry delay. */
    method LoadDefaultConfigs()
      modifies this
      ensures ScanTime == 0 && RetryCount == RETRY_COUNT && RetryDelayInMs == RETRY_DELAY_IN_MS
      ensures devices == old(devices) && subDispose == old(subDispose) && zObservables == old(zObservables)
      ensures disposed == old(disposed) && nextHandle == old(nextHandle) && events == old(events)
    {
      ScanTime := 0;
      RetryCount := RETRY_COUNT;
      RetryDelayInMs := RETRY_DELAY_IN_MS;
    }

    /** Raises the error event, prefixed by the time stamp. */
    method BubbleError(message: string, stamp: string)
      modifies this
      ensures events == old(events) + [Error(ErrorText(stamp, message))]
      ensures OnlyEventsChanged()
    {
      events := events + [Error(ErrorText(stamp, message))];
    }

    /**
     * Disposes every subscription, last taken first, then empties the
     * subscription list, the resolution list and the store, and raises
     * StateChanged(false), also when nothing was running.
     */
    method Shutdown()
      requires Valid()
      modifies this
      ensures Valid() && ShutDownFrom() && ConfigUnchanged()
      ensures events == old(events) + [StateChanged(false)]
    {
      DisposeSubscriptions();
      zObservables := [];
      subDispose := [];
      devices := map[];
      events := events + [StateChanged(false)];
    }

    /** The reverse loop of Shutdown: Dispose on every subscription, last taken first. */
    method DisposeSubscriptions()
      modifies this
      ensures disposed == old(disposed) + Reversed(old(subDispose))
      ensures devices == old(devices) && subDispose == old(subDispose) && zObservables == old(zObservables)
      ensures nextHandle == old(nextHandle) && events == old(events) && ConfigUnchanged()
    {
      var item := |subDispose| - 1;
      while item >= 0
        invariant -1 <= item < |subDispose|
        invariant disposed == old(disposed) + Reversed(subDispose[item + 1..])
        invariant devices == old(devices) && subDispose == old(subDispose) && zObservables == old(zObservables)
        invariant nextHandle == old(nextHandle) && events == old(events) && ConfigUnchanged()
        decreases item
      {
        assert subDispose[item..][1..] == subDispose[item + 1..];
        disposed := disposed + [subDispose[item]];
        item := item - 1;
      }
      assert subDispose[0..] == subDispose;
    }

    /**
     * Starts browsing: takes the domain-browse and announcement
     * subscriptions and raises StateChanged(true). `failure` is the message
     * of an exception thrown by the resolver before any subscription was
     * taken; it is reported and followed by Shutdown.
     */
    method Init(failure: Option<string>, stamp: string)
      requires Valid()
      modifies this
      ensures Valid() && ConfigUnchanged()
      ensures events == old(events) + InitEvents(failure, stamp)
      ensures StartedFrom(failure)
    {
      if failure.None? {
        subDispose := subDispose + [nextHandle, nextHandle + 1];
        nextHandle := nextHandle + 2;
        events := events + [StateChanged(true)];
      } else {
        BubbleError(failure.value, stamp);
        Shutdown();
      }
    }

    /**
     * A domain/service announcement: opens a continuous resolution for its
     * domain and keeps the subscription. `failure` is the message of an
     * exception thrown while doing so; it is reported and followed by
     * Shutdown.
     */
    method OnNextDomain(domain: string, failure: Option<string>, stamp: string)
      requires Valid()
      modifies this
      ensures Valid() && ConfigUnchanged()
      ensures failure.None? ==>
                && zObservables == old(zObservables) + [domain]
                && subDispose == old(subDispose) + [old(nextHandle)]
                && nextHandle == old(nextHandle) + 1
                && devices == old(devices) && disposed == old(disposed) && events == old(events)
      ensures failure.Some? ==>
                && ShutDownFrom()
                && events == old(events) + [Error(ErrorText(stamp, failure.value)), StateChanged(false)]
    {
      if failure.None? {
        zObservables := zObservables + [domain];
        subDispose := subDispose + [nextHandle];
        nextHandle := nextHandle + 1;
      } else {
        BubbleError(failure.value, stamp);
        Shutdown();
      }
    }

    /** The resolver reports the end of browsing, as an error event. */
    method OnCompleted(stamp: string)
      modifies this
      ensures events == old(events) + [Error(ErrorText(stamp, "Completed Browsing"))]
      ensures OnlyEventsChanged()
    {
      BubbleError("Completed Browsing", stamp);
    }

    /** The resolver reports an exception; its message becomes an error event. */
    method OnError(message: string, stamp: string)
      modifies this
      ensures events == old(events) + [Error(ErrorText(stamp, message))]
      ensures OnlyEventsChanged()
    {
      BubbleError(message, stamp);
    }

    /** Switches the registry on (a boxed true) or off (anything else). */
    method OnOff(status: Status, failure: Option<string>, stamp: string)
      requires Valid()
      modifies this
      ensures Valid() && ConfigUnchanged()
      ensures GetState(status) ==> StartedFrom(failure) && events == old(events) + InitEvents(failure, stamp)
      ensures !GetState(status) ==> ShutDownFrom() && events == old(events) + [StateChanged(false)]
    {
      var state := GetState(status);
      if state {
        Init(failure, stamp);
      } else {
        Shutdown();
      }
    }

    /**
     * For a boxed true: shuts down and starts again; for anything else:
     * nothing at all.
     */
    method Reset(status: Status, failure: Option<string>, stamp: string)
      requires Valid()
      modifies this
      ensures Valid() && ConfigUnchanged()
      ensures !GetState(status) ==> OnlyEventsChanged() && events == old(events)
      ensures GetState(status) ==>
                && events == old(events) + [StateChanged(false)] + InitEvents(failure, stamp)
                && disposed == old(disposed) + Reversed(old(subDispose))
                && devices == map[] && zObservables == []
                && subDispose == (if failure.None? then [old(nextHandle), old(nextHandle) + 1] else [])
    {
      var state := GetState(status);
      if !state {
        return;
      }
      OnOff(BoxedBool(false), failure, stamp);
      OnOff(BoxedBool(true), failure, stamp);
    }

    /** The summary of the record stored under key, or None when there is none. */
    function GetDiscoveredDevice(key: string): (device: Option<DiscoveredDevice>)
      requires StoreValid()
      reads this`devices, devices.Values
      ensures device.None? <==> key !in devices
      ensures device.Some? ==> device.value == Summary(currentDir, Store()[key])
    {
      if key in devices then
        var details := devices[key];
        assert Store()[key] == details.Snapshot();
        Some(NewDiscoveredDevice(currentDir, key, details.Name, details.Domain,
                                 StripServiceName(details.Service), details.Id))
      else None
    }

    /** The detail text of the record stored under key; empty exactly when there is none. */
    function GetDeviceDetails(key: string): (text: string)
      requires StoreValid()
      reads this`devices, devices.Values
      ensures key in devices ==> text == Store()[key].details
      ensures text == "" <==> key !in devices
    {
      if key in devices then devices[key].GetDeviceDetails() else ""
    }

    /** Raises Publish for each key in turn. */
    method PublishEach(keys: seq<string>)
      modifies this`events
      ensures events == old(events) + Publishes(keys)
      ensures Valid() == old(Valid()) && Store() == old(Store())
    {
      for i := 0 to |keys|
        invariant events == old(events) + Publishes(keys[..i])
      {
        events := events + [Publish(keys[i])];
      }
      assert keys[..|keys|] == keys;
    }

    /** Raises Unpublish for each key in turn. */
    method UnpublishEach(keys: seq<string>)
      modifies this`events
      ensures events == old(events) + Unpublishes(keys)
      ensures Valid() == old(Valid()) && Store() == old(Store())
    {
      for i := 0 to |keys|
        invariant events == old(events) + Unpublishes(keys[..i])
      {
        events := events + [Unpublish(keys[i])];
      }
      assert keys[..|keys|] == keys;
    }

    /** Stores d under key, replacing any record there. */
    method Put(key: string, d: DeviceDetails)
      requires Valid() && d.Key == key && d.ServiceDetails != ""
      modifies this`devices
      ensures Valid()
      ensures devices == old(devices)[key := d]
      ensures Store() == old(Store())[key := d.Snapshot()]
    {
      devices := devices[key := d];
    }

    /** Removes the record stored under key. */
    method Drop(key: string)
      requires Valid() && key in devices
      modifies this`devices
      ensures Valid()
      ensures devices == old(devices) - {key}
      ensures Store() == old(Store()) - {key}
    {
      devices := devices - {key};
    }

    /**
     * The insertion loop of AddNewDevices over the entries of a host with an
     * address: records for announcing entries replace whatever their key
     * held; the two returned lists name the announcing and the withdrawing
     * keys in entry order.
     */
    method InsertServices(h: Host, now: int, stamp: string) returns (toPublish: seq<string>, toUnpublish: seq<string>)
      requires Valid() && Accepted(Some(h))
      modifies this`devices
      ensures Valid()
      ensures Store() == Inserted(old(Store()), h, h.Services.value, now, stamp)
      ensures toPublish == PublishKeys(h.IPAddress.value, h.Services.value)
      ensures toUnpublish == UnpublishKeys(h.IPAddress.value, h.Services.value)
      ensures forall k :: k in devices && k !in old(devices) ==> fresh(devices[k])
    {
      var ip := h.IPAddress.value;
      var services := h.Services.value;
      toPublish, toUnpublish := [], [];
      ghost var store0 := Store();

      for i := 0 to |services|
        invariant Valid()
        invariant toPublish == PublishKeys(ip, services[..i])
        invariant toUnpublish == UnpublishKeys(ip, services[..i])
        invariant Store() == Inserted(store0, h, services[..i], now, stamp)
        invariant forall k :: k in devices && k !in old(devices) ==> fresh(devices[k])
      {
        InsertStep(store0, h, services, i, now, stamp);
        var service := services[i];
        if service.Key.None? {
          continue;
        }
        var serviceKey := ip + MANGLE + service.Key.value + MANGLE + IntToString(service.Port);
        assert serviceKey == KeyOf(ip, service);
        ghost var current := Store();
        var newDevice := new DeviceDetails(serviceKey, ip, IntToString(service.Port), h.DisplayName,
                                           ip, service.Key.value, service.Ttl, h.Rendered, now, stamp);
        assert Store() == current;
        if service.Ttl <= 0 {
          toUnpublish := toUnpublish + [serviceKey];
        } else {
          toPublish := toPublish + [serviceKey];
          assert newDevice.Snapshot() == NewRecord(h, service, now, stamp);
          Put(serviceKey, newDevice);
        }
      }
      assert services[..|services|] == services;
    }

    /** The removal loop of AddNewDevices: every listed key present in the store is dropped. */
    method RemoveKeys(keys: seq<string>)
      requires Valid()
      modifies this`devices
      ensures Valid()
      ensures devices == old(devices) - Listed(keys)
      ensures Store() == old(Store()) - Listed(keys)
    {
      ghost var store0 := Store();
      for j := 0 to |keys|
        invariant Valid()
        invariant devices == old(devices) - Listed(keys[..j])
        invariant Store() == store0 - Listed(keys[..j])
      {
        ghost var removed := Listed(keys[..j]);
        ListedOneMore(keys, j);
        RemoveOneMore(store0, removed, keys[j]);
        RemoveOneMore(old(devices), removed, keys[j]);
        if keys[j] in devices {
          Drop(keys[j]);
        }
      }
      assert keys[..|keys|] == keys;
    }

    /**
     * A resolved host. Unless host, address or services are missing, every
     * keyed service with a positive TTL gets a new record under its key and
     * a Publish event, and every keyed service with a TTL of zero or less an
     * Unpublish event and the removal of its key; all Publish events come
     * first. `now` and `stamp` are the receipt time and its rendering. Only
     * the store and the event log change.
     */
    method AddNewDevices(host: Option<Host>, now: int, stamp: string)
      requires Valid()
      modifies this`devices, this`events
      ensures Valid()
      ensures !Accepted(host) ==> devices == old(devices) && events == old(events)
      ensures Accepted(host) ==> Store() == IngestStore(old(Store()), host.value, now, stamp)
      ensures Accepted(host) ==> events == old(events) + IngestEvents(host.value)
      ensures forall k :: k in devices && k !in old(devices) ==> fresh(devices[k])
    {
      if host.None? || host.value.IPAddress.None? || host.value.Services.None? {
        return;
      }
      var devicesToPublish, devicesToUnpublish := InsertServices(host.value, now, stamp);
      ghost var inserted := Store();
      PublishEach(devicesToPublish);
      UnpublishEach(devicesToUnpublish);
      assert Valid() && Store() == inserted;
      RemoveKeys(devicesToUnpublish);
    }

    /**
     * The body of the expiry loop for the record under key: skipped for
     * INVALID_TTL; flagged expired when not yet expired and overdue;
     * otherwise its remaining time moves the delay `wakeup`.
     */
    method ScanRecord(key: string, now: int, stamp: string, wakeup: int) returns (nextWakeup: int, expired: bool)
      requires Valid() && key in devices
      modifies devices[key]
      ensures Valid()
      ensures Store() == old(Store())[key := ExpireStep(old(Store())[key], now, stamp)]
      ensures expired == Overdue(old(Store())[key], now)
      ensures nextWakeup == WakeStep(old(Store())[key], now, wakeup)
    {
      var device := devices[key];
      assert device.Snapshot() == Store()[key];
      nextWakeup, expired := wakeup, false;
      if device.TTL == INVALID_TTL {
        return;
      }
      var secondsElapsed := now - device.ReceivedTimestamp;
      if !device.Expired && secondsElapsed > device.TTL {
        device.SetExpired(stamp);
        expired := true;
        forall k | k in devices && k != key
          ensures devices[k].Snapshot() == old(devices[k].Snapshot())
        {
          assert devices[k].Key == k;
        }
        assert Store() == old(Store())[key := device.Snapshot()];
        return;
      }
      var minWakeup := (device.TTL - secondsElapsed) * SECONDS_TO_MILLISECOND;
      if minWakeup <= 0 {
        nextWakeup := 0;
      } else if nextWakeup > minWakeup {
        nextWakeup := minWakeup;
      }
    }

    /**
     * The enumeration of the expiry pass, in an unspecified order: returns
     * the keys to publish and the delay for the next pass; only the records
     * change.
     */
    method ScanAll(now: int, stamp: string) returns (toPublish: seq<string>, nextWakeup: int)
      requires Valid()
      modifies devices.Values
      ensures Valid()
      ensures Store() == ExpireStore(old(Store()), now, stamp)
      ensures ListsExactly(toPublish, NewlyOverdue(old(Store()), now))
      ensures nextWakeup == NextWakeup(old(Store()), now)
    {
      ghost var s0 := Store();
      toPublish := [];
      nextWakeup := DEFAULT_WAKE_TIME;
      var pending := devices.Keys;
      ghost var seen: set<string> := {};
      WakeOverNone(s0, now);
      assert ExpireOver(s0, {}, now, stamp) == s0;

      while pending != {}
        invariant Valid()
        invariant seen <= s0.Keys && pending == s0.Keys - seen
        invariant Store() == ExpireOver(s0, seen, now, stamp)
        invariant ScanProgress(s0, seen, toPublish, now, nextWakeup)
        decreases pending
      {
        var key :| key in pending;
        MoveKey(s0.Keys, pending, seen, key);
        ScanProgressStep(s0, seen, key, toPublish, now, nextWakeup);
        ExpireOverStep(s0, seen, key, now, stamp);
        var expired;
        nextWakeup, expired := ScanRecord(key, now, stamp, nextWakeup);
        if expired {
          toPublish := toPublish + [key];
        }
        pending := pending - {key};
        seen := seen + {key};
      }
      NoKeyLeft(s0.Keys, pending, seen);
      ScanProgressDone(s0, toPublish, now, nextWakeup);
      NextWakeupMeets(s0, now);
      NextWakeupUnique(s0, now, nextWakeup, NextWakeup(s0, now));
      ExpireOverAll(s0, now, stamp);
    }

    /**
     * One pass of the expiry loop at time `now` (whole seconds). Records
     * with INVALID_TTL are skipped; a record not yet expired whose elapsed
     * time exceeds its TTL is flagged expired and published once; every
     * other scanned record bounds the returned delay in milliseconds, which
     * starts at DEFAULT_WAKE_TIME and drops to 0 when some remaining time is
     * not positive.
     */
    method ProcessExpiryPass(now: int, stamp: string) returns (nextWakeup: int)
      requires Valid()
      modifies this, devices.Values
      ensures Valid() && ConfigUnchanged()
      ensures devices == old(devices) && subDispose == old(subDispose) && zObservables == old(zObservables)
      ensures disposed == old(disposed) && nextHandle == old(nextHandle)
      ensures Store() == ExpireStore(old(Store()), now, stamp)
      ensures |events| >= |old(events)| && events[..|old(events)|] == old(events)
      ensures PublishesExactly(events[|old(events)|..], NewlyOverdue(old(Store()), now))
      ensures nextWakeup == NextWakeup(old(Store()), now)
    {
      var toPublish;
      toPublish, nextWakeup := ScanAll(now, stamp);
      PublishesOfList(toPublish, NewlyOverdue(old(Store()), now));
      PublishEach(toPublish);
    }
  }
}
