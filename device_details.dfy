/**
 * The stored record of one discovered service instance. Its identity fields
 * are assigned once by the constructor; the only later change is SetExpired,
 * which raises the Expired flag and appends an expiry notice to the detail
 * text.
 */
module Records {

  /** The TTL value meaning "never expires"; the expiry scan skips it. */
  const INVALID_TTL: int := -1

  const TIMESTAMP_LABEL: string := "\n\nTimestamp: "
  const EXPIRED_LABEL: string := "\n\n TTL Expired: "

  /**
   * Everything a record holds, as a value. `received` is the receipt time in
   * whole seconds; `details` is the ServiceDetails text.
   */
  datatype RecordInfo = RecordInfo(
    key: string, domain: string, service: string, name: string, ip: string,
    id: string, ttl: int, received: int, expired: bool, details: string)

  /** The identity part of a record: everything except the flag and the text. */
  predicate SameIdentity(a: RecordInfo, b: RecordInfo) {
    && a.key == b.key && a.domain == b.domain && a.service == b.service
    && a.name == b.name && a.ip == b.ip && a.id == b.id
    && a.ttl == b.ttl && a.received == b.received
  }

  /** The record the constructor builds; `stamp` is the rendering of `now`. */
  function Created(
    key: string, service: string, domain: string, name: string, ip: string,
    id: string, ttl: int, serviceDetails: string, now: int, stamp: string): (r: RecordInfo)
    ensures !r.expired
    ensures r.key == key && r.service == service && r.domain == domain && r.name == name
    ensures r.ip == ip && r.id == id && r.ttl == ttl && r.received == now
    ensures serviceDetails <= r.details && r.details[|serviceDetails|..] == TIMESTAMP_LABEL + stamp
  {
    RecordInfo(key, domain, service, name, ip, id, ttl, now, false,
               serviceDetails + TIMESTAMP_LABEL + stamp)
  }

  /** The record after SetExpired(stamp). */
  function AfterSetExpired(r: RecordInfo, stamp: string): (e: RecordInfo)
    ensures e.expired
    ensures SameIdentity(r, e)
    ensures r.details <= e.details && e.details[|r.details|..] == EXPIRED_LABEL + stamp
  {
    r.(expired := true, details := r.details + EXPIRED_LABEL + stamp)
  }

  class DeviceDetails {
    const Key: string
    const Domain: string
    const Service: string
    const Name: string
    const IP: string
    const Id: string
    const TTL: int
    const ReceivedTimestamp: int
    var Expired: bool
    var ServiceDetails: string

    ghost function Snapshot(): RecordInfo
      reads this
    {
      RecordInfo(Key, Domain, Service, Name, IP, Id, TTL, ReceivedTimestamp, Expired, ServiceDetails)
    }

    /**
     * The constructor; the parameter order (key, service, domain, ...) is the
     * source's. `now` and `stamp` stand for DateTime.Now and its rendering.
     */
    constructor (key: string, service: string, domain: string, name: string, ip: string,
                 id: string, ttl: int, serviceDetails: string, now: int, stamp: string)
      ensures Snapshot() == Created(key, service, domain, name, ip, id, ttl, serviceDetails, now, stamp)
    {
      Key := key;
      Domain := domain;
      Service := service;
      Name := name;
      IP := ip;
      Id := id;
      TTL := ttl;
      ReceivedTimestamp := now;
      ServiceDetails := serviceDetails + TIMESTAMP_LABEL + stamp;
      Expired := false;
    }

    /** The header-plus-details rendering of the record. */
    function GetCompleteDeviceData(): (data: string)
      reads this
      ensures |data| == |"\nName: " + Name + "\nKey: " + Key + "\nDomain: " + Domain
                         + "\nService: " + Service + "\n\n "| + |ServiceDetails|
      ensures "\nName: " + Name + "\nKey: " + Key + "\nDomain: " + Domain <= data
      ensures data[|data| - |ServiceDetails|..] == ServiceDetails
      ensures var header := "\nName: " + Name + "\nKey: " + Key + "\nDomain: " + Domain;
        data[|header|..|data| - |ServiceDetails|] == "\nService: " + Service + "\n\n "
    {
      "\nName: " + Name + "\nKey: " + Key + "\nDomain: " + Domain
        + "\nService: " + Service + "\n\n " + ServiceDetails
    }

    /** The current detail text, verbatim. */
    function GetDeviceDetails(): (text: string)
      reads this
      ensures text == Snapshot().details
    {
      ServiceDetails
    }

    /** Flags the record expired and appends the expiry notice; nothing else changes. */
    method SetExpired(stamp: string)
      modifies this
      ensures Snapshot() == AfterSetExpired(old(Snapshot()), stamp)
      ensures Expired && old(ServiceDetails) <= ServiceDetails
    {
      Expired := true;
      ServiceDetails := ServiceDetails + EXPIRED_LABEL + stamp;
    }
  }
}
