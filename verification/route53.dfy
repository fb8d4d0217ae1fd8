/** The part of the Route53 API the client touches: a change request for
    one hosted zone, and what answering it does to the record it names. */
module Route53 {
  import opened JavaLang

  datatype ChangeAction = Create | Delete | Upsert

  /** The record types the client may name; it only ever names `A`. */
  datatype RRType = A | AAAA | CNAME | TXT

  /** A record value; the builder accepts a null value. */
  datatype ResourceRecord = ResourceRecord(value: Option<string>)

  datatype ResourceRecordSet = ResourceRecordSet(
    name: Option<string>,
    rrType: RRType,
    ttl: int,
    records: seq<ResourceRecord>)

  datatype Change = Change(action: ChangeAction, recordSet: ResourceRecordSet)

  datatype ChangeRequest = ChangeRequest(hostedZoneId: Option<string>, changes: seq<Change>)

  /** Seconds resolvers may cache the record. */
  const UpsertTtl := 300

  /** How `changeResourceRecordSets` ends: it answers, or it throws a
      `Route53Exception`. */
  datatype ProviderReply = Accepted | Rejected

  /** The request that points the `A` record `name` of the zone at `value`. */
  function UpsertA(zone: Option<string>, name: Option<string>, value: Option<string>): (r: ChangeRequest)
    ensures IsUpsertA(r, zone, name)
    ensures PublishedValue(r) == value
  {
    ChangeRequest(zone, [Change(Upsert, ResourceRecordSet(name, A, UpsertTtl, [ResourceRecord(value)]))])
  }

  /** A request with exactly one change, an upsert of the `A` record `name`
      in zone `zone` with a TTL of 300 seconds and exactly one value. */
  predicate IsUpsertA(r: ChangeRequest, zone: Option<string>, name: Option<string>)
  {
    && r.hostedZoneId == zone
    && |r.changes| == 1
    && r.changes[0].action == Upsert
    && r.changes[0].recordSet.name == name
    && r.changes[0].recordSet.rrType == A
    && r.changes[0].recordSet.ttl == UpsertTtl
    && |r.changes[0].recordSet.records| == 1
  }

  /** The value the single record of a single-change request carries. */
  function PublishedValue(r: ChangeRequest): Option<string>
  {
    if |r.changes| == 1 && |r.changes[0].recordSet.records| == 1
    then r.changes[0].recordSet.records[0].value
    else None
  }

  /** What the provider holds for the record the configuration names: not
      known to this client, or a value it was sent. */
  datatype RecordState = Unknown | Holds(value: Option<string>)

  /** The record after the requests are answered with `reply`: an accepted
      upsert replaces the value, a rejected one leaves the record alone. */
  function AfterRequests(s: RecordState, requests: seq<ChangeRequest>, reply: ProviderReply): RecordState
  {
    if requests == [] || reply == Rejected then s
    else Holds(PublishedValue(requests[|requests| - 1]))
  }
}
