/** The reconciliation of `Ddns53`: compare the public IP with the stored
    baseline, upsert the `A` record when they differ, and record the new
    baseline only once the upsert has been accepted. The public IP arrives
    as the raw response body of the IP provider, or null when fetching it
    failed; the provider's answer arrives as a `ProviderReply`. */
module Ddns53 {
  import opened JavaLang
  import opened ConfigRecord
  import opened Route53

  /** The configuration afterwards, the method's boolean result, and the
      requests sent to Route53. */
  datatype Reconciled = Reconciled(cfg: Config, updated: bool, requests: seq<ChangeRequest>)

  /** `String.equals` with a possibly-null argument. */
  predicate JavaEquals(s: string, other: Option<string>)
  {
    other.Some? && other.value == s
  }

  /** `updateRoute53Ip`: one upsert of the configured record with the new IP;
      the baseline is assigned only when the provider accepts it, and a
      `Route53Exception` is caught and reported as `false`. */
  function UpdateRoute53Ip(c: Config, newIp: Option<string>, reply: ProviderReply): (r: Reconciled)
    ensures |r.requests| == 1 && IsUpsertA(r.requests[0], c.hostedZoneId, c.domainName)
    ensures PublishedValue(r.requests[0]) == newIp
    ensures r.updated <==> reply == Accepted
    ensures r.cfg.currentIP == (if r.updated then newIp else c.currentIP)
    ensures r.cfg.(currentIP := c.currentIP) == c
  {
    var request := UpsertA(c.hostedZoneId, c.domainName, newIp);
    match reply
    case Accepted => Reconciled(c.(currentIP := newIp), true, [request])
    case Rejected => Reconciled(c, false, [request])
  }

  /** `updateRoute53Record`: a request is sent unless the baseline is set
      and equals the fetched text exactly; a null baseline always leads to
      a request, and so does a failed fetch. The result is true exactly
      when a request was sent and accepted, and only then does the baseline
      change, to the fetched text. */
  function UpdateRoute53Record(c: Config, fetched: Option<string>, reply: ProviderReply): (r: Reconciled)
    ensures |r.requests| <= 1
    ensures r.requests == [] <==> c.currentIP.Some? && fetched == c.currentIP
    ensures r.requests != [] ==> r.requests[0] == UpsertA(c.hostedZoneId, c.domainName, fetched)
    ensures r.updated <==> r.requests != [] && reply == Accepted
    ensures r.cfg == (if r.updated then c.(currentIP := fetched) else c)
  {
    match c.currentIP
    case None => UpdateRoute53Ip(c, fetched, reply)
    case Some(baseline) =>
      if !JavaEquals(baseline, fetched) then UpdateRoute53Ip(c, fetched, reply)
      else Reconciled(c, false, [])
  }

  /** Once an IP has been published, reconciling again with the same IP
      sends nothing and changes nothing, whatever the provider would say. */
  lemma IdempotentAfterSuccess(c: Config, ip: string, reply: ProviderReply)
    ensures var first := UpdateRoute53Record(c, Some(ip), Accepted);
      var second := UpdateRoute53Record(first.cfg, Some(ip), reply);
      second.requests == [] && !second.updated && second.cfg == first.cfg
  {
  }

  /** After a rejected upsert nothing was recorded, so the next run with the
      same IP sends the same request again. */
  lemma RetriedAfterRejection(c: Config, fetched: Option<string>, reply: ProviderReply)
    ensures var first := UpdateRoute53Record(c, fetched, Rejected);
      var second := UpdateRoute53Record(first.cfg, fetched, reply);
      first.cfg == c && second.requests == first.requests
  {
  }

  /** A failed fetch is not short-circuited: it always leads to an upsert
      of a null value, and a stored baseline is replaced by null when
      Route53 accepts it. */
  lemma NullFetchIsUpserted(c: Config, reply: ProviderReply)
    ensures var r := UpdateRoute53Record(c, None, reply);
      r.requests == [UpsertA(c.hostedZoneId, c.domainName, None)]
      && (reply == Accepted ==> r.cfg.currentIP.None?)
  {
  }

  /** The comparison is on the raw response body: the same address followed
      by a line break counts as a change. */
  lemma UntrimmedBodyIsAChange(c: Config, ip: string, reply: ProviderReply)
    requires c.currentIP == Some(ip)
    ensures UpdateRoute53Record(c, Some(ip + "\n"), reply).requests != []
  {
    assert |ip + "\n"| != |ip|;
  }

  /** The stored baseline is consistent with Route53 when, whenever it is
      set, the record holds exactly that value. */
  predicate BaselineConsistent(c: Config, s: RecordState)
  {
    c.currentIP.Some? ==> s == Holds(c.currentIP)
  }

  /** Committing only after acceptance keeps the baseline consistent with
      the record whatever the fetch returns and the provider answers. */
  lemma ReconcileKeepsBaselineConsistent(c: Config, s: RecordState, fetched: Option<string>, reply: ProviderReply)
    requires BaselineConsistent(c, s)
    ensures var r := UpdateRoute53Record(c, fetched, reply);
      BaselineConsistent(r.cfg, AfterRequests(s, r.requests, reply))
  {
    var r := UpdateRoute53Record(c, fetched, reply);
    if r.requests != [] {
      assert PublishedValue(r.requests[0]) == fetched;
    }
  }
}
