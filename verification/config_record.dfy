/** The configuration both entry points carry around: where it was read
    from, the Route53 zone and record name, the public-IP service, and the
    last IP known to be published. Each field may be null. */
module ConfigRecord {
  import opened JavaLang

  datatype Config = Config(
    fileName: Option<string>,
    hostedZoneId: Option<string>,
    domainName: Option<string>,
    ipProvider: Option<string>,
    currentIP: Option<string>)

  /** A freshly constructed configuration: every field null. */
  const Empty := Config(None, None, None, None, None)

  /** The four settings that command-line flags and file lines assign. */
  datatype Key = ZoneId | Domain | IpProvider | CurrentIp

  function Get(c: Config, k: Key): Option<string>
  {
    match k
    case ZoneId => c.hostedZoneId
    case Domain => c.domainName
    case IpProvider => c.ipProvider
    case CurrentIp => c.currentIP
  }

  /** Assigns one setting; the file name and the other settings stay. */
  function Set(c: Config, k: Key, v: string): (r: Config)
    ensures Get(r, k) == Some(v)
    ensures forall k' :: k' != k ==> Get(r, k') == Get(c, k')
    ensures r.fileName == c.fileName
  {
    match k
    case ZoneId => c.(hostedZoneId := Some(v))
    case Domain => c.(domainName := Some(v))
    case IpProvider => c.(ipProvider := Some(v))
    case CurrentIp => c.(currentIP := Some(v))
  }

  /** Two configurations with the same file name and the same four settings
      are the same configuration. */
  lemma SettingsDetermineConfig(c: Config, d: Config)
    requires c.fileName == d.fileName
    requires forall k :: Get(c, k) == Get(d, k)
    ensures c == d
  {
    assert Get(c, ZoneId) == Get(d, ZoneId);
    assert Get(c, Domain) == Get(d, Domain);
    assert Get(c, IpProvider) == Get(d, IpProvider);
    assert Get(c, CurrentIp) == Get(d, CurrentIp);
  }

  /** Zone, domain and IP provider are set; the baseline may still be null. */
  predicate HasRequired(c: Config)
  {
    c.hostedZoneId.Some? && c.domainName.Some? && c.ipProvider.Some?
  }

  /** All four settings are set. */
  predicate IsComplete(c: Config)
  {
    forall k :: Get(c, k).Some?
  }

  /** Complete means the three required settings and the baseline. */
  lemma CompleteIff(c: Config)
    ensures IsComplete(c) <==> HasRequired(c) && c.currentIP.Some?
  {
    assert Get(c, ZoneId) == c.hostedZoneId && Get(c, Domain) == c.domainName;
    assert Get(c, IpProvider) == c.ipProvider && Get(c, CurrentIp) == c.currentIP;
  }

  /** The key name used for a setting in the configuration file. */
  function KeyName(k: Key): string
  {
    match k
    case ZoneId => "zone_id"
    case Domain => "domain"
    case IpProvider => "ip_provider"
    case CurrentIp => "current_ip"
  }

  /** The setting a file key names, if any; comparison is exact. */
  function KeyNamed(name: string): (r: Option<Key>)
    ensures forall k :: r == Some(k) <==> name == KeyName(k)
  {
    if name == "zone_id" then Some(ZoneId)
    else if name == "domain" then Some(Domain)
    else if name == "ip_provider" then Some(IpProvider)
    else if name == "current_ip" then Some(CurrentIp)
    else None
  }

  /** A binding is what one file line or one command-line flag assigns,
      if anything. The binding assigns setting `k`. */
  predicate Binds(b: Option<(Key, string)>, k: Key)
  {
    b.Some? && b.value.0 == k
  }

  /** The value the last binding of `k` assigns, or null when there is none. */
  function LastBound(bs: seq<Option<(Key, string)>>, k: Key): Option<string>
    decreases |bs|
  {
    if bs == [] then None
    else if Binds(bs[|bs| - 1], k) then Some(bs[|bs| - 1].value.1)
    else LastBound(bs[..|bs| - 1], k)
  }

  /** Last write wins, stated by position: the binding at `i` assigns `k`
      and no later one does. */
  lemma {:induction false} LastOccurrenceWins(bs: seq<Option<(Key, string)>>, k: Key, i: nat)
    requires i < |bs| && Binds(bs[i], k)
    requires forall j :: i < j < |bs| ==> !Binds(bs[j], k)
    ensures LastBound(bs, k) == Some(bs[i].value.1)
    decreases |bs|
  {
    if i < |bs| - 1 {
      var prefix := bs[..|bs| - 1];
      assert !Binds(bs[|bs| - 1], k);
      LastOccurrenceWins(prefix, k, i);
    }
  }

  /** A setting stays untouched exactly when nothing binds it. */
  lemma {:induction false} NoOccurrence(bs: seq<Option<(Key, string)>>, k: Key)
    ensures LastBound(bs, k).None? <==> forall i :: 0 <= i < |bs| ==> !Binds(bs[i], k)
    decreases |bs|
  {
    if bs != [] {
      var prefix := bs[..|bs| - 1];
      NoOccurrence(prefix, k);
      if !Binds(bs[|bs| - 1], k) {
        assert forall i :: 0 <= i < |prefix| ==> prefix[i] == bs[i];
      }
    }
  }

  /** Every setting is bound somewhere. */
  predicate AllBound(bs: seq<Option<(Key, string)>>)
  {
    forall k :: LastBound(bs, k).Some?
  }

  /** Zone, domain and provider are bound somewhere. */
  predicate RequiredBound(bs: seq<Option<(Key, string)>>)
  {
    forall k :: k != CurrentIp ==> LastBound(bs, k).Some?
  }

  /** A configuration whose settings all come from bindings is complete,
      or has the required settings, exactly when the bindings assign those
      settings. */
  lemma SettingsFromBindings(c: Config, bs: seq<Option<(Key, string)>>)
    requires forall k :: Get(c, k) == LastBound(bs, k)
    ensures IsComplete(c) <==> AllBound(bs)
    ensures HasRequired(c) <==> RequiredBound(bs)
  {
    assert Get(c, ZoneId) == LastBound(bs, ZoneId) && Get(c, Domain) == LastBound(bs, Domain);
    assert Get(c, IpProvider) == LastBound(bs, IpProvider) && Get(c, CurrentIp) == LastBound(bs, CurrentIp);
    assert Get(c, ZoneId) == c.hostedZoneId && Get(c, Domain) == c.domainName;
    assert Get(c, IpProvider) == c.ipProvider && Get(c, CurrentIp) == c.currentIP;
    if HasRequired(c) {
      forall k | k != CurrentIp
        ensures LastBound(bs, k).Some?
      {
        assert Get(c, k).Some?;
      }
    }
  }
}
