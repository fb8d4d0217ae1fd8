/** The flag scanner that `Ddns53Config.parseInputParameters` and
    `Ddns53App.parse_input_parameters` share: the arguments are visited one
    position at a time, and `-i`, `-d`, `-p` or `-c` assigns the token right
    after it. The token after a flag is visited in turn, so it is itself
    taken as a flag when it reads like one. */
module CommandLine {
  import opened JavaLang
  import opened ConfigRecord

  /** The setting a flag assigns; every other token is only logged. */
  function FlagKey(token: string): (r: Option<Key>)
    ensures r == Some(ZoneId) <==> token == "-i"
    ensures r == Some(Domain) <==> token == "-d"
    ensures r == Some(IpProvider) <==> token == "-p"
    ensures r == Some(CurrentIp) <==> token == "-c"
  {
    if token == "-i" then Some(ZoneId)
    else if token == "-d" then Some(Domain)
    else if token == "-p" then Some(IpProvider)
    else if token == "-c" then Some(CurrentIp)
    else None
  }

  /** What the argument at position `i` assigns: a flag followed by
      another argument binds its setting to that argument. */
  function FlagBinding(args: seq<string>, i: nat): Option<(Key, string)>
    requires i < |args|
  {
    match FlagKey(args[i])
    case Some(k) => if i + 1 < |args| then Some((k, args[i + 1])) else None
    case None => None
  }

  function FlagBindings(args: seq<string>): seq<Option<(Key, string)>>
  {
    seq(|args|, i requires 0 <= i < |args| => FlagBinding(args, i))
  }

  /** Reading `args[index + 1]` past the end throws; that happens exactly
      when the last argument is a flag. */
  predicate EndsWithFlag(args: seq<string>)
  {
    |args| > 0 && FlagKey(args[|args| - 1]).Some?
  }

  /** The first `n` turns of the scanning loop. The scan throws only at the
      last position; until then each setting holds the token after its last
      flag, or keeps its earlier value. */
  function ScanUpTo(c: Config, args: seq<string>, n: nat): (r: Outcome<Config>)
    requires n <= |args|
    ensures r.Threw? <==> n == |args| && EndsWithFlag(args)
    ensures r.Threw? ==> r.exception == ArrayIndexOutOfBounds
    ensures r.Returned? ==> r.value.fileName == c.fileName
    ensures r.Returned? ==> forall k :: Get(r.value, k) == LastBound(FlagBindings(args)[..n], k).Or(Get(c, k))
    decreases n
  {
    if n == 0 then Returned(c)
    else
      var i := n - 1;
      var bs := FlagBindings(args);
      assert bs[..n][..i] == bs[..i];
      match ScanUpTo(c, args, i)
      case Threw(e) => Threw(e)
      case Returned(c1) =>
        match FlagKey(args[i])
        case None => Returned(c1)
        case Some(k) =>
          if n < |args| then Returned(Set(c1, k, args[n]))
          else Threw(ArrayIndexOutOfBounds)
  }

  /** The whole scanning loop. */
  function ScanFlags(c: Config, args: seq<string>): (r: Outcome<Config>)
    ensures r.Threw? <==> EndsWithFlag(args)
    ensures r.Threw? ==> r.exception == ArrayIndexOutOfBounds
    ensures r.Returned? ==> r.value.fileName == c.fileName
    ensures r.Returned? ==> forall k :: Get(r.value, k) == LastBound(FlagBindings(args), k).Or(Get(c, k))
  {
    assert FlagBindings(args)[..|args|] == FlagBindings(args);
    ScanUpTo(c, args, |args|)
  }

  /** The eight-argument command line `-i zone -d domain -p provider -c ip`
      sets all four settings, as long as no value reads as a flag. */
  lemma StandardCommandLine(c: Config, zone: string, domain: string, provider: string, ip: string)
    requires FlagKey(zone).None? && FlagKey(domain).None?
    requires FlagKey(provider).None? && FlagKey(ip).None?
    ensures ScanFlags(c, ["-i", zone, "-d", domain, "-p", provider, "-c", ip]) ==
      Returned(Config(c.fileName, Some(zone), Some(domain), Some(provider), Some(ip)))
  {
    var args := ["-i", zone, "-d", domain, "-p", provider, "-c", ip];
    var bs := FlagBindings(args);
    assert bs[0] == Some((ZoneId, zone)) && bs[1] == None;
    assert bs[2] == Some((Domain, domain)) && bs[3] == None;
    assert bs[4] == Some((IpProvider, provider)) && bs[5] == None;
    assert bs[6] == Some((CurrentIp, ip)) && bs[7] == None;
    LastOccurrenceWins(bs, ZoneId, 0);
    LastOccurrenceWins(bs, Domain, 2);
    LastOccurrenceWins(bs, IpProvider, 4);
    LastOccurrenceWins(bs, CurrentIp, 6);
    var r := ScanFlags(c, args);
    assert !EndsWithFlag(args);
    SettingsDetermineConfig(r.value, Config(c.fileName, Some(zone), Some(domain), Some(provider), Some(ip)));
  }
}
