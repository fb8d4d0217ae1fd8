/** `Ddns53App`, the older entry point: the parsers build a fresh
    configuration or return null, the reconciliation writes the baseline
    before asking Route53 and lets a `Route53Exception` escape, and `main`
    saves the file only after an update that returned 1. */
module Ddns53App {
  import opened JavaLang
  import opened JavaStrings
  import opened TextFiles
  import opened ConfigRecord
  import opened ConfigFormat
  import opened CommandLine
  import opened Route53
  import Ddns53Config
  import Ddns53

  /** `parse_input_parameters`: the flags are collected into fresh locals; a
      configuration without a file name comes back only when all four were
      given, otherwise null. A flag in the last position throws. */
  function ParseInputParameters(args: seq<string>): (r: Outcome<Option<Config>>)
    ensures r.Threw? <==> EndsWithFlag(args)
    ensures r.Threw? ==> r.exception == ArrayIndexOutOfBounds
    ensures r.Returned? ==> (r.value.Some? <==> AllBound(FlagBindings(args)))
    ensures r.Returned? && r.value.Some? ==>
      r.value.value.fileName.None? && forall k :: Get(r.value.value, k) == LastBound(FlagBindings(args), k)
  {
    match ScanFlags(Empty, args)
    case Threw(e) => Threw(e)
    case Returned(c) =>
      assert forall k :: Get(Empty, k) == None;
      SettingsFromBindings(c, FlagBindings(args));
      Returned(if IsComplete(c) then Some(c) else None)
  }

  /** `parse_input_file`: a configuration carrying `filename` comes back
      exactly when the file can be opened and its lines set zone, domain
      and provider; the baseline may stay null. A blank line throws, since
      only `IOException` is caught. */
  function ParseInputFile(filename: string, fs: FileSystem): (r: Outcome<Option<Config>>)
    ensures r.Threw? <==> filename in fs && HasBlankLine(ReadLines(fs[filename]))
    ensures r.Threw? ==> r.exception == StringIndexOutOfBounds
    ensures r.Returned? ==>
      (r.value.Some? <==> filename in fs && RequiredBound(Bindings(ReadLines(fs[filename]))))
    ensures r.Returned? && r.value.Some? ==>
      r.value.value.fileName == Some(filename) &&
      forall k :: Get(r.value.value, k) == LastBound(Bindings(ReadLines(fs[filename])), k)
  {
    if filename !in fs then Returned(None)
    else
      match ApplyLines(Empty, ReadLines(fs[filename]))
      case Threw(e) => Threw(e)
      case Returned(c) =>
        var bs := Bindings(ReadLines(fs[filename]));
        assert forall k :: Get(Empty, k) == None;
        SettingsFromBindings(c, bs);
        Returned(if HasRequired(c) then Some(c.(fileName := Some(filename))) else None)
  }

  /** `parse_arguments`: eight arguments go to the flag parser and two
      starting with `-cfg` to the named file; a null from that attempt, or
      any other argument list, falls back to the default file. A
      configuration from the flags is given the default path to save to, so
      every configuration that comes back has a file name and the three
      required settings. */
  function ParseArguments(args: seq<string>, home: string, fs: FileSystem): (r: Outcome<Option<Config>>)
    ensures r.Returned? && r.value.Some? ==> r.value.value.fileName.Some? && HasRequired(r.value.value)
    ensures r.Threw? ==> r.exception in {ArrayIndexOutOfBounds, StringIndexOutOfBounds}
    ensures r.Returned? && r.value.None? ==> ParseInputFile(Ddns53Config.DefaultPath(home), fs) == Returned(None)
    ensures |args| != 8 && !(|args| == 2 && args[0] == "-cfg") ==> r == ParseInputFile(Ddns53Config.DefaultPath(home), fs)
    ensures |args| == 8 ==>
      match ParseInputParameters(args)
      case Threw(e) => r == Threw(e)
      case Returned(None) => r == ParseInputFile(Ddns53Config.DefaultPath(home), fs)
      case Returned(Some(c)) => r == Returned(Some(c.(fileName := Some(Ddns53Config.DefaultPath(home)))))
    ensures |args| == 2 && args[0] == "-cfg" ==>
      match ParseInputFile(args[1], fs)
      case Threw(e) => r == Threw(e)
      case Returned(None) => r == ParseInputFile(Ddns53Config.DefaultPath(home), fs)
      case Returned(Some(c)) => r == Returned(Some(c))
  {
    var first :=
      if |args| == 8 then ParseInputParameters(args)
      else if |args| == 2 && args[0] == "-cfg" then ParseInputFile(args[1], fs)
      else Returned(None);
    match first
    case Threw(e) => Threw(e)
    case Returned(None) => ParseInputFile(Ddns53Config.DefaultPath(home), fs)
    case Returned(Some(c)) =>
      CompleteIff(c);
      Returned(Some(if c.fileName.None? then c.(fileName := Some(Ddns53Config.DefaultPath(home))) else c))
  }

  /** The status code and the file written, if any. */
  datatype Saved = Saved(code: int, write: Option<FileWrite>)

  /** `update_input_file`: without a file name nothing is written; otherwise
      the file is replaced by the four `key = value` lines. Both return 0. */
  function UpdateInputFile(c: Config): (r: Saved)
    ensures r.code == 0
    ensures r.write.None? <==> c.fileName.None?
    ensures r.write.Some? ==> r.write.value == Ddns53Config.UpdateInputFile(c).write.value
  {
    match c.fileName
    case None => Saved(0, None)
    case Some(path) => Saved(0, Some(FileWrite(path, WriteLines(RenderLines(c)))))
  }

  /** The request sent and, when Route53 refused it, the exception that
      escapes. */
  datatype Sent = Sent(request: ChangeRequest, failure: Option<JavaException>)

  /** `update_route53_IP`: the upserted value is read from the baseline
      field, and a `Route53Exception` is rethrown. */
  function UpdateRoute53Ip(c: Config, reply: ProviderReply): (r: Sent)
    ensures IsUpsertA(r.request, c.hostedZoneId, c.domainName)
    ensures PublishedValue(r.request) == c.currentIP
    ensures r.failure.None? <==> reply == Accepted
    ensures r.failure.Some? ==> r.failure.value == Route53Failure
  {
    var request := UpsertA(c.hostedZoneId, c.domainName, c.currentIP);
    match reply
    case Accepted => Sent(request, None)
    case Rejected => Sent(request, Some(Route53Failure))
  }

  /** The configuration afterwards, the requests sent, and how the method
      ended. */
  datatype Step = Step(cfg: Config, requests: seq<ChangeRequest>, result: Outcome<int>)

  /** The test that sends an update: the baseline is null, or
      `compareTo` finds it different from the fetched text. */
  predicate Differs(baseline: Option<string>, fetched: Option<string>)
  {
    baseline.None? || (fetched.Some? && fetched != baseline)
  }

  /** `update_route53_record`: when the baseline is null or differs from the
      fetched text, the baseline is first set to the fetched text and that
      value is upserted; the method returns 1, or the `Route53Exception`
      escapes with the baseline already changed. Equal texts return 0 and
      change nothing. A failed fetch against a stored baseline throws from
      `compareTo(null)` before anything is sent. */
  function UpdateRoute53Record(c: Config, fetched: Option<string>, reply: ProviderReply): (r: Step)
    ensures r.result == Threw(NullPointer) <==> c.currentIP.Some? && fetched.None?
    ensures r.result == Returned(0) <==> c.currentIP.Some? && fetched == c.currentIP
    ensures r.result.Returned? ==> r.result.value in {0, 1}
    ensures Differs(c.currentIP, fetched) ==>
      && r.cfg == c.(currentIP := fetched)
      && r.requests == [UpsertA(c.hostedZoneId, c.domainName, fetched)]
      && r.result == (if reply == Accepted then Returned(1) else Threw(Route53Failure))
    ensures !Differs(c.currentIP, fetched) ==> r.cfg == c && r.requests == []
  {
    match c.currentIP
    case None => Submit(c.(currentIP := fetched), reply)
    case Some(baseline) =>
      match fetched
      case None => Step(c, [], Threw(NullPointer))
      case Some(ip) =>
        if baseline != ip then Submit(c.(currentIP := fetched), reply)
        else Step(c, [], Returned(0))
  }

  /** Sends the update for a configuration whose baseline was already
      overwritten. */
  function Submit(c: Config, reply: ProviderReply): Step
  {
    var sent := UpdateRoute53Ip(c, reply);
    match sent.failure
    case None => Step(c, [sent.request], Returned(1))
    case Some(e) => Step(c, [sent.request], Threw(e))
  }

  /** What `main` did: the requests sent, the file saved, and the exception
      that ended it, if any. */
  datatype MainRun = MainRun(requests: seq<ChangeRequest>, write: Option<FileWrite>, failure: Option<JavaException>)

  /** `main`: parse the arguments, stop quietly on null, reconcile, and save
      the file only when the update returned 1. */
  function Main(args: seq<string>, home: string, fs: FileSystem, fetched: Option<string>, reply: ProviderReply): (r: MainRun)
    ensures |r.requests| <= 1
    ensures r.write.Some? ==> r.failure.None? && reply == Accepted && |r.requests| == 1
    ensures r.write.Some? ==> PublishedValue(r.requests[0]) == fetched
    ensures r.failure.Some? ==> r.write.None?
    ensures r.requests != [] ==> ParseArguments(args, home, fs).Returned? && ParseArguments(args, home, fs).value.Some?
    ensures var p := ParseArguments(args, home, fs);
      r.write.Some? <==> p.Returned? && p.value.Some? && Differs(p.value.value.currentIP, fetched) && reply == Accepted
    ensures var p := ParseArguments(args, home, fs);
      r.write.Some? ==> r.write.value == UpdateInputFile(p.value.value.(currentIP := fetched)).write.value
  {
    match ParseArguments(args, home, fs)
    case Threw(e) => MainRun([], None, Some(e))
    case Returned(None) => MainRun([], None, None)
    case Returned(Some(cfg)) => UpdateAndSave(cfg, fetched, reply)
  }

  /** The part of `main` after a configuration was parsed: reconcile, then
      save the file if the update returned 1. */
  function UpdateAndSave(cfg: Config, fetched: Option<string>, reply: ProviderReply): (r: MainRun)
    ensures |r.requests| <= 1
    ensures r.write.Some? ==> r.failure.None? && reply == Accepted && |r.requests| == 1
    ensures r.write.Some? ==> PublishedValue(r.requests[0]) == fetched
    ensures r.failure.Some? ==> r.write.None?
    ensures r.write.Some? <==> cfg.fileName.Some? && Differs(cfg.currentIP, fetched) && reply == Accepted
    ensures r.write.Some? ==> r.write.value == UpdateInputFile(cfg.(currentIP := fetched)).write.value
  {
    var step := UpdateRoute53Record(cfg, fetched, reply);
    match step.result
    case Threw(e) => MainRun(step.requests, None, Some(e))
    case Returned(code) =>
      if code == 1 then MainRun(step.requests, UpdateInputFile(step.cfg).write, None)
      else MainRun(step.requests, None, None)
  }

  /** A configuration read through `-cfg` keeps the name of the file it was
      read from, so it is saved back there. */
  lemma CfgFileKeepsItsName(f: string, home: string, fs: FileSystem, c: Config)
    requires ParseInputFile(f, fs) == Returned(Some(c))
    ensures ParseArguments(["-cfg", f], home, fs) == Returned(Some(c))
    ensures c.fileName == Some(f)
  {
  }

  /** Where both variants send a request they send the same one, and when
      Route53 accepts it they end with the same configuration, the
      optimistic result 1 matching the pessimistic `true`. */
  lemma VariantsAgreeOnAcceptance(c: Config, fetched: Option<string>, reply: ProviderReply)
    requires !(c.currentIP.Some? && fetched.None?)
    ensures var optimistic := UpdateRoute53Record(c, fetched, reply);
      var pessimistic := Ddns53.UpdateRoute53Record(c, fetched, reply);
      && optimistic.requests == pessimistic.requests
      && (reply == Accepted ==>
            optimistic.cfg == pessimistic.cfg &&
            (optimistic.result == Returned(1) <==> pessimistic.updated))
  {
  }

  /** Writing the baseline before the upsert breaks the agreement between
      baseline and record that the pessimistic variant keeps: after a
      rejected upsert the object already holds the new IP while Route53
      still holds the old one. */
  lemma OptimisticBaselineRunsAhead(c: Config, previous: string, ip: string)
    requires c.currentIP == Some(previous) && ip != previous
    ensures var r := UpdateRoute53Record(c, Some(ip), Rejected);
      var s := Holds(Some(previous));
      && Ddns53.BaselineConsistent(c, s)
      && r.result == Threw(Route53Failure)
      && !Ddns53.BaselineConsistent(r.cfg, AfterRequests(s, r.requests, Rejected))
  {
  }

  /** Once `main` has a configuration (every configuration `ParseArguments`
      returns has a file name and the required settings), it saves exactly
      when the update was sent and accepted, and the saved file reads back
      as the configuration with the accepted IP as its baseline, provided
      the texts involved are clean. */
  lemma MainSavesAcceptedBaseline(cfg: Config, ip: string, reply: ProviderReply, fs: FileSystem)
    requires cfg.fileName.Some? && HasRequired(cfg)
    requires forall k :: k != CurrentIp ==> Clean(Get(cfg, k).value)
    requires Clean(ip)
    ensures var run := UpdateAndSave(cfg, Some(ip), reply);
      && (run.write.Some? <==> reply == Accepted && cfg.currentIP != Some(ip))
      && (run.write.Some? ==>
            ParseInputFile(run.write.value.path, fs[run.write.value.path := run.write.value.text]) ==
              Returned(Some(cfg.(currentIP := Some(ip)))))
  {
    var run := UpdateAndSave(cfg, Some(ip), reply);
    var step := UpdateRoute53Record(cfg, Some(ip), reply);
    var saved := cfg.(currentIP := Some(ip));
    assert run.write == (if step.result == Returned(1) then UpdateInputFile(step.cfg).write else None);
    if step.result == Returned(1) {
      assert step.cfg == saved;
      CompleteIff(saved);
      forall k
        ensures Clean(Get(saved, k).value)
      {
        if k != CurrentIp {
          assert Get(saved, k) == Get(cfg, k);
        }
      }
      SavedConfigReadsBack(saved, fs);
    }
  }

  /** A configuration with a file name, the required settings and clean
      values is read back from the file it is saved to. */
  lemma SavedConfigReadsBack(c: Config, fs: FileSystem)
    requires c.fileName.Some? && IsComplete(c)
    requires forall k :: Clean(Get(c, k).value)
    ensures var w := UpdateInputFile(c).write.value;
      ParseInputFile(w.path, fs[w.path := w.text]) == Returned(Some(c))
  {
    var w := UpdateInputFile(c).write.value;
    Ddns53Config.CompletePersistRoundTrip(c, Empty, fs);
    CompleteIff(c);
  }
}
