/** `Ddns53Config`: one mutable configuration object that the argument
    parser, the file parser and the file writer update in place. Each
    operation here takes the object's state before the call and returns the
    state after it together with the boolean the Java method returns; an
    exception that escapes the method is a `Threw` outcome. */
module Ddns53Config {
  import opened JavaLang
  import opened JavaStrings
  import opened TextFiles
  import opened ConfigRecord
  import opened ConfigFormat
  import opened CommandLine

  /** The state after a parse and the method's boolean result. */
  datatype Parsed = Parsed(cfg: Config, ok: bool)

  /** The file written, if any, and the method's boolean result. */
  datatype Persisted = Persisted(write: Option<FileWrite>, ok: bool)

  /** The file read when nothing else works: `.aws/route53` under the
      user's home directory. */
  function DefaultPath(home: string): string
  {
    home + "/.aws/route53"
  }

  /** `parseInputParameters`: the flag scan assigns the object's fields
      directly, so settings that no flag mentions keep their earlier values;
      it succeeds exactly when all four settings are set afterwards. A flag
      in the last position throws out of the method. */
  function ParseInputParameters(c: Config, args: seq<string>): (r: Outcome<Parsed>)
    ensures r.Threw? <==> EndsWithFlag(args)
    ensures r.Threw? ==> r.exception == ArrayIndexOutOfBounds
    ensures r.Returned? ==> r.value.cfg.fileName == c.fileName
    ensures r.Returned? ==> forall k :: Get(r.value.cfg, k) == LastBound(FlagBindings(args), k).Or(Get(c, k))
    ensures r.Returned? ==> (r.value.ok <==> IsComplete(r.value.cfg))
  {
    match ScanFlags(c, args)
    case Threw(e) => Threw(e)
    case Returned(c1) => Returned(Parsed(c1, IsComplete(c1)))
  }

  /** `parseInputFile`: a file that cannot be opened is reported and
      skipped; otherwise each line is interpreted into the object's fields.
      A blank line throws out of the method, since only `IOException` is
      caught. The result is true exactly when zone, domain and provider are
      set afterwards, whether by this file or earlier; the file name field is
      never touched. */
  function ParseInputFile(c: Config, filename: string, fs: FileSystem): (r: Outcome<Parsed>)
    ensures r.Threw? <==> filename in fs && HasBlankLine(ReadLines(fs[filename]))
    ensures r.Threw? ==> r.exception == StringIndexOutOfBounds
    ensures r.Returned? ==> r.value.cfg.fileName == c.fileName
    ensures r.Returned? && filename !in fs ==> r.value.cfg == c
    ensures r.Returned? && filename in fs ==>
      forall k :: Get(r.value.cfg, k) == LastBound(Bindings(ReadLines(fs[filename])), k).Or(Get(c, k))
    ensures r.Returned? ==> (r.value.ok <==> HasRequired(r.value.cfg))
  {
    if filename !in fs then Returned(Parsed(c, HasRequired(c)))
    else
      match ApplyLines(c, ReadLines(fs[filename]))
      case Threw(e) => Threw(e)
      case Returned(c1) => Returned(Parsed(c1, HasRequired(c1)))
  }

  /** `updateInputFile`: without a file name nothing is written and the
      result is false; otherwise the file named by the object is replaced by
      the four `key = value` lines and the result is true. */
  function UpdateInputFile(c: Config): (r: Persisted)
    ensures r.ok <==> c.fileName.Some?
    ensures r.write.Some? <==> r.ok
    ensures r.write.Some? ==> r.write.value.path == c.fileName.value
    ensures r.write.Some? ==> r.write.value.text == WriteLines(RenderLines(c))
  {
    match c.fileName
    case None => Persisted(None, false)
    case Some(path) => Persisted(Some(FileWrite(path, WriteLines(RenderLines(c)))), true)
  }

  /** `parseArguments`: eight arguments go to the flag scanner and two
      starting with `-cfg` to the named file; when that does not succeed,
      or for any other argument list, the default file is read into the
      same object, so settings the first attempt made survive. Only a first
      attempt that succeeded gives a missing file name the default path. */
  function ParseArguments(c: Config, args: seq<string>, home: string, fs: FileSystem): (r: Outcome<Parsed>)
    ensures r.Returned? ==> (r.value.ok <==> HasRequired(r.value.cfg))
    ensures r.Returned? ==>
      r.value.cfg.fileName == c.fileName ||
      (c.fileName.None? && r.value.cfg.fileName == Some(DefaultPath(home)))
    ensures r.Threw? ==> r.exception in {ArrayIndexOutOfBounds, StringIndexOutOfBounds}
    ensures |args| != 8 && !(|args| == 2 && args[0] == "-cfg") ==> r == ParseInputFile(c, DefaultPath(home), fs)
  {
    var first :=
      if |args| == 8 then ParseInputParameters(c, args)
      else if |args| == 2 && args[0] == "-cfg" then ParseInputFile(c, args[1], fs)
      else Returned(Parsed(c, false));
    match first
    case Threw(e) => Threw(e)
    case Returned(p) =>
      CompleteIff(p.cfg);
      if !p.ok then ParseInputFile(p.cfg, DefaultPath(home), fs)
      else if p.cfg.fileName.None? then Returned(Parsed(p.cfg.(fileName := Some(DefaultPath(home))), true))
      else Returned(p)
  }

  /** Writing the configuration and parsing the written file into any
      object sets the four settings to the texts written for them, and the
      parse succeeds; this needs every written text to be clean. A null
      setting is written as `null` and so comes back as that text. */
  lemma PersistRoundTrip(c: Config, base: Config, fs: FileSystem)
    requires c.fileName.Some?
    requires forall k :: Clean(StringOf(Get(c, k)))
    ensures var w := UpdateInputFile(c).write.value;
      ParseInputFile(base, w.path, fs[w.path := w.text]) ==
        Returned(Parsed(Config(base.fileName,
                               Some(StringOf(c.hostedZoneId)),
                               Some(StringOf(c.domainName)),
                               Some(StringOf(c.ipProvider)),
                               Some(StringOf(c.currentIP))), true))
  {
    RenderedSettingsReadBack(c, base);
  }

  /** For a complete configuration with clean values the round trip gives
      back exactly its settings. */
  lemma CompletePersistRoundTrip(c: Config, base: Config, fs: FileSystem)
    requires c.fileName.Some? && IsComplete(c)
    requires forall k :: Clean(Get(c, k).value)
    ensures var w := UpdateInputFile(c).write.value;
      ParseInputFile(base, w.path, fs[w.path := w.text]) == Returned(Parsed(c.(fileName := base.fileName), true))
  {
    CompleteIff(c);
    assert Get(c, ZoneId) == c.hostedZoneId && Get(c, Domain) == c.domainName;
    assert Get(c, IpProvider) == c.ipProvider && Get(c, CurrentIp) == c.currentIP;
    assert forall k :: StringOf(Get(c, k)) == Get(c, k).value;
    PersistRoundTrip(c, base, fs);
  }

  /** The eight standard flags succeed, and the object is then given the
      default file as the place to save to. */
  lemma StandardArgumentsParse(c: Config, zone: string, domain: string, provider: string, ip: string,
                               home: string, fs: FileSystem)
    requires FlagKey(zone).None? && FlagKey(domain).None?
    requires FlagKey(provider).None? && FlagKey(ip).None?
    requires c.fileName.None?
    ensures ParseArguments(c, ["-i", zone, "-d", domain, "-p", provider, "-c", ip], home, fs) ==
      Returned(Parsed(Config(Some(DefaultPath(home)), Some(zone), Some(domain), Some(provider), Some(ip)), true))
  {
    StandardCommandLine(c, zone, domain, provider, ip);
  }

  /** A configuration read through `-cfg` is saved to the default path, not
      to the file it was read from. */
  lemma CfgFileSavedToDefaultPath(c: Config, f: string, home: string, fs: FileSystem)
    requires c.fileName.None?
    requires ParseInputFile(c, f, fs).Returned? && ParseInputFile(c, f, fs).value.ok
    ensures var r := ParseArguments(c, ["-cfg", f], home, fs);
      r.Returned? && r.value.ok && r.value.cfg.fileName == Some(DefaultPath(home))
  {
  }

  /** When only the default file succeeds the object keeps its missing file
      name, so the new baseline is never saved. */
  lemma DefaultFileNeverSaved(home: string, fs: FileSystem)
    ensures var r := ParseArguments(Empty, [], home, fs);
      r.Returned? ==> r.value.cfg.fileName.None? && UpdateInputFile(r.value.cfg).write.None?
  {
  }

  /** A first attempt that succeeds is kept: its settings stand, and the
      object is given the default path only when it had no file name. */
  lemma FirstSuccessKept(c: Config, args: seq<string>, home: string, fs: FileSystem, p: Config)
    requires (|args| == 8 && ParseInputParameters(c, args) == Returned(Parsed(p, true))) ||
             (|args| == 2 && args[0] == "-cfg" && ParseInputFile(c, args[1], fs) == Returned(Parsed(p, true)))
    ensures ParseArguments(c, args, home, fs) ==
      Returned(Parsed(p.(fileName := if c.fileName.None? then Some(DefaultPath(home)) else c.fileName), true))
  {
  }

  /** A `-cfg` file that leaves a required setting unset is not discarded:
      the default file is read on top of what it set. */
  lemma FailedCfgFileFallsBack(c: Config, f: string, home: string, fs: FileSystem, p: Config)
    requires ParseInputFile(c, f, fs) == Returned(Parsed(p, false))
    ensures ParseArguments(c, ["-cfg", f], home, fs) == ParseInputFile(p, DefaultPath(home), fs)
  {
  }

  /** An exception in the first attempt escapes before the default file is
      tried. */
  lemma FirstAttemptExceptionEscapes(c: Config, args: seq<string>, home: string, fs: FileSystem)
    requires (|args| == 8 && EndsWithFlag(args)) ||
             (|args| == 2 && args[0] == "-cfg" && args[1] in fs && HasBlankLine(ReadLines(fs[args[1]])))
    ensures ParseArguments(c, args, home, fs) ==
      Threw(if |args| == 8 then ArrayIndexOutOfBounds else StringIndexOutOfBounds)
  {
  }

  /** Flags that leave a setting unset are not discarded: the default file
      is read on top of what they set. */
  lemma PartialFlagsCompletedByDefaultFile(c: Config, args: seq<string>, home: string, fs: FileSystem, p: Config)
    requires |args| == 8 && ParseInputParameters(c, args) == Returned(Parsed(p, false))
    ensures ParseArguments(c, args, home, fs) == ParseInputFile(p, DefaultPath(home), fs)
  {
  }
}
