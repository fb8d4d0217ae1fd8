/** The `key = value` configuration file: how one line is interpreted, how a
    whole file updates a configuration, and the four lines that are written
    back. `Ddns53Config.parseInputFile` and `Ddns53App.parse_input_file`
    run the same line loop; it is defined here once. */
module ConfigFormat {
  import opened JavaLang
  import opened JavaStrings
  import opened TextFiles
  import opened ConfigRecord

  /** A line that trims to nothing: `charAt(0)` then throws. */
  predicate IsBlank(line: string)
  {
    Trim(line) == []
  }

  predicate HasBlankLine(lines: seq<string>)
  {
    exists i :: 0 <= i < |lines| && IsBlank(lines[i])
  }

  /** The setting a line assigns, if any. A line whose trimmed text starts
      with `#` is a comment; otherwise it must split on `=` into exactly two
      pieces, and the trimmed first piece must be one of the four key names.
      The value is the trimmed second piece. */
  function LineBinding(line: string): Option<(Key, string)>
  {
    var t := Trim(line);
    if t == [] || t[0] == '#' then None
    else
      var parts := Split(t, '=');
      if |parts| != 2 then None
      else
        match KeyNamed(Trim(parts[0]))
        case None => None
        case Some(k) => Some((k, Trim(parts[1])))
  }

  /** One turn of the read loop. */
  function ApplyLine(c: Config, line: string): Outcome<Config>
  {
    if IsBlank(line) then Threw(StringIndexOutOfBounds)
    else
      match LineBinding(line)
      case None => Returned(c)
      case Some((k, v)) => Returned(Set(c, k, v))
  }

  /** What each line of a file assigns, in file order. */
  function Bindings(lines: seq<string>): (bs: seq<Option<(Key, string)>>)
  {
    seq(|lines|, i requires 0 <= i < |lines| => LineBinding(lines[i]))
  }

  /** The whole read loop, line by line from the first. It throws exactly
      when some line is blank; otherwise each setting holds the value of the
      last line that binds it, or keeps its earlier value when none does. */
  function ApplyLines(c: Config, lines: seq<string>): (r: Outcome<Config>)
    ensures r.Threw? <==> HasBlankLine(lines)
    ensures r.Threw? ==> r.exception == StringIndexOutOfBounds
    ensures r.Returned? ==> r.value.fileName == c.fileName
    ensures r.Returned? ==> forall k :: Get(r.value, k) == LastBound(Bindings(lines), k).Or(Get(c, k))
    decreases |lines|
  {
    if lines == [] then Returned(c)
    else
      var prefix := lines[..|lines| - 1];
      var last := lines[|lines| - 1];
      BindingsPrefix(lines);
      BlankLineSplit(lines);
      match ApplyLines(c, prefix)
      case Threw(e) => Threw(e)
      case Returned(c1) => ApplyLine(c1, last)
  }

  /** The bindings of all lines but the last are the bindings of that
      prefix. */
  lemma BindingsPrefix(lines: seq<string>)
    requires lines != []
    ensures Bindings(lines)[..|lines| - 1] == Bindings(lines[..|lines| - 1])
  {
    var prefix := lines[..|lines| - 1];
    assert forall i :: 0 <= i < |prefix| ==> prefix[i] == lines[i];
  }

  /** A file has a blank line iff its last line is blank or an earlier one
      is. */
  lemma BlankLineSplit(lines: seq<string>)
    requires lines != []
    ensures HasBlankLine(lines) <==> HasBlankLine(lines[..|lines| - 1]) || IsBlank(lines[|lines| - 1])
  {
    var prefix := lines[..|lines| - 1];
    if HasBlankLine(lines) {
      var i :| 0 <= i < |lines| && IsBlank(lines[i]);
      if i < |prefix| {
        assert prefix[i] == lines[i];
      }
    }
    if HasBlankLine(prefix) {
      var i :| 0 <= i < |prefix| && IsBlank(prefix[i]);
      assert lines[i] == prefix[i];
    }
  }

  /** A value that survives being written and read back: non-empty, no
      surrounding spaces, no `=` and no line terminator, and ASCII only,
      since the file is encoded in the platform's default charset, which
      may have no code for other characters. */
  predicate Clean(v: string)
  {
    v != [] && Unpadded(v) && '=' !in v && NoTerminator(v) && IsAscii(v)
  }

  predicate IsAscii(v: string)
  {
    forall k :: 0 <= k < |v| ==> v[k] as int < 128
  }

  /** The line written for one setting; Java's concatenation writes a null
      value as the text `null`. */
  function RenderLine(k: Key, text: string): string
  {
    KeyName(k) + " = " + text
  }

  /** The settings written back, in file order: zone_id, domain,
      ip_provider, current_ip. */
  function Written(c: Config): seq<(Key, string)>
  {
    [(ZoneId, StringOf(c.hostedZoneId)),
     (Domain, StringOf(c.domainName)),
     (IpProvider, StringOf(c.ipProvider)),
     (CurrentIp, StringOf(c.currentIP))]
  }

  /** One `key = value` line per pair. */
  function RenderAll(ps: seq<(Key, string)>): seq<string>
    decreases |ps|
  {
    if ps == [] then []
    else RenderAll(ps[..|ps| - 1]) + [RenderLine(ps[|ps| - 1].0, ps[|ps| - 1].1)]
  }

  /** The file contents written back for a configuration. */
  function RenderLines(c: Config): seq<string>
  {
    RenderAll(Written(c))
  }

  /** The writer emits exactly four lines, in the order zone_id, domain,
      ip_provider, current_ip, each the key, ` = ` and the value's text. */
  lemma WrittenLinesInOrder(c: Config)
    ensures RenderLines(c) ==
      ["zone_id = " + StringOf(c.hostedZoneId),
       "domain = " + StringOf(c.domainName),
       "ip_provider = " + StringOf(c.ipProvider),
       "current_ip = " + StringOf(c.currentIP)]
  {
    var ps := Written(c);
    assert ps[..1] == [ps[0]] && ps[..1][..0] == [];
    assert ps[..2][..1] == ps[..1] && ps[..3][..2] == ps[..2] && ps[..|ps| - 1] == ps[..3];
    assert RenderAll(ps[..1]) == [RenderLine(ZoneId, StringOf(c.hostedZoneId))];
    assert RenderAll(ps[..2]) == RenderAll(ps[..1]) + [RenderLine(Domain, StringOf(c.domainName))];
    assert RenderAll(ps[..3]) == RenderAll(ps[..2]) + [RenderLine(IpProvider, StringOf(c.ipProvider))];
    assert RenderAll(ps) == RenderAll(ps[..3]) + [RenderLine(CurrentIp, StringOf(c.currentIP))];
    assert RenderLine(ZoneId, StringOf(c.hostedZoneId)) == "zone_id = " + StringOf(c.hostedZoneId);
    assert RenderLine(Domain, StringOf(c.domainName)) == "domain = " + StringOf(c.domainName);
    assert RenderLine(IpProvider, StringOf(c.ipProvider)) == "ip_provider = " + StringOf(c.ipProvider);
    assert RenderLine(CurrentIp, StringOf(c.currentIP)) == "current_ip = " + StringOf(c.currentIP);
  }

  /** Assigns the pairs in order. */
  function SetAll(c: Config, ps: seq<(Key, string)>): Config
    decreases |ps|
  {
    if ps == [] then c
    else Set(SetAll(c, ps[..|ps| - 1]), ps[|ps| - 1].0, ps[|ps| - 1].1)
  }

  /** A key name as the writer uses it. */
  predicate KeyShaped(name: string)
  {
    name != [] && Unpadded(name) && name[0] != '#' && '=' !in name && NoTerminator(name)
  }

  lemma KeyNameShape(k: Key)
    ensures KeyShaped(KeyName(k))
  {
  }

  lemma WrittenLineTrims(name: string, v: string)
    requires KeyShaped(name) && Clean(v)
    ensures Trim(name + " = " + v) == name + " = " + v
  {
    var line := name + " = " + v;
    assert line[0] == name[0];
    assert line[|line| - 1] == v[|v| - 1];
    assert [] + line + [] == line;
    TrimOfPadded([], line, []);
  }

  lemma WrittenLineHasNoTerminator(name: string, v: string)
    requires KeyShaped(name) && Clean(v)
    ensures NoTerminator(name + " = " + v)
  {
    var line := name + " = " + v;
    forall i | 0 <= i < |line|
      ensures !IsTerminator(line[i])
    {
      if i < |name| {
        assert line[i] == name[i];
      } else if i >= |name| + 3 {
        assert line[i] == v[i - |name| - 3];
      }
    }
  }

  lemma WrittenLineSplits(name: string, v: string)
    requires KeyShaped(name) && Clean(v)
    ensures Split(name + " = " + v, '=') == [name + " ", " " + v]
  {
    assert name + " = " + v == (name + " ") + ['='] + (" " + v);
    SplitPair(name + " ", " " + v, '=');
  }

  lemma WrittenPiecesTrim(name: string, v: string)
    requires KeyShaped(name) && Clean(v)
    ensures Trim(name + " ") == name
    ensures Trim(" " + v) == v
  {
    assert [] + name + " " == name + " ";
    TrimOfPadded([], name, " ");
    assert " " + v + [] == " " + v;
    TrimOfPadded(" ", v, []);
  }

  /** A line `name = v` binds the setting `name` names to `v`, provided the
      value is clean. */
  lemma WrittenLineBinds(name: string, v: string)
    requires KeyShaped(name) && Clean(v)
    ensures !IsBlank(name + " = " + v)
    ensures LineBinding(name + " = " + v) ==
      (match KeyNamed(name) case None => None case Some(k) => Some((k, v)))
  {
    WrittenLineTrims(name, v);
    WrittenLineSplits(name, v);
    WrittenPiecesTrim(name, v);
  }

  /** A written line is read back as the setting and value it was written
      from, as long as the value is clean. */
  lemma RenderedLineBinds(k: Key, v: string)
    requires Clean(v)
    ensures !IsBlank(RenderLine(k, v))
    ensures NoTerminator(RenderLine(k, v))
    ensures LineBinding(RenderLine(k, v)) == Some((k, v))
  {
    KeyNameShape(k);
    WrittenLineBinds(KeyName(k), v);
    WrittenLineHasNoTerminator(KeyName(k), v);
  }

  /** Reading rendered lines performs exactly the assignments they were
      rendered from, one line per pair, provided every value is clean. */
  lemma {:induction false} RenderedPairsApply(c: Config, ps: seq<(Key, string)>)
    requires forall i :: 0 <= i < |ps| ==> Clean(ps[i].1)
    ensures |RenderAll(ps)| == |ps|
    ensures forall i :: 0 <= i < |ps| ==> NoTerminator(RenderAll(ps)[i])
    ensures ApplyLines(c, RenderAll(ps)) == Returned(SetAll(c, ps))
    decreases |ps|
  {
    if ps != [] {
      var pre := ps[..|ps| - 1];
      var (k, v) := ps[|ps| - 1];
      RenderedPairsApply(c, pre);
      RenderedLineBinds(k, v);
      var lines := RenderAll(ps);
      assert lines == RenderAll(pre) + [RenderLine(k, v)];
      assert lines[..|lines| - 1] == RenderAll(pre);
    }
  }

  /** Writing a configuration and reading the file back sets every setting
      to the text that was written for it, whatever the configuration it is
      read into, provided each written text is clean. */
  lemma RenderedSettingsReadBack(c: Config, base: Config)
    requires forall k :: Clean(StringOf(Get(c, k)))
    ensures ApplyLines(base, ReadLines(WriteLines(RenderLines(c)))) ==
      Returned(Config(base.fileName,
                      Some(StringOf(c.hostedZoneId)),
                      Some(StringOf(c.domainName)),
                      Some(StringOf(c.ipProvider)),
                      Some(StringOf(c.currentIP))))
  {
    var ps := Written(c);
    assert Clean(StringOf(Get(c, ZoneId))) && Clean(StringOf(Get(c, Domain)));
    assert Clean(StringOf(Get(c, IpProvider))) && Clean(StringOf(Get(c, CurrentIp)));
    RenderedPairsApply(base, ps);
    ReadWriteLines(RenderAll(ps));
    SetAllWritten(c, base);
  }

  lemma SetAllWritten(c: Config, base: Config)
    ensures SetAll(base, Written(c)) ==
      Config(base.fileName,
             Some(StringOf(c.hostedZoneId)),
             Some(StringOf(c.domainName)),
             Some(StringOf(c.ipProvider)),
             Some(StringOf(c.currentIP)))
  {
    var ps := Written(c);
    assert ps[..1] == [ps[0]] && ps[..1][..0] == [];
    assert ps[..2][..1] == ps[..1] && ps[..3][..2] == ps[..2] && ps[..|ps| - 1] == ps[..3];
    assert ps[0] == (ZoneId, StringOf(c.hostedZoneId));
    assert SetAll(base, ps[..1][..0]) == base;
    var c1 := SetAll(base, ps[..1]);
    assert c1 == Set(SetAll(base, ps[..1][..0]), ps[..1][0].0, ps[..1][0].1);
    assert c1 == Set(base, ZoneId, StringOf(c.hostedZoneId));
    var c2 := SetAll(base, ps[..2]);
    assert c2 == Set(c1, Domain, StringOf(c.domainName));
    var c3 := SetAll(base, ps[..3]);
    assert c3 == Set(c2, IpProvider, StringOf(c.ipProvider));
  }

  lemma KeyOnlySplits(name: string)
    requires KeyShaped(name)
    ensures Split(name + "=", '=') == [name]
  {
    var line := name + "=";
    assert line == name + ['='] + [];
    RawSplitAfter(name, [], '=');
    assert RawSplit(line, '=') == [name, []];
    assert [name, []][..1] == [name];
    assert DropTrailingEmpty([name]) == [name];
    assert DropTrailingEmpty([name, []]) == DropTrailingEmpty([name]);
    assert '=' in line;
  }

  lemma TrailingSeparatorSplits(name: string, v: string)
    requires KeyShaped(name) && Clean(v)
    ensures Split(name + "=" + v + "=", '=') == [name, v]
  {
    var line := name + "=" + v + "=";
    assert line == name + ['='] + (v + ['='] + []);
    RawSplitAfter(name, v + ['='] + [], '=');
    RawSplitAfter(v, [], '=');
    assert RawSplit(line, '=') == [name, v, []];
    assert [name, v, []][..2] == [name, v];
    assert DropTrailingEmpty([name, v]) == [name, v];
    assert DropTrailingEmpty([name, v, []]) == DropTrailingEmpty([name, v]);
    assert '=' in line;
  }

  lemma DoubledSeparatorSplits(name: string, v: string)
    requires KeyShaped(name) && Clean(v)
    ensures Split(name + "==" + v, '=') == [name, [], v]
  {
    var line := name + "==" + v;
    assert line == name + ['='] + ([] + ['='] + v);
    RawSplitAfter(name, [] + ['='] + v, '=');
    RawSplitAfter([], v, '=');
    assert RawSplit(line, '=') == [name, [], v];
    assert '=' in line;
  }

  /** `name=` with nothing after the separator splits into one piece, since
      `split` drops the trailing empty piece, so the line is ignored. */
  lemma EmptyValueIgnored(name: string)
    requires KeyShaped(name)
    ensures !IsBlank(name + "=") && LineBinding(name + "=") == None
  {
    var line := name + "=";
    assert line[0] == name[0] && line[|line| - 1] == '=';
    TrimUnpadded(line);
    KeyOnlySplits(name);
  }

  /** `name=v=` splits into `name` and `v`, the trailing empty piece being
      dropped, so it binds `v`. */
  lemma TrailingSeparatorAccepted(name: string, v: string)
    requires KeyShaped(name) && Clean(v)
    ensures !IsBlank(name + "=" + v + "=")
    ensures LineBinding(name + "=" + v + "=") ==
      (match KeyNamed(name) case None => None case Some(k) => Some((k, v)))
  {
    var line := name + "=" + v + "=";
    assert line[0] == name[0] && line[|line| - 1] == '=';
    TrimUnpadded(line);
    TrailingSeparatorSplits(name, v);
    TrimUnpadded(name);
    TrimUnpadded(v);
  }

  /** `name==v` splits into three pieces, the middle one empty, so the line
      is ignored. */
  lemma DoubledSeparatorIgnored(name: string, v: string)
    requires KeyShaped(name) && Clean(v)
    ensures !IsBlank(name + "==" + v) && LineBinding(name + "==" + v) == None
  {
    var line := name + "==" + v;
    assert line[0] == name[0] && line[|line| - 1] == v[|v| - 1];
    TrimUnpadded(line);
    DoubledSeparatorSplits(name, v);
  }
}
