# ddns53 in Dafny

A model of the decision logic of ddns53, a dynamic-DNS client for AWS
Route53. Each run reads a configuration (hosted zone, record name, public-IP
service, last published IP), fetches the public IP, upserts the `A` record
when the IP changed, and saves the new baseline to a `key = value` file.

The Java sources hold the logic twice, and the model keeps both variants:

- `Ddns53` (module `Ddns53`) is the pessimistic reconciliation. The baseline
  is recorded only after Route53 accepted the upsert.
- `Ddns53App` (module `Ddns53App`) is the older static entry point. It
  writes the baseline before the upsert and rethrows a `Route53Exception`.
  Its `main` saves the file only after an update that returned 1.
- `Ddns53Config` (module `Ddns53Config`) is the mutable configuration
  object. It has a flag parser, a file parser, a file writer and the
  argument dispatch.

Shared pieces:

- `JavaLang`: null as `Option`; an escaping exception as `Outcome.Threw`.
- `JavaStrings`: `String.trim` (strips every char at or below U+0020) and
  `String.split` with a one-character pattern (leading empty pieces kept,
  trailing ones dropped).
- `TextFiles`: a file system as a map from path to text,
  `BufferedReader.readLine` splitting, and the writer's `"\n"` line ends.
- `ConfigRecord`: the five-field configuration and the four settings.
  A setting takes the value of its last binding, or keeps its earlier value.
- `ConfigFormat`: the line interpreter both file parsers share, and the
  four lines the writers emit.
- `CommandLine`: the flag scanner both argument parsers share.
- `Route53`: the change request and the effect of an accepted upsert.

Inputs the code gets from outside are parameters. The fetched IP is an
`Option<string>`: the raw response body, or null when fetching failed. The
Route53 answer is a `ProviderReply`. The file system is a map. The home
directory is a string.

The model follows the code where it departs from a clean
fetch-compare-upsert-commit design:

- The fetched body is not trimmed. `"1.2.3.4\n"` differs from a baseline
  `"1.2.3.4"`.
- A failed fetch does not stop the run. The pessimistic variant upserts a
  null value. The optimistic one throws a `NullPointerException` from
  `compareTo(null)` when a baseline is stored.
- The optimistic variant changes the baseline before Route53 answers.
- A blank line in the configuration file throws out of the parser, since
  only `IOException` is caught. Malformed lines are ignored rather than
  overwritten.

## Model

| member | source | states |
|---|---|---|
| `JavaStrings.TrimEmptyIff` | src/main/java/cc/yggdrasil/ddns53/Ddns53Config.java:71-72 | `trim()` yields the empty string exactly when every character is at or below U+0020, which is when `charAt(0)` throws |
| `JavaStrings.TrimIsUnpadded` | src/main/java/cc/yggdrasil/ddns53/Ddns53Config.java:71 | a trimmed string neither starts nor ends with a space and is no longer than the original |
| `JavaStrings.TrimOfPadded` | src/main/java/cc/yggdrasil/ddns53/Ddns53Config.java:78-79 | trimming a value padded with spaces on both sides returns exactly the value |
| `JavaStrings.TrimIdempotent` | src/main/java/cc/yggdrasil/ddns53/Ddns53Config.java:78-79 | trimming twice is trimming once |
| `JavaStrings.RawSplitJoins` | src/main/java/cc/yggdrasil/ddns53/Ddns53Config.java:76 | the raw split has one more piece than separators, no piece holds the separator, and joining the pieces gives back the line |
| `JavaStrings.SplitPairIff` | src/main/java/cc/yggdrasil/ddns53/Ddns53Config.java:76-77 | `split` gives exactly two pieces iff the second raw piece is non-empty and all later ones are empty; the two are then the first two raw pieces |
| `JavaStrings.SplitPair` | src/main/java/cc/yggdrasil/ddns53/Ddns53Config.java:76-77 | `a=b` with no `=` in `a` or `b` and `b` non-empty splits into `[a, b]` |
| `JavaStrings.RawSplitAfter` | src/main/java/cc/yggdrasil/ddns53/Ddns53Config.java:76 | the piece before the first separator is the first piece, the rest is split in turn |
| `TextFiles.ReadLines` | src/main/java/cc/yggdrasil/ddns53/Ddns53Config.java:69 | no line handed back by `readLine` contains a line terminator |
| `TextFiles.ReadWriteLines` | src/main/java/cc/yggdrasil/ddns53/Ddns53Config.java:118-123 | reading back lines written with `"\n"` after each returns the same lines, when none holds a terminator |
| `ConfigRecord.Set` | src/main/java/cc/yggdrasil/ddns53/Ddns53Config.java:81-89 | assigning a setting changes that setting only; the other settings and the file name stay |
| `ConfigRecord.KeyNamed` | src/main/java/cc/yggdrasil/ddns53/Ddns53Config.java:81-89 | a key selects a setting iff it is exactly that setting's name; any other key selects nothing |
| `ConfigRecord.SettingsDetermineConfig` | src/main/java/cc/yggdrasil/ddns53/Ddns53Config.java:9-14 | two configurations with the same file name and the same four settings are equal |
| `ConfigRecord.CompleteIff` | src/main/java/cc/yggdrasil/ddns53/Ddns53Config.java:43-46 | all four settings set means the three required ones plus the baseline |
| `ConfigRecord.LastOccurrenceWins` | src/main/java/cc/yggdrasil/ddns53/Ddns53Config.java:69-91 | a setting bound at position `i` and never after takes the value bound at `i` |
| `ConfigRecord.NoOccurrence` | src/main/java/cc/yggdrasil/ddns53/Ddns53Config.java:69-91 | a setting has no last binding iff nothing binds it |
| `ConfigRecord.SettingsFromBindings` | src/main/java/cc/yggdrasil/ddns53/Ddns53App.java:251-257 | a configuration built only from bindings is complete, or has the required settings, iff the bindings assign those settings |
| `ConfigFormat.ApplyLines` | src/main/java/cc/yggdrasil/ddns53/Ddns53Config.java:69-91 | the read loop throws `StringIndexOutOfBounds` iff some line is blank; otherwise each setting holds its last binding's value or keeps its old one, and the file name stays |
| `ConfigFormat.WrittenLinesInOrder` | src/main/java/cc/yggdrasil/ddns53/Ddns53Config.java:120-123 | the writer emits exactly four lines, zone_id, domain, ip_provider, current_ip, each `key = value`, a null value as `null` |
| `ConfigFormat.WrittenLineBinds` | src/main/java/cc/yggdrasil/ddns53/Ddns53Config.java:71-89 | a line `name = v` with a clean `v` is not blank and binds the setting `name` names to `v`, or nothing for an unknown name |
| `ConfigFormat.RenderedLineBinds` | src/main/java/cc/yggdrasil/ddns53/Ddns53Config.java:120-123 | each written line with a clean value reads back as the setting and value it was written from |
| `ConfigFormat.RenderedPairsApply` | src/main/java/cc/yggdrasil/ddns53/Ddns53Config.java:120-123 | reading written lines performs exactly the assignments they were written from, one line each |
| `ConfigFormat.RenderedSettingsReadBack` | src/main/java/cc/yggdrasil/ddns53/Ddns53Config.java:120-123 | writing, reading back and parsing a configuration sets every setting to the text written for it, into any configuration |
| `ConfigFormat.EmptyValueIgnored` | src/main/java/cc/yggdrasil/ddns53/Ddns53Config.java:76-77 | `k=` splits into one piece and is ignored |
| `ConfigFormat.TrailingSeparatorAccepted` | src/main/java/cc/yggdrasil/ddns53/Ddns53Config.java:76-89 | `k=v=` splits into `k` and `v` and binds `v` |
| `ConfigFormat.DoubledSeparatorIgnored` | src/main/java/cc/yggdrasil/ddns53/Ddns53Config.java:76-77 | `k==v` splits into three pieces and is ignored |
| `CommandLine.FlagKey` | src/main/java/cc/yggdrasil/ddns53/Ddns53Config.java:29-39 | `-i`, `-d`, `-p` and `-c` select zone, domain, provider and baseline; nothing else selects a setting |
| `CommandLine.ScanFlags` | src/main/java/cc/yggdrasil/ddns53/Ddns53Config.java:28-41 | the scan throws `ArrayIndexOutOfBounds` iff the last argument is a flag; otherwise each setting holds the token after its last flag or keeps its old value |
| `CommandLine.StandardCommandLine` | src/main/java/cc/yggdrasil/ddns53/Ddns53App.java:174-187 | `-i z -d d -p p -c ip` sets all four settings when no value reads as a flag |
| `Route53.UpsertA` | src/main/java/cc/yggdrasil/ddns53/Ddns53.java:137-161 | the request has one change: an UPSERT of the `A` record named by the domain in the configured zone, TTL 300, one record carrying the new IP |
| `Ddns53.UpdateRoute53Ip` | src/main/java/cc/yggdrasil/ddns53/Ddns53.java:133-181 | one upsert with the new IP is sent; the result is true iff Route53 accepted it; only then does the baseline become the new IP, and nothing else changes |
| `Ddns53.UpdateRoute53Record` | src/main/java/cc/yggdrasil/ddns53/Ddns53.java:47-79 | nothing is sent iff the baseline is set and equals the fetched text; otherwise one upsert of the fetched text; true iff sent and accepted; the baseline changes only then |
| `Ddns53.IdempotentAfterSuccess` | src/main/java/cc/yggdrasil/ddns53/Ddns53.java:63-74 | after a successful run, a second run with the same IP sends nothing and changes nothing |
| `Ddns53.RetriedAfterRejection` | src/main/java/cc/yggdrasil/ddns53/Ddns53.java:175-180 | a rejected upsert leaves the configuration as it was, so the next run sends the same request |
| `Ddns53.NullFetchIsUpserted` | src/main/java/cc/yggdrasil/ddns53/Ddns53.java:119-124 | a failed fetch is upserted as a null value, and an accepted one clears the baseline |
| `Ddns53.UntrimmedBodyIsAChange` | src/main/java/cc/yggdrasil/ddns53/Ddns53.java:63-64 | the baseline followed by a line break counts as a different IP |
| `Ddns53.ReconcileKeepsBaselineConsistent` | src/main/java/cc/yggdrasil/ddns53/Ddns53.java:164-174 | if the record held the stored baseline before, it still does afterwards, whatever the fetch and the answer |
| `Ddns53Config.ParseInputParameters` | src/main/java/cc/yggdrasil/ddns53/Ddns53Config.java:24-56 | throws iff the last argument is a flag; otherwise flags overwrite the object's settings, last one winning, and the result is true iff all four settings are set |
| `Ddns53Config.ParseInputFile` | src/main/java/cc/yggdrasil/ddns53/Ddns53Config.java:58-106 | a missing file changes nothing; a blank line throws; otherwise the last binding of each setting wins over its earlier value; true iff zone, domain and provider are set; the file name is never set |
| `Ddns53Config.UpdateInputFile` | src/main/java/cc/yggdrasil/ddns53/Ddns53Config.java:108-137 | without a file name nothing is written and the result is false; otherwise that file is replaced by the rendered lines and the result is true |
| `Ddns53Config.ParseArguments` | src/main/java/cc/yggdrasil/ddns53/Ddns53Config.java:139-163 | the result is true iff zone, domain and provider are set afterwards; the file name stays, or becomes the default path when it was null; only `ArrayIndexOutOfBounds` and `StringIndexOutOfBounds` escape, the latter also from a blank line in the default file; argument lists other than eight tokens or `-cfg file` go straight to the default file |
| `Ddns53Config.FirstSuccessKept` | src/main/java/cc/yggdrasil/ddns53/Ddns53Config.java:144-159 | a flag scan or `-cfg` file that succeeds is kept, and the object gets the default path only when it had no file name |
| `Ddns53Config.FailedCfgFileFallsBack` | src/main/java/cc/yggdrasil/ddns53/Ddns53Config.java:147-155 | a `-cfg` file without the required settings is followed by the default file, read on top of what it set |
| `Ddns53Config.FirstAttemptExceptionEscapes` | src/main/java/cc/yggdrasil/ddns53/Ddns53Config.java:144-150 | a flag in the last position, or a blank line in the `-cfg` file, escapes without the default file being read |
| `Ddns53Config.PartialFlagsCompletedByDefaultFile` | src/main/java/cc/yggdrasil/ddns53/Ddns53Config.java:144-155 | eight flags that leave a setting unset are followed by the default file, read on top of what the flags set |
| `Ddns53Config.PersistRoundTrip` | src/main/java/cc/yggdrasil/ddns53/Ddns53Config.java:120-123 | parsing the written file into any object sets the four settings to their written texts and succeeds, null being read back as `null` |
| `Ddns53Config.CompletePersistRoundTrip` | src/main/java/cc/yggdrasil/ddns53/Ddns53Config.java:108-137 | a complete configuration with clean values is read back exactly |
| `Ddns53Config.StandardArgumentsParse` | src/main/java/cc/yggdrasil/ddns53/Ddns53Config.java:143-159 | the eight standard flags succeed and the default path becomes the file name |
| `Ddns53Config.CfgFileSavedToDefaultPath` | src/main/java/cc/yggdrasil/ddns53/Ddns53Config.java:147-159 | a configuration read through `-cfg` gets the default path as its file name, not the file it came from |
| `Ddns53Config.DefaultFileNeverSaved` | src/main/java/cc/yggdrasil/ddns53/Ddns53Config.java:154-155 | a fresh object configured only from the default file has no file name, so nothing is saved |
| `Ddns53App.ParseInputParameters` | src/main/java/cc/yggdrasil/ddns53/Ddns53App.java:165-208 | throws iff the last argument is a flag; a configuration without file name comes back iff all four flags are bound, holding each flag's last value |
| `Ddns53App.ParseInputFile` | src/main/java/cc/yggdrasil/ddns53/Ddns53App.java:210-269 | a blank line throws; a configuration carrying the file name comes back iff the file exists and binds zone, domain and provider, each setting holding its last binding |
| `Ddns53App.ParseArguments` | src/main/java/cc/yggdrasil/ddns53/Ddns53App.java:271-294 | every configuration returned has a file name and the required settings; a configuration from the flags is given the default path, one from `-cfg` keeps its own; a null first attempt, or any other argument list, falls back to the default file; an exception in the first attempt escapes |
| `Ddns53App.UpdateInputFile` | src/main/java/cc/yggdrasil/ddns53/Ddns53App.java:296-323 | returns 0; writes nothing iff the file name is null, and otherwise the same file as the other writer |
| `Ddns53App.UpdateRoute53Ip` | src/main/java/cc/yggdrasil/ddns53/Ddns53App.java:114-163 | one upsert of the value in the baseline field; a rejection escapes as `Route53Failure` |
| `Ddns53App.UpdateRoute53Record` | src/main/java/cc/yggdrasil/ddns53/Ddns53App.java:52-78 | null or different baseline: baseline set to the fetched text first, that value upserted, result 1 or the exception; equal: 0 and nothing changes; failed fetch with a baseline: `NullPointer` and nothing sent |
| `Ddns53App.Main` | src/main/java/cc/yggdrasil/ddns53/Ddns53App.java:328-347 | at most one request, and none without a parsed configuration; a file is saved iff a configuration was parsed, its baseline is null or differs from the fetched IP, and Route53 accepted the upsert; the saved file is that configuration with the fetched IP as baseline; never when an exception ends the run |
| `Ddns53App.CfgFileKeepsItsName` | src/main/java/cc/yggdrasil/ddns53/Ddns53App.java:278-281 | a configuration read through `-cfg` keeps that file's name |
| `Ddns53App.VariantsAgreeOnAcceptance` | src/main/java/cc/yggdrasil/ddns53/Ddns53App.java:59-69 | unless the fetch failed with a baseline stored (where the optimistic variant throws before sending and the pessimistic one upserts null), both variants send the same requests, and on acceptance end with the same configuration, result 1 matching `true` |
| `Ddns53App.OptimisticBaselineRunsAhead` | src/main/java/cc/yggdrasil/ddns53/Ddns53App.java:65-67 | after a rejected upsert the object holds the new IP while the record still holds the old one |
| `Ddns53App.UpdateAndSave` | src/main/java/cc/yggdrasil/ddns53/Ddns53App.java:342-345 | after parsing: at most one request; the file is saved iff the configuration has a file name, its baseline is null or differs from the fetched text, and Route53 accepted the upsert of that text; what is saved is the configuration with the fetched text as baseline, written to its own file name |
| `Ddns53App.MainSavesAcceptedBaseline` | src/main/java/cc/yggdrasil/ddns53/Ddns53App.java:343-345 | for a configuration with a file name, the required settings and clean values, and a fetched IP that is clean, the file is saved iff the IP changed and Route53 accepted it, and the saved file reads back as the configuration with the new baseline |
| `Ddns53App.SavedConfigReadsBack` | src/main/java/cc/yggdrasil/ddns53/Ddns53App.java:296-323 | a complete configuration with clean values is read back from the file it is saved to |

## Left out

- Fetching the public IP (`getPublicIp`, `get_public_ip`): URL, User-Agent, timeout and charset are left out. The fetch is a parameter, the raw body or null.
- The Route53 client, its credentials and endpoint: the answer is a parameter. Only `Route53Exception` is modelled. Other SDK exceptions would escape both variants.
- `IOException` while writing the file is not modelled. The write always succeeds, so `Ddns53App.update_input_file` never returns -1 and `Ddns53Config.updateInputFile` never returns false with a file name.
- `IOException` while reading is modelled only as a missing file. Opening a path outside the file-system map fails and is caught. A read error part way through a file is left out.
- `Paths.get` rejecting a malformed path is left out.
- `System.getProperty("user.home")` is a parameter. Its null case would give the text `null/.aws/route53`.
- Logging, `printDetails`, `print_details` and `Date` are output only.
- `init`, `uninit` and the constructors only wire up the client.
- `Ddns53Application.java` is not part of this model. It is Spring wiring that calls methods the other files do not define.
- Ddns53Config.UpdateInputFile: states that the written text is the rendered lines; that those lines parse back is `Ddns53Config.PersistRoundTrip`, which needs clean values.
- Ddns53Config.ParseArguments: the contract states the success, file-name and exception rules and the default route; the other branches of the dispatch are stated by the lemmas `FirstSuccessKept`, `FailedCfgFileFallsBack`, `PartialFlagsCompletedByDefaultFile` and `FirstAttemptExceptionEscapes`.
- Ddns53App.Main: states when the file is saved and what is written, for every input; that the written file reads back is stated only for clean values, by `Ddns53App.MainSavesAcceptedBaseline`.
- The file's character encoding: both parsers and both writers use the platform's default charset. The model treats the file as characters, and every read-back lemma requires clean values, which includes ASCII only. A value with characters the default charset cannot encode may be written as `?` and is not claimed to read back.
- A parse that throws part way leaves the Java object partly updated. The model drops that state, since the exception ends the program.
