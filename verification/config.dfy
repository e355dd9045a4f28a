/**
 Where the settings commands read and write the configuration file.

 The desktop app (`apps/main`) strips one `.json` or `.toml` suffix from the
 requested name, reads `<base>.toml` when it exists and otherwise
 `<base>.json`, and always writes `<base>.toml`. The legacy app
 (`src-tauri`) uses the requested name verbatim for both.

 The filesystem is a predicate telling which names exist in the
 configuration directory; the contents, and the TOML and JSON conversions,
 are not part of this model.
 */
module Config {
  import opened Wrappers
  import opened Text

  /** `s.strip_suffix(suffix)`. */
  function StripSuffix(s: string, suffix: string): (r: Option<string>)
    ensures r.Some? <==> EndsWith(s, suffix)
    ensures r.Some? ==> s == r.value + suffix
  {
    if EndsWith(s, suffix) then
      assert s == s[..|s| - |suffix|] + s[|s| - |suffix|..];
      Some(s[..|s| - |suffix|])
    else None
  }

  /**
   The base name: one trailing `.json` removed, else one trailing `.toml`,
   else the name unchanged.
   */
  function BaseName(filename: string): (base: string)
    ensures EndsWith(filename, ".json") ==> filename == base + ".json"
    ensures !EndsWith(filename, ".json") && EndsWith(filename, ".toml") ==> filename == base + ".toml"
    ensures !EndsWith(filename, ".json") && !EndsWith(filename, ".toml") ==> base == filename
  {
    match StripSuffix(filename, ".json")
    case Some(b) => b
    case None => StripSuffix(filename, ".toml").GetOr(filename)
  }

  lemma EndsWithAppend(b: string, suffix: string)
    ensures EndsWith(b + suffix, suffix)
  {
    assert (b + suffix)[|b|..] == suffix;
  }

  /** Adding either suffix and taking the base name gives the name back. */
  lemma BaseNameOfSuffixed(b: string)
    ensures BaseName(b + ".json") == b
    ensures BaseName(b + ".toml") == b
  {
    EndsWithAppend(b, ".json");
    EndsWithAppend(b, ".toml");
    var t := b + ".toml";
    assert t[|t| - 1] == 'l';
    assert !EndsWith(t, ".json");
    assert BaseName(t) + ".toml" == b + ".toml";
  }

  /** At most one suffix is removed: `a.toml.json` becomes `a.toml`. */
  lemma BaseNameOneSuffix(b: string)
    ensures BaseName(b + ".toml.json") == b + ".toml"
    ensures BaseName(b + ".json.toml") == b + ".json"
  {
    BaseNameTomlJson(b);
    BaseNameJsonToml(b);
  }

  lemma BaseNameTomlJson(b: string)
    ensures BaseName(b + ".toml.json") == b + ".toml"
  {
    var t := b + ".toml";
    assert b + ".toml.json" == t + ".json" by {
      SuffixesJoin();
      assert t + ".json" == b + (".toml" + ".json");
    }
    BaseNameOfSuffixed(t);
  }

  lemma BaseNameJsonToml(b: string)
    ensures BaseName(b + ".json.toml") == b + ".json"
  {
    var j := b + ".json";
    assert b + ".json.toml" == j + ".toml" by {
      SuffixesJoin();
      assert j + ".toml" == b + (".json" + ".toml");
    }
    BaseNameOfSuffixed(j);
  }

  lemma SuffixesJoin()
    ensures ".toml" + ".json" == ".toml.json"
    ensures ".json" + ".toml" == ".json.toml"
  {
  }

  /** Which file `read_config` reads. */
  datatype ReadPlan = ReadToml(file: string) | ReadJson(file: string)

  /**
   `read_config` in the desktop app: `<base>.toml` when it exists, else
   `<base>.json` when that exists, else an error naming `<base>.toml`.
   */
  function ReadConfig(filename: string, present: string -> bool): (r: Result<ReadPlan>)
    ensures var base := BaseName(filename);
      && (present(base + ".toml") ==> r == Ok(ReadToml(base + ".toml")))
      && (!present(base + ".toml") && present(base + ".json") ==> r == Ok(ReadJson(base + ".json")))
      && (r.Err? <==> !present(base + ".toml") && !present(base + ".json"))
      && (r.Err? ==> r.error == "Config file " + base + ".toml does not exist")
  {
    var base := BaseName(filename);
    if present(base + ".toml") then Ok(ReadToml(base + ".toml"))
    else if present(base + ".json") then Ok(ReadJson(base + ".json"))
    else Err("Config file " + base + ".toml does not exist")
  }

  /** `write_config` in the desktop app always writes `<base>.toml`. */
  function WriteTarget(filename: string): (file: string)
    ensures EndsWith(file, ".toml")
    ensures BaseName(file) == BaseName(filename)
  {
    EndsWithAppend(BaseName(filename), ".toml");
    BaseNameOfSuffixed(BaseName(filename));
    BaseName(filename) + ".toml"
  }

  /** The filesystem after writing `file`. */
  function Written(present: string -> bool, file: string): string -> bool {
    f => f == file || present(f)
  }

  /**
   After a write, a read under any name with the same base finds the TOML
   file just written, even when an older JSON file is still there.
   */
  lemma WriteThenRead(written: string, read: string, present: string -> bool)
    requires BaseName(written) == BaseName(read)
    ensures ReadConfig(read, Written(present, WriteTarget(written))) == Ok(ReadToml(WriteTarget(written)))
  {
  }

  /** `read_config` in the legacy app: the name verbatim, or an error when it does not exist. */
  function LegacyReadConfig(filename: string, present: string -> bool): (r: Result<string>)
    ensures r.Ok? <==> present(filename)
    ensures r.Ok? ==> r.value == filename
    ensures r.Err? ==> r.error == "Config file does not exist"
  {
    if !present(filename) then Err("Config file does not exist") else Ok(filename)
  }

  /** `write_config` in the legacy app writes the name verbatim. */
  function LegacyWriteTarget(filename: string): string {
    filename
  }

  /** In the legacy app a read finds exactly the file a write under the same name produced. */
  lemma LegacyWriteThenRead(filename: string, other: string, present: string -> bool)
    ensures LegacyReadConfig(filename, Written(present, LegacyWriteTarget(filename))) == Ok(filename)
    ensures other != filename && !present(other) ==>
      LegacyReadConfig(other, Written(present, LegacyWriteTarget(filename))).Err?
  {
  }

  /**
   The two apps disagree on a settings file kept only as TOML: the desktop
   app reads it under its JSON name, the legacy app reports it missing.
   */
  lemma AppsDisagreeOnToml(base: string, present: string -> bool)
    requires present(base + ".toml") && !present(base + ".json")
    ensures ReadConfig(base + ".json", present) == Ok(ReadToml(base + ".toml"))
    ensures LegacyReadConfig(base + ".json", present).Err?
  {
    BaseNameOfSuffixed(base);
  }
}
