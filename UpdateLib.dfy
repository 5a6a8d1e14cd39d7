/** The shared machinery of the three renaming steps: which environment variables and file names
    each step reads and writes, how a path is joined, how the previous step's results are found,
    and how a step's result dictionary is assembled and written.

    The process environment is a map; the storage backend is the map from existing paths to their
    text; `loads` is `json.loads` on a text (`None` when it raises). The clock is the two strings
    the step renders it as: `runDate` (`now.isoformat()`) and `stamp` (`now.strftime(...)`). */
module UpdateLib {
  import opened Py
  import Strings
  import Seqs

  const XproResultJsonFilenameBase := "xpro_username_changes"
  const EdxResultJsonFilenameBase := "edx_username_changes"
  const ForumResultJsonFilenameBase := "edx_forum_username_changes"

  /** `ResultFileSettings`: the variables naming the previous step's result (file or raw JSON), the
      previous step's file name base, and this step's file name base. */
  datatype ResultFileSettings = ResultFileSettings(
    inputFilenameEnv: Option<string>,
    inputJsonEnv: Option<string>,
    inputFilenameBase: Option<string>,
    outputFilenameBase: string)

  function XproSettings(): ResultFileSettings {
    ResultFileSettings(None, None, None, XproResultJsonFilenameBase)
  }

  function EdxSettings(): ResultFileSettings {
    ResultFileSettings(Some("XPRO_RESULT_JSON_FILENAME"), Some("XPRO_RESULT_JSON_VALUE"),
      Some(XproResultJsonFilenameBase), EdxResultJsonFilenameBase)
  }

  function ForumSettings(): ResultFileSettings {
    ResultFileSettings(Some("EDX_RESULT_JSON_FILENAME"), Some("EDX_RESULT_JSON_VALUE"),
      Some(EdxResultJsonFilenameBase), ForumResultJsonFilenameBase)
  }

  /** The steps form a chain: xPro reads nothing, and each later step names the previous step's
      output as its input; only the later steps read a previous result. */
  lemma SettingsChain()
    ensures XproSettings().inputFilenameEnv.None? && XproSettings().inputJsonEnv.None?
    ensures EdxSettings().inputFilenameBase == Some(XproSettings().outputFilenameBase)
    ensures ForumSettings().inputFilenameBase == Some(EdxSettings().outputFilenameBase)
    ensures SomeNonEmpty(EdxSettings().inputFilenameEnv) && SomeNonEmpty(ForumSettings().inputFilenameEnv)
    ensures EdxSettings().inputFilenameEnv != EdxSettings().inputJsonEnv
    ensures ForumSettings().inputFilenameEnv != ForumSettings().inputJsonEnv
  {
  }

  /** The module-level settings read from the environment at import time. */
  datatype Config = Config(resultDir: string, skipWrite: Option<string>, usernamesToRegenerate: string)

  function LoadConfig(env: map<string, string>): (r: Config)
    ensures r.resultDir == if "RESULT_JSON_DIR_PATH" in env then env["RESULT_JSON_DIR_PATH"] else "."
    ensures r.skipWrite.Some? <==> "SKIP_USERNAME_JSON_FILE_WRITE" in env
    ensures r.skipWrite.Some? ==> r.skipWrite.value == env["SKIP_USERNAME_JSON_FILE_WRITE"]
    ensures r.usernamesToRegenerate == if "USERNAMES_TO_REGENERATE" in env then env["USERNAMES_TO_REGENERATE"] else ""
  {
    Config(
      GetEnv(env, "RESULT_JSON_DIR_PATH", Some(".")).value,
      GetEnv(env, "SKIP_USERNAME_JSON_FILE_WRITE", None),
      GetEnv(env, "USERNAMES_TO_REGENERATE", Some("")).value)
  }

  function StripSlashes(part: string): string {
    Strings.Strip(part, '/')
  }

  /** `join_path(*parts)`: strip every `/` off both ends of each part, then join with `/`. The
      path starts with the first stripped part and ends with the last; a single part is only
      stripped. */
  function JoinPath(parts: seq<string>): (r: string)
    ensures parts == [] ==> r == ""
    ensures |parts| == 1 ==> r == StripSlashes(parts[0])
    ensures |parts| >= 1 ==> StripSlashes(parts[0]) <= r
    ensures |parts| >= 1 ==> var last := StripSlashes(parts[|parts| - 1]);
      |last| <= |r| && r[|r| - |last|..] == last
  {
    var stripped := Seqs.Map(parts, StripSlashes);
    if |parts| >= 1 then Strings.JoinEnds(stripped, '/'); Strings.Join(stripped, '/')
    else Strings.Join(stripped, '/')
  }

  /** When no stripped part has an inner `/`, the segments of the joined path are exactly the
      stripped parts, so there are as many segments as parts. */
  lemma JoinPathSegments(parts: seq<string>)
    requires |parts| >= 1
    requires forall k :: 0 <= k < |parts| ==> '/' !in StripSlashes(parts[k])
    ensures Strings.Split(JoinPath(parts), '/') == Seqs.Map(parts, StripSlashes)
    ensures |Strings.Split(JoinPath(parts), '/')| == |parts|
  {
    Strings.SplitJoin(Seqs.Map(parts, StripSlashes), '/');
  }

  /** A joined path begins and ends without `/` when its first and last parts do not strip to
      nothing. */
  lemma JoinPathEnds(parts: seq<string>)
    requires |parts| >= 1
    requires StripSlashes(parts[0]) != [] && StripSlashes(parts[|parts| - 1]) != []
    ensures var r := JoinPath(parts); r != [] && r[0] != '/' && r[|r| - 1] != '/'
  {
    var stripped := Seqs.Map(parts, StripSlashes);
    Strings.StripShape(parts[0], '/');
    Strings.StripShape(parts[|parts| - 1], '/');
    Strings.JoinFirst(stripped, '/');
    Strings.JoinLast(stripped, '/');
  }

  /** A single part is only stripped; a part without `/` at either end is returned unchanged. */
  lemma JoinPathSingle(part: string)
    ensures JoinPath([part]) == StripSlashes(part)
    ensures part == [] || (part[0] != '/' && part[|part| - 1] != '/') ==> JoinPath([part]) == part
  {
    if part == [] || (part[0] != '/' && part[|part| - 1] != '/') {
      Strings.StripStripped(part, '/');
    }
  }

  /** Two parts: the directory, stripped, and the name, stripped, with one `/` between them. */
  lemma JoinPathTwo(dir: string, name: string)
    ensures JoinPath([dir, name]) == StripSlashes(dir) + "/" + StripSlashes(name)
  {
    var stripped := Seqs.Map([dir, name], StripSlashes);
    assert stripped == [StripSlashes(dir), StripSlashes(name)];
    assert stripped[1..] == [StripSlashes(name)];
    assert Strings.Join(stripped[1..], '/') == StripSlashes(name);
    assert Strings.Join(stripped, '/') == stripped[0] + ['/'] + Strings.Join(stripped[1..], '/');
  }

  /** A text read from storage, parsed. */
  function LoadText(text: string, loads: string -> Option<Json>): Result<Json> {
    match loads(text)
    case Some(j) => Ok(j)
    case None => Err(JsonDecodeError(text))
  }

  /** `json.loads(os.getenv(input_json_env, "{}"))`. Looking up an unset setting (`None`) raises. */
  function RawJson(settings: ResultFileSettings, env: map<string, string>, loads: string -> Option<Json>): Result<Json> {
    match settings.inputJsonEnv
    case None => Err(TypeError("str expected, not NoneType"))
    case Some(name) => if name in env then LoadText(env[name], loads) else Ok(JObject(map[]))
  }

  /** The raw value, or its `"results"` portion when that portion exists and contains
      `"updated"`, with Python's `in` and `[...]` on whatever the value is. */
  function ResultsPortion(value: Json): (r: Result<Json>)
    ensures r.Err? ==> r.error.TypeError?
    ensures r.Err? <==>
      || !(value.JObject? || value.JArray? || value.JString?)
      || (Contains("results", value) == Ok(true) && !value.JObject?)
      || (value.JObject? && "results" in value.fields
          && !(value.fields["results"].JObject? || value.fields["results"].JArray? || value.fields["results"].JString?))
    ensures r.Ok? ==> r.value == value || (value.JObject? && "results" in value.fields && r.value == value.fields["results"])
    ensures value.JObject? && "results" !in value.fields ==> r == Ok(value)
    ensures value.JObject? && "results" in value.fields && value.fields["results"].JObject? ==>
      r == Ok(if "updated" in value.fields["results"].fields then value.fields["results"] else value)
  {
    var hasResults :- Contains("results", value);
    if !hasResults then Ok(value)
    else
      var results :- Subscript(value, "results");
      var hasUpdated :- Contains("updated", results);
      Ok(if hasUpdated then results else value)
  }

  /** The paths tried for a result file name, in order. */
  function CandidatePaths(resultDir: string, filename: string): seq<string> {
    [filename, JoinPath([resultDir, filename]), JoinPath([resultDir, filename + ".json"])]
  }

  /** The position of the first existing path, or `|paths|` when none exists. */
  function FirstExisting(paths: seq<string>, files: map<string, string>): (k: nat)
    ensures k <= |paths|
    ensures forall j :: 0 <= j < k ==> paths[j] !in files
    ensures k < |paths| ==> paths[k] in files
    decreases |paths|
  {
    if paths == [] then 0
    else if paths[0] in files then 0
    else 1 + FirstExisting(paths[1..], files)
  }

  /** What `get_previous_result_data` returns or raises, case by case: a set file name wins and
      is looked up at the candidate paths; otherwise a raw JSON value must be set and truthy. */
  function PreviousResultData(settings: ResultFileSettings, config: Config, env: map<string, string>,
                              files: map<string, string>, loads: string -> Option<Json>): Result<Json>
  {
    if settings.inputFilenameEnv.None? then Err(TypeError("str expected, not NoneType"))
    else
      var filenameVar := settings.inputFilenameEnv.value;
      var filename := GetEnv(env, filenameVar, None);
      if SomeNonEmpty(filename) then
        var paths := CandidatePaths(config.resultDir, filename.value);
        var k := FirstExisting(paths, files);
        if k < |paths| then LoadText(files[paths[k]], loads)
        else Err(ImproperlyConfigured(ResultFileNotFound(paths, filenameVar, filename.value)))
      else
        var value :- RawJson(settings, env, loads);
        if !Truthy(value) then Err(ImproperlyConfigured(NoPreviousResult(filenameVar, settings.inputJsonEnv.value)))
        else ResultsPortion(value)
  }

  /** `Updater.get_previous_result_data`, statement by statement: the value forced to `{}` when a
      file name is set, the configuration check, the raw-value return, and the loop over the
      candidate paths that returns on the first existing one. */
  method GetPreviousResultData(settings: ResultFileSettings, config: Config, env: map<string, string>,
                               files: map<string, string>, loads: string -> Option<Json>)
    returns (r: Result<Json>)
    ensures r == PreviousResultData(settings, config, env, files, loads)
  {
    if settings.inputFilenameEnv.None? {
      return Err(TypeError("str expected, not NoneType"));
    }
    var filename := GetEnv(env, settings.inputFilenameEnv.value, None);
    var value: Json;
    if SomeNonEmpty(filename) {
      value := JObject(map[]);
    } else {
      value :- RawJson(settings, env, loads);
    }
    if !SomeNonEmpty(filename) && !Truthy(value) {
      return Err(ImproperlyConfigured(NoPreviousResult(settings.inputFilenameEnv.value, settings.inputJsonEnv.value)));
    }
    if Truthy(value) && !SomeNonEmpty(filename) {
      var hasResults :- Contains("results", value);
      if hasResults {
        var results :- Subscript(value, "results");
        var hasUpdated :- Contains("updated", results);
        if hasUpdated {
          return Ok(results);
        }
      }
      return Ok(value);
    }
    var paths := [filename.value, JoinPath([config.resultDir, filename.value]),
                  JoinPath([config.resultDir, filename.value + ".json"])];
    for i := 0 to |paths|
      invariant forall j :: 0 <= j < i ==> paths[j] !in files
    {
      if paths[i] in files {
        FirstExistingIs(paths, files, i);
        return LoadText(files[paths[i]], loads);
      }
    }
    FirstExistingIs(paths, files, |paths|);
    return Err(ImproperlyConfigured(ResultFileNotFound(paths, settings.inputFilenameEnv.value, filename.value)));
  }

  /** The first existing path is the one preceded only by missing paths that exists itself. */
  lemma {:induction false} FirstExistingIs(paths: seq<string>, files: map<string, string>, k: nat)
    requires k <= |paths|
    requires forall j :: 0 <= j < k ==> paths[j] !in files
    requires k < |paths| ==> paths[k] in files
    ensures FirstExisting(paths, files) == k
    decreases k
  {
    if k > 0 {
      assert paths[0] !in files;
      FirstExistingIs(paths[1..], files, k - 1);
    }
  }

  /** With neither a file name nor a truthy raw value the step is misconfigured, and only then
      does it raise this error. */
  lemma NothingSetRaises(settings: ResultFileSettings, config: Config, env: map<string, string>,
                         files: map<string, string>, loads: string -> Option<Json>)
    requires settings.inputFilenameEnv.Some? && settings.inputJsonEnv.Some?
    ensures var filename := GetEnv(env, settings.inputFilenameEnv.value, None);
      var raw := RawJson(settings, env, loads);
      PreviousResultData(settings, config, env, files, loads)
        == Err(ImproperlyConfigured(NoPreviousResult(settings.inputFilenameEnv.value, settings.inputJsonEnv.value)))
      <==> !SomeNonEmpty(filename) && raw.Ok? && !Truthy(raw.value)
  {
  }

  /** When a file name is set, the raw JSON variable is never consulted. */
  lemma FileNameIgnoresRawJson(settings: ResultFileSettings, config: Config, env: map<string, string>,
                               files: map<string, string>, loads: string -> Option<Json>, anyText: string)
    requires settings.inputFilenameEnv.Some? && settings.inputJsonEnv.Some?
    requires settings.inputJsonEnv != settings.inputFilenameEnv
    requires SomeNonEmpty(GetEnv(env, settings.inputFilenameEnv.value, None))
    ensures var env' := env[settings.inputJsonEnv.value := anyText];
      PreviousResultData(settings, config, env', files, loads) == PreviousResultData(settings, config, env, files, loads)
  {
  }

  /** A raw dictionary value whose `"results"` is a dictionary holding `"updated"` is answered with
      that dictionary; a dictionary without `"results"`, or whose `"results"` dictionary has no
      `"updated"`, is answered whole. */
  lemma RawResultsPortion(m: map<string, Json>)
    ensures "results" in m && m["results"].JObject? && "updated" in m["results"].fields
      ==> ResultsPortion(JObject(m)) == Ok(m["results"])
    ensures "results" !in m ==> ResultsPortion(JObject(m)) == Ok(JObject(m))
    ensures "results" in m && m["results"].JObject? && "updated" !in m["results"].fields
      ==> ResultsPortion(JObject(m)) == Ok(JObject(m))
  {
  }

  /** With a file name set, the paths are tried in the order name, `dir/name`, `dir/name.json`:
      the first existing one is read, and when none exists the error lists all three. */
  lemma FirstExistingPathWins(settings: ResultFileSettings, config: Config, env: map<string, string>,
                              files: map<string, string>, loads: string -> Option<Json>, k: nat)
    requires settings.inputFilenameEnv.Some?
    requires SomeNonEmpty(GetEnv(env, settings.inputFilenameEnv.value, None))
    requires k <= 3
    ensures var name := GetEnv(env, settings.inputFilenameEnv.value, None).value;
      var paths := [name, JoinPath([config.resultDir, name]), JoinPath([config.resultDir, name + ".json"])];
      var r := PreviousResultData(settings, config, env, files, loads);
      (forall j :: 0 <= j < k ==> paths[j] !in files) && (k < 3 ==> paths[k] in files) ==>
        (k < 3 ==> r == LoadText(files[paths[k]], loads))
        && (k == 3 ==> r == Err(ImproperlyConfigured(ResultFileNotFound(paths, settings.inputFilenameEnv.value, name))))
  {
    var name := GetEnv(env, settings.inputFilenameEnv.value, None).value;
    var paths := CandidatePaths(config.resultDir, name);
    if (forall j :: 0 <= j < k ==> paths[j] !in files) && (k < 3 ==> paths[k] in files) {
      FirstExistingIs(paths, files, k);
    }
  }

  /** The name of the file a step writes, unless writing is skipped. */
  function WriteResultFile(settings: ResultFileSettings, config: Config, stamp: string): (r: Option<string>)
    ensures r.None? <==> SomeNonEmpty(config.skipWrite)
  {
    if SomeNonEmpty(config.skipWrite) then None
    else Some(JoinPath([config.resultDir, settings.outputFilenameBase + "_" + stamp + ".json"]))
  }

  /** The written file is `<base>_<stamp>.json` inside the stripped result directory, or at the
      top when the directory strips to nothing. */
  lemma ResultFileName(settings: ResultFileSettings, config: Config, stamp: string)
    requires !SomeNonEmpty(config.skipWrite)
    requires settings.outputFilenameBase != [] && settings.outputFilenameBase[0] != '/'
    ensures var name := settings.outputFilenameBase + "_" + stamp + ".json";
      var dir := StripSlashes(config.resultDir);
      WriteResultFile(settings, config, stamp) == Some(if dir == [] then "/" + name else dir + "/" + name)
  {
    var name := settings.outputFilenameBase + "_" + stamp + ".json";
    assert name[0] == settings.outputFilenameBase[0];
    assert name[|name| - 1] == 'n';
    Strings.StripStripped(name, '/');
    assert StripSlashes(name) == name;
    JoinPathTwo(config.resultDir, name);
    var dir := StripSlashes(config.resultDir);
    assert WriteResultFile(settings, config, stamp) == Some(dir + "/" + name);
    if dir == [] {
      assert dir + "/" + name == "/" + name;
    }
  }

  /** The keys the shared code puts in a result dictionary; a step's own keys avoid them. */
  predicate AvoidsLibKeys(m: map<string, Json>) {
    "run_date" !in m && "previous_step_file" !in m && "previous_step_run_date" !in m
  }

  /** A step's result dictionary. */
  type StepDict = m: map<string, Json> | AvoidsLibKeys(m) witness map[]

  /** `perform_username_updates(username_update_list=...)` of one step. */
  type StepFn = Json -> Result<StepDict>

  /** A finished step: the written file name (or `None`) and the result dictionary. */
  datatype Run = Run(resultFilename: Option<string>, resultDict: map<string, Json>)

  /** What `perform_updates_and_handle_results` returns or raises, as a chain of steps each of
      which may raise. */
  function HandleResults(settings: ResultFileSettings, config: Config, env: map<string, string>,
                         files: map<string, string>, loads: string -> Option<Json>,
                         runDate: string, stamp: string, perform: StepFn): Result<Run>
  {
    var written := WriteResultFile(settings, config, stamp);
    if SomeNonEmpty(settings.inputFilenameEnv) then
      var previous :- PreviousResultData(settings, config, env, files, loads);
      var previousRunDate :- Get(previous, "run_date", JNull);
      var updatedList :- Get(previous, "updated", JNull);
      var step :- perform(updatedList);
      var previousFile := match GetEnv(env, settings.inputFilenameEnv.value, None)
        case Some(v) => JString(v)
        case None => JNull;
      Ok(Run(written, map["previous_step_file" := previousFile, "previous_step_run_date" := previousRunDate,
                          "run_date" := JString(runDate)] + step))
    else
      var step :- perform(JNull);
      Ok(Run(written, map["run_date" := JString(runDate)] + step))
  }

  /** `Updater.perform_updates_and_handle_results`, filling the result dictionary in place. */
  method PerformUpdatesAndHandleResults(settings: ResultFileSettings, config: Config, env: map<string, string>,
                                        files: map<string, string>, loads: string -> Option<Json>,
                                        runDate: string, stamp: string, perform: StepFn)
    returns (r: Result<Run>)
    ensures r == HandleResults(settings, config, env, files, loads, runDate, stamp, perform)
  {
    var resultDict: map<string, Json> := map[];
    var previous := JObject(map[]);
    if SomeNonEmpty(settings.inputFilenameEnv) {
      previous :- GetPreviousResultData(settings, config, env, files, loads);
      resultDict := resultDict["previous_step_file" :=
        match GetEnv(env, settings.inputFilenameEnv.value, None)
        case Some(v) => JString(v)
        case None => JNull];
      var previousRunDate :- Get(previous, "run_date", JNull);
      resultDict := resultDict["previous_step_run_date" := previousRunDate];
    }
    resultDict := resultDict["run_date" := JString(runDate)];
    // `previous` is a dictionary here: `{}`, or a result whose `.get` has just answered
    var updatedList := Get(previous, "updated", JNull).value;
    var step :- perform(updatedList);
    resultDict := resultDict + step;
    var resultFilename := WriteResultFile(settings, config, stamp);
    return Ok(Run(resultFilename, resultDict));
  }

  /** A finished run always records its own run date, records the previous step's file and run
      date exactly when the step reads a previous result, and carries every key of the step's
      own dictionary. */
  lemma RunDictionaryKeys(settings: ResultFileSettings, config: Config, env: map<string, string>,
                          files: map<string, string>, loads: string -> Option<Json>,
                          runDate: string, stamp: string, perform: StepFn)
    ensures var r := HandleResults(settings, config, env, files, loads, runDate, stamp, perform);
      r.Ok? ==>
        var d := r.value.resultDict;
        && "run_date" in d && d["run_date"] == JString(runDate)
        && ("previous_step_file" in d <==> SomeNonEmpty(settings.inputFilenameEnv))
        && ("previous_step_run_date" in d <==> SomeNonEmpty(settings.inputFilenameEnv))
        && r.value.resultFilename == WriteResultFile(settings, config, stamp)
  {
  }

  /** The step's own dictionary appears in the result unchanged, and without a previous step the
      step is handed `None`. */
  lemma RunCarriesStep(settings: ResultFileSettings, config: Config, env: map<string, string>,
                       files: map<string, string>, loads: string -> Option<Json>,
                       runDate: string, stamp: string, perform: StepFn)
    ensures var r := HandleResults(settings, config, env, files, loads, runDate, stamp, perform);
      !SomeNonEmpty(settings.inputFilenameEnv) ==>
        (r.Ok? <==> perform(JNull).Ok?)
        && (r.Ok? ==> forall k :: k in perform(JNull).value ==> r.value.resultDict[k] == perform(JNull).value[k])
        && (r.Ok? ==> r.value.resultDict.Keys == perform(JNull).value.Keys + {"run_date"})
  {
  }

  /** With a previous step, a failure to find or read it is the run's failure, and a found result
      hands its `"updated"` list (or `None`) to the step and its `"run_date"` to the dictionary. */
  lemma RunUsesPreviousResult(settings: ResultFileSettings, config: Config, env: map<string, string>,
                              files: map<string, string>, loads: string -> Option<Json>,
                              runDate: string, stamp: string, perform: StepFn)
    requires SomeNonEmpty(settings.inputFilenameEnv)
    ensures var r := HandleResults(settings, config, env, files, loads, runDate, stamp, perform);
      var p := PreviousResultData(settings, config, env, files, loads);
      && (p.Err? ==> r == Err(p.error))
      && (p.Ok? && p.value.JObject? ==>
            var m := p.value.fields;
            var arg := if "updated" in m then m["updated"] else JNull;
            (r.Ok? <==> perform(arg).Ok?)
            && (r.Ok? ==> r.value.resultDict["previous_step_run_date"]
                            == (if "run_date" in m then m["run_date"] else JNull)))
      && (p.Ok? && !p.value.JObject? ==> r == Err(AttributeError("get")))
  {
  }
}
