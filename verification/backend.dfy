/** The rules of the Flask backend (backend/app.py): the settings merge behind
    `POST /api/config`, the view behind `GET /api/config`, the log tail, the agent
    lookup and the author sync. Files, threads and HTTP are left out: what a handler
    reads arrives as a parameter, and what it writes or answers is its result. */
module Backend {
  import opened Common
  import opened Json
  import Strings
  import Seqs
  import opened Profiling
  import opened Database

  /** What `update_config` writes: the new settings document, and the keywords file
      content when it is rewritten. */
  datatype ConfigWrite = ConfigWrite(settings: map<string, Value>, keywords: Option<Value>)

  /** A request section `update` cannot merge: present and not an object. */
  predicate BadSection(data: map<string, Value>, name: string) {
    name in data && !data[name].Obj?
  }

  /** A settings section `update` is called on that is not a dictionary. */
  predicate BadTarget(current: map<string, Value>, data: map<string, Value>, name: string) {
    name in data && name in current && !current[name].Obj?
  }

  /** The keywords `update_config` pops from the request, if the discovery section
      holds them. */
  function RequestKeywords(data: map<string, Value>): (k: Option<Value>)
    ensures k.Some? <==> "discovery" in data && data["discovery"].Obj? && "keywords" in data["discovery"].fields
  {
    if "discovery" in data && data["discovery"].Obj? && "keywords" in data["discovery"].fields
    then Some(data["discovery"].fields["keywords"])
    else None
  }

  /** The merged section `name`: the stored section, then the request's keys, except
      the popped keywords. */
  function MergedSection(current: map<string, Value>, data: map<string, Value>, name: string): map<string, Value> {
    Update(Section(current, name), if name == "discovery" then Remove(Section(data, name), "keywords") else Section(data, name))
  }

  /** The stored section `name` after `update_config`: merged when the request holds
      it, otherwise as stored, or `{}` when it was missing. */
  function NewSection(current: map<string, Value>, data: map<string, Value>, name: string): Value {
    if name in data then Obj(MergedSection(current, data, name))
    else if name in current then current[name] else Obj(map[])
  }

  /** `update_config`. A request section, or a stored section it is merged into,
      that is not an object makes `update` raise; otherwise the stored document gets
      both sections, merged shallowly, a section the request leaves out staying as
      stored (or `{}` when there was none), and the keywords are written when the
      request carried them and they are not `null`. */
  function UpdateConfig(current: map<string, Value>, data: map<string, Value>): (res: Result<ConfigWrite>)
    ensures res.Err? <==>
              BadSection(data, "discovery") || BadSection(data, "outreach") ||
              BadTarget(current, data, "discovery") || BadTarget(current, data, "outreach")
    ensures res.Ok? ==> "discovery" in res.value.settings && "outreach" in res.value.settings
    ensures res.Ok? ==> forall k :: k != "discovery" && k != "outreach" ==>
              (k in res.value.settings <==> k in current) &&
              (k in current ==> res.value.settings[k] == current[k])
    ensures res.Ok? ==> (res.value.keywords.Some? <==> RequestKeywords(data).Some? && RequestKeywords(data).value != Value.Null)
    ensures res.Ok? && res.value.keywords.Some? ==> res.value.keywords == RequestKeywords(data)
    ensures res.Ok? ==> forall n :: (n == "discovery" || n == "outreach") && n !in data ==>
              res.value.settings[n] == (if n in current then current[n] else Obj(map[]))
  {
    if BadSection(data, "discovery") || BadSection(data, "outreach") ||
       BadTarget(current, data, "discovery") || BadTarget(current, data, "outreach")
    then Err("AttributeError: section is not a dictionary")
    else
      var kw := RequestKeywords(data);
      Ok(ConfigWrite(current["discovery" := NewSection(current, data, "discovery")]["outreach" := NewSection(current, data, "outreach")],
                     if kw.Some? && kw.value != Value.Null then kw else None))
  }

  /** The merge is shallow: a key of a request section takes the request's value, a
      key the request leaves out keeps the stored value, and `keywords` never reaches
      the settings from the request. */
  lemma UpdateConfigMerges(current: map<string, Value>, data: map<string, Value>, name: string, key: string)
    requires UpdateConfig(current, data).Ok? && (name == "discovery" || name == "outreach") && name in data
    requires !(name == "discovery" && key == "keywords")
    ensures var s := UpdateConfig(current, data).value.settings[name];
            s.Obj? &&
            (key in data[name].fields ==> key in s.fields && s.fields[key] == data[name].fields[key]) &&
            (key !in data[name].fields && key in Section(current, name) ==>
               key in s.fields && s.fields[key] == Section(current, name)[key]) &&
            (key in s.fields ==> key in data[name].fields || key in Section(current, name))
  {
  }

  /** The request's keywords go to the keywords file and not into the settings. */
  lemma UpdateConfigPopsKeywords(current: map<string, Value>, data: map<string, Value>)
    requires UpdateConfig(current, data).Ok? && "discovery" in data
    ensures var s := UpdateConfig(current, data).value.settings["discovery"];
            s.Obj? &&
            ("keywords" in s.fields <==> "keywords" in Section(current, "discovery")) &&
            ("keywords" in s.fields ==> s.fields["keywords"] == Section(current, "discovery")["keywords"])
  {
  }

  /** `get_config`: the stored settings with a `discovery` section, whose `keywords`
      are those of the keywords file when there is one. Assigning into a stored
      discovery value that is not a dictionary raises. */
  function GetConfig(settings: map<string, Value>, keywordsFile: Option<Value>): (res: Result<map<string, Value>>)
    ensures res.Err? <==> keywordsFile.Some? && "discovery" in settings && !settings["discovery"].Obj?
    ensures res.Ok? ==> "discovery" in res.value
    ensures res.Ok? ==> forall k :: k != "discovery" ==>
              (k in res.value <==> k in settings) && (k in settings ==> res.value[k] == settings[k])
    ensures res.Ok? && keywordsFile.Some? ==>
              res.value["discovery"] == Obj(Section(settings, "discovery")["keywords" := keywordsFile.value])
    ensures res.Ok? && keywordsFile.None? ==>
              res.value["discovery"] == if "discovery" in settings then settings["discovery"] else Obj(map[])
  {
    var discovery := if "discovery" in settings then settings["discovery"] else Obj(map[]);
    match keywordsFile
    case None => Ok(settings["discovery" := discovery])
    case Some(k) =>
      if !discovery.Obj? then Err("TypeError: discovery is not a dictionary")
      else Ok(settings["discovery" := Obj(discovery.fields["keywords" := k])])
  }

  /** Saving and reading back: after a successful update that carried a discovery
      section, the configuration served
      holds the merged discovery keys and, when keywords were written, those
      keywords. */
  lemma UpdateThenGet(current: map<string, Value>, data: map<string, Value>, oldKeywords: Option<Value>)
    requires UpdateConfig(current, data).Ok? && "discovery" in data
    ensures var w := UpdateConfig(current, data).value;
            var file := if w.keywords.Some? then w.keywords else oldKeywords;
            var got := GetConfig(w.settings, file);
            got.Ok? && "outreach" in got.value && got.value["outreach"] == w.settings["outreach"] &&
            got.value["discovery"].Obj? &&
            (w.keywords.Some? ==> got.value["discovery"].fields["keywords"] == RequestKeywords(data).value) &&
            (forall key :: key != "keywords" && "discovery" in data && key in data["discovery"].fields ==>
               key in got.value["discovery"].fields && got.value["discovery"].fields[key] == data["discovery"].fields[key])
  {
    var w := UpdateConfig(current, data).value;
    assert w.settings["discovery"].Obj?;
  }

  /** The placeholder `get_logs` answers with when there is no log file. */
  const NoLogFile := "Log file not found."

  /** The number of lines `get_logs` serves at most. */
  const LogTail := 100

  /** `get_logs`: the last hundred lines of the file (as `readlines` gives them, line
      ends included), each stripped; the placeholder when there is no file. */
  function GetLogs(file: Option<seq<string>>): (r: seq<string>)
    ensures file.None? ==> r == [NoLogFile]
    ensures file.Some? ==> |r| == if |file.value| < LogTail then |file.value| else LogTail
    ensures file.Some? ==> forall k :: 0 <= k < |r| ==>
              r[k] == Strings.Strip(Strings.Python, file.value[|file.value| - |r| + k])
  {
    match file
    case None => [NoLogFile]
    case Some(lines) =>
      var tail := if |lines| < LogTail then lines else lines[|lines| - LogTail..];
      seq(|tail|, k requires 0 <= k < |tail| => Strings.Strip(Strings.Python, tail[k]))
  }

  /** Each served line is stripped. */
  lemma GetLogsStripped(lines: seq<string>)
    ensures forall k :: 0 <= k < |GetLogs(Some(lines))| ==> Strings.IsTrimmed(Strings.Python, GetLogs(Some(lines))[k])
  {
    var r := GetLogs(Some(lines));
    forall k | 0 <= k < |r|
      ensures Strings.IsTrimmed(Strings.Python, r[k])
    {
      assert r[k] == Strings.Strip(Strings.Python, lines[|lines| - |r| + k]);
    }
  }

  /** Once the file holds a hundred lines, a new line pushes the oldest served line
      out. */
  lemma GetLogsSlides(lines: seq<string>, line: string)
    requires |lines| >= LogTail
    ensures GetLogs(Some(lines + [line])) == GetLogs(Some(lines))[1..] + [Strings.Strip(Strings.Python, line)]
  {
    var after := GetLogs(Some(lines + [line]));
    var expected := GetLogs(Some(lines))[1..] + [Strings.Strip(Strings.Python, line)];
    assert |after| == |expected| == LogTail;
    forall k | 0 <= k < LogTail
      ensures after[k] == expected[k]
    {
      if k < LogTail - 1 {
        assert (lines + [line])[|lines| + 1 - LogTail + k] == lines[|lines| - LogTail + k + 1];
      }
    }
  }

  /** A short file is served whole. */
  lemma GetLogsShort(lines: seq<string>)
    requires |lines| <= LogTail
    ensures |GetLogs(Some(lines))| == |lines|
    ensures forall k :: 0 <= k < |lines| ==> GetLogs(Some(lines))[k] == Strings.Strip(Strings.Python, lines[k])
  {
  }

  /** `script_map` of `run_agent_script`. */
  const ScriptMap: map<string, string> := map[
    "discovery" := "agents/discovery_agent.py",
    "profiling" := "agents/profiling_agent.py",
    "email" := "agents/email_discovery.py",
    "validation" := "agents/validation_agent.py",
    "outreach" := "agents/outreach_agent.py",
    "logging" := "agents/logging_agent.py"]

  const AgentNames: set<string> := {"discovery", "profiling", "email", "validation", "outreach", "logging"}

  /** `script_map.get(agent_name)` */
  function ScriptFor(name: string): (r: Option<string>)
    ensures r.Some? <==> name in AgentNames
    ensures r.Some? ==> r.value == ScriptMap[name]
  {
    if name in ScriptMap then Some(ScriptMap[name]) else None
  }

  /** Exactly six agents, each with its own script. */
  lemma AgentsDistinct()
    ensures |AgentNames| == 6
    ensures ScriptMap.Keys == AgentNames
    ensures forall a, b :: a in ScriptMap && b in ScriptMap && a != b ==> ScriptMap[a] != ScriptMap[b]
  {
  }

  /** `run_agent_script`: the flag and message it returns. Starting the thread is left
      out. */
  function RunAgentScript(name: string): (r: (bool, string))
    ensures r.0 <==> name in AgentNames
    ensures r.1 == if r.0 then "Agent started" else "Unknown agent"
  {
    if ScriptFor(name).None? then (false, "Unknown agent") else (true, "Agent started")
  }

  /** A JSON answer: the HTTP status code, the `status` field and the `message`. */
  datatype Response = Response(code: int, status: string, message: string)

  /** `start_agent` */
  function StartAgent(name: string): (r: Response)
    ensures r.code == 200 <==> name in AgentNames
    ensures r.code == 200 || r.code == 400
    ensures name in AgentNames ==> r == Response(200, "started", "Agent started")
    ensures name !in AgentNames ==> r == Response(400, "error", "Unknown agent")
  {
    var (ok, msg) := RunAgentScript(name);
    if ok then Response(200, "started", msg) else Response(400, "error", msg)
  }

  /** The `add_author` loop of `sync_authors`: the table afterwards and the count of
      successful calls. */
  function SyncLoop(t: Table, profiles: seq<Profile>): (r: (Table, nat))
    ensures r.1 == Seqs.CountIf(Storable, profiles)
    ensures r.0.nextId == t.nextId + r.1
    decreases |profiles|
  {
    if |profiles| == 0 then (t, 0)
    else
      var (ok, t1) := AddAuthor(t, profiles[0]);
      var (t2, n) := SyncLoop(t1, profiles[1..]);
      (t2, n + if ok then 1 else 0)
  }

  /** The table stays valid through the loop. */
  lemma {:induction false} SyncLoopValid(t: Table, profiles: seq<Profile>)
    requires Valid(t)
    ensures Valid(SyncLoop(t, profiles).0)
    decreases |profiles|
  {
    if |profiles| > 0 {
      AddAuthorValid(t, profiles[0]);
      SyncLoopValid(AddAuthor(t, profiles[0]).1, profiles[1..]);
    }
  }

  /** Never more additions than profiles. */
  lemma {:induction false} CountIfBound<T>(p: T -> bool, s: seq<T>)
    ensures Seqs.CountIf(p, s) <= |s|
    decreases |s|
  {
    if |s| > 0 {
      CountIfBound(p, s[1..]);
    }
  }

  /** `sync_authors`: 404 without a profiles file; otherwise 200 with the number of
      profiles `add_author` accepted. */
  function SyncAuthors(t: Table, profiles: Option<seq<Profile>>): (r: (Response, Option<nat>, Table))
    ensures profiles.None? ==> r == (Response(404, "error", "No profiles found"), None, t)
    ensures profiles.Some? ==> r.0.code == 200 && r.0.status == "synced"
    ensures profiles.Some? ==> r.1 == Some(Seqs.CountIf(Storable, profiles.value))
    ensures profiles.Some? ==> r.1.value <= |profiles.value|
    ensures profiles.Some? ==> r.2.nextId == t.nextId + r.1.value
  {
    match profiles
    case None => (Response(404, "error", "No profiles found"), None, t)
    case Some(ps) =>
      var (t2, n) := SyncLoop(t, ps);
      CountIfBound(Storable, ps);
      (Response(200, "synced", ""), Some(n), t2)
  }
}
