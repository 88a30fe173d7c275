/** The shapes the client expects from the backend (frontend/src/services/api.ts),
    and how a typed configuration sits in the JSON object the form edits. The
    `fetch` calls themselves are left out. */
module Api {
  import opened Common
  import opened Json

  datatype Stats = Stats(papersFound: int, authorsProfiled: int, emailsSent: int)

  datatype DiscoverySettings = DiscoverySettings(keywords: seq<string>, daysBack: int, maxResults: int)

  datatype OutreachSettings = OutreachSettings(maxDailyEmails: int, retryAttempts: int, delaySeconds: int)

  datatype Config = Config(discovery: DiscoverySettings, outreach: OutreachSettings)

  /** A list of strings as a JSON array. */
  function Strs(ks: seq<string>): (v: Value)
    ensures v.Arr? && |v.items| == |ks|
    ensures forall i :: 0 <= i < |ks| ==> v.items[i] == Str(ks[i])
  {
    Arr(seq(|ks|, i requires 0 <= i < |ks| => Str(ks[i])))
  }

  /** The strings of a JSON array holding only strings. */
  function StrsOf(items: seq<Value>): (r: Option<seq<string>>)
    ensures r.Some? <==> forall i :: 0 <= i < |items| ==> items[i].Str?
    ensures r.Some? ==> |r.value| == |items| && forall i :: 0 <= i < |items| ==> items[i] == Str(r.value[i])
    decreases |items|
  {
    if |items| == 0 then Some([])
    else
      assert forall i :: 1 <= i < |items| ==> items[i] == items[1..][i - 1];
      match (items[0], StrsOf(items[1..]))
      case (Str(s), Some(rest)) => Some([s] + rest)
      case _ => None
  }

  function EncodeDiscovery(d: DiscoverySettings): map<string, Value> {
    map["keywords" := Strs(d.keywords), "days_back" := Num(d.daysBack), "max_results" := Num(d.maxResults)]
  }

  function EncodeOutreach(o: OutreachSettings): map<string, Value> {
    map["max_daily_emails" := Num(o.maxDailyEmails), "retry_attempts" := Num(o.retryAttempts),
        "delay_seconds" := Num(o.delaySeconds)]
  }

  /** The JSON object of a configuration. */
  function Encode(c: Config): map<string, Value> {
    map["discovery" := Obj(EncodeDiscovery(c.discovery)), "outreach" := Obj(EncodeOutreach(c.outreach))]
  }

  function DecodeDiscovery(m: map<string, Value>): Option<DiscoverySettings> {
    if "keywords" in m && m["keywords"].Arr? && StrsOf(m["keywords"].items).Some? &&
       "days_back" in m && m["days_back"].Num? && "max_results" in m && m["max_results"].Num?
    then Some(DiscoverySettings(StrsOf(m["keywords"].items).value, m["days_back"].n, m["max_results"].n))
    else None
  }

  function DecodeOutreach(m: map<string, Value>): Option<OutreachSettings> {
    if "max_daily_emails" in m && m["max_daily_emails"].Num? && "retry_attempts" in m && m["retry_attempts"].Num? &&
       "delay_seconds" in m && m["delay_seconds"].Num?
    then Some(OutreachSettings(m["max_daily_emails"].n, m["retry_attempts"].n, m["delay_seconds"].n))
    else None
  }

  /** The typed configuration a JSON object holds, if it has the `Config` shape;
      extra keys are ignored, as TypeScript's structural typing ignores them. */
  function Decode(m: map<string, Value>): (r: Option<Config>)
    ensures r.Some? ==> "discovery" in m && "outreach" in m && m["discovery"].Obj? && m["outreach"].Obj?
  {
    if "discovery" in m && m["discovery"].Obj? && "outreach" in m && m["outreach"].Obj? then
      match (DecodeDiscovery(m["discovery"].fields), DecodeOutreach(m["outreach"].fields))
      case (Some(d), Some(o)) => Some(Config(d, o))
      case _ => None
    else None
  }

  /** Encoding loses nothing: decoding gives the configuration back. */
  lemma DecodeEncode(c: Config)
    ensures Decode(Encode(c)) == Some(c)
  {
    var ks := Strs(c.discovery.keywords);
    assert StrsOf(ks.items).value == c.discovery.keywords;
  }
}
