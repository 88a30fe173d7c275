/** The settings form (frontend/src/components/ConfigurationForm.tsx): the edit of one
    field of one section, the comma-separated keyword text, and the save payload.
    The configuration is the JSON object `get_config` served, `None` while none is
    loaded. Rendering and the numeric inputs' parsing are left out. */
module ConfigForm {
  import opened Common
  import opened Json
  import Strings
  import Api

  /** `value.split(',').map(s => s.trim())` */
  function ParseKeywords(text: string): (ks: seq<string>)
    ensures |ks| == |Strings.Split(text, ',')|
  {
    var pieces := Strings.Split(text, ',');
    seq(|pieces|, i requires 0 <= i < |pieces| => Strings.Strip(Strings.JavaScript, pieces[i]))
  }

  /** One keyword per comma-separated piece, each trimmed and comma-free; empty text
      gives one empty keyword. */
  lemma ParseKeywordsShape(text: string)
    ensures |ParseKeywords(text)| == multiset(text)[','] + 1
    ensures forall i :: 0 <= i < |ParseKeywords(text)| ==>
              Strings.IsTrimmed(Strings.JavaScript, ParseKeywords(text)[i]) && ',' !in ParseKeywords(text)[i]
    ensures text == "" ==> ParseKeywords(text) == [""]
  {
    Strings.SplitCount(text, ',');
    Strings.SplitPiecesFree(text, ',');
    var pieces := Strings.Split(text, ',');
    var ks := ParseKeywords(text);
    forall i | 0 <= i < |ks|
      ensures ',' !in ks[i]
    {
      Strings.StripFrames(Strings.JavaScript, pieces[i]);
      var j :| Strings.FramedBySpace(Strings.JavaScript, pieces[i], ks[i], j);
    }
  }

  /** The text the keyword box shows: the list joined by `", "`. */
  function DisplayKeywords(ks: seq<string>): string {
    Strings.Join(ks, ", ")
  }

  /** Editing the shown text without change gives the list back, provided it is not
      empty and no keyword holds a comma or surrounding whitespace. */
  lemma DisplayParseRoundTrip(ks: seq<string>)
    requires |ks| >= 1
    requires forall i :: 0 <= i < |ks| ==> ',' !in ks[i] && Strings.IsTrimmed(Strings.JavaScript, ks[i])
    ensures ParseKeywords(DisplayKeywords(ks)) == ks
  {
    var parts := Strings.PrefixRest(" ", ks);
    Strings.JoinLongSeparator(ks, ',', " ");
    assert [','] + " " == ", ";
    forall i | 0 <= i < |parts|
      ensures ',' !in parts[i]
    {
      if i > 0 {
        assert parts[i] == " " + ks[i];
      }
    }
    Strings.SplitJoin(parts, ',');
    var r := ParseKeywords(DisplayKeywords(ks));
    forall i | 0 <= i < |ks|
      ensures r[i] == ks[i]
    {
      if i == 0 {
        Strings.StripTrimmed(Strings.JavaScript, ks[0]);
      } else {
        Strings.StripAfterSpace(Strings.JavaScript, " ", ks[i]);
        Strings.StripTrimmed(Strings.JavaScript, ks[i]);
      }
    }
  }

  /** An empty list shows as empty text, which reads back as one empty keyword. */
  lemma EmptyListRoundTrip()
    ensures ParseKeywords(DisplayKeywords([])) == [""]
  {
    ParseKeywordsShape("");
  }

  /** `finalValue`: text entered for `keywords` becomes the list of its trimmed
      pieces; anything else is stored as given. */
  function FinalValue(key: string, value: Value): (r: Value)
    ensures key != "keywords" || !value.Str? ==> r == value
    ensures key == "keywords" && value.Str? ==> r == Api.Strs(ParseKeywords(value.s))
  {
    if key == "keywords" && value.Str? then Api.Strs(ParseKeywords(value.s)) else value
  }

  /** `updateConfig(section, key, value)`: with no configuration loaded nothing
      happens; otherwise only `config[section][key]` changes. The section's old fields
      are those of an object and none otherwise; a string or an array section, which
      JavaScript would spread into its indices, is not modelled. */
  function UpdateConfig(config: Option<map<string, Value>>, section: string, key: string, value: Value)
    : (r: Option<map<string, Value>>)
    ensures config.None? ==> r.None?
    ensures config.Some? ==> r.Some? && section in r.value && r.value[section].Obj?
    ensures config.Some? ==> forall s :: s != section ==>
              (s in r.value <==> s in config.value) && (s in config.value ==> r.value[s] == config.value[s])
    ensures config.Some? ==> key in r.value[section].fields && r.value[section].fields[key] == FinalValue(key, value)
    ensures config.Some? ==> forall k :: k != key ==>
              (k in r.value[section].fields <==> k in Section(config.value, section)) &&
              (k in Section(config.value, section) ==> r.value[section].fields[k] == Section(config.value, section)[k])
  {
    match config
    case None => None
    case Some(c) => Some(c[section := Obj(Section(c, section)[key := FinalValue(key, value)])])
  }

  /** Typing keywords into a well-shaped configuration changes exactly its keyword
      list, to the parsed text. */
  lemma EditKeywords(c: Api.Config, text: string)
    ensures var edited := UpdateConfig(Some(Api.Encode(c)), "discovery", "keywords", Str(text));
            edited.Some? && Api.Decode(edited.value) == Some(c.(discovery := c.discovery.(keywords := ParseKeywords(text))))
  {
    var c2 := c.(discovery := c.discovery.(keywords := ParseKeywords(text)));
    assert Section(Api.Encode(c), "discovery")["keywords" := FinalValue("keywords", Str(text))] ==
           Api.EncodeDiscovery(c2.discovery);
    var e, e2 := Api.Encode(c), Api.Encode(c2);
    assert e2.Keys == e.Keys && e2["outreach"] == e["outreach"];
    assert e2 == e["discovery" := Obj(Api.EncodeDiscovery(c2.discovery))];
    assert UpdateConfig(Some(Api.Encode(c)), "discovery", "keywords", Str(text)) == Some(Api.Encode(c2));
    Api.DecodeEncode(c2);
  }

  /** `handleSave`: the whole configuration is sent, not the edited fields; nothing is
      sent while none is loaded. */
  function SavePayload(config: Option<map<string, Value>>): (p: Option<map<string, Value>>)
    ensures p.None? <==> config.None?
    ensures p.Some? ==> p.value == config.value
  {
    config
  }

  /** A saved edit carries every untouched section along. */
  lemma SaveAfterEdit(config: map<string, Value>, section: string, key: string, value: Value, other: string)
    requires other != section && other in config
    ensures var p := SavePayload(UpdateConfig(Some(config), section, key, value));
            p.Some? && other in p.value && p.value[other] == config[other]
  {
  }

  /** `loadConfig`: a successful fetch sets the configuration; a failed one leaves
      the previous one. */
  function LoadConfig(config: Option<map<string, Value>>, fetched: Option<map<string, Value>>)
    : (r: Option<map<string, Value>>)
    ensures fetched.Some? ==> r == fetched
    ensures fetched.None? ==> r == config
  {
    if fetched.Some? then fetched else config
  }
}
