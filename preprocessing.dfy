/**
 * The preprocessor object (class Preprocessor of apilinks.py): its settings,
 * the ordered dictionary of APIs and the default API that set_apis fills in,
 * and the methods that look a method up in them and rewrite a text.
 */
module Preprocessing {
  import opened Wrappers
  import opened Template
  import opened Apis
  import opened Resolution
  import opened Setup
  import opened Rewriting

  lemma Regroup(a: string, b: string, c: string, d: string)
    ensures a + (b + c + d) == (a + b + c) + d
  {
  }

  class Preprocessor {
    /** The `offline` option. */
    const offline: bool
    /** The `output-template` option. */
    const outputTemplate: Template
    /** The keys of the OrderedDict self.apis, in insertion order. */
    var names: seq<string>
    /** self.apis by key. */
    var apis: map<string, Api>
    /** self.default_api */
    var defaultApi: Option<Api>

    /** The registry the preprocessor holds. */
    function Reg(): Registry
      reads this
    {
      Registry(names, apis, defaultApi)
    }

    /** The state __init__ sets up before it calls set_apis: no APIs, no default. */
    constructor (offline: bool, outputTemplate: Template)
      ensures this.offline == offline && this.outputTemplate == outputTemplate
      ensures Reg() == Registry([], map[], None)
    {
      this.offline := offline;
      this.outputTemplate := outputTemplate;
      names := [];
      apis := map[];
      defaultApi := None;
    }

    /**
     * set_apis: adds the API of each entry of the option, in order, skipping
     * an entry whose page cannot be read, and sets the default API. It fails
     * (RuntimeError) when no API was set up.
     */
    method SetApis(configs: seq<ApiConfig>) returns (err: Option<SetupError>)
      requires DistinctNames(configs)
      requires Reg() == Registry([], map[], None)
      modifies this
      ensures var b := BuildRegistry(configs, offline);
        (b.Err? ==> err == Some(b.error) && Reg() == Registered(configs, offline)) &&
        (b.Ok? ==> err == None && Reg() == b.value)
      ensures err == None ==> WellFormed(Reg()) && defaultApi.Some?
    {
      for i := 0 to |configs|
        invariant Reg() == Registered(configs[..i], offline)
      {
        var c := configs[i];
        assert configs[..i + 1][..i] == configs[..i];
        if !offline && c.page.None? {
          // HTTPError while reading the page: the entry is skipped.
          continue;
        }
        var api := NewApi(c.name, c.url, c.headerTemplate.GetOr(DefaultHeaderTemplate), offline, c.page.GetOr(map[]));
        names := names + [c.name];
        apis := apis[c.name := api];
        if c.isDefault && defaultApi.None? {
          defaultApi := Some(api);
        }
      }
      assert configs[..|configs|] == configs;
      if names == [] {
        return Some(NoApis);
      }
      if defaultApi.None? {
        defaultApi := Some(apis[names[0]]);
      }
      BuildRegistryWellFormed(configs, offline);
      return None;
    }

    /**
     * find_url: collects, in registry order, the APIs whose page has the
     * method's heading; one gives the url, several are reported by name,
     * none is reported as not found.
     */
    method FindUrl(verb: Option<string>, command: Option<string>) returns (r: Result<string, GenUrlError>)
      requires WellFormed(Reg()) && TemplatesFit(Reg(), HeaderKeys)
      ensures r == Resolution.FindUrl(Reg(), verb, command)
    {
      var fields := HeaderFields(verb, command);
      var found: seq<Api> := [];
      ghost var matched: seq<string> := [];
      for i := 0 to |names|
        invariant matched == MatchingIn(Reg(), names[..i], fields)
        invariant |found| == |matched|
        invariant forall k | 0 <= k < |found| :: matched[k] in apis && found[k] == apis[matched[k]]
      {
        MatchingInStep(Reg(), names, i, fields);
        var api := apis[names[i]];
        if FormatAnchor(api, fields) in api.headers {
          found := found + [api];
          matched := matched + [names[i]];
        }
      }
      assert names[..|names|] == names;
      if |found| == 1 {
        r := Ok(found[0].url + "/#" + FormatAnchor(found[0], fields));
      } else if |found| > 1 {
        var foundNames := seq(|found|, k requires 0 <= k < |found| => found[k].name);
        assert foundNames == matched;
        r := Err(Ambiguous(verb, command, foundNames));
      } else {
        r := Err(NotFound(verb, command, None));
      }
    }

    /** gen_url: a non-empty prefix selects the API (get_url); otherwise every API is searched. */
    method GenUrl(ref: Reference) returns (r: Result<string, GenUrlError>)
      requires WellFormed(Reg()) && TemplatesFit(Reg(), HeaderKeys)
      ensures r == Resolution.GenUrl(Reg(), ref)
    {
      if Truthy(ref.prefix) {
        r := GetUrl(Reg(), ref.prefix.value, ref.verb, ref.command);
      } else {
        r := FindUrl(ref.verb, ref.command);
      }
    }

    /**
     * _sub: the text that replaces one match (its link, or else its source
     * text) and the warning logged for it.
     */
    method Substitute(m: Match) returns (replacement: string, warning: Option<Warning>)
      requires Ready(Reg(), offline, outputTemplate)
      ensures (replacement, warning) == Sub(Reg(), offline, outputTemplate, m)
    {
      var ref := InitFromMatch(m);
      var url: Result<string, GenUrlError>;
      if offline {
        url := GenUrlOffline(Reg(), ref);
      } else {
        url := GenUrl(ref);
      }
      if url.Err? {
        return SourceText(ref), Some(Skipped(url.error));
      }
      if url.value != "" {
        return Render(outputTemplate, OutputFields(url.value, ref)), None;
      }
      return SourceText(ref), Some(NoUrl(ref.source));
    }

    /**
     * process_links: copies the text between the matches, and replaces each
     * match by its link, or by its own source text with a warning when no url
     * can be found for it.
     */
    method ProcessLinks(content: string, ms: seq<Match>) returns (text: string, warnings: seq<Warning>)
      requires Ready(Reg(), offline, outputTemplate) && Ordered(content, 0, ms)
      ensures text == Rewrite(Reg(), offline, outputTemplate, content, 0, ms)
      ensures warnings == Warnings(Reg(), offline, outputTemplate, ms)
    {
      text := [];
      warnings := [];
      var pos: nat := 0;
      for i := 0 to |ms|
        invariant Ordered(content, pos, ms[i..])
        invariant text + Rewrite(Reg(), offline, outputTemplate, content, pos, ms[i..]) == Rewrite(Reg(), offline, outputTemplate, content, 0, ms)
        invariant warnings == Warnings(Reg(), offline, outputTemplate, ms[..i])
      {
        var m := ms[i];
        var replacement, warning := Substitute(m);
        RewriteStep(Reg(), offline, outputTemplate, content, pos, ms, i);
        var before := content[pos..m.start];
        ghost var rest := Rewrite(Reg(), offline, outputTemplate, content, m.end, ms[i + 1..]);
        Regroup(text, before, replacement, rest);
        text := text + before + replacement;
        warnings := warnings + (if warning.Some? then [warning.value] else []);
        pos := m.end;
      }
      assert ms[..|ms|] == ms;
      text := text + content[pos..];
    }
  }
}
