/**
 * Building the registry of APIs from the preprocessor's API option
 * (set_apis of apilinks.py).
 */
module Setup {
  import opened Wrappers
  import opened Template
  import opened Apis
  import opened Resolution

  /**
   * One entry of the API option, in the order the option lists them: the
   * API's name, its url, its header template (None when the entry gives
   * none) and its `default` flag. `page` is what reading the reference page
   * yields: the headings found on it, or None when urlopen raises HTTPError.
   */
  datatype ApiConfig = ApiConfig(name: string, url: string, headerTemplate: Option<Template>, isDefault: bool, page: Option<map<string, string>>)

  /** The option is a dictionary: its entries have distinct names. */
  predicate DistinctNames(configs: seq<ApiConfig>) {
    forall i, j | 0 <= i < j < |configs| :: configs[i].name != configs[j].name
  }

  /** The API of the entry can be built: offline always, online when its page could be read. */
  predicate Loads(c: ApiConfig, offline: bool) {
    offline || c.page.Some?
  }

  /** API(name, url, header-template or DEFAULT_HEADER_TEMPLATE, offline) for one entry. */
  function ApiOf(c: ApiConfig, offline: bool): Api
    requires Loads(c, offline)
  {
    NewApi(c.name, c.url, c.headerTemplate.GetOr(DefaultHeaderTemplate), offline, c.page.GetOr(map[]))
  }

  /**
   * The registry once the loop of set_apis has handled `configs`: each entry
   * that loads is added under its name, and the first one flagged `default`
   * becomes the default; an entry whose page cannot be read is skipped.
   */
  function Registered(configs: seq<ApiConfig>, offline: bool): (reg: Registry)
    ensures forall n | n in reg.names :: n in reg.apis
  {
    if configs == [] then Registry([], map[], None)
    else
      var r := Registered(configs[..|configs| - 1], offline);
      var c := configs[|configs| - 1];
      if !Loads(c, offline) then r
      else
        var a := ApiOf(c, offline);
        Registry(r.names + [c.name], r.apis[c.name := a], if c.isDefault && r.default.None? then Some(a) else r.default)
  }

  /** RuntimeError('No APIs are set up. Try using offline mode'), and the error the written code raises instead of skipping an unreadable page. */
  datatype SetupError = NoApis | HandlerFails(api: string)

  /**
   * set_apis: the registry, with the first API as the default when no entry
   * is flagged, or NoApis when no API could be set up.
   */
  function BuildRegistry(configs: seq<ApiConfig>, offline: bool): Result<Registry, SetupError> {
    var r := Registered(configs, offline);
    if r.names == [] then Err(NoApis)
    else if r.default.None? then Ok(r.(default := Some(r.apis[r.names[0]])))
    else Ok(r)
  }

  /** Entry `i` loads, is flagged `default`, and no earlier entry both loads and is flagged. */
  predicate FirstFlagged(configs: seq<ApiConfig>, offline: bool, i: nat)
    requires i < |configs|
  {
    Loads(configs[i], offline) && configs[i].isDefault &&
    forall j | 0 <= j < i :: !(Loads(configs[j], offline) && configs[j].isDefault)
  }

  /** Entry `i` is one that loads. */
  predicate LoadsAt(configs: seq<ApiConfig>, offline: bool, i: int) {
    0 <= i < |configs| && Loads(configs[i], offline)
  }

  /**
   * The names set_apis registers are those of the entries that load, in order
   * and each once, and nothing else is registered.
   */
  lemma {:induction false} RegisteredNames(configs: seq<ApiConfig>, offline: bool)
    requires DistinctNames(configs)
    ensures var reg := Registered(configs, offline);
      Distinct(reg.names) && |reg.names| <= |configs| &&
      (forall n :: n in reg.names <==> exists i :: LoadsAt(configs, offline, i) && configs[i].name == n) &&
      (forall n | n in reg.apis :: n in reg.names)
    decreases |configs|
  {
    if configs != [] {
      var init := configs[..|configs| - 1];
      var last := |configs| - 1;
      assert forall i | 0 <= i < |init| :: init[i] == configs[i];
      RegisteredNames(init, offline);
      var r := Registered(init, offline);
      forall i | LoadsAt(init, offline, i)
        ensures init[i].name != configs[last].name
      {
        assert init[i] == configs[i];
      }
      assert configs[last].name !in r.names;
      forall n | (exists i :: LoadsAt(configs, offline, i) && configs[i].name == n)
        ensures n in Registered(configs, offline).names
      {
        var i :| LoadsAt(configs, offline, i) && configs[i].name == n;
        if i < last {
          assert LoadsAt(init, offline, i) && init[i].name == n;
        }
      }
    }
  }

  /** The APIs are registered in the order the option lists their entries. */
  lemma {:induction false} RegisteredOrder(configs: seq<ApiConfig>, offline: bool)
    requires DistinctNames(configs)
    ensures var reg := Registered(configs, offline);
      forall i, j | LoadsAt(configs, offline, i) && LoadsAt(configs, offline, j) && i < j ::
        configs[i].name in reg.names && configs[j].name in reg.names &&
        IndexOf(reg.names, configs[i].name) < IndexOf(reg.names, configs[j].name)
    decreases |configs|
  {
    if configs != [] {
      var init := configs[..|configs| - 1];
      var last := |configs| - 1;
      var c := configs[last];
      assert forall i | 0 <= i < |init| :: init[i] == configs[i];
      RegisteredOrder(init, offline);
      var r := Registered(init, offline);
      var reg := Registered(configs, offline);
      NameNotRegistered(init, offline, c.name);
      assert reg.names == if Loads(c, offline) then r.names + [c.name] else r.names;
      forall i, j | LoadsAt(configs, offline, i) && LoadsAt(configs, offline, j) && i < j
        ensures configs[i].name in reg.names && configs[j].name in reg.names &&
          IndexOf(reg.names, configs[i].name) < IndexOf(reg.names, configs[j].name)
      {
        assert LoadsAt(init, offline, i) && init[i] == configs[i];
        NameRegistered(init, offline, i);
        if j < last {
          assert LoadsAt(init, offline, j) && init[j] == configs[j];
          NameRegistered(init, offline, j);
        }
        if Loads(c, offline) {
          SnocOrder(r.names, c.name, configs[i].name, configs[j].name);
        }
      }
    }
  }

  lemma NameRegistered(configs: seq<ApiConfig>, offline: bool, i: nat)
    requires DistinctNames(configs) && LoadsAt(configs, offline, i)
    ensures configs[i].name in Registered(configs, offline).names
  {
    RegisteredNames(configs, offline);
  }

  lemma NameNotRegistered(configs: seq<ApiConfig>, offline: bool, n: string)
    requires DistinctNames(configs)
    requires forall i | 0 <= i < |configs| :: configs[i].name != n
    ensures n !in Registered(configs, offline).names
  {
    RegisteredNames(configs, offline);
  }

  /** Each entry that loads is registered under its name as its own API. */
  lemma {:induction false} RegisteredApis(configs: seq<ApiConfig>, offline: bool)
    requires DistinctNames(configs)
    ensures var reg := Registered(configs, offline);
      forall i | LoadsAt(configs, offline, i) :: configs[i].name in reg.apis && reg.apis[configs[i].name] == ApiOf(configs[i], offline)
    decreases |configs|
  {
    if configs != [] {
      var init := configs[..|configs| - 1];
      var last := |configs| - 1;
      assert forall i | 0 <= i < |init| :: init[i] == configs[i];
      RegisteredApis(init, offline);
      forall i | LoadsAt(configs, offline, i) && i < last
        ensures LoadsAt(init, offline, i) && configs[i].name != configs[last].name
      {
      }
    }
  }

  /** Entry `i` loads and is flagged `default`. */
  predicate FlaggedAt(configs: seq<ApiConfig>, offline: bool, i: int) {
    LoadsAt(configs, offline, i) && configs[i].isDefault
  }

  /** A default is set exactly when some entry that loads is flagged. */
  lemma {:induction false} RegisteredHasDefault(configs: seq<ApiConfig>, offline: bool)
    ensures Registered(configs, offline).default.Some? <==> exists i :: FlaggedAt(configs, offline, i)
    decreases |configs|
  {
    if configs != [] {
      var init := configs[..|configs| - 1];
      var last := |configs| - 1;
      assert forall i | 0 <= i < |init| :: init[i] == configs[i];
      RegisteredHasDefault(init, offline);
      forall i | FlaggedAt(configs, offline, i) && i < last
        ensures FlaggedAt(init, offline, i)
      {
      }
      if Registered(init, offline).default.Some? {
        var k :| FlaggedAt(init, offline, k);
        assert FlaggedAt(configs, offline, k);
      } else if Registered(configs, offline).default.Some? {
        assert FlaggedAt(configs, offline, last);
      } else {
        assert !FlaggedAt(configs, offline, last);
      }
    }
  }

  /** The default, when set, is the API of the first flagged entry that loads. */
  lemma {:induction false} RegisteredDefault(configs: seq<ApiConfig>, offline: bool, i: nat)
    requires i < |configs| && FirstFlagged(configs, offline, i)
    ensures Registered(configs, offline).default == Some(ApiOf(configs[i], offline))
    decreases |configs|
  {
    var init := configs[..|configs| - 1];
    var last := |configs| - 1;
    assert forall k | 0 <= k < |init| :: init[k] == configs[k];
    if i < last {
      assert FirstFlagged(init, offline, i);
      RegisteredDefault(init, offline, i);
    } else {
      RegisteredHasDefault(init, offline);
      assert forall j :: !FlaggedAt(init, offline, j);
    }
  }

  /** When some loading entry is flagged, there is a first one. */
  lemma {:induction false} FirstFlaggedExists(configs: seq<ApiConfig>, offline: bool) returns (i: nat)
    requires exists k :: FlaggedAt(configs, offline, k)
    ensures i < |configs| && FirstFlagged(configs, offline, i)
    decreases |configs|
  {
    var init := configs[..|configs| - 1];
    assert forall k | 0 <= k < |init| :: init[k] == configs[k];
    if exists k :: FlaggedAt(init, offline, k) {
      i := FirstFlaggedExists(init, offline);
      forall j | 0 <= j < i
        ensures !(Loads(configs[j], offline) && configs[j].isDefault)
      {
        assert init[j] == configs[j];
      }
      assert init[i] == configs[i];
    } else {
      i := |configs| - 1;
      var k :| FlaggedAt(configs, offline, k);
      if k < i {
        assert FlaggedAt(init, offline, k);
      }
      forall j | 0 <= j < i
        ensures !(Loads(configs[j], offline) && configs[j].isDefault)
      {
        assert !FlaggedAt(init, offline, j);
        assert init[j] == configs[j];
      }
    }
  }

  /** ApiOf names the API after its entry. */
  lemma ApiOfName(c: ApiConfig, offline: bool)
    requires Loads(c, offline)
    ensures ApiOf(c, offline).name == c.name
  {
  }

  /** What set_apis leaves behind is a well-formed registry with a default API. */
  lemma BuildRegistryWellFormed(configs: seq<ApiConfig>, offline: bool)
    requires DistinctNames(configs)
    requires BuildRegistry(configs, offline).Ok?
    ensures WellFormed(BuildRegistry(configs, offline).value)
    ensures BuildRegistry(configs, offline).value.default.Some?
  {
    RegisteredNames(configs, offline);
    RegisteredApis(configs, offline);
    RegisteredHasDefault(configs, offline);
    var r := Registered(configs, offline);
    forall n | n in r.names
      ensures r.apis[n].name == n
    {
      var i :| LoadsAt(configs, offline, i) && configs[i].name == n;
      ApiOfName(configs[i], offline);
    }
    if r.default.Some? {
      var i := FirstFlaggedExists(configs, offline);
      RegisteredDefault(configs, offline, i);
      ApiOfName(configs[i], offline);
      assert LoadsAt(configs, offline, i);
    }
  }

  /** set_apis fails exactly when no entry loads: offline, exactly when the option lists no API. */
  lemma BuildRegistryFails(configs: seq<ApiConfig>, offline: bool)
    requires DistinctNames(configs)
    ensures BuildRegistry(configs, offline).Err? <==> forall i | 0 <= i < |configs| :: !Loads(configs[i], offline)
    ensures offline ==> (BuildRegistry(configs, offline).Err? <==> configs == [])
  {
    RegisteredNames(configs, offline);
    var r := Registered(configs, offline);
    if exists i | 0 <= i < |configs| :: Loads(configs[i], offline) {
      var i :| 0 <= i < |configs| && Loads(configs[i], offline);
      assert LoadsAt(configs, offline, i);
      assert configs[i].name in r.names;
    } else {
      NothingLoaded(configs, offline);
    }
    if configs == [] {
      assert r.names == [];
    } else if offline {
      assert Loads(configs[0], offline);
    }
  }

  /**
   * The default API is that of the first entry flagged `default` among those
   * that load; with none flagged, it is the first API set up.
   */
  lemma DefaultChoice(configs: seq<ApiConfig>, offline: bool, i: nat)
    requires DistinctNames(configs)
    requires i < |configs| && Loads(configs[i], offline)
    requires FirstFlagged(configs, offline, i) ||
             ((forall j | 0 <= j < |configs| :: !(Loads(configs[j], offline) && configs[j].isDefault)) &&
              (forall j | 0 <= j < i :: !Loads(configs[j], offline)))
    ensures BuildRegistry(configs, offline).Ok?
    ensures BuildRegistry(configs, offline).value.default == Some(ApiOf(configs[i], offline))
  {
    RegisteredHasDefault(configs, offline);
    RegisteredApis(configs, offline);
    BuildRegistryFails(configs, offline);
    var r := Registered(configs, offline);
    if FirstFlagged(configs, offline, i) {
      RegisteredDefault(configs, offline, i);
    } else {
      assert r.default.None?;
      FirstLoadedName(configs, offline, i);
      assert LoadsAt(configs, offline, i);
    }
  }

  /** With no earlier entry loading, entry `i` is the first API set up. */
  lemma {:induction false} FirstLoadedName(configs: seq<ApiConfig>, offline: bool, i: nat)
    requires i < |configs| && Loads(configs[i], offline)
    requires forall j | 0 <= j < i :: !Loads(configs[j], offline)
    ensures Registered(configs, offline).names != []
    ensures Registered(configs, offline).names[0] == configs[i].name
    decreases |configs|
  {
    var init := configs[..|configs| - 1];
    if i < |configs| - 1 {
      assert init[i] == configs[i];
      FirstLoadedName(init, offline, i);
    } else {
      NothingLoaded(init, offline);
    }
  }

  lemma {:induction false} NothingLoaded(configs: seq<ApiConfig>, offline: bool)
    requires forall j | 0 <= j < |configs| :: !Loads(configs[j], offline)
    ensures Registered(configs, offline).names == []
    decreases |configs|
  {
    if configs != [] {
      NothingLoaded(configs[..|configs| - 1], offline);
    }
  }

  /**
   * The header templates of the entries (or DEFAULT_HEADER_TEMPLATE) name only
   * fields out of `keys`; then so do those of the registry built from them.
   */
  lemma {:induction false} RegisteredTemplatesFit(configs: seq<ApiConfig>, offline: bool, keys: set<string>)
    requires Names(DefaultHeaderTemplate) <= keys
    requires forall i | 0 <= i < |configs| && configs[i].headerTemplate.Some? :: Names(configs[i].headerTemplate.value) <= keys
    ensures TemplatesFit(Registered(configs, offline), keys)
    decreases |configs|
  {
    if configs != [] {
      var init := configs[..|configs| - 1];
      assert forall i | 0 <= i < |init| :: init[i] == configs[i];
      RegisteredTemplatesFit(init, offline, keys);
    }
  }

  // ---- The handler for an unreadable page, as written ----

  /**
   * set_apis as written: the handler for HTTPError formats its warning from
   * `self.url`, an attribute the preprocessor does not have, so the first
   * entry whose page cannot be read makes set_apis raise instead of skipping it.
   */
  function BuildRegistryAsWritten(configs: seq<ApiConfig>, offline: bool): Result<Registry, SetupError> {
    match FirstUnreadable(configs, offline)
    case Some(name) => Err(HandlerFails(name))
    case None => BuildRegistry(configs, offline)
  }

  /** The name of the first entry whose page cannot be read. */
  function FirstUnreadable(configs: seq<ApiConfig>, offline: bool): Option<string> {
    if configs == [] then None
    else if !Loads(configs[0], offline) then Some(configs[0].name)
    else FirstUnreadable(configs[1..], offline)
  }

  /**
   * The discrepancy: online, with one unreadable page ahead of a readable one,
   * the written code aborts, while skipping the entry, as its warning says it
   * does, sets up the other API.
   */
  lemma UnreadablePageAborts(configs: seq<ApiConfig>)
    requires configs == [ApiConfig("a", "http://a", None, false, None),
                         ApiConfig("b", "http://b", None, false, Some(map[]))]
    ensures BuildRegistryAsWritten(configs, false) == Err(HandlerFails("a"))
    ensures BuildRegistry(configs, false).Ok?
    ensures BuildRegistry(configs, false).value.names == ["b"]
  {
    assert configs[1..] == [configs[1]] && configs[1..][1..] == [];
    assert configs[..1] == [configs[0]] && configs[..1][..0] == [];
    assert Registered(configs[..1], false) == Registered([], false);
  }

  /** Where every page can be read, the written code and the corrected one agree. */
  lemma {:induction false} AsWrittenAgrees(configs: seq<ApiConfig>, offline: bool)
    requires forall i | 0 <= i < |configs| :: Loads(configs[i], offline)
    ensures BuildRegistryAsWritten(configs, offline) == BuildRegistry(configs, offline)
    decreases |configs|
  {
    AllReadable(configs, offline);
  }

  lemma {:induction false} AllReadable(configs: seq<ApiConfig>, offline: bool)
    requires forall i | 0 <= i < |configs| :: Loads(configs[i], offline)
    ensures FirstUnreadable(configs, offline) == None
    decreases |configs|
  {
    if configs != [] {
      assert forall i | 0 <= i < |configs[1..]| :: configs[1..][i] == configs[i + 1];
      AllReadable(configs[1..], offline);
    }
  }
}
