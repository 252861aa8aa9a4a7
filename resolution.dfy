/**
 * Turning a reference into a url (find_url, get_url, gen_url_offline and
 * gen_url of apilinks.py), over the registry of APIs that set_apis builds.
 */
module Resolution {
  import opened Wrappers
  import opened Template
  import opened Apis

  /**
   * A reference found in the text (class Reference): the whole matched text,
   * the API prefix, the HTTP verb and the command. A part is None when the
   * link pattern has no group of that name or the group did not take part.
   */
  datatype Reference = Reference(source: Option<string>, prefix: Option<string>, verb: Option<string>, command: Option<string>)

  /**
   * One match of the link pattern: its span in the content and its groupdict(),
   * which holds every named group of the pattern (None for a group that did
   * not take part).
   */
  datatype Match = Match(start: nat, end: nat, groups: map<string, Option<string>>)

  /** The value of a named group, None when the pattern has no such group. */
  function Group(m: Match, name: string): Option<string> {
    if name in m.groups then m.groups[name] else None
  }

  /** Reference().init_from_match(match): copies the four groups, leaving absent ones None. */
  function InitFromMatch(m: Match): Reference {
    Reference(Group(m, "source"), Group(m, "prefix"), Group(m, "verb"), Group(m, "command"))
  }

  /** How str.format writes a value that may be None. */
  function Show(o: Option<string>): string {
    match o
    case Some(s) => s
    case None => "None"
  }

  /** Python truthiness of an optional string: present and non-empty. */
  predicate Truthy(o: Option<string>) {
    o.Some? && o.value != ""
  }

  const HeaderKeys: set<string> := {"verb", "command"}
  const RefKeys: set<string> := {"source", "prefix", "verb", "command"}

  /** dict(verb=verb, command=command) */
  function HeaderFields(verb: Option<string>, command: Option<string>): (f: map<string, string>)
    ensures f.Keys == HeaderKeys
  {
    map["verb" := Show(verb), "command" := Show(command)]
  }

  /** ref.__dict__ */
  function RefFields(ref: Reference): (f: map<string, string>)
    ensures f.Keys == RefKeys
  {
    map["source" := Show(ref.source), "prefix" := Show(ref.prefix), "verb" := Show(ref.verb), "command" := Show(ref.command)]
  }

  /** The groupdict() of a match whose four named groups hold the parts of `ref`. */
  function GroupsOf(ref: Reference): map<string, Option<string>> {
    map["source" := ref.source, "prefix" := ref.prefix, "verb" := ref.verb, "command" := ref.command]
  }

  /** init_from_match gives back the reference whose parts the groups of the match hold. */
  lemma InitFromMatchRoundTrip(ref: Reference, start: nat, end: nat)
    ensures InitFromMatch(Match(start, end, GroupsOf(ref))) == ref
  {
  }

  /**
   * init_from_match reads only the four named groups: two matches that agree
   * on those (a missing group counting as None) give the same reference,
   * whatever other groups or span they have.
   */
  lemma InitFromMatchReadsNamedGroups(m1: Match, m2: Match)
    requires forall k | k in RefKeys :: Group(m1, k) == Group(m2, k)
    ensures InitFromMatch(m1) == InitFromMatch(m2)
  {
    assert "source" in RefKeys && "prefix" in RefKeys && "verb" in RefKeys && "command" in RefKeys;
  }

  /** Why a reference cannot be turned into a url (GenURLError and the data of its message). */
  datatype GenUrlError =
    | WrongPrefix(prefix: string, known: seq<string>)
    | NotFound(verb: Option<string>, command: Option<string>, scope: Option<string>)
    | Ambiguous(verb: Option<string>, command: Option<string>, candidates: seq<string>)
    | NoDefault

  /**
   * The preprocessor's APIs: their names in the order they were set up (the
   * order of the OrderedDict), the APIs by name, and the default API.
   */
  datatype Registry = Registry(names: seq<string>, apis: map<string, Api>, default: Option<Api>)

  predicate Distinct(s: seq<string>) {
    forall i, j | 0 <= i < j < |s| :: s[i] != s[j]
  }

  /** What set_apis guarantees about the registry it builds. */
  predicate WellFormed(reg: Registry) {
    Distinct(reg.names) &&
    (forall n | n in reg.names :: n in reg.apis && reg.apis[n].name == n) &&
    (forall n | n in reg.apis :: n in reg.names) &&
    (reg.default.Some? ==> reg.default.value.name in reg.apis && reg.apis[reg.default.value.name] == reg.default.value)
  }

  /** Every API's header template names only fields out of `keys`. */
  predicate TemplatesFit(reg: Registry, keys: set<string>) {
    forall n | n in reg.apis :: Names(reg.apis[n].headerTemplate) <= keys
  }

  /** The names among `names` whose API has a heading for the method, in the same order. */
  function MatchingIn(reg: Registry, names: seq<string>, fields: map<string, string>): (found: seq<string>)
    requires forall n | n in names :: n in reg.apis && Fits(reg.apis[n].headerTemplate, fields)
    ensures forall n | n in found :: n in names
  {
    if names == [] then []
    else
      var last := names[|names| - 1];
      MatchingIn(reg, names[..|names| - 1], fields) + (if HasAnchor(reg.apis[last], fields) then [last] else [])
  }

  /** Looking at one more API of the list: it is found when it has the heading. */
  lemma MatchingInStep(reg: Registry, names: seq<string>, i: nat, fields: map<string, string>)
    requires i < |names|
    requires forall n | n in names :: n in reg.apis && Fits(reg.apis[n].headerTemplate, fields)
    ensures names[i] in reg.apis && Fits(reg.apis[names[i]].headerTemplate, fields)
    ensures MatchingIn(reg, names[..i + 1], fields)
         == MatchingIn(reg, names[..i], fields) + (if HasAnchor(reg.apis[names[i]], fields) then [names[i]] else [])
  {
    assert names[..i + 1][..i] == names[..i];
    assert names[i] in names;
  }

  /** The position of the first occurrence of `x` in `s`. */
  function IndexOf(s: seq<string>, x: string): (k: nat)
    requires x in s
    ensures k < |s| && s[k] == x && x !in s[..k]
  {
    if s[0] == x then 0
    else
      var j := IndexOf(s[1..], x);
      assert s[..j + 1] == [s[0]] + s[1..][..j];
      j + 1
  }

  lemma IndexOfUnique(s: seq<string>, x: string, k: nat)
    requires k < |s| && s[k] == x && x !in s[..k]
    ensures IndexOf(s, x) == k
  {
    var j := IndexOf(s, x);
    forall i | 0 <= i < k
      ensures s[i] != x
    {
      assert s[..k][i] == s[i];
    }
    forall i | 0 <= i < j
      ensures s[i] != x
    {
      assert s[..j][i] == s[i];
    }
  }

  /** Appending to a list does not move what it already holds. */
  lemma IndexOfSnoc(s: seq<string>, y: string, x: string)
    requires x in s
    ensures IndexOf(s + [y], x) == IndexOf(s, x)
  {
    var k := IndexOf(s, x);
    assert (s + [y])[..k] == s[..k];
    IndexOfUnique(s + [y], x, k);
  }

  lemma IndexOfLast(s: seq<string>, y: string)
    requires y !in s
    ensures IndexOf(s + [y], y) == |s|
  {
    assert (s + [y])[..|s|] == s;
    IndexOfUnique(s + [y], y, |s|);
  }

  /** Appending to a list keeps the order of what it already holds, and puts the new name last. */
  lemma SnocOrder(s: seq<string>, y: string, x: string, z: string)
    requires x in s && y !in s
    ensures IndexOf(s + [y], x) < IndexOf(s + [y], y)
    ensures z in s && IndexOf(s, x) < IndexOf(s, z) ==> IndexOf(s + [y], x) < IndexOf(s + [y], z)
  {
    IndexOfSnoc(s, y, x);
    IndexOfLast(s, y);
    if z in s {
      IndexOfSnoc(s, y, z);
    }
  }

  /** Every name of `a` is one of `b`, and `a` lists them in the order they have in `b`. */
  predicate InOrderOf(a: seq<string>, b: seq<string>) {
    (forall x | x in a :: x in b) &&
    forall i, j | 0 <= i < j < |a| :: IndexOf(b, a[i]) < IndexOf(b, a[j])
  }

  /** The loop of find_url keeps the registry order: the APIs found are listed as the registry lists them. */
  lemma {:induction false} MatchingInOrder(reg: Registry, names: seq<string>, fields: map<string, string>)
    requires forall n | n in names :: n in reg.apis && Fits(reg.apis[n].headerTemplate, fields)
    requires Distinct(names)
    ensures InOrderOf(MatchingIn(reg, names, fields), names)
    decreases |names|
  {
    if names != [] {
      var init := names[..|names| - 1];
      var last := names[|names| - 1];
      assert names == init + [last];
      assert Distinct(init);
      assert last !in init;
      MatchingInOrder(reg, init, fields);
      var f0 := MatchingIn(reg, init, fields);
      var found := MatchingIn(reg, names, fields);
      forall x | x in f0
        ensures IndexOf(names, x) == IndexOf(init, x)
      {
        IndexOfSnoc(init, last, x);
      }
      if HasAnchor(reg.apis[last], fields) {
        IndexOfLast(init, last);
        forall i, j | 0 <= i < j < |found|
          ensures IndexOf(names, found[i]) < IndexOf(names, found[j])
        {
          assert found[i] == f0[i] && f0[i] in f0;
          if j < |f0| {
            assert found[j] == f0[j] && f0[j] in f0;
          } else {
            assert found[j] == last;
          }
        }
      } else {
        assert found == f0;
      }
    }
  }

  /** The APIs that document the method are exactly those found, each once. */
  lemma {:induction false} MatchingInSpec(reg: Registry, names: seq<string>, fields: map<string, string>)
    requires forall n | n in names :: n in reg.apis && Fits(reg.apis[n].headerTemplate, fields)
    ensures var found := MatchingIn(reg, names, fields);
      (forall n :: n in found <==> n in names && HasAnchor(reg.apis[n], fields)) &&
      |found| <= |names| &&
      (Distinct(names) ==> Distinct(found))
    decreases |names|
  {
    if names != [] {
      var init := names[..|names| - 1];
      var last := names[|names| - 1];
      assert names == init + [last];
      MatchingInSpec(reg, init, fields);
      if Distinct(names) {
        assert Distinct(init);
        assert last !in init;
      }
    }
  }

  /**
   * find_url: the method is looked up in every API's headings; it resolves
   * when exactly one API has it.
   */
  function FindUrl(reg: Registry, verb: Option<string>, command: Option<string>): Result<string, GenUrlError>
    requires WellFormed(reg) && TemplatesFit(reg, HeaderKeys)
  {
    var fields := HeaderFields(verb, command);
    var found := MatchingIn(reg, reg.names, fields);
    if |found| == 1 then Ok(GenFullUrl(reg.apis[found[0]], fields))
    else if |found| > 1 then Err(Ambiguous(verb, command, found))
    else Err(NotFound(verb, command, None))
  }

  /** The API named `n` documents the method. */
  predicate Documents(reg: Registry, n: string, verb: Option<string>, command: Option<string>)
    requires TemplatesFit(reg, HeaderKeys)
  {
    n in reg.apis && HasAnchor(reg.apis[n], HeaderFields(verb, command))
  }

  /** The APIs find_url collects are exactly those documenting the method, each once. */
  lemma FoundSpec(reg: Registry, verb: Option<string>, command: Option<string>)
    requires WellFormed(reg) && TemplatesFit(reg, HeaderKeys)
    ensures var found := MatchingIn(reg, reg.names, HeaderFields(verb, command));
      Distinct(found) && (forall n :: n in found <==> Documents(reg, n, verb, command)) &&
      InOrderOf(found, reg.names)
  {
    MatchingInSpec(reg, reg.names, HeaderFields(verb, command));
    MatchingInOrder(reg, reg.names, HeaderFields(verb, command));
  }

  /** `n` is the one API that documents the method. */
  ghost predicate SoleDocumenter(reg: Registry, n: string, verb: Option<string>, command: Option<string>)
    requires TemplatesFit(reg, HeaderKeys)
  {
    Documents(reg, n, verb, command) && forall k | Documents(reg, k, verb, command) :: k == n
  }

  lemma AtMostOne(s: seq<string>, n: string)
    requires Distinct(s) && forall x | x in s :: x == n
    ensures |s| <= 1
  {
    if |s| > 1 {
      FirstTwo(s);
    }
  }

  lemma FirstTwo(s: seq<string>)
    requires Distinct(s) && |s| > 1
    ensures s[0] in s && s[1] in s && s[0] != s[1]
  {
  }

  /** find_url gives a url when one API alone documents the method, and it is that API's url for it. */
  lemma FindUrlResolves(reg: Registry, n: string, verb: Option<string>, command: Option<string>)
    requires WellFormed(reg) && TemplatesFit(reg, HeaderKeys)
    requires SoleDocumenter(reg, n, verb, command)
    ensures FindUrl(reg, verb, command) == Ok(GenFullUrl(reg.apis[n], HeaderFields(verb, command)))
  {
    var found := MatchingIn(reg, reg.names, HeaderFields(verb, command));
    FoundSpec(reg, verb, command);
    assert n in found;
    AtMostOne(found, n);
  }

  /** find_url gives a url only when one API alone documents the method. */
  lemma FindUrlOnlyIfSole(reg: Registry, verb: Option<string>, command: Option<string>)
    requires WellFormed(reg) && TemplatesFit(reg, HeaderKeys)
    requires FindUrl(reg, verb, command).Ok?
    ensures exists n :: SoleDocumenter(reg, n, verb, command)
  {
    var found := MatchingIn(reg, reg.names, HeaderFields(verb, command));
    FoundSpec(reg, verb, command);
    assert found[0] in found;
    assert SoleDocumenter(reg, found[0], verb, command);
  }

  /** find_url reports NotFound exactly when no API documents the method. */
  lemma FindUrlNotFound(reg: Registry, verb: Option<string>, command: Option<string>)
    requires WellFormed(reg) && TemplatesFit(reg, HeaderKeys)
    ensures FindUrl(reg, verb, command) == Err(NotFound(verb, command, None))
        <==> forall n :: !Documents(reg, n, verb, command)
  {
    var fields := HeaderFields(verb, command);
    var found := MatchingIn(reg, reg.names, fields);
    MatchingInSpec(reg, reg.names, fields);
    if found != [] {
      assert found[0] in found;
      assert Documents(reg, found[0], verb, command);
    } else {
      forall n
        ensures !Documents(reg, n, verb, command)
      {
        assert n !in found;
      }
    }
  }

  /** find_url reports Ambiguous when several APIs document the method, and lists all of them. */
  lemma FindUrlAmbiguous(reg: Registry, verb: Option<string>, command: Option<string>)
    requires WellFormed(reg) && TemplatesFit(reg, HeaderKeys)
    ensures var r := FindUrl(reg, verb, command);
      r.Err? && r.error.Ambiguous? ==>
        r.error.verb == verb && r.error.command == command &&
        Distinct(r.error.candidates) && |r.error.candidates| >= 2 &&
        (forall n :: n in r.error.candidates <==> Documents(reg, n, verb, command)) &&
        InOrderOf(r.error.candidates, reg.names)
  {
    FoundSpec(reg, verb, command);
  }

  /** get_url: the method is looked up only in the API the prefix names. */
  function GetUrl(reg: Registry, prefix: string, verb: Option<string>, command: Option<string>): (r: Result<string, GenUrlError>)
    requires WellFormed(reg) && TemplatesFit(reg, HeaderKeys)
    ensures r.Ok? <==> Documents(reg, prefix, verb, command)
    ensures r.Ok? ==> r.value == GenFullUrl(reg.apis[prefix], HeaderFields(verb, command))
    ensures r == Err(WrongPrefix(prefix, reg.names)) <==> prefix !in reg.apis
    ensures r == Err(NotFound(verb, command, Some(prefix))) <==> prefix in reg.apis && !Documents(reg, prefix, verb, command)
  {
    var fields := HeaderFields(verb, command);
    if prefix in reg.apis then
      if HasAnchor(reg.apis[prefix], fields) then Ok(GenFullUrl(reg.apis[prefix], fields))
      else Err(NotFound(verb, command, Some(prefix)))
    else Err(WrongPrefix(prefix, reg.names))
  }

  /** When find_url resolves a method, naming its API as the prefix gives the same url. */
  lemma FindAgreesWithGet(reg: Registry, verb: Option<string>, command: Option<string>, n: string)
    requires WellFormed(reg) && TemplatesFit(reg, HeaderKeys)
    requires FindUrl(reg, verb, command).Ok? && Documents(reg, n, verb, command)
    ensures GetUrl(reg, n, verb, command) == FindUrl(reg, verb, command)
  {
    FindUrlOnlyIfSole(reg, verb, command);
    var k :| SoleDocumenter(reg, k, verb, command);
    FindUrlResolves(reg, k, verb, command);
  }

  /**
   * When a prefix resolves a method, the unprefixed lookup gives the same url
   * or reports the method ambiguous, listing that API among the candidates.
   */
  lemma GetAgreesWithFind(reg: Registry, prefix: string, verb: Option<string>, command: Option<string>)
    requires WellFormed(reg) && TemplatesFit(reg, HeaderKeys)
    requires GetUrl(reg, prefix, verb, command).Ok?
    ensures var f := FindUrl(reg, verb, command);
      f == GetUrl(reg, prefix, verb, command) ||
      (f.Err? && f.error.Ambiguous? && prefix in f.error.candidates)
  {
    assert Documents(reg, prefix, verb, command);
    if SoleDocumenter(reg, prefix, verb, command) {
      FindUrlResolves(reg, prefix, verb, command);
    } else {
      FindUrlAmbiguous(reg, verb, command);
      FindUrlNotFound(reg, verb, command);
      if FindUrl(reg, verb, command).Ok? {
        FindUrlOnlyIfSole(reg, verb, command);
      }
    }
  }

  /**
   * gen_url_offline: no page is consulted; the prefix (or else the default
   * API) alone decides, and the heading is formatted from the whole reference.
   */
  function GenUrlOffline(reg: Registry, ref: Reference): (r: Result<string, GenUrlError>)
    requires WellFormed(reg) && TemplatesFit(reg, RefKeys)
    ensures Truthy(ref.prefix) ==>
      (r.Ok? <==> ref.prefix.value in reg.apis) &&
      (r.Ok? ==> r.value == GenFullUrl(reg.apis[ref.prefix.value], RefFields(ref))) &&
      (r.Err? ==> r.error == WrongPrefix(ref.prefix.value, reg.names))
    ensures !Truthy(ref.prefix) ==>
      (r.Ok? <==> reg.default.Some?) &&
      (r.Ok? ==> r.value == GenFullUrl(reg.apis[reg.default.value.name], RefFields(ref))) &&
      (r.Err? ==> r.error == NoDefault)
  {
    if Truthy(ref.prefix) then
      if ref.prefix.value !in reg.apis then Err(WrongPrefix(ref.prefix.value, reg.names))
      else Ok(GenFullUrl(reg.apis[ref.prefix.value], RefFields(ref)))
    else if reg.default.None? then Err(NoDefault)
    else Ok(GenFullUrl(reg.default.value, RefFields(ref)))
  }

  /** gen_url: a non-empty prefix goes to get_url, anything else to find_url. */
  function GenUrl(reg: Registry, ref: Reference): Result<string, GenUrlError>
    requires WellFormed(reg) && TemplatesFit(reg, HeaderKeys)
  {
    if Truthy(ref.prefix) then GetUrl(reg, ref.prefix.value, ref.verb, ref.command)
    else FindUrl(reg, ref.verb, ref.command)
  }

  /**
   * Online, a prefixed reference resolves exactly when the named API has the
   * heading; an unprefixed one exactly when one API alone has it.
   */
  lemma GenUrlOutcome(reg: Registry, ref: Reference)
    requires WellFormed(reg) && TemplatesFit(reg, HeaderKeys)
    ensures Truthy(ref.prefix) ==> (GenUrl(reg, ref).Ok? <==> Documents(reg, ref.prefix.value, ref.verb, ref.command))
    ensures !Truthy(ref.prefix) ==> (GenUrl(reg, ref).Ok? <==> exists n :: SoleDocumenter(reg, n, ref.verb, ref.command))
  {
    if !Truthy(ref.prefix) {
      if GenUrl(reg, ref).Ok? {
        FindUrlOnlyIfSole(reg, ref.verb, ref.command);
      } else if exists n :: SoleDocumenter(reg, n, ref.verb, ref.command) {
        var n :| SoleDocumenter(reg, n, ref.verb, ref.command);
        FindUrlResolves(reg, n, ref.verb, ref.command);
      }
    }
  }

  /** Every header template can be formatted in the mode's format dictionary. */
  predicate Renderable(reg: Registry, offline: bool) {
    TemplatesFit(reg, if offline then RefKeys else HeaderKeys)
  }

  /** The url the preprocessor computes for a reference in the given mode. */
  function Resolve(reg: Registry, offline: bool, ref: Reference): Result<string, GenUrlError>
    requires WellFormed(reg) && Renderable(reg, offline)
  {
    if offline then GenUrlOffline(reg, ref) else GenUrl(reg, ref)
  }

  /** The registry with every API's headings forgotten. */
  function EraseHeaders(reg: Registry): Registry {
    Registry(reg.names,
             map n | n in reg.apis :: reg.apis[n].(headers := map[]),
             if reg.default.Some? then Some(reg.default.value.(headers := map[])) else None)
  }

  /** Offline resolution never looks at the pages: forgetting every heading changes nothing. */
  lemma OfflineIgnoresHeaders(reg: Registry, ref: Reference)
    requires WellFormed(reg) && TemplatesFit(reg, RefKeys)
    ensures WellFormed(EraseHeaders(reg)) && TemplatesFit(EraseHeaders(reg), RefKeys)
    ensures GenUrlOffline(EraseHeaders(reg), ref) == GenUrlOffline(reg, ref)
  {
    var e := EraseHeaders(reg);
    if Truthy(ref.prefix) && ref.prefix.value in reg.apis {
      var a := reg.apis[ref.prefix.value];
      assert GenFullUrl(e.apis[ref.prefix.value], RefFields(ref)) == GenFullUrl(a, RefFields(ref)) by {
        assert e.apis[ref.prefix.value] == a.(headers := map[]);
      }
    }
  }

  /**
   * A method resolved online through a prefix has the url offline mode gives
   * the same reference: both format the heading from the same verb and
   * command, and only the online mode checks the page.
   */
  lemma OnlineAgreesWithOffline(reg: Registry, ref: Reference)
    requires WellFormed(reg) && TemplatesFit(reg, HeaderKeys)
    requires Truthy(ref.prefix) && GenUrl(reg, ref).Ok?
    ensures TemplatesFit(reg, RefKeys)
    ensures GenUrlOffline(reg, ref) == GenUrl(reg, ref)
  {
    var a := reg.apis[ref.prefix.value];
    var h := HeaderFields(ref.verb, ref.command);
    var f := RefFields(ref);
    RenderAgrees(a.headerTemplate, h, f);
    assert GenFullUrl(a, h) == GenFullUrl(a, f);
  }

  /**
   * A url the preprocessor computes is never empty, so the branch of
   * process_links that reports an empty url is never taken; it always names
   * the heading's page and its anchor.
   */
  lemma ResolvedUrlShape(reg: Registry, offline: bool, ref: Reference)
    requires WellFormed(reg) && Renderable(reg, offline)
    requires Resolve(reg, offline, ref).Ok?
    ensures var u := Resolve(reg, offline, ref).value;
      u != "" && exists a :: a in reg.apis.Values && a.url + "/#" <= u
  {
    var u := Resolve(reg, offline, ref).value;
    var n: string;
    var fields: map<string, string>;
    if offline {
      fields := RefFields(ref);
      n := if Truthy(ref.prefix) then ref.prefix.value else reg.default.value.name;
    } else {
      fields := HeaderFields(ref.verb, ref.command);
      if Truthy(ref.prefix) {
        n := ref.prefix.value;
      } else {
        var found := MatchingIn(reg, reg.names, fields);
        n := found[0];
      }
    }
    var a := reg.apis[n];
    assert u == a.url + "/#" + FormatAnchor(a, fields);
    assert a in reg.apis.Values;
  }
}
