/**
 * One documented API (class API of apilinks.py): its name, the base url of
 * its reference page, the template its headings follow, and the ids of the
 * headings found on the page.
 */
module Apis {
  import opened Wrappers
  import opened Template
  import Anchor

  /** DEFAULT_HEADER_TEMPLATE, '{verb} {command}'. */
  const DefaultHeaderTemplate: Template := [Field("verb"), Text(" "), Field("command")]

  /**
   * An API as built by its constructor. Nothing updates an API afterwards, so
   * it is a value. `headers` maps each heading id on the reference page to the
   * heading's text.
   */
  datatype Api = Api(name: string, url: string, headerTemplate: Template, headers: map<string, string>)

  /** str.rstrip('/'): drops every trailing slash. */
  function RStripSlash(u: string): string {
    if u != [] && u[|u| - 1] == '/' then RStripSlash(u[..|u| - 1]) else u
  }

  /** rstrip('/') keeps a prefix of the url, drops only slashes, and leaves no slash at the end. */
  lemma {:induction false} RStripSlashSplits(u: string)
    ensures var r := RStripSlash(u);
      |r| <= |u| && r == u[..|r|] &&
      (forall k | |r| <= k < |u| :: u[k] == '/') &&
      (r == [] || r[|r| - 1] != '/')
    decreases |u|
  {
    if u != [] && u[|u| - 1] == '/' {
      var v := u[..|u| - 1];
      RStripSlashSplits(v);
      var r := RStripSlash(v);
      assert v[..|r|] == u[..|r|];
    }
  }

  /** Stripping twice strips nothing more. */
  lemma RStripSlashIdempotent(u: string)
    ensures RStripSlash(RStripSlash(u)) == RStripSlash(u)
  {
    RStripSlashSplits(u);
  }

  /**
   * API.__init__ (apilinks.py:20-25). `fetched` stands for the headings that
   * _fill_headers reads off the reference page: the page is only read online,
   * offline the API knows no headings.
   */
  function NewApi(name: string, url: string, htempl: Template, offline: bool, fetched: map<string, string>): (a: Api)
    ensures a.name == name && a.headerTemplate == htempl
    ensures a.url == RStripSlash(url) && (a.url == [] || a.url[|a.url| - 1] != '/')
    ensures offline ==> a.headers == map[]
    ensures !offline ==> a.headers == fetched
  {
    RStripSlashSplits(url);
    Api(name, RStripSlash(url), htempl, if offline then map[] else fetched)
  }

  /** API.format_header: the heading the API's page would give the method. */
  function FormatHeader(a: Api, fields: map<string, string>): string
    requires Fits(a.headerTemplate, fields)
  {
    Render(a.headerTemplate, fields)
  }

  /** API.format_anchor: the id of that heading. */
  function FormatAnchor(a: Api, fields: map<string, string>): (anchor: string)
    requires Fits(a.headerTemplate, fields)
    ensures Anchor.IsSlug(anchor)
  {
    Anchor.SlugIsSlug(FormatHeader(a, fields));
    Anchor.Slug(FormatHeader(a, fields))
  }

  /** The page of `a` has a heading for the method. */
  predicate HasAnchor(a: Api, fields: map<string, string>)
    requires Fits(a.headerTemplate, fields)
  {
    FormatAnchor(a, fields) in a.headers
  }

  /** API.gen_full_url: the url of the heading, "<url>/#<anchor>". */
  function GenFullUrl(a: Api, fields: map<string, string>): string
    requires Fits(a.headerTemplate, fields)
  {
    a.url + "/#" + FormatAnchor(a, fields)
  }

  /** A url cut at its first '#': what comes before, and the fragment if there is one. */
  function SplitAtHash(u: string): (string, Option<string>) {
    if u == [] then ([], None)
    else if u[0] == '#' then ([], Some(u[1..]))
    else
      var (base, fragment) := SplitAtHash(u[1..]);
      ([u[0]] + base, fragment)
  }

  lemma {:induction false} SplitAtFirstHash(x: string, y: string)
    requires '#' !in x
    ensures SplitAtHash(x + ['#'] + y) == (x, Some(y))
    decreases |x|
  {
    if x == [] {
      assert x + ['#'] + y == ['#'] + y;
    } else {
      assert (x + ['#'] + y)[1..] == x[1..] + ['#'] + y;
      SplitAtFirstHash(x[1..], y);
      assert [x[0]] + x[1..] == x;
    }
  }

  /**
   * The full url reads back: for a base url without '#', the link is the page
   * "<url>/" and its fragment is exactly the anchor, a slug.
   */
  lemma FullUrlSplits(a: Api, fields: map<string, string>)
    requires Fits(a.headerTemplate, fields)
    requires '#' !in a.url
    ensures SplitAtHash(GenFullUrl(a, fields)) == (a.url + "/", Some(FormatAnchor(a, fields)))
    ensures Anchor.IsSlug(FormatAnchor(a, fields))
  {
    var anchor := FormatAnchor(a, fields);
    assert GenFullUrl(a, fields) == (a.url + "/") + ['#'] + anchor;
    SplitAtFirstHash(a.url + "/", anchor);
  }

  /** With the default header template, the heading is "<verb> <command>". */
  lemma DefaultHeader(a: Api, fields: map<string, string>)
    requires a.headerTemplate == DefaultHeaderTemplate
    requires "verb" in fields && "command" in fields
    ensures Fits(a.headerTemplate, fields)
    ensures FormatHeader(a, fields) == fields["verb"] + " " + fields["command"]
  {
    var t := DefaultHeaderTemplate;
    assert Names(t) == {"verb", "command"} by {
      assert t[0].name == "verb" && t[2].name == "command";
    }
    assert t[1..][1..] == [Field("command")] && t[1..][1..][1..] == [];
    assert Render(t[1..][1..], fields) == fields["command"];
    assert Render(t[1..], fields) == " " + fields["command"];
  }
}
