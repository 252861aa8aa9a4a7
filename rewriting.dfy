/**
 * Rewriting a Markdown text (process_links of apilinks.py): every match of the
 * link pattern is replaced by a link to the method's heading, or left as it
 * was, with a warning, when no url can be found for it.
 */
module Rewriting {
  import opened Wrappers
  import opened Template
  import opened Resolution

  /** The default output-template option, '[{verb} {command}]({url})'. */
  const DefaultOutputTemplate: Template :=
    [Text("["), Field("verb"), Text(" "), Field("command"), Text("]("), Field("url"), Text(")")]

  /** The fields the output template can name. */
  const OutputKeys: set<string> := RefKeys + {"url"}

  /** The format dictionary of the output template: url=url and ref.__dict__. */
  function OutputFields(url: string, ref: Reference): (f: map<string, string>)
    ensures f.Keys == OutputKeys
  {
    RefFields(ref)["url" := url]
  }

  /**
   * What re.sub writes when the callback returns ref.source: the matched
   * source text, or nothing when the pattern has no `source` group (re.sub
   * writes nothing for a callback that returns None).
   */
  function SourceText(ref: Reference): string {
    ref.source.GetOr("")
  }

  /** What _sub logs. */
  datatype Warning =
    | Skipped(error: GenUrlError)        // "<error> Skipping"
    | NoUrl(source: Option<string>)      // "Could not find method <source> skipping"

  /** The preprocessor's settings that _sub reads. */
  predicate Ready(reg: Registry, offline: bool, output: Template) {
    WellFormed(reg) && Renderable(reg, offline) && Names(output) <= OutputKeys
  }

  /** _sub: the text that replaces one match, and the warning logged for it. */
  function Sub(reg: Registry, offline: bool, output: Template, m: Match): (string, Option<Warning>)
    requires Ready(reg, offline, output)
  {
    var ref := InitFromMatch(m);
    match Resolve(reg, offline, ref)
    case Err(e) => (SourceText(ref), Some(Skipped(e)))
    case Ok(url) =>
      if url != "" then (Render(output, OutputFields(url, ref)), None)
      else (SourceText(ref), Some(NoUrl(ref.source)))
  }

  /** The matches lie inside the content, in order, from `pos` on, none overlapping the next. */
  predicate Ordered(content: string, pos: nat, ms: seq<Match>)
    decreases |ms|
  {
    pos <= |content| &&
    (ms != [] ==> pos <= ms[0].start <= ms[0].end <= |content| && Ordered(content, ms[0].end, ms[1..]))
  }

  /**
   * link_pattern.sub(_sub, content) from position `pos`: the text between the
   * matches is copied, and each match is replaced by what _sub returns.
   */
  function Rewrite(reg: Registry, offline: bool, output: Template, content: string, pos: nat, ms: seq<Match>): string
    requires Ready(reg, offline, output) && Ordered(content, pos, ms)
    decreases |ms|
  {
    if ms == [] then content[pos..]
    else content[pos..ms[0].start] + Sub(reg, offline, output, ms[0]).0 + Rewrite(reg, offline, output, content, ms[0].end, ms[1..])
  }

  /** The warnings logged while rewriting, in the order of the matches. */
  function Warnings(reg: Registry, offline: bool, output: Template, ms: seq<Match>): seq<Warning>
    requires Ready(reg, offline, output)
  {
    if ms == [] then []
    else
      var w := Sub(reg, offline, output, ms[|ms| - 1]).1;
      Warnings(reg, offline, output, ms[..|ms| - 1]) + (if w.Some? then [w.value] else [])
  }

  /** One step of the rewrite: the text up to match `i`, its replacement, and the rest. */
  lemma RewriteStep(reg: Registry, offline: bool, output: Template, content: string, pos: nat, ms: seq<Match>, i: nat)
    requires Ready(reg, offline, output) && i < |ms| && Ordered(content, pos, ms[i..])
    ensures pos <= ms[i].start <= ms[i].end <= |content| && Ordered(content, ms[i].end, ms[i + 1..])
    ensures Rewrite(reg, offline, output, content, pos, ms[i..])
         == content[pos..ms[i].start] + Sub(reg, offline, output, ms[i]).0 + Rewrite(reg, offline, output, content, ms[i].end, ms[i + 1..])
    ensures var w := Sub(reg, offline, output, ms[i]).1;
      Warnings(reg, offline, output, ms[..i + 1]) == Warnings(reg, offline, output, ms[..i]) + (if w.Some? then [w.value] else [])
  {
    assert ms[i..][0] == ms[i] && ms[i..][1..] == ms[i + 1..];
    assert ms[..i + 1][..i] == ms[..i] && ms[..i + 1][i] == ms[i];
  }

  /** A match the preprocessor resolves: a reference it can turn into a url. */
  predicate Resolves(reg: Registry, offline: bool, m: Match)
    requires WellFormed(reg) && Renderable(reg, offline)
  {
    Resolve(reg, offline, InitFromMatch(m)).Ok?
  }

  /**
   * A match that cannot be resolved is written back as its source text, with
   * a warning carrying the error; one that resolves is written through the
   * output template and logs nothing.
   */
  lemma SubOutcome(reg: Registry, offline: bool, output: Template, m: Match)
    requires Ready(reg, offline, output)
    ensures var ref := InitFromMatch(m);
      var (text, warning) := Sub(reg, offline, output, m);
      (!Resolves(reg, offline, m) ==>
        text == SourceText(ref) && warning == Some(Skipped(Resolve(reg, offline, ref).error))) &&
      (Resolves(reg, offline, m) ==>
        text == Render(output, OutputFields(Resolve(reg, offline, ref).value, ref)) && warning == None)
  {
    if Resolves(reg, offline, m) {
      ResolvedUrlShape(reg, offline, InitFromMatch(m));
    }
  }

  /** The output dictionary gives each field its value: None parts show as "None". */
  lemma OutputFieldValues(url: string, ref: Reference)
    ensures var f := OutputFields(url, ref);
      f["url"] == url && f["verb"] == Show(ref.verb) && f["command"] == Show(ref.command) &&
      f["source"] == Show(ref.source) && f["prefix"] == Show(ref.prefix)
  {
  }

  lemma DefaultOutputNames()
    ensures Names(DefaultOutputTemplate) == {"verb", "command", "url"}
  {
    var t := DefaultOutputTemplate;
    assert t[1].name == "verb" && t[3].name == "command" && t[5].name == "url";
  }

  /**
   * With the default output template a resolved match becomes
   * "[<verb> <command>](<url>)".
   */
  lemma DefaultOutput(url: string, ref: Reference)
    ensures Names(DefaultOutputTemplate) <= OutputKeys
    ensures Render(DefaultOutputTemplate, OutputFields(url, ref))
         == "[" + Show(ref.verb) + " " + Show(ref.command) + "](" + url + ")"
  {
    DefaultOutputNames();
    OutputFieldValues(url, ref);
    RenderLink(DefaultOutputTemplate, OutputFields(url, ref), "[", "verb", " ", "command", "](", "url", ")");
  }

  /** Rendering a template of three fields between four texts. */
  lemma RenderLink(t: Template, f: map<string, string>, p0: string, n1: string, p2: string, n3: string, p4: string, n5: string, p6: string)
    requires t == [Text(p0), Field(n1), Text(p2), Field(n3), Text(p4), Field(n5), Text(p6)]
    requires n1 in f && n3 in f && n5 in f
    ensures Fits(t, f)
    ensures Render(t, f) == p0 + (f[n1] + (p2 + (f[n3] + (p4 + (f[n5] + p6)))))
  {
    var r6: Template := [Text(p6)] + [];
    RenderCons(Text(p6), [], f);
    assert Render(r6, f) == p6;
    var r5 := [Field(n5)] + r6;
    RenderCons(Field(n5), r6, f);
    var r4 := [Text(p4)] + r5;
    RenderCons(Text(p4), r5, f);
    var r3 := [Field(n3)] + r4;
    RenderCons(Field(n3), r4, f);
    var r2 := [Text(p2)] + r3;
    RenderCons(Text(p2), r3, f);
    var r1 := [Field(n1)] + r2;
    RenderCons(Field(n1), r2, f);
    RenderCons(Text(p0), r1, f);
    assert t == [Text(p0)] + r1;
  }

  /** Rewriting never logs the empty-url warning: every url found is non-empty. */
  lemma {:induction false} WarningsAreSkips(reg: Registry, offline: bool, output: Template, ms: seq<Match>)
    requires Ready(reg, offline, output)
    ensures forall w | w in Warnings(reg, offline, output, ms) :: w.Skipped?
    ensures |Warnings(reg, offline, output, ms)| <= |ms|
    decreases |ms|
  {
    if ms != [] {
      var m := ms[|ms| - 1];
      WarningsAreSkips(reg, offline, output, ms[..|ms| - 1]);
      SubOutcome(reg, offline, output, m);
    }
  }

  /** There is one warning per match that cannot be resolved. */
  lemma {:induction false} WarningsCount(reg: Registry, offline: bool, output: Template, ms: seq<Match>)
    requires Ready(reg, offline, output)
    ensures |Warnings(reg, offline, output, ms)| == |Unresolved(reg, offline, ms)|
    decreases |ms|
  {
    if ms != [] {
      var m := ms[|ms| - 1];
      WarningsCount(reg, offline, output, ms[..|ms| - 1]);
      SubOutcome(reg, offline, output, m);
    }
  }

  /** The matches that cannot be resolved, in order. */
  function Unresolved(reg: Registry, offline: bool, ms: seq<Match>): seq<Match>
    requires WellFormed(reg) && Renderable(reg, offline)
  {
    if ms == [] then []
    else
      Unresolved(reg, offline, ms[..|ms| - 1]) + (if Resolves(reg, offline, ms[|ms| - 1]) then [] else [ms[|ms| - 1]])
  }

  /** The match's `source` group is the whole matched text (as in the default link pattern). */
  predicate SourceIsSpan(content: string, m: Match) {
    m.start <= m.end <= |content| && Group(m, "source") == Some(content[m.start..m.end])
  }

  /**
   * Links that cannot be resolved are left as they were: when no match
   * resolves and each one's source group is its whole text, the content comes
   * back unchanged.
   */
  lemma {:induction false} UnresolvedLeftAlone(reg: Registry, offline: bool, output: Template, content: string, pos: nat, ms: seq<Match>)
    requires Ready(reg, offline, output) && Ordered(content, pos, ms)
    requires forall i | 0 <= i < |ms| :: !Resolves(reg, offline, ms[i]) && SourceIsSpan(content, ms[i])
    ensures Rewrite(reg, offline, output, content, pos, ms) == content[pos..]
    decreases |ms|
  {
    if ms != [] {
      var m := ms[0];
      assert !Resolves(reg, offline, m) && SourceIsSpan(content, m);
      SubOutcome(reg, offline, output, m);
      assert forall i | 0 <= i < |ms[1..]| :: ms[1..][i] == ms[i + 1];
      UnresolvedLeftAlone(reg, offline, output, content, m.end, ms[1..]);
      assert content[pos..m.start] + content[m.start..m.end] + content[m.end..] == content[pos..];
    }
  }
}
