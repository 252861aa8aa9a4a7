# apilinks: a verified model of the reference resolver

The apilinks preprocessor of Foliant turns references to API methods in
Markdown, such as `` `MyAPI: GET /user/login` ``, into links to the heading that
documents the method on the API's published reference page. This project models
its core (`foliant/preprocessors/apilinks.py`) in Dafny and proves what it does:

- **Anchor** — `convert_to_anchor`, the slugger that turns a heading into the
  id of that heading. It is a loop over the stripped input with an `accum` flag
  (method `ConvertToAnchor`), specified by the automaton `Scan`/`Slug`.
- **Template** — `str.format` with named fields, over a template already split
  into literal text and `{name}` fields.
- **Apis** — class `API`: the url with its trailing slashes stripped, the header
  template, the headings of the page (`format_header`, `format_anchor`,
  `gen_full_url`). Nothing updates an `API` after it is built, so it is a value.
- **Resolution** — `Reference` and `init_from_match`, and the resolver:
  `find_url`, `get_url`, `gen_url_offline`, `gen_url`. Each `GenURLError` is a
  value of `GenUrlError` that carries the data of its message.
- **Setup** — `set_apis`: the ordered dictionary of APIs and the choice of the
  default API, as functions of the `API` option.
- **Rewriting** — `_sub` and `process_links`: the text is rewritten match by
  match, with the warnings it logs returned as data.
- **Preprocessing** — class `Preprocessor`. It holds the APIs, the default API
  and the options. Its methods `SetApis`, `FindUrl` and `ProcessLinks` are loops
  over that state; `GenUrl` and `Substitute` dispatch to the lookups. Each
  method is proved equal to the function that specifies it.

Inputs the code gets from the outside world become parameters:
- the headings `_fill_headers` reads off a reference page are a map from id to
  heading text, or `None` when reading the page raises `HTTPError`;
- the matches of the link pattern are a list of spans with their named groups.

## Model

| member | source | states |
|---|---|---|
| Anchor.ConvertToAnchor | foliant/preprocessors/apilinks.py:52-71 | the loop over the stripped input computes `Slug(reference)`: it emits each letter or `_` lowercased, and a single `-` for each run of other characters that has a letter or `_` after it |
| Anchor.Lower | foliant/preprocessors/apilinks.py:63-68 | lowercasing turns a letter or `_` into a lowercase letter or `_`, and leaves those unchanged |
| Anchor.StripLeftSplits | foliant/preprocessors/apilinks.py:61 | `strip()` drops only whitespace from the front, and what it keeps does not start with whitespace |
| Anchor.StripRightSplits | foliant/preprocessors/apilinks.py:61 | `strip()` drops only whitespace from the back, and what it keeps does not end with whitespace |
| Anchor.ScanAppend | foliant/preprocessors/apilinks.py:62-70 | the scan of a concatenation is the scan of each part; the state between the parts is set by the last character read |
| Anchor.SlugIsSlug | foliant/preprocessors/apilinks.py:59-71 | every output character is a lowercase letter, `_` or `-`, and every `-` is immediately followed by a letter or `_` |
| Anchor.SlugSeparators | foliant/preprocessors/apilinks.py:59-71 | the output never ends with `-` and never contains `--` (it can start with `-`: `/abc` gives `-abc`) |
| Anchor.SlugIdempotent | foliant/preprocessors/apilinks.py:59-71 | applied to its own output, convert_to_anchor gives that output back |
| Anchor.ScanFixesSlug | foliant/preprocessors/apilinks.py:62-70 | the loop leaves a slug unchanged |
| Anchor.SlugKeepsWords | foliant/preprocessors/apilinks.py:59-71 | removing the `-` from the output gives exactly the letters and `_` of the input, lowercased and in order |
| Anchor.SlugExample | foliant/preprocessors/apilinks.py:56-57 | the docstring example: `GET /endpoint/method{id}` becomes `get-endpoint-method-id` |
| Apis.NewApi | foliant/preprocessors/apilinks.py:20-25 | the constructor keeps name and template, stores the url without trailing `/`, and has no headings offline and the page's headings online |
| Apis.RStripSlashSplits | foliant/preprocessors/apilinks.py:22 | `rstrip('/')` keeps a prefix of the url, drops only `/`, and leaves no `/` at the end |
| Apis.RStripSlashIdempotent | foliant/preprocessors/apilinks.py:22 | stripping a stripped url changes nothing |
| Apis.FormatAnchor | foliant/preprocessors/apilinks.py:30-31 | the anchor of any heading is a slug |
| Apis.FullUrlSplits | foliant/preprocessors/apilinks.py:33-34 | for a url without `#`, the full url splits at its first `#` into the page `url + "/"` and the anchor, which is a slug |
| Apis.DefaultHeader | foliant/preprocessors/apilinks.py:27-28 | with DEFAULT_HEADER_TEMPLATE the heading is the verb, a space and the command |
| Template.RenderConcat | foliant/preprocessors/apilinks.py:28 | a template renders piece by piece: the render of two parts is the render of each, in order |
| Template.RenderAgrees | foliant/preprocessors/apilinks.py:197 | formatting only reads the fields the template names: two dictionaries that agree on those give the same text, whatever else they hold |
| Resolution.InitFromMatchRoundTrip | foliant/preprocessors/apilinks.py:81-90 | a match whose `source`, `prefix`, `verb` and `command` groups hold the parts of a reference gives back exactly that reference |
| Resolution.InitFromMatchReadsNamedGroups | foliant/preprocessors/apilinks.py:81-90 | only the four named groups are read: matches that agree on them, a missing group counting as None, give the same reference whatever other groups or span they have |
| Resolution.MatchingInSpec | foliant/preprocessors/apilinks.py:161-166 | the loop of find_url keeps exactly the APIs whose headings contain the anchor, each once, no more than the registry holds |
| Resolution.MatchingInOrder | foliant/preprocessors/apilinks.py:161-166 | the APIs the loop of find_url collects are listed in the order the registry lists them |
| Resolution.FoundSpec | foliant/preprocessors/apilinks.py:161-166 | the APIs find_url collects are exactly those that document the method, with no repeats, in registry order |
| Resolution.FindUrlResolves | foliant/preprocessors/apilinks.py:167-169 | when exactly one API has the anchor, find_url returns that API's `url + "/#" + anchor` |
| Resolution.FindUrlOnlyIfSole | foliant/preprocessors/apilinks.py:167-174 | find_url returns a url only when exactly one API has the anchor |
| Resolution.FindUrlNotFound | foliant/preprocessors/apilinks.py:174 | find_url reports "cannot find" exactly when no API has the anchor |
| Resolution.FindUrlAmbiguous | foliant/preprocessors/apilinks.py:170-173 | the "several APIs" error names every API that has the anchor, and only those, each once, at least two, in registry order |
| Resolution.GetUrl | foliant/preprocessors/apilinks.py:176-185 | get_url succeeds exactly when the prefix names an API whose headings contain the anchor, and then returns that API's full url. Wrong-prefix exactly when the prefix is unknown; not-found exactly when it is known but lacks the heading |
| Resolution.FindAgreesWithGet | foliant/preprocessors/apilinks.py:160-185 | when find_url resolves a method, get_url with the API that documents it as prefix returns the same url |
| Resolution.GetAgreesWithFind | foliant/preprocessors/apilinks.py:160-185 | when get_url resolves a prefixed method, find_url returns the same url or reports it ambiguous, naming that API |
| Resolution.GenUrlOffline | foliant/preprocessors/apilinks.py:187-197 | a non-empty prefix must name an API (else wrong-prefix) and gives that API's full url; without one the default API is used, or NoDefault when none is set |
| Resolution.OfflineIgnoresHeaders | foliant/preprocessors/apilinks.py:187-197 | gen_url_offline never reads the headings: erasing them all changes no result |
| Resolution.GenUrlOutcome | foliant/preprocessors/apilinks.py:199-203 | online, a prefixed reference resolves exactly when the named API has the heading; an unprefixed one exactly when one API alone has it |
| Resolution.OnlineAgreesWithOffline | foliant/preprocessors/apilinks.py:187-203 | a prefixed reference that resolves online gets the same url offline |
| Resolution.ResolvedUrlShape | foliant/preprocessors/apilinks.py:220-225 | every url the resolver returns is non-empty and starts with some API's `url + "/#"`, so the empty-url branch of `_sub` is never taken |
| Setup.RegisteredNames | foliant/preprocessors/apilinks.py:124-132 | set_apis registers, each once, exactly the entries whose API could be built, and nothing else |
| Setup.RegisteredOrder | foliant/preprocessors/apilinks.py:124-132 | the APIs are registered in the order the option lists their entries: of two entries that load, the earlier comes first in the ordered dictionary |
| Setup.RegisteredApis | foliant/preprocessors/apilinks.py:126-132 | each such entry is registered under its name as the API built from its url and its header template (or DEFAULT_HEADER_TEMPLATE) |
| Setup.RegisteredHasDefault | foliant/preprocessors/apilinks.py:133-134 | the loop sets a default exactly when some registered entry is flagged `default` |
| Setup.RegisteredDefault | foliant/preprocessors/apilinks.py:133-134 | the default the loop sets is the API of the first registered entry flagged `default` |
| Setup.DefaultChoice | foliant/preprocessors/apilinks.py:133-142 | the default API is the first flagged one, or else the first API registered |
| Setup.BuildRegistryWellFormed | foliant/preprocessors/apilinks.py:123-142 | after set_apis succeeds, `default_api` is set and is one of the registered APIs, registered under its own name |
| Setup.BuildRegistryFails | foliant/preprocessors/apilinks.py:138-139 | set_apis raises exactly when no API could be set up; offline, exactly when the option lists none |
| Setup.RegisteredTemplatesFit | foliant/preprocessors/apilinks.py:127-131 | when every template in the option names only given fields, so does every registered API's template |
| Setup.UnreadablePageAborts | foliant/preprocessors/apilinks.py:135-137 | as written, an unreadable page ahead of a readable one makes set_apis fail, while skipping it sets up the other API |
| Setup.AsWrittenAgrees | foliant/preprocessors/apilinks.py:135-137 | when every page can be read, the code as written and the corrected code agree |
| Rewriting.SubOutcome | foliant/preprocessors/apilinks.py:206-225 | `_sub` returns the match's source text with a warning carrying the error when resolution fails, and the filled output template with no warning when it succeeds |
| Rewriting.DefaultOutput | foliant/preprocessors/apilinks.py:98 | with the default output template a resolved match becomes `[<verb> <command>](<url>)` |
| Rewriting.WarningsAreSkips | foliant/preprocessors/apilinks.py:216-225 | every warning logged is a resolution error, at most one per match |
| Rewriting.WarningsCount | foliant/preprocessors/apilinks.py:216-218 | exactly one warning is logged per match that cannot be resolved |
| Rewriting.UnresolvedLeftAlone | foliant/preprocessors/apilinks.py:216-227 | when no match resolves and each source group spans its match, process_links returns the text unchanged |
| Preprocessing.Preprocessor.constructor | foliant/preprocessors/apilinks.py:112-114 | the preprocessor starts with its options, no APIs and no default API |
| Preprocessing.Preprocessor.SetApis | foliant/preprocessors/apilinks.py:123-142 | the loop leaves exactly the registry `BuildRegistry` describes, or reports NoApis; on success the registry is well formed and has a default |
| Preprocessing.Preprocessor.FindUrl | foliant/preprocessors/apilinks.py:160-174 | the loop that collects the APIs with the anchor returns what the specification of find_url gives |
| Preprocessing.Preprocessor.GenUrl | foliant/preprocessors/apilinks.py:199-203 | dispatching on the prefix gives the result of gen_url's specification |
| Preprocessing.Preprocessor.Substitute | foliant/preprocessors/apilinks.py:206-225 | `_sub` returns the replacement and warning of its specification `Sub` |
| Preprocessing.Preprocessor.ProcessLinks | foliant/preprocessors/apilinks.py:205-227 | the loop over the matches produces the text `Rewrite` specifies, and the warnings in match order |

## Left out

- Unicode: `str.isalpha`, `str.lower` and `str.isspace` are modelled on ASCII only. Whitespace is characters 9-13, 28-31 and 32.
- `str.format` parsing: templates are given already split into text and `{name}` fields. Escaped braces, format specs and attribute or index lookups are not modelled. Every template is required to name only fields the format dictionary holds, so the `KeyError` a bad template raises is not modelled.
- `API._fill_headers` (apilinks.py:39-46): reading the page over the network and parsing its `h2` elements. The headings it yields are a parameter, or `None` when `urlopen` raises `HTTPError`.
- Other failures of `urlopen`, such as `URLError` for an unreachable host or `ValueError` for a malformed url: `except error.HTTPError` does not catch them, so they abort set_apis in the code as written and would in the corrected version too. Only `HTTPError` is modelled, as a page of `None`.
- `_compile_link_pattern` and the regular-expression engine: the matches `re.sub` finds are a parameter, a list of in-order, non-overlapping spans with their named groups.
- `_warning`'s output and logger calls: the warnings are returned as a list of values instead of message strings.
- `apply` and the `targets` option: file-system traversal and file reads and writes.
- `API.__str__` and the text of the error messages: only the data each message carries is kept.
- `Preprocessor.__init__` calls set_apis itself. In the model, the constructor builds the empty state and `SetApis` is called on it.
- Anchor.SlugExample: the docstring example is stated over its pieces (`"GET"`, `" /"`, `"endpoint"`, …) concatenated, not over the one literal string.
- The entries of the `API` option are taken to have distinct names, as the keys of a dictionary do (`DistinctNames`).

## Findings

| source | as written | input that shows it | evidently intended | confidence | as-written member | corrected member |
|---|---|---|---|---|---|---|
| foliant/preprocessors/apilinks.py:135-137 | the `HTTPError` handler formats its warning with `self.url`, which the preprocessor does not define, so the handler itself raises and set_apis stops at the first page that cannot be read | online, option `{a: page raises HTTPError, b: readable page}`: set_apis fails instead of setting up `b` | warn and skip the entry, as the message says, and go on with the next API | medium, not executed | Setup.BuildRegistryAsWritten (Setup.UnreadablePageAborts) | Setup.BuildRegistry (Setup.BuildRegistryFails, Setup.AsWrittenAgrees) |
