# iron/router — a Dafny model of dispatch and reverse URL generation

This project models the two pure cores of the `router` crate for the Iron web
framework:

* **Dispatch** (`src/router.rs`, module `Routing` in `router.dfy`). A `Router`
  keeps one route table per HTTP method. `route` appends a glob and a handler
  to its method's table. `handle` joins the request URL's segments with `/`
  and produces exactly one outcome. It runs the matched handler, with the
  captured parameters stored in the request. Failing that, it answers a 301
  `TrailingSlash` redirect when the slash-toggled path matches. Failing that,
  an OPTIONS request gets a 200 whose `Allow` list comes from the fixed probe
  list `[Get, Post, Post, Put, Delete, Head, Patch]`. Anything else gets a
  404 `NoRoute`.
* **Reverse URL generation** (`src/url_for.rs`, module `UrlFor` in
  `url_for.dfy`). `url_for_impl` trims the current URL's path, then walks the
  glob's `/`-separated pieces. A `:key` or `*key` piece is replaced by its
  parameter, which is consumed. The first empty piece is skipped. Every other
  piece is copied. The query is replaced by the unconsumed parameters and the
  fragment is cleared. `_url_for` first resolves a route id to its glob.

Shared pieces: `results.dfy` (`Option`, `Result`) and `urls.dfy` (the `Url`
record, `Join` for `connect("/")` and `Split` for `str::split('/')`, with
both
round trips proved).

The glob matcher of the separate `recognizer` crate is not part of this model.
It is a parameter `rec: (seq<Entry>, string) -> Option<Match>`: any total,
deterministic function from one method's routes (in insertion order) and a path
to an optional match. Every dispatch property holds for every such function.
Running a handler is represented by the outcome `Handled(handler, params)`.

Notes on what the code does, each reproduced by the model:
* `/foo/:user` against `/foo/bar/baz`: globs_count is 2 and 2 < 3, so
  2 + 1 = 3 segments are popped before `foo` and `bam` are pushed
  (`ExampleNoTrailingSlash`).
* The OPTIONS answer is a list. `Post` appears in it twice whenever it
  matches (`AllowedOptionsMethods`, `OptionsGetAndPost`).
* Only the first empty glob piece is skipped, wherever it occurs. A glob
  with no leading `/`, such as `foo/:user/`, therefore loses its trailing
  slash.
* A glob that names one parameter twice always fails, because the first use
  consumes the value (`UrlForImplRepeatedKey`).
* A placeholder's `len() > 1` test counts bytes in the code and characters
  here. The two agree, because the marker `:` or `*` is a single byte.

## Model

| member | source | states |
|---|---|---|
| Routing.New | src/router.rs:27-31 | a new router has no table for any method |
| Routing.Route | src/router.rs:53-59 | `route` makes `m` have a table equal to its old table (empty if none) plus the new entry at the end; every other method's table and presence are unchanged |
| Routing.MethodHelpersAreRoute | src/router.rs:61-94 | `get`, `post`, `put`, `delete`, `head`, `patch`, `options` are each `route` with their method fixed |
| Routing.BuildTables | src/router.rs:15-59 | after any sequence of registrations, a method has a table iff some registration named it, and the table lists exactly that method's registrations in order |
| Routing.Recognize | src/router.rs:96-99 | lookup gives no match when the method has no table, and otherwise the recognizer's answer on that method's table; `RecognizeAfterBuild` ties it to the registrations |
| Routing.AllowedIn | src/router.rs:109-115 | the OPTIONS filter used by dispatch: the report is never longer than the probe list; `AllowedInMembers` (reported iff probed and matching) and `AllowedInCounts` (multiplicities) pin down its contents |
| Routing.RecognizeAfterBuild | src/router.rs:96-99 | lookup for a never-registered method is `None` whatever the recognizer; otherwise it is the recognizer applied to exactly that method's registrations |
| Routing.AllowedInCounts | src/router.rs:101-120 | each method occurs in the report as many times as in the probe list if its recognizer matches the path, and zero times otherwise |
| Routing.AllowedInMembers | src/router.rs:109-115 | a method is in the report iff it is in the probe list and its recognizer matches the path |
| Routing.AllowedOptionsMethods | src/router.rs:101-115 | the Allow list for the fixed probe list is, in order, Get, Post twice, Put, Delete, Head and Patch, each kept iff it matches; it may be empty |
| Routing.HandleOptions | src/router.rs:101-120 | the loop over the probe list answers 200 with the filtered list; `Options` is never listed; membership is exactly "probed and matching" |
| Routing.ToggleSlash | src/router.rs:123-136 | a non-empty path ending in '/' loses its last character and the vector its last segment; any other non-empty path gains '/' and the vector gains ""; the empty path is unchanged |
| Routing.ToggleSlashTrailing | src/router.rs:128-131 | a join of slash-free segments ends in '/' only when its last segment is empty and there are at least two |
| Routing.ToggleSlashJoin | src/router.rs:125-136 | when no segment contains '/', the toggled vector joined by '/' equals the toggled path string |
| Routing.ToggleSlashTwice | src/router.rs:125-136 | toggling twice restores the URL when one of the toggles adds a slash; paths ending in two slashes show why the condition is needed |
| Routing.RedirectSlash | src/router.rs:123-144 | a redirect is produced iff the toggled path matches under the request's method, and it is a 301 `TrailingSlash` to the toggled URL |
| Routing.Handle | src/router.rs:150-163 | dispatch never changes the method or URL; it stores params iff it handles, storing exactly the handled params, and otherwise leaves the request unchanged |
| Routing.HandleExactMatch | src/router.rs:151-155 | when the exact lookup matches, that handler runs with its params stored, even if the toggled path also matches |
| Routing.HandleRedirect | src/router.rs:138-157 | the outcome is a redirect iff the exact lookup fails and the toggled path matches under the same method; it is then a 301 to the toggled URL with the request untouched |
| Routing.HandleOptionsReport | src/router.rs:156-159 | the outcome is an OPTIONS report iff the method is OPTIONS and neither the path nor its toggle matches; it is a 200 listing the methods that match the unmodified path |
| Routing.HandleNoRoute | src/router.rs:153-162 | the outcome is 404 `NoRoute` iff neither lookup matches and the method is not OPTIONS |
| Routing.EmptyPathNeverRedirects | src/router.rs:126-143 | a request whose joined path is empty is never redirected |
| Routing.RedirectAddsSlash | src/router.rs:132-140 | a path without a trailing slash that matches only with one is 301-redirected to the URL with one more empty segment, whose joined path is the original plus "/" |
| Routing.RedirectDropsSlash | src/router.rs:128-140 | a path with a trailing slash that matches only without it is 301-redirected to the URL without its last (empty) segment, whose joined path lacks the slash |
| Routing.UnregisteredMethod | src/router.rs:150-162 | a method nobody registered is never handled or redirected: OPTIONS gets its report, anything else gets 404 `NoRoute` |
| Routing.OptionsGetAndPost | src/router.rs:101-120 | OPTIONS on a path matched by GET and POST only, with no OPTIONS route matching its slash-toggled form, gets `Allow: [Get, Post, Post]` with status 200 |
| Urls.Join | src/router.rs:151 | `connect("/")`: no segments give the empty string; `JoinSlashCount` (exactly n − 1 separators) and `JoinSplit`/`SplitJoin` (inverse of `Split`) pin its contents down |
| Urls.JoinSlashCount | src/router.rs:151 | joining n ≥ 1 slash-free segments puts exactly n − 1 slashes into the path string |
| Urls.Split | src/url_for.rs:44 | splitting on '/' yields at least one piece and no piece contains '/' |
| Urls.JoinSplit | src/url_for.rs:44 | joining the pieces of a split with '/' gives back the string |
| Urls.SplitJoin | src/url_for.rs:44 | splitting the join of a non-empty list of slash-free segments gives back the segments |
| UrlFor.IsPlaceholder | src/url_for.rs:59 | the empty piece is never a placeholder, and a lone ':' or '*' is a literal; the walk substitutes exactly these pieces (`WalkSpec`) |
| UrlFor.GlobsCountNonEmpty | src/url_for.rs:44-45 | the glob count equals the number of pieces minus the number of empty pieces |
| UrlFor.PopN | src/url_for.rs:50-52 | popping n segments keeps the first max(len − n, 0) segments of the path |
| UrlFor.TrimPath | src/url_for.rs:49-55 | if globs_count < segments_count, the kept prefix has length segments_count − globs_count − 1; otherwise the path is cleared |
| UrlFor.Walk | src/url_for.rs:57-72 | walking the glob fails only with a missing-parameter error |
| UrlFor.DropFirstEmpty | src/url_for.rs:66-68 | removing the first empty piece removes exactly one piece if there is one, and adds no new piece; `DropFirstEmptyIsFirst` (the piece removed is the first "", the rest keep their order) and `DropFirstEmptyNone` (no "" leaves the pieces unchanged) pin down which |
| UrlFor.DropFirstEmptyIsFirst | src/url_for.rs:66-68 | only the first empty piece is skipped: the result is the pieces before it followed by the pieces after it, in their order |
| UrlFor.DropFirstEmptyNone | src/url_for.rs:66-68 | a glob with no empty piece has nothing skipped: every piece is pushed, in order |
| UrlFor.WalkSpec | src/url_for.rs:57-72 | the walk succeeds iff every placeholder has a value and no two placeholders share a key; it then yields the substituted pieces without the first empty one and leaves exactly the unnamed parameters |
| UrlFor.UrlForImpl | src/url_for.rs:42-83 | generation keeps scheme and host, clears the fragment, and can only fail with a missing parameter |
| UrlFor.UrlForImplSpec | src/url_for.rs:42-83 | generation succeeds iff the params supply the glob; the path is the trimmed prefix followed by the substituted pieces, and the query holds the leftover params, or is absent when none are left |
| UrlFor.UrlForImplQuery | src/url_for.rs:75-82 | the new query has exactly the input params minus the consumed keys, with their values; it is absent iff all were consumed; the earlier query and fragment have no effect |
| UrlFor.UrlForImplKeepsPrefix | src/url_for.rs:49-55 | the output path starts with the first segments_count − globs_count − 1 segments of the current path, or is only the generated segments when the glob is at least as long |
| UrlFor.UrlForImplTrailingSlash | src/url_for.rs:57-72 | a glob that begins and ends with '/' yields a path ending in an empty segment, i.e. a trailing slash |
| UrlFor.UrlForImplRepeatedKey | src/url_for.rs:59-64 | a glob that names one key in two placeholders always fails |
| UrlFor.ExampleNoTrailingSlash | src/url_for.rs:90-99 | `/foo/bar/baz` with glob `/foo/:user` and `{user: bam}` gives `/foo/bam` with no query or fragment |
| UrlFor.ExampleTrailingSlash | src/url_for.rs:101-110 | the same URL with glob `/foo/:user/` gives `/foo/bam/` |
| UrlFor.ExampleWithMount | src/url_for.rs:112-121 | `/mounted/foo/bar/baz` with glob `/foo/:user/` gives `/mounted/foo/bam/` |
| UrlFor.ExampleMissingUser | src/url_for.rs:61-63 | glob `/foo/:user` with no parameters fails with a missing value for `user` |
| UrlFor.UrlFor | src/url_for.rs:34-40 | an unknown route id fails with `UnknownRouteId`; a known one generates from that id's glob |

## Left out

- The `recognizer` crate's glob compiler and matcher are not part of this model. They are a parameter with no tie-breaking rules and no compile errors. `route` has no error path.
- Running handlers, Iron's `Request`/`Response`, headers and the typemap `extensions` are left out. A match is the outcome value `Handled(handler, params)`, and the extension slot is `Request.params`.
- The `url` crate's parsing, percent-encoding and serialisation are left out. So is the `unwrap` on URLs that cannot be a base. A URL path is its segment list. rust-url reports the path `/` as the single segment `""`, and pops and clears through its own serialisation. rust-url's `push` also absorbs an empty segment pushed onto the root path and drops `.` and `..` segments. The model takes the segment list as given and pops, clears and pushes list elements. For example, glob `/:a/b` with `{a: ""}` on a one-segment URL gives `["", "b"]` here, where rust-url gives `/b`.
- The query is a map, so the HashMap iteration order of the query pairs is not represented.
- `url_for` and `mounted_url_for` only choose the base URL: the request URL, or the `OriginalUrl` extension. They also fetch the `RouterInner` extension with `expect`. They are left out. `UrlFor` takes the base URL and the route-id table as arguments. The route-id table belongs to `RouterInner`, which is not part of this model.
- The `Display`/`Error::description` strings of `NoRoute` and `TrailingSlash` are left out.
- Routing.Handle: its own contract covers only the request side of dispatch. The choice of outcome is stated by the lemmas `HandleExactMatch`, `HandleRedirect`, `HandleOptionsReport` and `HandleNoRoute`.
- Dispatching the same request twice gives the same outcome. This holds because `Handle` is a function, so no lemma states it.
