/** Reverse URL generation (src/url_for.rs): rewriting the path of the
    current URL from a route's glob and a parameter map, then putting the
    parameters the glob did not consume into the query.

    The URL parser, its percent-encoding and its serialisation are not part
    of this model; a URL is the `Url` record, whose path is its segment
    list. Where `url_for_impl` and `_url_for` panic (a glob placeholder with no value, an
    unknown route id) the model returns a `Failure`. */
module UrlFor {
  import opened Results
  import opened Urls

  type Params = map<string, string>

  datatype UrlError = UnknownRouteId(routeId: string) | MissingParam(key: string)

  // ---------------------------------------------------------------------
  // Glob pieces
  // ---------------------------------------------------------------------

  /** A piece stands for a parameter when it is longer than its marker and
      starts with ':' or '*'; a lone ':' or '*' is a literal. */
  predicate IsPlaceholder(piece: string)
    ensures IsPlaceholder(piece) ==> piece != ""
    ensures piece == ":" || piece == "*" ==> !IsPlaceholder(piece)
  {
    |piece| > 1 && (piece[0] == ':' || piece[0] == '*')
  }

  /** The parameter name of a placeholder: the text after its marker. */
  function KeyOf(piece: string): string
    requires IsPlaceholder(piece)
  {
    piece[1..]
  }

  /** The number of non-empty pieces. */
  function GlobsCount(pieces: seq<string>): nat
    decreases |pieces|
  {
    if |pieces| == 0 then 0
    else GlobsCount(pieces[..|pieces| - 1]) + (if pieces[|pieces| - 1] != "" then 1 else 0)
  }

  /** The glob count is the number of pieces less the empty ones. */
  lemma {:induction false} GlobsCountNonEmpty(pieces: seq<string>)
    ensures GlobsCount(pieces) == |pieces| - multiset(pieces)[""]
    decreases |pieces|
  {
    if |pieces| > 0 {
      var init := pieces[..|pieces| - 1];
      GlobsCountNonEmpty(init);
      assert pieces == init + [pieces[|pieces| - 1]];
    }
  }

  // ---------------------------------------------------------------------
  // Trimming the current path
  // ---------------------------------------------------------------------

  /** Pops `n` segments off the end of the path; popping an empty path does
      nothing. */
  function PopN(path: seq<string>, n: nat): (kept: seq<string>)
    ensures |kept| == if n <= |path| then |path| - n else 0
    ensures kept == path[..|kept|]
    decreases n
  {
    if n == 0 || |path| == 0 then path
    else PopN(path[..|path| - 1], n - 1)
  }

  /** The part of the current path kept in front of the generated segments:
      when the glob has fewer non-empty pieces than the path has segments,
      one segment more than that count is removed from the end; otherwise
      nothing is kept. */
  function TrimPath(path: seq<string>, globsCount: nat): (kept: seq<string>)
    ensures globsCount < |path| ==> kept == path[..|path| - globsCount - 1]
    ensures globsCount >= |path| ==> kept == []
  {
    if globsCount < |path| then PopN(path, globsCount + 1) else []
  }

  // ---------------------------------------------------------------------
  // Walking the glob
  // ---------------------------------------------------------------------

  /** The generated segments and the parameters left unconsumed. */
  datatype Walked = Walked(segments: seq<string>, rest: Params)

  /** Walks the pieces in order. A placeholder appends its parameter's value
      and removes the parameter, failing when it is absent; the first empty
      literal piece met is skipped (`skipped` records that it was); every
      other literal piece is appended as it is. */
  function Walk(pieces: seq<string>, params: Params, skipped: bool): (r: Result<Walked, UrlError>)
    ensures r.Failure? ==> r.error.MissingParam?
    decreases |pieces|
  {
    if |pieces| == 0 then Success(Walked([], params))
    else
      var piece := pieces[0];
      if IsPlaceholder(piece) then
        var key := KeyOf(piece);
        if key in params then
          match Walk(pieces[1..], params - {key}, skipped)
          case Success(w) => Success(Walked([params[key]] + w.segments, w.rest))
          case Failure(e) => Failure(e)
        else
          Failure(MissingParam(key))
      else if !skipped && piece == "" then
        Walk(pieces[1..], params, true)
      else
        match Walk(pieces[1..], params, skipped)
        case Success(w) => Success(Walked([piece] + w.segments, w.rest))
        case Failure(e) => Failure(e)
  }

  // ---------------------------------------------------------------------
  // Reference description of the walk
  // ---------------------------------------------------------------------

  /** Every placeholder has a value. */
  predicate Covers(pieces: seq<string>, params: Params) {
    forall x :: x in pieces && IsPlaceholder(x) ==> KeyOf(x) in params
  }

  /** No two placeholders name the same parameter. */
  predicate KeysDistinct(pieces: seq<string>) {
    forall i, j :: 0 <= i < j < |pieces| && IsPlaceholder(pieces[i]) && IsPlaceholder(pieces[j])
      ==> KeyOf(pieces[i]) != KeyOf(pieces[j])
  }

  /** What generation needs of the parameters: a value for each placeholder,
      each placeholder naming its own parameter (a value is consumed when
      used, so a name used twice has no value the second time). */
  predicate Supplied(pieces: seq<string>, params: Params) {
    Covers(pieces, params) && KeysDistinct(pieces)
  }

  /** The parameter names the glob consumes. */
  function KeySet(pieces: seq<string>): set<string> {
    set x | x in pieces && IsPlaceholder(x) :: KeyOf(x)
  }

  /** The pieces without their first empty piece (if any). */
  function DropFirstEmpty(pieces: seq<string>): (r: seq<string>)
    ensures forall x :: x in r ==> x in pieces
    ensures |r| == if "" in pieces then |pieces| - 1 else |pieces|
    decreases |pieces|
  {
    if |pieces| == 0 then []
    else if pieces[0] == "" then pieces[1..]
    else [pieces[0]] + DropFirstEmpty(pieces[1..])
  }

  /** Exactly the first empty piece goes: the pieces before it and the
      pieces after it stay, in order. */
  lemma {:induction false} DropFirstEmptyIsFirst(pieces: seq<string>, i: nat)
    requires i < |pieces| && pieces[i] == "" && "" !in pieces[..i]
    ensures DropFirstEmpty(pieces) == pieces[..i] + pieces[i + 1..]
    decreases |pieces|
  {
    if i > 0 {
      assert pieces[0] in pieces[..i];
      var tail := pieces[1..];
      assert tail[..i - 1] == pieces[1..i];
      assert "" !in tail[..i - 1];
      DropFirstEmptyIsFirst(tail, i - 1);
      assert [pieces[0]] + tail[..i - 1] == pieces[..i];
      assert tail[i..] == pieces[i + 1..];
    }
  }

  /** Without an empty piece nothing is dropped. */
  lemma {:induction false} DropFirstEmptyNone(pieces: seq<string>)
    requires "" !in pieces
    ensures DropFirstEmpty(pieces) == pieces
    decreases |pieces|
  {
    if |pieces| > 0 {
      assert pieces[0] in pieces;
      var tail := pieces[1..];
      assert forall x :: x in tail ==> x in pieces;
      DropFirstEmptyNone(tail);
      assert [pieces[0]] + tail == pieces;
    }
  }

  /** Each placeholder replaced by its value, every other piece kept. */
  function Substitute(pieces: seq<string>, params: Params): (segs: seq<string>)
    requires Covers(pieces, params)
    ensures |segs| == |pieces|
    decreases |pieces|
  {
    if |pieces| == 0 then []
    else
      var piece := pieces[0];
      [if IsPlaceholder(piece) then params[KeyOf(piece)] else piece]
        + Substitute(pieces[1..], params)
  }

  /** Substitution reads only the values of the glob's own keys. */
  lemma {:induction false} SubstituteAgrees(pieces: seq<string>, p1: Params, p2: Params)
    requires Covers(pieces, p1) && Covers(pieces, p2)
    requires forall k :: k in KeySet(pieces) ==> p1[k] == p2[k]
    ensures Substitute(pieces, p1) == Substitute(pieces, p2)
    decreases |pieces|
  {
    if |pieces| > 0 {
      var rest := pieces[1..];
      assert KeySet(rest) <= KeySet(pieces) by {
        forall k | k in KeySet(rest) ensures k in KeySet(pieces) {
          var x :| x in rest && IsPlaceholder(x) && KeyOf(x) == k;
          assert x in pieces;
        }
      }
      if IsPlaceholder(pieces[0]) {
        assert KeyOf(pieces[0]) in KeySet(pieces);
      }
      SubstituteAgrees(rest, p1, p2);
    }
  }

  /** The last piece substituted is the last segment produced. */
  lemma {:induction false} SubstituteLast(pieces: seq<string>, params: Params)
    requires Covers(pieces, params)
    requires |pieces| > 0 && !IsPlaceholder(pieces[|pieces| - 1])
    ensures Substitute(pieces, params)[|pieces| - 1] == pieces[|pieces| - 1]
    decreases |pieces|
  {
    if |pieces| > 1 {
      SubstituteLast(pieces[1..], params);
    }
  }

  /** How `Supplied` and `KeySet` unfold over a glob's first piece. */
  lemma SuppliedCons(piece: string, rest: seq<string>, params: Params)
    ensures KeySet([piece] + rest) == (if IsPlaceholder(piece) then {KeyOf(piece)} else {}) + KeySet(rest)
    ensures !IsPlaceholder(piece) ==> (Supplied([piece] + rest, params) <==> Supplied(rest, params))
    ensures IsPlaceholder(piece) ==>
      (Supplied([piece] + rest, params) <==>
        KeyOf(piece) in params && Supplied(rest, params - {KeyOf(piece)}))
  {
    var pieces := [piece] + rest;
    assert forall x :: x in pieces <==> x == piece || x in rest;
    KeysDistinctTail(piece, rest);
    if IsPlaceholder(piece) {
      SuppliedConsPlaceholder(piece, rest, params);
    } else {
      assert forall j :: 0 <= j < |rest| ==> pieces[j + 1] == rest[j];
    }
  }

  /** Dropping the first piece keeps the keys distinct. */
  lemma KeysDistinctTail(piece: string, rest: seq<string>)
    ensures KeysDistinct([piece] + rest) ==> KeysDistinct(rest)
  {
    var pieces := [piece] + rest;
    if KeysDistinct(pieces) {
      forall i, j | 0 <= i < j < |rest| && IsPlaceholder(rest[i]) && IsPlaceholder(rest[j])
        ensures KeyOf(rest[i]) != KeyOf(rest[j])
      {
        assert pieces[i + 1] == rest[i] && pieces[j + 1] == rest[j];
      }
    }
  }

  /** A leading placeholder is supplied when its key has a value and the
      rest of the glob is supplied without that key. */
  lemma SuppliedConsPlaceholder(piece: string, rest: seq<string>, params: Params)
    requires IsPlaceholder(piece)
    ensures Supplied([piece] + rest, params) <==>
      KeyOf(piece) in params && Supplied(rest, params - {KeyOf(piece)})
  {
    var pieces := [piece] + rest;
    var key := KeyOf(piece);
    KeysDistinctTail(piece, rest);
    if Supplied(pieces, params) {
      forall x | x in rest && IsPlaceholder(x) ensures KeyOf(x) in params - {key} {
        var j :| 0 <= j < |rest| && rest[j] == x;
        assert pieces[0] == piece && pieces[j + 1] == x;
      }
    }
    if key in params && Supplied(rest, params - {key}) {
      assert forall x :: x in pieces <==> x == piece || x in rest;
      forall i, j | 0 <= i < j < |pieces| && IsPlaceholder(pieces[i]) && IsPlaceholder(pieces[j])
        ensures KeyOf(pieces[i]) != KeyOf(pieces[j])
      {
        if i == 0 {
          assert pieces[j] in rest;
        } else {
          assert pieces[i] == rest[i - 1] && pieces[j] == rest[j - 1];
        }
      }
    }
  }

  /** The walk against its reference: it succeeds exactly when the
      parameters are supplied, and then produces the substituted pieces
      (without the first empty one, unless that was skipped already) and
      leaves exactly the parameters the glob does not name, untouched. */
  lemma {:induction false} WalkSpec(pieces: seq<string>, params: Params, skipped: bool)
    ensures Walk(pieces, params, skipped).Success? <==> Supplied(pieces, params)
    ensures Supplied(pieces, params) ==>
      Walk(pieces, params, skipped) == Success(Walked(
        Substitute(if skipped then pieces else DropFirstEmpty(pieces), params),
        params - KeySet(pieces)))
    decreases |pieces|
  {
    if |pieces| == 0 {
      assert KeySet(pieces) == {};
      assert params - {} == params;
    } else {
      var piece := pieces[0];
      var rest := pieces[1..];
      assert pieces == [piece] + rest;
      SuppliedCons(piece, rest, params);
      if IsPlaceholder(piece) {
        var key := KeyOf(piece);
        if key in params {
          var params' := params - {key};
          WalkSpec(rest, params', skipped);
          if Supplied(pieces, params) {
            var rest' := if skipped then rest else DropFirstEmpty(rest);
            assert (if skipped then pieces else DropFirstEmpty(pieces)) == [piece] + rest';
            assert KeySet(rest') <= KeySet(rest) by {
              forall k | k in KeySet(rest') ensures k in KeySet(rest) {
                var x :| x in rest' && IsPlaceholder(x) && KeyOf(x) == k;
                assert x in rest;
              }
            }
            SubstituteAgrees(rest', params', params);
            assert params' - KeySet(rest) == params - KeySet(pieces);
          }
        }
      } else if !skipped && piece == "" {
        WalkSpec(rest, params, true);
        assert DropFirstEmpty(pieces) == rest;
        assert KeySet(pieces) == KeySet(rest);
        assert Walk(pieces, params, skipped) == Walk(rest, params, true);
      } else {
        WalkSpec(rest, params, skipped);
        var rest' := if skipped then rest else DropFirstEmpty(rest);
        var pieces' := [piece] + rest';
        assert (if skipped then pieces else DropFirstEmpty(pieces)) == pieces';
        if Supplied(pieces, params) {
          assert pieces'[0] == piece && pieces'[1..] == rest';
          assert Substitute(pieces', params) == [piece] + Substitute(rest', params);
          assert Walk(rest, params, skipped) == Success(Walked(Substitute(rest', params), params - KeySet(rest)));
          assert KeySet(pieces) == KeySet(rest);
          assert Walk(pieces, params, skipped) == Success(Walked([piece] + Substitute(rest', params), params - KeySet(rest)));
        }
      }
    }
  }

  // ---------------------------------------------------------------------
  // Generation
  // ---------------------------------------------------------------------

  /** Rewrites `url` from `glob`: trims the current path, appends the
      segments generated from the glob, replaces the query with the
      unconsumed parameters (no query when none remain) and clears the
      fragment. */
  function UrlForImpl(url: Url, glob: string, params: Params): (r: Result<Url, UrlError>)
    ensures r.Success? ==>
      r.value.scheme == url.scheme && r.value.host == url.host && r.value.fragment == None
    ensures r.Failure? ==> r.error.MissingParam?
  {
    var pieces := Split(glob);
    var kept := TrimPath(url.path, GlobsCount(pieces));
    match Walk(pieces, params, false)
    case Failure(e) => Failure(e)
    case Success(w) =>
      Success(url.(path := kept + w.segments,
                   query := if w.rest == map[] then None else Some(w.rest),
                   fragment := None))
  }

  /** Generation succeeds exactly when every placeholder of the glob has
      its own value; the result is the trimmed current path followed by the
      substituted pieces (first empty piece dropped), with the parameters
      the glob does not name as the query. */
  lemma UrlForImplSpec(url: Url, glob: string, params: Params)
    ensures UrlForImpl(url, glob, params).Success? <==> Supplied(Split(glob), params)
    ensures Supplied(Split(glob), params) ==>
      var pieces := Split(glob);
      var rest := params - KeySet(pieces);
      UrlForImpl(url, glob, params) == Success(Url(
        url.scheme, url.host,
        TrimPath(url.path, GlobsCount(pieces)) + Substitute(DropFirstEmpty(pieces), params),
        if rest == map[] then None else Some(rest),
        None))
  {
    WalkSpec(Split(glob), params, false);
  }

  /** The query is rebuilt from scratch: exactly the parameters the glob
      does not consume, with their values, and no query at all when every
      parameter was consumed. The previous query and fragment play no part. */
  lemma UrlForImplQuery(url: Url, glob: string, params: Params, q: Option<Query>, f: Option<string>)
    requires UrlForImpl(url, glob, params).Success?
    ensures var u := UrlForImpl(url, glob, params).value;
      && (u.query.None? <==> params.Keys <= KeySet(Split(glob)))
      && (u.query.Some? ==>
            u.query.value.Keys == params.Keys - KeySet(Split(glob))
            && forall k :: k in u.query.value ==> u.query.value[k] == params[k])
    ensures UrlForImpl(url.(query := q, fragment := f), glob, params) == UrlForImpl(url, glob, params)
  {
    UrlForImplSpec(url, glob, params);
    var rest := params - KeySet(Split(glob));
    assert rest == map[] <==> params.Keys <= KeySet(Split(glob)) by {
      if params.Keys <= KeySet(Split(glob)) {
        assert rest.Keys == {};
      } else {
        var k :| k in params.Keys && k !in KeySet(Split(glob));
        assert k in rest;
      }
    }
  }

  /** The current path keeps the segments in front of the glob's position:
      one more than the glob's non-empty pieces are dropped from its end, or
      all of it when the glob is at least as long. */
  lemma UrlForImplKeepsPrefix(url: Url, glob: string, params: Params)
    requires Supplied(Split(glob), params)
    ensures UrlForImpl(url, glob, params).Success?
    ensures var path := UrlForImpl(url, glob, params).value.path;
      var n := GlobsCount(Split(glob));
      if n < |url.path| then
        |path| >= |url.path| - n - 1 && path[..|url.path| - n - 1] == url.path[..|url.path| - n - 1]
      else
        path == Substitute(DropFirstEmpty(Split(glob)), params)
  {
    UrlForImplSpec(url, glob, params);
  }

  /** A glob that begins and ends with '/' yields a path that ends with an
      empty segment, i.e. a URL with a trailing slash: the leading empty
      piece is the one skipped, the trailing one is kept. */
  lemma UrlForImplTrailingSlash(url: Url, glob: string, params: Params)
    requires |glob| > 0 && glob[0] == '/' && glob[|glob| - 1] == '/'
    requires UrlForImpl(url, glob, params).Success?
    ensures var path := UrlForImpl(url, glob, params).value.path;
      |path| > 0 && path[|path| - 1] == ""
  {
    UrlForImplSpec(url, glob, params);
    var pieces := Split(glob);
    JoinSplit(glob);
    var n := |pieces|;
    assert n >= 2;
    JoinStartsWithFirst(pieces);
    assert pieces[0] == "";
    var last := pieces[n - 1];
    assert glob == Join(pieces[..n - 1]) + "/" + last;
    assert last == "";
    var dropped := DropFirstEmpty(pieces);
    assert dropped == pieces[1..];
    SubstituteLast(dropped, params);
  }

  // ---------------------------------------------------------------------
  // Worked examples
  // ---------------------------------------------------------------------

  /** The pieces of a glob given as its slash-free pieces joined. */
  lemma SplitPieces(glob: string, pieces: seq<string>)
    requires |pieces| >= 1 && AllSlashFree(pieces)
    requires Join(pieces) == glob
    ensures Split(glob) == pieces
  {
    SplitJoin(pieces);
  }

  /** The pieces of the two example globs. */
  lemma ExampleSplits()
    ensures Split("/foo/:user") == ["", "foo", ":user"]
    ensures Split("/foo/:user/") == ["", "foo", ":user", ""]
    ensures GlobsCount(Split("/foo/:user")) == 2 && GlobsCount(Split("/foo/:user/")) == 2
  {
    var p3 := ["", "foo", ":user"];
    var p4 := p3 + [""];
    assert p4[..3] == p3 && p3[..2] == ["", "foo"] && p3[..2][..1] == [""];
    assert Join(p3[..2]) == "/foo";
    assert Join(p3) == "/foo/:user";
    assert Join(p4) == "/foo/:user/";
    SplitPieces("/foo/:user", p3);
    SplitPieces("/foo/:user/", p4);
    assert [""][..0] == [];
    assert GlobsCount([""]) == 0;
    assert GlobsCount(p3[..2]) == 1;
  }

  /** How the example pieces walk against `{user: bam}`. */
  lemma ExampleWalks()
    ensures Walk(["", "foo", ":user"], map["user" := "bam"], false) == Success(Walked(["foo", "bam"], map[]))
    ensures Walk(["", "foo", ":user", ""], map["user" := "bam"], false) == Success(Walked(["foo", "bam", ""], map[]))
  {
    var params := map["user" := "bam"];
    assert IsPlaceholder(":user") && KeyOf(":user") == "user";
    var empty: seq<string> := [];
    var user := [":user"] + empty;
    var userSlash := [":user"] + [""];
    ExampleWalkUser(params, empty, map[]);
    assert Walk(empty, map[], true) == Success(Walked([], map[]));
    WalkLiteral("", empty, map[], true);
    assert [""] + empty == [""];
    ExampleWalkUser(params, [""], map[]);
    WalkLiteral("foo", user, params, true);
    WalkLiteral("foo", userSlash, params, true);
    assert ["bam"] + empty == ["bam"] && ["bam"] + [""] == ["bam", ""];
    assert ["foo"] + ["bam"] == ["foo", "bam"] && ["foo"] + ["bam", ""] == ["foo", "bam", ""];
    assert Walk(user, params, true) == Success(Walked(["bam"], map[]));
    assert Walk(userSlash, params, true) == Success(Walked(["bam", ""], map[]));
    assert Walk(["foo"] + user, params, true) == Success(Walked(["foo", "bam"], map[]));
    assert Walk(["foo"] + userSlash, params, true) == Success(Walked(["foo", "bam", ""], map[]));
    WalkSkip(["foo"] + user, params);
    WalkSkip(["foo"] + userSlash, params);
    assert [""] + (["foo"] + user) == ["", "foo", ":user"];
    assert [""] + (["foo"] + userSlash) == ["", "foo", ":user", ""];
  }

  /** The `:user` placeholder consumes `user` in front of `rest`. */
  lemma ExampleWalkUser(params: Params, rest: seq<string>, left: Params)
    requires params == map["user" := "bam"]
    requires Walk(rest, map[], true).Success? && Walk(rest, map[], true).value.rest == left
    ensures var w := Walk(rest, map[], true).value;
      Walk([":user"] + rest, params, true) == Success(Walked(["bam"] + w.segments, left))
  {
    assert IsPlaceholder(":user") && KeyOf(":user") == "user";
    assert params - {KeyOf(":user")} == map[];
    WalkPlaceholder(":user", rest, params, true);
  }

  /** The first empty piece is skipped. */
  lemma WalkSkip(rest: seq<string>, params: Params)
    ensures Walk([""] + rest, params, false) == Walk(rest, params, true)
  {
  }

  /** One walk step over a literal piece that is not skipped. */
  lemma WalkLiteral(piece: string, rest: seq<string>, params: Params, skipped: bool)
    requires !IsPlaceholder(piece) && (skipped || piece != "")
    requires Walk(rest, params, skipped).Success?
    ensures var w := Walk(rest, params, skipped).value;
      Walk([piece] + rest, params, skipped) == Success(Walked([piece] + w.segments, w.rest))
  {
  }

  /** One walk step over a placeholder whose value is supplied. */
  lemma WalkPlaceholder(piece: string, rest: seq<string>, params: Params, skipped: bool)
    requires IsPlaceholder(piece) && KeyOf(piece) in params
    requires Walk(rest, params - {KeyOf(piece)}, skipped).Success?
    ensures var w := Walk(rest, params - {KeyOf(piece)}, skipped).value;
      Walk([piece] + rest, params, skipped) == Success(Walked([params[KeyOf(piece)]] + w.segments, w.rest))
  {
  }

  /** `/foo/:user` from `/foo/bar/baz`: two non-empty pieces against three
      segments, so all three are popped. */
  lemma ExampleNoTrailingSlash()
    ensures UrlForImpl(Url("http", "localhost", ["foo", "bar", "baz"], None, None),
                       "/foo/:user", map["user" := "bam"])
      == Success(Url("http", "localhost", ["foo", "bam"], None, None))
  {
    ExampleSplits();
    ExampleWalks();
    var path := ["foo", "bar", "baz"];
    var kept := TrimPath(path, 2);
    assert kept == [];
    assert kept + ["foo", "bam"] == ["foo", "bam"];
  }

  /** `/foo/:user/` from `/foo/bar/baz`: the trailing empty piece is kept. */
  lemma ExampleTrailingSlash()
    ensures UrlForImpl(Url("http", "localhost", ["foo", "bar", "baz"], None, None),
                       "/foo/:user/", map["user" := "bam"])
      == Success(Url("http", "localhost", ["foo", "bam", ""], None, None))
  {
    ExampleSplits();
    ExampleWalks();
    var path := ["foo", "bar", "baz"];
    var kept := TrimPath(path, 2);
    assert kept == [];
    assert kept + ["foo", "bam", ""] == ["foo", "bam", ""];
  }

  /** Generation from a glob whose pieces and walk are already known. */
  lemma UrlForImplKnown(url: Url, glob: string, params: Params, pieces: seq<string>, w: Walked)
    requires Split(glob) == pieces && Walk(pieces, params, false) == Success(w)
    requires w.rest == map[]
    ensures UrlForImpl(url, glob, params)
      == Success(url.(path := TrimPath(url.path, GlobsCount(pieces)) + w.segments,
                      query := None, fragment := None))
  {
  }

  /** Under a mount prefix the prefix survives the trim. */
  lemma ExampleWithMount()
    ensures UrlForImpl(Url("http", "localhost", ["mounted", "foo", "bar", "baz"], None, None),
                       "/foo/:user/", map["user" := "bam"])
      == Success(Url("http", "localhost", ["mounted", "foo", "bam", ""], None, None))
  {
    var url := Url("http", "localhost", ["mounted", "foo", "bar", "baz"], None, None);
    var kept := TrimPath(url.path, 2);
    assert kept == ["mounted"];
    assert kept + ["foo", "bam", ""] == ["mounted", "foo", "bam", ""];
    ExampleSplits();
    ExampleWalks();
    UrlForImplKnown(url, "/foo/:user/", map["user" := "bam"],
      ["", "foo", ":user", ""], Walked(["foo", "bam", ""], map[]));
  }

  /** `/foo/:user` with no parameters: the placeholder has no value. */
  lemma ExampleMissingUser(url: Url)
    ensures UrlForImpl(url, "/foo/:user", map[]) == Failure(MissingParam("user"))
  {
    ExampleSplits();
    var empty: seq<string> := [];
    var user := [":user"] + empty;
    assert IsPlaceholder(":user") && KeyOf(":user") == "user";
    assert user[0] == ":user";
    assert Walk(user, map[], true) == Failure(MissingParam("user"));
    assert (["foo"] + user)[0] == "foo" && (["foo"] + user)[1..] == user;
    assert Walk(["foo"] + user, map[], true) == Failure(MissingParam("user"));
    WalkSkip(["foo"] + user, map[]);
    assert [""] + (["foo"] + user) == ["", "foo", ":user"];
  }

  /** A glob naming one parameter twice never generates: the first use
      consumes the value the second one needs. */
  lemma UrlForImplRepeatedKey(url: Url, glob: string, params: Params, i: nat, j: nat)
    requires var pieces := Split(glob);
      i < j < |pieces| && IsPlaceholder(pieces[i]) && IsPlaceholder(pieces[j])
      && KeyOf(pieces[i]) == KeyOf(pieces[j])
    ensures UrlForImpl(url, glob, params).Failure?
  {
    UrlForImplSpec(url, glob, params);
  }

  // ---------------------------------------------------------------------
  // Route-id lookup
  // ---------------------------------------------------------------------

  /** Generation from a route id: the id's glob is looked up in the
      router's id table, failing when the id was never registered. */
  function UrlFor(routeIds: map<string, string>, url: Url, routeId: string, params: Params): (r: Result<Url, UrlError>)
    ensures routeId !in routeIds <==> r == Failure(UnknownRouteId(routeId))
    ensures routeId in routeIds ==> r == UrlForImpl(url, routeIds[routeId], params)
  {
    if routeId in routeIds then UrlForImpl(url, routeIds[routeId], params)
    else Failure(UnknownRouteId(routeId))
  }
}
