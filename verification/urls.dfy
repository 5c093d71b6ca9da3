/** URLs as the router sees them: a scheme and host that are carried along
    untouched, a path given as its segments, an optional query and fragment.
    Also the two string/segment conversions the router relies on:
    `Join` (a segment vector joined with "/", as `connect("/")` does) and
    `Split` (a string cut at every '/', as `str::split('/')` does). */
module Urls {
  import opened Results

  /** Query pairs; keys are unique and their order is immaterial. */
  type Query = map<string, string>

  datatype Url = Url(
    scheme: string,
    host: string,
    path: seq<string>,
    query: Option<Query>,
    fragment: Option<string>)

  predicate SlashFree(s: string) {
    '/' !in s
  }

  predicate AllSlashFree(segs: seq<string>) {
    forall i :: 0 <= i < |segs| ==> SlashFree(segs[i])
  }

  /** The segments with a single '/' between neighbours; no leading slash. */
  function Join(segs: seq<string>): (s: string)
    ensures |segs| == 0 ==> s == ""
    decreases |segs|
  {
    if |segs| == 0 then ""
    else if |segs| == 1 then segs[0]
    else Join(segs[..|segs| - 1]) + "/" + segs[|segs| - 1]
  }

  /** Slash-free segments joined contain exactly one '/' between each
      pair of neighbours and no other. */
  lemma {:induction false} JoinSlashCount(segs: seq<string>)
    requires |segs| > 0 && AllSlashFree(segs)
    ensures multiset(Join(segs))['/'] == |segs| - 1
    decreases |segs|
  {
    if |segs| > 1 {
      var pre := segs[..|segs| - 1];
      JoinSlashCount(pre);
      var last := segs[|segs| - 1];
      assert '/' !in multiset(last);
      assert multiset(Join(segs)) == multiset(Join(pre)) + multiset("/") + multiset(last);
    } else {
      assert '/' !in multiset(segs[0]);
    }
  }

  /** The pieces of `s` between its slashes. There is always at least one
      piece: the empty string splits into one empty piece, and a leading or
      trailing slash yields an empty first or last piece. */
  function Split(s: string): (pieces: seq<string>)
    ensures |pieces| >= 1
    ensures AllSlashFree(pieces)
    decreases |s|
  {
    if |s| == 0 then [""]
    else
      var init := Split(s[..|s| - 1]);
      var c := s[|s| - 1];
      if c == '/' then init + [""]
      else init[..|init| - 1] + [init[|init| - 1] + [c]]
  }

  /** Joining the pieces of a split gives back the string. */
  lemma {:induction false} JoinSplit(s: string)
    ensures Join(Split(s)) == s
    decreases |s|
  {
    if |s| > 0 {
      var init := Split(s[..|s| - 1]);
      JoinSplit(s[..|s| - 1]);
      var c := s[|s| - 1];
      if c == '/' {
        assert (init + [""])[..|init|] == init;
      } else {
        var k := |init|;
        var pieces := init[..k - 1] + [init[k - 1] + [c]];
        if k > 1 {
          assert pieces[..k - 1] == init[..k - 1];
        }
      }
      assert s[..|s| - 1] + [s[|s| - 1]] == s;
    }
  }

  /** Appending slash-free text extends the last piece and nothing else. */
  lemma {:induction false} SplitExtend(p: string, w: string)
    requires SlashFree(w)
    ensures var init := Split(p);
      Split(p + w) == init[..|init| - 1] + [init[|init| - 1] + w]
    decreases |w|
  {
    var init := Split(p);
    var k := |init|;
    if |w| == 0 {
      assert w == [];
      assert p + w == p;
      LastPieceExtend(init, w);
    } else {
      var w' := w[..|w| - 1];
      var c := w[|w| - 1];
      assert w == w' + [c];
      assert c in w;
      SplitExtend(p, w');
      SplitExtendSnoc(p, w', c);
    }
  }

  /** One step of `SplitExtend`: from the slash-free text `w` to `w + [c]`. */
  lemma SplitExtendSnoc(p: string, w: string, c: char)
    requires c != '/'
    requires var init := Split(p);
      Split(p + w) == init[..|init| - 1] + [init[|init| - 1] + w]
    ensures var init := Split(p);
      Split(p + (w + [c])) == init[..|init| - 1] + [init[|init| - 1] + (w + [c])]
  {
    var q := p + w;
    var init := Split(p);
    var mid := Split(q);
    assert p + (w + [c]) == q + [c];
    SplitSnoc(q, c);
    assert Split(q + [c]) == mid[..|mid| - 1] + [mid[|mid| - 1] + [c]];
    ExtendLastTwice(init, mid, w, c);
  }

  /** Extending the last piece by `w` and then by `c` extends it by
      `w + [c]`. */
  lemma ExtendLastTwice(init: seq<string>, mid: seq<string>, w: string, c: char)
    requires |init| >= 1
    requires mid == init[..|init| - 1] + [init[|init| - 1] + w]
    ensures mid[..|mid| - 1] + [mid[|mid| - 1] + [c]]
      == init[..|init| - 1] + [init[|init| - 1] + (w + [c])]
  {
    var k := |init|;
    assert mid[..k - 1] == init[..k - 1];
    assert mid[k - 1] + [c] == init[k - 1] + (w + [c]);
  }

  /** Extending the last piece by nothing changes nothing. */
  lemma LastPieceExtend(pieces: seq<string>, w: string)
    requires |pieces| >= 1 && w == []
    ensures pieces[..|pieces| - 1] + [pieces[|pieces| - 1] + w] == pieces
  {
    assert pieces[|pieces| - 1] + w == pieces[|pieces| - 1];
  }

  /** Appending a character other than '/' extends the last piece. */
  lemma SplitSnoc(p: string, c: char)
    requires c != '/'
    ensures var init := Split(p);
      Split(p + [c]) == init[..|init| - 1] + [init[|init| - 1] + [c]]
  {
    assert (p + [c])[..|p|] == p;
  }

  /** Splitting the join of slash-free segments gives back the segments. */
  lemma {:induction false} SplitJoin(segs: seq<string>)
    requires |segs| >= 1
    requires AllSlashFree(segs)
    ensures Split(Join(segs)) == segs
    decreases |segs|
  {
    if |segs| == 1 {
      SplitSingle(segs[0]);
    } else {
      var pre := segs[..|segs| - 1];
      var x := segs[|segs| - 1];
      SplitJoin(pre);
      SplitJoinSnoc(pre, x);
      assert pre + [x] == segs;
    }
  }

  /** A slash-free string is a single piece. */
  lemma SplitSingle(x: string)
    requires SlashFree(x)
    ensures Split(x) == [x]
  {
    SplitExtend("", x);
    assert "" + x == x;
  }

  /** One step of `SplitJoin`: a further slash-free segment after a slash
      becomes one further piece. */
  lemma SplitJoinSnoc(pre: seq<string>, x: string)
    requires SlashFree(x)
    requires Split(Join(pre)) == pre
    ensures Split(Join(pre) + "/" + x) == pre + [x]
  {
    var j := Join(pre) + "/";
    SplitSlash(Join(pre));
    SplitExtend(j, x);
    ExtendEmptyLast(pre, x);
  }

  /** Extending a trailing empty piece by `x` leaves `x` in its place. */
  lemma ExtendEmptyLast(pre: seq<string>, x: string)
    ensures var sj := pre + [""];
      sj[..|sj| - 1] + [sj[|sj| - 1] + x] == pre + [x]
  {
    var sj := pre + [""];
    assert sj[..|sj| - 1] == pre;
    assert sj[|sj| - 1] + x == x;
  }

  /** A trailing slash adds one empty piece. */
  lemma SplitSlash(p: string)
    ensures Split(p + "/") == Split(p) + [""]
  {
    assert (p + "/")[..|p|] == p;
  }

  /** The first segment is a prefix of the joined string. */
  lemma {:induction false} JoinStartsWithFirst(segs: seq<string>)
    requires |segs| >= 1
    ensures |segs[0]| <= |Join(segs)|
    ensures Join(segs)[..|segs[0]|] == segs[0]
    decreases |segs|
  {
    if |segs| > 1 {
      var pre := segs[..|segs| - 1];
      JoinStartsWithFirst(pre);
      assert pre[0] == segs[0];
    }
  }
}
