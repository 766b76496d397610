/** URLs as `urllib.parse.urlparse` splits them, and the path suffix `pathlib` computes. */
module Urls {
  import opened Options
  import opened Text

  /** The six components `urlparse` returns. `params` is what follows the first `;` of the
      path's last segment, which `urlparse` splits off for `http` and `https`. */
  datatype Url = Url(scheme: string, netloc: string, path: string, params: string, query: string, fragment: string)

  /** `urlparse(urljoin(base, href))`: resolving a reference against a base and splitting the
      result. The resolution algorithm itself is not modelled; it is a parameter. */
  type Resolver = (string, string) -> Url

  /** `sep + x` when `x` is non-empty, and nothing otherwise. */
  function Tagged(sep: string, x: string): string {
    if x == "" then "" else sep + x
  }

  /** The path followed by its `;params`, when there are any. */
  function PathPart(u: Url): string {
    u.path + Tagged(";", u.params)
  }

  /** Scheme, `:`, authority, path and params: everything before the query. */
  function Head(u: Url): string {
    u.scheme + ":" + Tagged("//", u.netloc) + PathPart(u)
  }

  /** What `urlunparse` puts back together: `scheme ":" ["//" netloc] path [";" params]
      ["?" query] ["#" fragment]`, each optional part present when it is non-empty. */
  function Render(u: Url): string {
    Head(u) + Tagged("?", u.query) + Tagged("#", u.fragment)
  }

  /** The shape `urlparse` gives an absolute URL: no component holds the delimiter that ends
      it, the path after an authority is absolute, and a path without one cannot pass for an
      authority. */
  predicate WellFormed(u: Url) {
    && u.scheme != "" && ':' !in u.scheme && '/' !in u.scheme && '?' !in u.scheme && '#' !in u.scheme
    && '/' !in u.netloc && '?' !in u.netloc && '#' !in u.netloc
    && '?' !in u.path && '#' !in u.path && ';' !in LastSegment(u.path)
    && '/' !in u.params && '?' !in u.params && '#' !in u.params
    && (u.netloc != "" ==> PathPart(u) == "" || PathPart(u)[0] == '/')
    && (u.netloc == "" ==> !("//" <= PathPart(u)))
    && '#' !in u.query
  }

  /** What follows the last `/` of `p`; all of `p` when it has none. */
  function LastSegment(p: string): string
    decreases |p|
  {
    if '/' in p then LastSegment(SplitFirst(p, '/').1) else p
  }

  /** `_splitparams`: the path cut at the first `;` of its last segment, and what follows that
      `;`; the whole path and `""` when that segment has no `;`. */
  function SplitParams(p: string): (string, string)
    decreases |p|
  {
    if '/' in p then
      var (a, b) := SplitFirst(p, '/');
      var (path, params) := SplitParams(b);
      (a + "/" + path, params)
    else SplitFirst(p, ';')
  }

  /** Splitting a path with its params appended recovers both, when the path's last segment
      has no `;` and the params no `/`. */
  lemma {:induction false} ParamsOf(path: string, params: string)
    requires ';' !in LastSegment(path) && '/' !in params
    ensures SplitParams(path + Tagged(";", params)) == (path, params)
    decreases |path|
  {
    var t := Tagged(";", params);
    if '/' in path {
      var (a, b) := SplitFirst(path, '/');
      assert path + t == a + ['/'] + (b + t);
      SplitFirstOf(a, '/', b + t);
      ParamsOf(b, params);
      assert a + "/" + b == path;
    } else {
      assert '/' !in path + t;
      SplitTagged(path, ';', params);
    }
  }

  /** A simplified `urlparse` for absolute URLs: fragment after the first `#`, query after the
      first `?`, scheme before the first `:`, authority after a leading `//` up to the next `/`,
      params after the first `;` of the last path segment. `None` when there is no scheme. */
  function Parse(s: string): (r: Option<Url>)
    ensures r.Some? ==> r.value.scheme != "" && ':' !in r.value.scheme && '/' !in r.value.scheme
  {
    var (beforeFragment, fragment) := SplitFirst(s, '#');
    var (beforeQuery, query) := SplitFirst(beforeFragment, '?');
    ParseHead(beforeQuery, query, fragment)
  }

  /** The part of `Parse` that splits what precedes the query: scheme, authority, path and
      params. */
  function ParseHead(head: string, query: string, fragment: string): (r: Option<Url>)
    ensures r.Some? ==> r.value.scheme != "" && ':' !in r.value.scheme && '/' !in r.value.scheme
  {
    if ':' !in head then None
    else
      var (scheme, rest) := SplitFirst(head, ':');
      if scheme == "" || '/' in scheme then None
      else if "//" <= rest then
        var (netloc, afterNetloc) := SplitFirst(rest[2..], '/');
        var (path, params) := SplitParams(if '/' in rest[2..] then "/" + afterNetloc else "");
        Some(Url(scheme, netloc, path, params, query, fragment))
      else
        var (path, params) := SplitParams(rest);
        Some(Url(scheme, "", path, params, query, fragment))
  }

  /** `urldefrag`: the same URL with its fragment removed. */
  function Defrag(u: Url): (r: Url)
    ensures r.fragment == ""
    ensures r.scheme == u.scheme && r.netloc == u.netloc && r.path == u.path && r.params == u.params
            && r.query == u.query
  {
    u.(fragment := "")
  }

  /** Splitting `a` followed by an optional `c`-tagged part at the first `c` recovers both. */
  lemma SplitTagged(a: string, c: char, x: string)
    requires c !in a
    ensures SplitFirst(a + Tagged([c], x), c) == (a, x)
  {
    if x == "" {
      assert a + Tagged([c], x) == a;
    } else {
      assert a + Tagged([c], x) == a + [c] + x;
      SplitFirstOf(a, c, x);
    }
  }

  /** The authority and the path with its params are recovered from what follows a
      well-formed URL's `:`. */
  lemma SplitAuthority(netloc: string, pp: string)
    requires '/' !in netloc
    requires netloc != "" ==> pp == "" || pp[0] == '/'
    requires netloc == "" ==> !("//" <= pp)
    ensures var rest := Tagged("//", netloc) + pp;
            && ("//" <= rest <==> netloc != "")
            && (netloc != "" ==>
                  && rest[2..] == netloc + pp
                  && SplitFirst(rest[2..], '/').0 == netloc
                  && (if '/' in rest[2..] then "/" + SplitFirst(rest[2..], '/').1 else "") == pp)
  {
    var rest := Tagged("//", netloc) + pp;
    if netloc != "" {
      assert rest == "//" + (netloc + pp);
      if pp == "" {
        assert netloc + pp == netloc;
      } else {
        assert netloc + pp == netloc + ['/'] + pp[1..];
        SplitFirstOf(netloc, '/', pp[1..]);
        assert "/" + pp[1..] == pp;
      }
    } else {
      assert rest == pp;
    }
  }

  /** Parsing a rendered well-formed URL gives back the same components. */
  lemma ParseRender(u: Url)
    requires WellFormed(u)
    ensures Parse(Render(u)) == Some(u)
  {
    var head := Head(u);
    assert '?' !in head && '#' !in head;
    var beforeFragment := head + Tagged("?", u.query);
    assert '#' !in beforeFragment;
    assert Render(u) == beforeFragment + Tagged("#", u.fragment);
    SplitTagged(beforeFragment, '#', u.fragment);
    SplitTagged(head, '?', u.query);
    ParseHeadOf(u);
  }

  /** What precedes the query of a well-formed URL splits back into its components. */
  lemma ParseHeadOf(u: Url)
    requires WellFormed(u)
    ensures ParseHead(Head(u), u.query, u.fragment) == Some(u)
  {
    var pp := PathPart(u);
    var rest := Tagged("//", u.netloc) + pp;
    assert Head(u) == u.scheme + [':'] + rest;
    SplitFirstOf(u.scheme, ':', rest);
    SplitAuthority(u.netloc, pp);
    ParamsOf(u.path, u.params);
    if u.netloc != "" {
      var (netloc, afterNetloc) := SplitFirst(rest[2..], '/');
      assert (if '/' in rest[2..] then "/" + afterNetloc else "") == pp;
    } else {
      assert !("//" <= rest) && rest == pp;
    }
  }

  /** The defragmented form of a well-formed URL renders without any `#` and parses back to
      itself, so inspecting its components is the same as re-parsing its text. */
  lemma DefragRoundTrip(u: Url)
    requires WellFormed(u)
    ensures '#' !in Render(Defrag(u))
    ensures Parse(Render(Defrag(u))) == Some(Defrag(u))
  {
    var d := Defrag(u);
    assert PathPart(d) == PathPart(u);
    HeadHasNoFragment(u);
    ParseRender(d);
  }

  /** The rendering of a well-formed URL has a `#` only when it has a fragment. */
  lemma HeadHasNoFragment(u: Url)
    requires WellFormed(u)
    ensures '#' !in Head(u) && '#' !in Render(u.(fragment := ""))
  {
    assert '#' !in PathPart(u);
    assert '#' !in Tagged("//", u.netloc);
    assert Render(u.(fragment := "")) == Head(u) + Tagged("?", u.query);
  }

  /** Every `/`-separated segment of `t` is empty or `.`: the segments `PurePosixPath` drops. */
  predicate OnlyDotSegments(t: string)
    decreases |t|
  {
    || t == ""
    || (t[0] == '/' && OnlyDotSegments(t[1..]))
    || (t[0] == '.' && (|t| == 1 || t[1] == '/') && OnlyDotSegments(t[1..]))
  }

  /** `name` is a whole segment of `path` starting at `i`, and every segment after it is
      empty or `.`: it is the last component `PurePosixPath` keeps. */
  predicate NameAt(path: string, name: string, i: int) {
    && 0 <= i && i + |name| <= |path| && path[i..i + |name|] == name
    && (i == 0 || path[i - 1] == '/')
    && (i + |name| == |path| || path[i + |name|] == '/')
    && OnlyDotSegments(path[i + |name|..])
  }

  /** Joining two paths with `/` leaves only droppable segments exactly when both have only
      droppable segments. */
  lemma {:induction false} DotSegmentsJoin(a: string, b: string)
    ensures OnlyDotSegments(a + "/" + b) <==> OnlyDotSegments(a) && OnlyDotSegments(b)
    decreases |a|
  {
    var t := a + "/" + b;
    if |a| == 0 {
      assert t[1..] == b;
    } else {
      assert t[0] == a[0] && t[1..] == a[1..] + "/" + b;
      DotSegmentsJoin(a[1..], b);
      if |a| == 1 {
        assert t[1] == '/' && a[1..] == "";
      } else {
        assert t[1] == a[1];
      }
    }
  }

  /** A single segment is droppable exactly when it is empty or `.`. */
  lemma OneDotSegment(t: string)
    requires '/' !in t
    ensures OnlyDotSegments(t) <==> t == "" || t == "."
  {
    if |t| > 1 {
      assert t[1] in t;
    }
    if |t| == 1 {
      assert t[1..] == "";
      assert t[0] == '.' ==> t == ".";
    }
  }

  /** Cutting a path at its last `/`. */
  lemma LastSlash(path: string, i: nat)
    requires i < |path| && path[i] == '/' && forall k :: i < k < |path| ==> path[k] != '/'
    ensures path == path[..i] + "/" + path[i + 1..]
    ensures '/' !in path[i + 1..]
    ensures OnlyDotSegments(path) <==> OnlyDotSegments(path[..i]) && OnlyDotSegments(path[i + 1..])
  {
    assert path == path[..i] + "/" + path[i + 1..];
    DotSegmentsJoin(path[..i], path[i + 1..]);
  }

  /** The last kept component of the part before the last `/` stays the last kept component
      when what follows that `/` is droppable. */
  lemma NameInPrefix(path: string, i: nat, name: string, j: int)
    requires i < |path| && path[i] == '/' && OnlyDotSegments(path[i + 1..])
    requires NameAt(path[..i], name, j)
    ensures NameAt(path, name, j)
  {
    var tail := path[..i][j + |name|..];
    assert path[j..j + |name|] == path[..i][j..j + |name|];
    assert path[j + |name|..] == tail + "/" + path[i + 1..];
    DotSegmentsJoin(tail, path[i + 1..]);
  }

  /** `PurePosixPath(path).name`: the last component of `path`, where empty components and `.`
      components are dropped, and `""` when none is left. */
  function FileName(path: string): (r: string)
    ensures '/' !in r && r != "."
    ensures '/' !in path && path != "." ==> r == path
    ensures r != "" ==> Contains(path, r)
    ensures r == "" <==> OnlyDotSegments(path)
    ensures r != "" ==> exists i :: NameAt(path, r, i)
    decreases |path|
  {
    match LastIndexOf(path, '/')
    case None =>
      OneDotSegment(path);
      if path == "." then ""
      else
        assert path != "" ==> NameAt(path, path, 0) by {
          assert path[0..|path|] == path && path[|path|..] == "";
        }
        path
    case Some(i) =>
      var last := path[i + 1..];
      LastSlash(path, i);
      OneDotSegment(last);
      if last == "" || last == "." then
        var r := FileName(path[..i]);
        InfixOfPrefix(path, i, r);
        assert r != "" ==> exists j :: NameAt(path, r, j) by {
          if r != "" {
            var j :| NameAt(path[..i], r, j);
            NameInPrefix(path, i, r, j);
          }
        }
        r
      else
        assert OccursAt(path, last, i + 1);
        ContainsIffOccurs(path, last);
        assert NameAt(path, last, i + 1) by {
          assert path[i + 1..i + 1 + |last|] == last && path[i + 1 + |last|..] == "";
        }
        last
  }

  /** A name appended to any directory with `/` is that path's name. */
  lemma FileNameOfChild(dir: string, name: string)
    requires name != "" && name != "." && '/' !in name
    ensures FileName(dir + "/" + name) == name
  {
    var path := dir + "/" + name;
    assert path[|dir|] == '/';
    assert forall k :: |dir| < k < |path| ==> path[k] == name[k - |dir| - 1];
    assert path[|dir| + 1..] == name;
    var i := LastIndexOf(path, '/').value;
    assert i == |dir|;
  }

  lemma InfixOfPrefix(s: string, n: nat, p: string)
    requires n <= |s| && Contains(s[..n], p)
    ensures Contains(s, p)
  {
    ContainsIffOccurs(s[..n], p);
    var i :| OccursAt(s[..n], p, i);
    assert s[i..i + |p|] == s[..n][i..i + |p|];
    assert OccursAt(s, p, i);
    ContainsIffOccurs(s, p);
  }

  /** `PurePath.suffix` of a file name: from its last `.` to the end, dot included, unless that
      dot is the first or the final character (or there is none), in which case `""`. */
  function Suffix(name: string): (r: string)
    ensures r != "" <==> |name| > 0 && name[|name| - 1] != '.' && exists i :: 0 < i < |name| && name[i] == '.'
    ensures r != "" ==> |r| >= 2 && |r| < |name| && r == name[|name| - |r|..]
                        && r[0] == '.' && '.' !in r[1..]
  {
    match LastIndexOf(name, '.')
    case None => ""
    case Some(i) =>
      if 0 < i < |name| - 1 then
        var r := name[i..];
        assert forall k :: 1 <= k < |r| ==> r[k] == name[i + k];
        r
      else ""
  }
}
