/**
 The path grammar that guards the served tree (the `validPath` pattern and
 `isValidPath`) and the path utilities `getSubPath`, `getParentPath` and
 `urlFromPath` of the request handler.
 */
module Paths {
  import opened Text

  /** The served root as the handler spells it (`rootDir`). */
  const RootDir := "./files/"

  /** The root without its trailing separator: every valid path starts with it. */
  const RootPrefix := "./files"

  /** `[1-9][0-9]*`: a positive decimal number without a leading zero. */
  predicate IsPageNumber(s: string) {
    IsNumeral(s) && s[0] != '0'
  }

  // ---------------------------------------------------------------------------
  // The recogniser: one predicate per state of the pattern
  //   ^\./files((/([0-9]+/)*[0-9]+\?page=([1-9]|[1-9][0-9]+))|(/([0-9]+))*/?)$
  // read left to right.
  // ---------------------------------------------------------------------------

  /** `isValidPath(path)`: the whole of `path` matches the pattern above. */
  predicate IsValidPath(path: string) {
    HasPrefix(path, RootPrefix) && AfterRoot(path[|RootPrefix|..])
  }

  /** Right after `./files`: the end, or a separator. */
  predicate AfterRoot(t: string) {
    t == "" || (t[0] == '/' && AfterSlash(t[1..]))
  }

  /** Right after a separator: the end (a trailing `/`) or the first digit of a segment. */
  predicate AfterSlash(t: string)
    decreases |t|
  {
    t == "" || (IsDigit(t[0]) && InSegment(t[1..]))
  }

  /** Inside a numeric segment, after at least one digit. */
  predicate InSegment(t: string)
    decreases |t|
  {
    if t == "" then true
    else if IsDigit(t[0]) then InSegment(t[1..])
    else if t[0] == '/' then AfterSlash(t[1..])
    else HasPrefix(t, "?page=") && IsPageNumber(t[6..])
  }

  // ---------------------------------------------------------------------------
  // The reference grammar: a valid path is the root followed by numeric
  // segments and one of three endings.
  // ---------------------------------------------------------------------------

  datatype Ending =
    | Bare                  // nothing after the last segment
    | Slash                 // a trailing `/`
    | Query(page: string)   // `?page=` and a page number

  datatype Route = Route(segments: seq<string>, ending: Ending)

  /** Segments are numerals, and a query ending carries a page number. */
  predicate NumericRoute(r: Route) {
    (forall i :: 0 <= i < |r.segments| ==> IsNumeral(r.segments[i])) &&
    (r.ending.Query? ==> IsPageNumber(r.ending.page))
  }

  /** A route the grammar admits: a query ending needs at least one segment. */
  predicate WellFormed(r: Route) {
    NumericRoute(r) && (r.ending.Query? ==> |r.segments| > 0)
  }

  /** `/s1/s2/.../sn` */
  function SegmentsText(segments: seq<string>): string
  {
    if segments == [] then "" else "/" + segments[0] + SegmentsText(segments[1..])
  }

  function EndingText(e: Ending): string
  {
    match e
    case Bare => ""
    case Slash => "/"
    case Query(page) => "?page=" + page
  }

  function RouteText(r: Route): string
  {
    SegmentsText(r.segments) + EndingText(r.ending)
  }

  /** The path a route denotes. */
  function Render(r: Route): string
  {
    RootPrefix + RouteText(r)
  }

  lemma SegmentsTextSnoc(segments: seq<string>, last: string)
    ensures SegmentsText(segments + [last]) == SegmentsText(segments) + "/" + last
  {
    if segments != [] {
      assert (segments + [last])[1..] == segments[1..] + [last];
    }
  }

  // ----- Soundness: every well-formed route renders to a valid path ---------

  /** One recogniser step over a separator. */
  lemma SlashThen(w: string)
    requires AfterSlash(w)
    ensures InSegment("/" + w) && AfterRoot("/" + w)
  {
    var t := "/" + w;
    assert t[0] == '/' && t[1..] == w;
  }

  /** A run of digits, from position `i` on, is read inside a segment. */
  lemma {:induction false} DigitsThenSegment(w: string, i: nat, x: string)
    requires AllDigits(w) && i <= |w| && InSegment(x)
    ensures InSegment(w[i..] + x)
    decreases |w| - i
  {
    var u := w[i..] + x;
    if i < |w| {
      DigitsThenSegment(w, i + 1, x);
      assert u[0] == w[i] && u[1..] == w[i + 1..] + x;
    } else {
      assert u == x;
    }
  }

  /** A separator, a numeral and then what may follow a segment. */
  lemma NumeralThenSegment(d: string, x: string)
    requires IsNumeral(d) && InSegment(x)
    ensures InSegment("/" + (d + x))
  {
    DigitsThenSegment(d, 0, x);
    assert d[0..] == d;
    assert (d + x)[0] == d[0];
    SlashThen(d + x);
  }

  /** What may follow the last segment is accepted inside a segment. */
  lemma EndingAfterSegment(e: Ending)
    requires e.Query? ==> IsPageNumber(e.page)
    ensures InSegment(EndingText(e))
  {
    match e
    case Bare =>
    case Slash =>
      assert EndingText(e)[1..] == "";
    case Query(n) =>
      var t := "?page=" + n;
      assert t[0] == '?';
      assert t[..6] == "?page=";
      assert t[6..] == n;
  }

  /** The segments after the first of a numeric route form a numeric route. */
  lemma NumericTail(segments: seq<string>, e: Ending)
    requires segments != [] && NumericRoute(Route(segments, e))
    ensures IsNumeral(segments[0]) && NumericRoute(Route(segments[1..], e))
  {
    var tail := segments[1..];
    forall i | 0 <= i < |tail| ensures IsNumeral(tail[i]) {
      assert tail[i] == segments[i + 1];
    }
  }

  /** The text of a route, split after its first segment. */
  lemma FirstSegmentText(segments: seq<string>, e: Ending)
    requires segments != []
    ensures SegmentsText(segments) + EndingText(e)
         == "/" + (segments[0] + (SegmentsText(segments[1..]) + EndingText(e)))
  {
  }

  lemma {:induction false} SegmentsThenEnding(segments: seq<string>, e: Ending)
    requires NumericRoute(Route(segments, e))
    ensures InSegment(SegmentsText(segments) + EndingText(e))
    decreases |segments|
  {
    if segments == [] {
      EndingAfterSegment(e);
    } else {
      NumericTail(segments, e);
      SegmentsThenEnding(segments[1..], e);
      NumeralThenSegment(segments[0], SegmentsText(segments[1..]) + EndingText(e));
      FirstSegmentText(segments, e);
    }
  }

  /** Text that starts with a separator and is accepted inside a segment is accepted after the root. */
  lemma SeparatorThenRoot(u: string)
    requires u != "" && u[0] == '/' && InSegment(u)
    ensures AfterRoot(u)
  {
  }

  /** Every path the reference grammar describes passes `isValidPath`. */
  lemma RenderIsValid(r: Route)
    requires WellFormed(r)
    ensures IsValidPath(Render(r))
  {
    var t := RouteText(r);
    var path := Render(r);
    assert path[..|RootPrefix|] == RootPrefix;
    assert path[|RootPrefix|..] == t;
    if r.segments != [] {
      SegmentsThenEnding(r.segments, r.ending);
      assert t[0] == '/';
      SeparatorThenRoot(t);
    } else if r.ending == Slash {
      assert t == "/" && t[1..] == "";
    }
  }

  // ----- Completeness: every valid path is the rendering of a route ----------

  /** A segment `[c] + w` in front of a route. */
  lemma ConsSegment(c: char, w: string, rest: Route)
    requires IsDigit(c) && AllDigits(w) && NumericRoute(rest)
    ensures var r := Route([[c] + w] + rest.segments, rest.ending);
            WellFormed(r) && RouteText(r) == "/" + ([c] + w + RouteText(rest))
  {
    var r := Route([[c] + w] + rest.segments, rest.ending);
    assert r.segments[1..] == rest.segments;
    assert IsNumeral([c] + w) by {
      forall i | 0 <= i < |[c] + w| ensures IsDigit(([c] + w)[i]) {
        if i > 0 { assert ([c] + w)[i] == w[i - 1]; }
      }
    }
    assert r.segments[0] == [c] + w;
    forall i | 0 <= i < |r.segments| ensures IsNumeral(r.segments[i]) {
      if i > 0 { assert r.segments[i] == rest.segments[i - 1]; }
    }
  }

  /** A digit read inside a segment joins the rest of that segment. */
  lemma DigitStep(t: string, w: string, rest: Route)
    requires t != "" && IsDigit(t[0]) && AllDigits(w) && w + RouteText(rest) == t[1..]
    ensures AllDigits([t[0]] + w) && [t[0]] + w + RouteText(rest) == t
  {
    var cw := [t[0]] + w;
    forall i | 0 <= i < |cw| ensures IsDigit(cw[i]) {
      if i > 0 { assert cw[i] == w[i - 1]; }
    }
    assert t == [t[0]] + t[1..];
  }

  /** A separator read inside a segment ends it. */
  lemma SlashStep(t: string, r: Route)
    requires t != "" && t[0] == '/' && RouteText(r) == "/" + t[1..]
    ensures RouteText(r) == t && "" + RouteText(r) == t
  {
    assert t == [t[0]] + t[1..];
  }

  /** `?page=` read inside a segment starts the query ending. */
  lemma QueryStep(t: string)
    requires HasPrefix(t, "?page=")
    ensures "" + RouteText(Route([], Query(t[6..]))) == t
  {
    assert t == t[..6] + t[6..];
  }

  /** Reads what follows a separator; the route's text starts with that separator. */
  function ParseAfterSlash(t: string): (r: Route)
    requires AfterSlash(t)
    ensures WellFormed(r) && RouteText(r) == "/" + t
    decreases |t|, 1
  {
    if t == "" then Route([], Slash)
    else
      var (w, rest) := ParseInSegment(t[1..]);
      ConsSegment(t[0], w, rest);
      DigitStep(t, w, rest);
      Route([[t[0]] + w] + rest.segments, rest.ending)
  }

  /** Reads the rest `w` of the current segment and the route that follows it. */
  function ParseInSegment(t: string): (res: (string, Route))
    requires InSegment(t)
    ensures AllDigits(res.0) && NumericRoute(res.1) && res.0 + RouteText(res.1) == t
    decreases |t|, 0
  {
    if t == "" then ("", Route([], Bare))
    else if IsDigit(t[0]) then
      var (w, rest) := ParseInSegment(t[1..]);
      DigitStep(t, w, rest);
      ([t[0]] + w, rest)
    else if t[0] == '/' then
      var r := ParseAfterSlash(t[1..]);
      SlashStep(t, r);
      ("", r)
    else
      QueryStep(t);
      ("", Route([], Query(t[6..])))
  }

  /** The route a valid path denotes. */
  function Parse(path: string): (r: Route)
    requires IsValidPath(path)
    ensures WellFormed(r) && Render(r) == path
  {
    var t := path[|RootPrefix|..];
    assert path == RootPrefix + t;
    if t == "" then Route([], Bare)
    else
      var r := ParseAfterSlash(t[1..]);
      SlashStep(t, r);
      r
  }

  /** `isValidPath` accepts exactly the paths of the reference grammar. */
  lemma ValidPathIffRoute(path: string)
    ensures IsValidPath(path) <==> exists r :: WellFormed(r) && Render(r) == path
  {
    if IsValidPath(path) {
      var r := Parse(path);
      assert WellFormed(r) && Render(r) == path;
    }
    if exists r :: WellFormed(r) && Render(r) == path {
      var r :| WellFormed(r) && Render(r) == path;
      RenderIsValid(r);
    }
  }

  // ----- What the guard rules out ---------------------------------------------

  /** A `?` in a valid path starts `?page=` followed by a page number and nothing else. */
  predicate QueryTailsArePages(t: string) {
    forall k :: 0 <= k < |t| && t[k] == '?' ==> HasPrefix(t[k..], "?page=") && IsPageNumber(t[k + 6..])
  }

  /** No `.` and no two consecutive separators. */
  predicate NoDotsNoEmptySegments(t: string) {
    forall k :: 0 <= k < |t| ==> t[k] != '.' && (k + 1 < |t| && t[k] == '/' ==> t[k + 1] != '/')
  }

  lemma ConsPreservesQueryTails(c: char, t: string)
    requires c != '?' && QueryTailsArePages(t)
    ensures QueryTailsArePages([c] + t)
  {
    var s := [c] + t;
    forall k | 0 <= k < |s| && s[k] == '?'
      ensures HasPrefix(s[k..], "?page=") && IsPageNumber(s[k + 6..])
    {
      assert s[0] == c;
      assert k >= 1 && s[k] == t[k - 1];
      assert s[k..] == t[k - 1..];
      assert s[k + 6..] == t[k + 5..];
    }
  }

  lemma ConsPreservesNoDots(c: char, t: string)
    requires c != '.' && NoDotsNoEmptySegments(t)
    requires c == '/' ==> t == "" || t[0] != '/'
    ensures NoDotsNoEmptySegments([c] + t)
  {
    var s := [c] + t;
    forall k | 0 <= k < |s|
      ensures s[k] != '.' && (k + 1 < |s| && s[k] == '/' ==> s[k + 1] != '/')
    {
      if k > 0 { assert s[k] == t[k - 1]; }
    }
  }

  lemma PageNumberTail(n: string)
    requires IsPageNumber(n)
    ensures QueryTailsArePages("?page=" + n) && NoDotsNoEmptySegments("?page=" + n)
  {
    var s := "?page=" + n;
    forall k | 0 <= k < |s| ensures s[k] != '.' && s[k] != '/' && (k > 0 ==> s[k] != '?') {
      if k >= 6 {
        assert s[k] == n[k - 6];
        assert IsDigit(n[k - 6]);
      } else {
        assert s[k] == "?page="[k];
      }
    }
    assert s[0..] == s && s[..6] == "?page=" && s[6..] == n;
  }

  lemma {:induction false} AfterSlashSafe(t: string)
    requires AfterSlash(t)
    ensures t == "" || t[0] != '/'
    ensures QueryTailsArePages(t) && NoDotsNoEmptySegments(t)
    decreases |t|, 1
  {
    if t != "" {
      InSegmentSafe(t[1..]);
      assert t == [t[0]] + t[1..];
      ConsPreservesQueryTails(t[0], t[1..]);
      ConsPreservesNoDots(t[0], t[1..]);
    }
  }

  lemma {:induction false} InSegmentSafe(t: string)
    requires InSegment(t)
    ensures QueryTailsArePages(t) && NoDotsNoEmptySegments(t)
    decreases |t|, 0
  {
    if t == "" {
    } else if IsDigit(t[0]) || t[0] == '/' {
      if IsDigit(t[0]) { InSegmentSafe(t[1..]); } else { AfterSlashSafe(t[1..]); }
      assert t == [t[0]] + t[1..];
      ConsPreservesQueryTails(t[0], t[1..]);
      ConsPreservesNoDots(t[0], t[1..]);
    } else {
      PageNumberTail(t[6..]);
      assert t == "?page=" + t[6..];
    }
  }

  /**
   The guard's security content: after `./files` a valid path has no `.` (so no `..`),
   no empty segment (`//`), and a `?` only as `?page=` followed by a positive page
   number without a leading zero (so no `?page=0`, no `?page=01`).
   */
  lemma ValidPathIsSafe(path: string)
    requires IsValidPath(path)
    ensures var t := path[|RootPrefix|..];
            QueryTailsArePages(t) && NoDotsNoEmptySegments(t)
  {
    var t := path[|RootPrefix|..];
    if t != "" {
      AfterSlashSafe(t[1..]);
      assert t == ['/'] + t[1..];
      ConsPreservesQueryTails('/', t[1..]);
      ConsPreservesNoDots('/', t[1..]);
    }
  }

  /** Paths the guard rejects, one per kind of malformation. */
  lemma RejectedExamples()
    ensures !IsValidPath("./files/../1")
    ensures !IsValidPath("./files/a")
    ensures !IsValidPath("./files//1")
    ensures !IsValidPath("./files/1?page=0")
    ensures !IsValidPath("./files/1?page=01")
    ensures !IsValidPath("./files/?page=1")
    ensures !IsValidPath("./files?page=1")
    ensures !IsValidPath("files/1")
  {
    assert "./files/../1"[7..] == "/../1";
    assert "./files/a"[7..] == "/a";
    assert "./files//1"[7..] == "//1";
    assert "./files/1?page=0"[7..] == "/1?page=0";
    assert "./files/1?page=0"[7..][1..][1..][6..] == "0";
    assert "./files/1?page=01"[7..] == "/1?page=01";
    assert "./files/1?page=01"[7..][1..][1..][6..] == "01";
    assert "./files/?page=1"[7..] == "/?page=1";
    assert "./files?page=1"[7..] == "?page=1";
    assert "files/1"[..7][0] == 'f';
  }

  // ---------------------------------------------------------------------------
  // Path utilities
  // ---------------------------------------------------------------------------

  /**
   `getSubPath(path)`: the last `/`-separated piece, or the one before it when the
   path ends with `/`. Go's `strings.Split` never returns an empty slice, so the
   source's `pathLen == 0` branch cannot be taken; `""` splits to `[""]` and the
   source then indexes piece -1, hence the precondition.
   */
  function SubPath(path: string): (name: string)
    requires path != ""
    ensures '/' !in name
  {
    var parts := Split(path, '/');
    var n := |parts|;
    if parts[n - 1] == "" then parts[n - 2] else parts[n - 1]
  }

  /** `getParentPath(path)`: `path` with its sub-path trimmed off the end, if it ends with it. */
  function ParentPath(path: string): (parent: string)
    requires path != ""
    ensures HasPrefix(path, parent)
    ensures parent == path || parent + SubPath(path) == path
  {
    TrimSuffix(path, SubPath(path))
  }

  /** `urlFromPath(path)`: `path` without one leading `./`. */
  function UrlFromPath(path: string): (url: string)
    ensures HasPrefix(path, "./") ==> "./" + url == path
    ensures !HasPrefix(path, "./") ==> url == path
  {
    TrimPrefix(path, "./")
  }

  /**
   Without a trailing separator, the sub-path is the non-empty separator-free end of
   the path and the parent path is exactly what comes before it: the two rejoin to
   the path, and the parent is empty or ends with `/`.
   */
  lemma ParentThenSubPath(path: string)
    requires path != "" && path[|path| - 1] != '/'
    ensures SubPath(path) != ""
    ensures ParentPath(path) + SubPath(path) == path
    ensures ParentPath(path) == "" || ParentPath(path)[|ParentPath(path)| - 1] == '/'
  {
    LastPieceIsSuffix(path, '/');
    var parts := Split(path, '/');
    var last := parts[|parts| - 1];
    if last == "" {
      assert false;
    }
    assert HasSuffix(path, last);
  }

  /** With a trailing separator the sub-path cannot be trimmed, so the parent path is the path itself. */
  lemma TrailingSlashParentIsPath(path: string)
    requires path != "" && path[|path| - 1] == '/'
    ensures ParentPath(path) == path
  {
    var sub := SubPath(path);
    if sub != "" {
      assert sub[|sub| - 1] != '/';
      assert |sub| <= |path| ==> path[|path| - |sub|..][|sub| - 1] == '/';
      assert !HasSuffix(path, sub);
    }
  }

  /** A trailing separator does not change the sub-path. */
  lemma SubPathIgnoresTrailingSlash(path: string)
    requires path != "" && path[|path| - 1] != '/'
    ensures SubPath(path + "/") == SubPath(path)
  {
    SplitAppend(path, '/', "");
    assert path + "/" == path + ['/'] + "";
  }

  /** A separator followed by a non-empty separator-free name: that name is the sub-path and the rest its parent. */
  lemma SubPathOfChild(dir: string, name: string)
    requires name != "" && '/' !in name
    ensures SubPath(dir + "/" + name) == name
    ensures ParentPath(dir + "/" + name) == dir + "/"
  {
    var p := dir + "/" + name;
    SplitAppend(dir, '/', name);
    assert p == dir + ['/'] + name;
    assert p[..|p| - |name|] == dir + "/";
  }

  /** `urlFromPath` is idempotent unless the path starts with `././`. */
  lemma UrlFromPathIdempotent(path: string)
    requires !HasPrefix(path, "././")
    ensures UrlFromPath(UrlFromPath(path)) == UrlFromPath(path)
  {
    if HasPrefix(path, "./") {
      var u := path[2..];
      assert |u| >= 2 ==> path[..4] == path[..2] + u[..2];
      assert !HasPrefix(u, "./");
    }
  }

  /**
   For a valid path, `urlFromPath` removes exactly the leading `./`, so the public
   form starts with `files` and never carries the internal relative marker.
   */
  lemma UrlFromValidPath(path: string)
    requires IsValidPath(path)
    ensures "./" + UrlFromPath(path) == path
    ensures HasPrefix(UrlFromPath(path), "files")
  {
    assert path[..2] == "./";
    assert path[2..][..5] == path[2..7];
  }

  /** Digits and the text of an ending other than a trailing slash hold no separator. */
  lemma NoSlashInLastPiece(last: string, e: Ending)
    requires IsNumeral(last) && e != Slash && (e.Query? ==> IsPageNumber(e.page))
    ensures '/' !in last + EndingText(e) && last + EndingText(e) != ""
  {
    var name := last + EndingText(e);
    forall i | 0 <= i < |name| ensures name[i] != '/' {
      if i < |last| {
        assert name[i] == last[i] && IsDigit(last[i]);
      } else if e.Query? {
        var q := "?page=" + e.page;
        assert name[i] == q[i - |last|];
        if i - |last| >= 6 { assert q[i - |last|] == e.page[i - |last| - 6] && IsDigit(e.page[i - |last| - 6]); }
      }
    }
  }

  /** A route's text that does not end with `/` is its parent route's text and a last piece without `/`. */
  lemma SplitLastSegment(r: Route)
    requires WellFormed(r) && r.segments != [] && r.ending != Slash
    ensures var parent := Route(r.segments[..|r.segments| - 1], Slash);
            var name := r.segments[|r.segments| - 1] + EndingText(r.ending);
            WellFormed(parent) && Render(r) == Render(parent) + name && '/' !in name && name != ""
  {
    var n := |r.segments|;
    var init, last := r.segments[..n - 1], r.segments[n - 1];
    assert r.segments == init + [last];
    SegmentsTextSnoc(init, last);
    NoSlashInLastPiece(last, r.ending);
    assert WellFormed(Route(init, Slash)) by {
      forall i | 0 <= i < |init| ensures IsNumeral(init[i]) { assert init[i] == r.segments[i]; }
    }
  }

  /** Every rendering other than the bare `./files` starts with `./files/`. */
  lemma RenderHasRootDir(r: Route)
    requires WellFormed(r) && (r.segments != [] || r.ending == Slash)
    ensures HasPrefix(Render(r), RootDir)
  {
    var t := RouteText(r);
    assert t[0] == '/';
    assert Render(r)[..|RootDir|] == RootPrefix + [t[0]];
  }

  /**
   The parent of a valid path below the root is itself a valid directory path
   below the root, ending with `/`.
   */
  lemma ParentOfValidPath(path: string)
    requires IsValidPath(path) && HasPrefix(path, RootDir)
    ensures IsValidPath(ParentPath(path)) && HasPrefix(ParentPath(path), RootDir)
    ensures ParentPath(path)[|ParentPath(path)| - 1] == '/'
  {
    var r := Parse(path);
    if path[|path| - 1] == '/' {
      TrailingSlashParentIsPath(path);
    } else {
      assert r.ending != Slash;
      assert r.segments == [] ==> path == RootPrefix;
      assert !HasPrefix(RootPrefix, RootDir);
      SplitLastSegment(r);
      var parent := Route(r.segments[..|r.segments| - 1], Slash);
      var name := r.segments[|r.segments| - 1] + EndingText(r.ending);
      var dir := RootPrefix + SegmentsText(parent.segments);
      assert Render(parent) == dir + "/";
      SubPathOfChild(dir, name);
      RenderIsValid(parent);
      RenderHasRootDir(parent);
    }
  }
}
