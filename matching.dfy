/** The rule resolver of common/matching.js: URL gating, domain and pattern matching, the
    specificity ranking and the choice of the best rule for a URL. */
module Matching {
  import opened Wrappers
  import opened Text
  import opened Seqs
  import opened Glob
  import opened Rules
  import Url

  /** `isHttpUrl`: the case-sensitive prefix `http://` or `https://`. */
  predicate IsHttpUrl(url: string) {
    StartsWith(url, "http://") || StartsWith(url, "https://")
  }

  /** `getHost`: the parsed URL's host (with any port), or "" when the URL does not parse. */
  function GetHost(parser: Url.Parser, url: string): string {
    match parser.parse(url)
    case None => ""
    case Some(u) => u.host
  }

  /** `isValidFaviconUrl`: a non-empty `data:` URL, or one that parses with an HTTP(S) protocol. */
  predicate IsValidFaviconUrl(parser: Url.Parser, url: string) {
    if url == "" then false
    else if StartsWith(url, "data:") then true
    else
      match parser.parse(url)
      case None => false
      case Some(u) => u.protocol == "http:" || u.protocol == "https:"
  }

  /** The HTTP gate letter by letter: `http`, an optional `s`, then `://`. */
  lemma HttpUrlIff(url: string)
    ensures IsHttpUrl(url) <==>
      |url| >= 7 && url[..4] == "http" && (url[4..7] == "://" || (|url| >= 8 && url[4..8] == "s://"))
  {
    if |url| >= 7 {
      assert url[..7] == url[..4] + url[4..7];
    }
    if |url| >= 8 {
      assert url[..8] == url[..4] + url[4..8];
    }
  }

  /** Favicon URLs: the empty string never, a `data:` URL always, whatever the parser does, and
      any other URL exactly when it parses with protocol `http:` or `https:`. */
  lemma FaviconUrlValidity(parser: Url.Parser, url: string)
    ensures url == "" ==> !IsValidFaviconUrl(parser, url)
    ensures StartsWith(url, "data:") ==> IsValidFaviconUrl(parser, url)
    ensures url != "" && !StartsWith(url, "data:") ==>
      (IsValidFaviconUrl(parser, url) <==>
        parser.parse(url).Some? && parser.parse(url).value.protocol in {"http:", "https:"})
  {
  }

  // ----- Match patterns -----------------------------------------------------------------------

  /** The three capture groups of `^(\*|http|https):\/\/([^/]+)\/(.*)$`. */
  datatype PatternParts = PatternParts(scheme: string, host: string, path: string)

  /** What the pattern expression accepts: a known scheme, a non-empty host without `/`,
      and a path without line terminators (`.` does not match them). */
  predicate WellShaped(parts: PatternParts) {
    && (parts.scheme == "*" || parts.scheme == "http" || parts.scheme == "https")
    && parts.host != [] && '/' !in parts.host
    && AllIn(NotLineTerminator, parts.path)
  }

  function Source(parts: PatternParts): string {
    parts.scheme + "://" + parts.host + "/" + parts.path
  }

  /** The `exec` of the pattern expression: `None` when it does not match. */
  function ParsePattern(pattern: string): (r: Option<PatternParts>)
    ensures r.Some? ==> WellShaped(r.value) && Source(r.value) == pattern
  {
    var scheme := SchemeOf(pattern);
    if scheme == "" then None
    else
      assert pattern == scheme + "://" + pattern[|scheme| + 3..] by {
        assert pattern[..|scheme| + 3] == scheme + "://";
      }
      ParseAfterScheme(scheme, pattern[|scheme| + 3..])
  }

  /** The first group, tried in the order `*`, `http`, `https`; "" when none is followed by `://`. */
  function SchemeOf(pattern: string): (scheme: string)
    ensures scheme == "" || scheme == "*" || scheme == "http" || scheme == "https"
    ensures scheme != "" ==> StartsWith(pattern, scheme + "://")
  {
    if StartsWith(pattern, "*://") then "*"
    else if StartsWith(pattern, "http://") then "http"
    else if StartsWith(pattern, "https://") then "https"
    else ""
  }

  /** The host and path groups, from what follows `scheme://`. */
  function ParseAfterScheme(scheme: string, rest: string): (r: Option<PatternParts>)
    requires scheme == "*" || scheme == "http" || scheme == "https"
    ensures r.Some? ==> WellShaped(r.value) && Source(r.value) == scheme + "://" + rest
  {
    var slash := IndexOf(rest, '/');
    if slash <= 0 then None
    else
      var host, path := rest[..slash], rest[slash + 1..];
      if !AllIn(NotLineTerminator, path) then None
      else
        assert rest == host + "/" + path;
        assert '/' !in host by {
          assert forall k :: 0 <= k < |host| ==> host[k] == rest[k];
        }
        Some(PatternParts(scheme, host, path))
  }

  /** Every well-shaped pattern is accepted and split back into its parts. */
  lemma ParsePatternComplete(parts: PatternParts)
    requires WellShaped(parts)
    ensures ParsePattern(Source(parts)) == Some(parts)
  {
    var p := Source(parts);
    var rest := parts.host + "/" + parts.path;
    assert p == parts.scheme + "://" + rest;
    assert p[|parts.scheme| + 3..] == rest;
    assert StartsWith(p, parts.scheme + "://");
    if parts.scheme != "*" {
      assert !StartsWith(p, "*://") by { assert p[0] == 'h'; }
    }
    if parts.scheme == "https" {
      assert !StartsWith(p, "http://") by { assert p[4] == 's'; }
    }
    assert SchemeOf(p) == parts.scheme;
    AfterSchemeComplete(parts);
  }

  lemma AfterSchemeComplete(parts: PatternParts)
    requires WellShaped(parts)
    ensures ParseAfterScheme(parts.scheme, parts.host + "/" + parts.path) == Some(parts)
  {
    var rest := parts.host + "/" + parts.path;
    assert rest[|parts.host|] == '/';
    assert forall k :: 0 <= k < |parts.host| ==> rest[k] == parts.host[k];
    assert IndexOf(rest, '/') == |parts.host|;
    assert rest[..|parts.host|] == parts.host;
    assert rest[|parts.host| + 1..] == parts.path;
  }

  // ----- The compiled expression --------------------------------------------------------------

  /** `(?:http|https)` for `*`, otherwise the scheme itself. */
  function SchemeToks(scheme: string): seq<Tok> {
    if scheme == "*" then Lits("http") + [Opt('s')] else Lits(scheme)
  }

  /** `[^.]+` for a `*` segment, otherwise the escaped segment. */
  function SegmentToks(seg: string): seq<Tok> {
    if seg == "*" then Plus(NotDot) else Lits(seg)
  }

  /** The segments joined with `\.`. */
  function SegmentsToks(segs: seq<string>): seq<Tok>
    requires |segs| >= 1
  {
    if |segs| == 1 then SegmentToks(segs[0])
    else SegmentToks(segs[0]) + ([Lit('.')] + SegmentsToks(segs[1..]))
  }

  /** The host part: `(?:[^.]+\.)` before the escaped rest of a `*.` host, `[^/]+` for `*`,
      otherwise the dot-separated segments. */
  function HostToks(host: string): seq<Tok> {
    if StartsWith(host, "*.") then Plus(NotDot) + ([Lit('.')] + Lits(host[2..]))
    else if host == "*" then Plus(NotSlash)
    else SegmentsToks(Split(host, '.'))
  }

  /** The escaped path with every escaped `*` replaced by `.*`. */
  function PathToks(path: string): (p: seq<Tok>)
    ensures |p| == |path|
    ensures forall i :: 0 <= i < |path| ==> p[i] == if path[i] == '*' then Star(NotLineTerminator) else Lit(path[i])
  {
    seq(|path|, i requires 0 <= i < |path| => if path[i] == '*' then Star(NotLineTerminator) else Lit(path[i]))
  }

  /** `^scheme:\/\/host\/path$`. */
  function Compile(parts: PatternParts): seq<Tok> {
    SchemeToks(parts.scheme) + (Lits("://") + (HostToks(parts.host) + ([Lit('/')] + PathToks(parts.path))))
  }

  // ----- What a pattern means, stated on the URL's pieces -------------------------------------

  predicate SchemeAccepts(scheme: string, s: string) {
    if scheme == "*" then s == "http" || s == "https" else s == scheme
  }

  /** A `*` segment is any non-empty label; any other segment is itself. */
  predicate SegmentAccepts(seg: string, piece: string) {
    if seg == "*" then piece != [] else piece == seg
  }

  /** Label by label, with as many labels as the pattern has segments. */
  predicate SegmentsAccept(segs: seq<string>, pieces: seq<string>) {
    |pieces| == |segs| && forall k :: 0 <= k < |segs| ==> SegmentAccepts(segs[k], pieces[k])
  }

  /** `*.suffix`: exactly one non-empty label, a dot, then the suffix. */
  predicate SuffixAccepts(suffix: string, s: string) {
    var n := |s| - |suffix| - 1;
    1 <= n && '.' !in s[..n] && s[n] == '.' && s[n + 1..] == suffix
  }

  predicate HostAccepts(host: string, s: string) {
    if StartsWith(host, "*.") then SuffixAccepts(host[2..], s)
    else if host == "*" then s != [] && '/' !in s
    else SegmentsAccept(Split(host, '.'), Split(s, '.'))
  }

  /** The pieces between the `*`s occur in order; what lies between them has no line terminator. */
  predicate FitsPieces(pieces: seq<string>, s: string)
    requires |pieces| >= 1
    decreases |pieces|
  {
    if |pieces| == 1 then s == pieces[0]
    else
      StartsWith(s, pieces[0])
      && exists k :: |pieces[0]| <= k <= |s| &&
           AllIn(NotLineTerminator, s[|pieces[0]|..k]) && FitsPieces(pieces[1..], s[k..])
  }

  predicate PathAccepts(path: string, s: string) {
    FitsPieces(Split(path, '*'), s)
  }

  /** `url` reads scheme, `://`, host, `/`, path, where the `://` starts at `i` and the `/` is at `j`. */
  predicate SplitsAt(parts: PatternParts, url: string, i: int, j: int) {
    && 0 <= i && i + 3 <= j < |url|
    && SchemeAccepts(parts.scheme, url[..i])
    && url[i..i + 3] == "://"
    && HostAccepts(parts.host, url[i + 3..j])
    && url[j] == '/'
    && PathAccepts(parts.path, url[j + 1..])
  }

  predicate UrlFitsPattern(parts: PatternParts, url: string) {
    exists i, j | 0 <= i <= j < |url| :: SplitsAt(parts, url, i, j)
  }

  // ----- The compiled expression means what the pieces say ------------------------------------

  lemma SchemeIff(scheme: string, s: string)
    ensures Matches(SchemeToks(scheme), s) <==> SchemeAccepts(scheme, s)
  {
    if scheme == "*" {
      LitsThen("http", [Opt('s')], s);
      if StartsWith(s, "http") {
        OptExactly('s', s[4..]);
        assert s == "http" + s[4..];
      }
    } else {
      LitsExactly(scheme, s);
    }
  }

  lemma SegmentIff(seg: string, piece: string)
    requires '.' !in seg
    ensures Matches(SegmentToks(seg), piece) <==> '.' !in piece && SegmentAccepts(seg, piece)
  {
    if seg == "*" {
      PlusExactly(NotDot, piece);
    } else {
      LitsExactly(seg, piece);
    }
  }

  /** The position of the first dot, when everything before `n` is dot-free and `s[n]` is one. */
  lemma FirstDot(s: string, n: int)
    requires 0 <= n < |s| && '.' !in s[..n] && s[n] == '.'
    ensures IndexOf(s, '.') == n
    ensures Split(s, '.') == [s[..n]] + Split(s[n + 1..], '.')
  {
    assert forall k :: 0 <= k < n ==> s[k] == s[..n][k];
  }

  lemma SegmentsIff(segs: seq<string>, s: string)
    requires |segs| >= 1 && forall k :: 0 <= k < |segs| ==> '.' !in segs[k]
    ensures Matches(SegmentsToks(segs), s) <==> SegmentsAccept(segs, Split(s, '.'))
  {
    if Matches(SegmentsToks(segs), s) {
      SegmentsMatchAccept(segs, s);
    }
    if SegmentsAccept(segs, Split(s, '.')) {
      SegmentsAcceptMatch(segs, s);
    }
  }

  lemma {:induction false} SegmentsMatchAccept(segs: seq<string>, s: string)
    requires |segs| >= 1 && forall k :: 0 <= k < |segs| ==> '.' !in segs[k]
    requires Matches(SegmentsToks(segs), s)
    ensures SegmentsAccept(segs, Split(s, '.'))
    decreases |segs|
  {
    if |segs| == 1 {
      SegmentIff(segs[0], s);
      SplitSingle(s, '.');
    } else {
      var head, tail := SegmentToks(segs[0]), [Lit('.')] + SegmentsToks(segs[1..]);
      var n := ConcatElim(head, tail, s);
      SegmentIff(segs[0], s[..n]);
      LitThen('.', SegmentsToks(segs[1..]), s[n..]);
      assert s[n..][1..] == s[n + 1..];
      SegmentsMatchAccept(segs[1..], s[n + 1..]);
      FirstDot(s, n);
      var pieces := Split(s, '.');
      assert pieces[1..] == Split(s[n + 1..], '.');
      forall k | 1 <= k < |segs|
        ensures SegmentAccepts(segs[k], pieces[k])
      {
        assert segs[k] == segs[1..][k - 1] && pieces[k] == pieces[1..][k - 1];
      }
    }
  }

  lemma {:induction false} SegmentsAcceptMatch(segs: seq<string>, s: string)
    requires |segs| >= 1 && forall k :: 0 <= k < |segs| ==> '.' !in segs[k]
    requires SegmentsAccept(segs, Split(s, '.'))
    ensures Matches(SegmentsToks(segs), s)
    decreases |segs|
  {
    if |segs| == 1 {
      SplitSingle(s, '.');
      SegmentIff(segs[0], s);
    } else {
      var head, tail := SegmentToks(segs[0]), [Lit('.')] + SegmentsToks(segs[1..]);
      SplitSingle(s, '.');
      var n := IndexOf(s, '.');
      assert '.' !in s[..n];
      FirstDot(s, n);
      var pieces := Split(s, '.');
      SegmentIff(segs[0], s[..n]);
      assert pieces[1..] == Split(s[n + 1..], '.');
      forall k | 0 <= k < |segs| - 1
        ensures SegmentAccepts(segs[1..][k], pieces[1..][k])
      {
        assert segs[1..][k] == segs[k + 1] && pieces[1..][k] == pieces[k + 1];
      }
      SegmentsAcceptMatch(segs[1..], s[n + 1..]);
      assert s[n..][1..] == s[n + 1..];
      LitThen('.', SegmentsToks(segs[1..]), s[n..]);
      ConcatIntro(head, tail, s, n);
    }
  }

  lemma HostIff(host: string, s: string)
    ensures Matches(HostToks(host), s) <==> HostAccepts(host, s)
  {
    if StartsWith(host, "*.") {
      var suffix := host[2..];
      var tail := [Lit('.')] + Lits(suffix);
      if Matches(HostToks(host), s) {
        var n := ConcatElim(Plus(NotDot), tail, s);
        PlusExactly(NotDot, s[..n]);
        LitThen('.', Lits(suffix), s[n..]);
        LitsExactly(suffix, s[n..][1..]);
        assert s[n..][1..] == s[n + 1..];
      }
      if SuffixAccepts(suffix, s) {
        var n := |s| - |suffix| - 1;
        PlusExactly(NotDot, s[..n]);
        LitsExactly(suffix, s[n + 1..]);
        assert s[n..][1..] == s[n + 1..];
        LitThen('.', Lits(suffix), s[n..]);
        ConcatIntro(Plus(NotDot), tail, s, n);
      }
    } else if host == "*" {
      PlusExactly(NotSlash, s);
    } else {
      SegmentsIff(Split(host, '.'), s);
    }
  }

  /** `k*` in front of `q`: some prefix of class-`k` characters, then `q`. */
  lemma StarThenElim(k: Class, q: seq<Tok>, s: string) returns (m: nat)
    requires Matches([Star(k)] + q, s)
    ensures m <= |s| && AllIn(k, s[..m]) && Matches(q, s[m..])
  {
    m := ConcatElim([Star(k)], q, s);
    StarExactly(k, s[..m]);
  }

  lemma StarThenIntro(k: Class, q: seq<Tok>, s: string, m: nat)
    requires m <= |s| && AllIn(k, s[..m]) && Matches(q, s[m..])
    ensures Matches([Star(k)] + q, s)
  {
    StarExactly(k, s[..m]);
    ConcatIntro([Star(k)], q, s, m);
  }

  /** Cutting the path at its first `*`. */
  lemma PathToksAtStar(path: string, i: int)
    requires 0 <= i < |path| && path[i] == '*' && '*' !in path[..i]
    ensures PathToks(path) == Lits(path[..i]) + ([Star(NotLineTerminator)] + PathToks(path[i + 1..]))
  {
    var r := Lits(path[..i]) + ([Star(NotLineTerminator)] + PathToks(path[i + 1..]));
    forall k | 0 <= k < |path|
      ensures r[k] == PathToks(path)[k]
    {
      if k < i {
        assert path[..i][k] == path[k];
      } else if k > i {
        assert path[i + 1..][k - i - 1] == path[k];
      }
    }
  }

  lemma PathIff(path: string, s: string)
    ensures Matches(PathToks(path), s) <==> PathAccepts(path, s)
  {
    if Matches(PathToks(path), s) {
      PathMatchAccept(path, s);
    }
    if PathAccepts(path, s) {
      PathAcceptMatch(path, s);
    }
  }

  lemma {:induction false} PathMatchAccept(path: string, s: string)
    requires Matches(PathToks(path), s)
    ensures PathAccepts(path, s)
    decreases |path|
  {
    var i := IndexOf(path, '*');
    if i < 0 {
      SplitSingle(path, '*');
      assert PathToks(path) == Lits(path);
      LitsExactly(path, s);
    } else {
      var rest := path[i + 1..];
      PathCut(path, i);
      var k := StarGapElim(path[..i], PathToks(rest), s);
      PathMatchAccept(rest, s[k..]);
    }
  }

  lemma {:induction false} PathAcceptMatch(path: string, s: string)
    requires PathAccepts(path, s)
    ensures Matches(PathToks(path), s)
    decreases |path|
  {
    var i := IndexOf(path, '*');
    if i < 0 {
      SplitSingle(path, '*');
      assert PathToks(path) == Lits(path);
      LitsExactly(path, s);
    } else {
      var rest := path[i + 1..];
      PathCut(path, i);
      var k :| i <= k <= |s| && AllIn(NotLineTerminator, s[i..k]) && FitsPieces(Split(rest, '*'), s[k..]);
      PathAcceptMatch(rest, s[k..]);
      StarGapIntro(path[..i], PathToks(rest), s, k);
    }
  }

  /** A path cut at its first `*`: the first piece, then the pieces and tokens of the rest. */
  lemma PathCut(path: string, i: int)
    requires 0 <= i && i == IndexOf(path, '*')
    ensures Split(path, '*') == [path[..i]] + Split(path[i + 1..], '*')
    ensures Split(path, '*')[1..] == Split(path[i + 1..], '*')
    ensures PathToks(path) == Lits(path[..i]) + ([Star(NotLineTerminator)] + PathToks(path[i + 1..]))
  {
    assert '*' !in path[..i];
    PathToksAtStar(path, i);
  }

  /** A match of `w`, then a run without line terminators, then `q`. */
  lemma StarGapElim(w: string, q: seq<Tok>, s: string) returns (k: int)
    requires Matches(Lits(w) + ([Star(NotLineTerminator)] + q), s)
    ensures StartsWith(s, w) && |w| <= k <= |s| && AllIn(NotLineTerminator, s[|w|..k]) && Matches(q, s[k..])
  {
    var i := |w|;
    LitsThen(w, [Star(NotLineTerminator)] + q, s);
    var m := StarThenElim(NotLineTerminator, q, s[i..]);
    k := i + m;
    assert s[i..][..m] == s[i..k];
    assert s[i..][m..] == s[k..];
  }

  lemma StarGapIntro(w: string, q: seq<Tok>, s: string, k: int)
    requires StartsWith(s, w) && |w| <= k <= |s| && AllIn(NotLineTerminator, s[|w|..k]) && Matches(q, s[k..])
    ensures Matches(Lits(w) + ([Star(NotLineTerminator)] + q), s)
  {
    var i := |w|;
    var m := k - i;
    assert s[i..][..m] == s[i..k];
    assert s[i..][m..] == s[k..];
    StarThenIntro(NotLineTerminator, q, s[i..], m);
    LitsThen(w, [Star(NotLineTerminator)] + q, s);
  }

  /** A match of `scheme ://  rest`, cut at the `://`. */
  lemma SchemeRestElim(scheme: seq<Tok>, rest: seq<Tok>, url: string) returns (i: nat)
    requires Matches(scheme + (Lits("://") + rest), url)
    ensures i + 3 <= |url| && Matches(scheme, url[..i]) && url[i..i + 3] == "://" && Matches(rest, url[i + 3..])
  {
    i := ConcatElim(scheme, Lits("://") + rest, url);
    LitsThen("://", rest, url[i..]);
    assert url[i..][..3] == url[i..i + 3];
    assert url[i..][3..] == url[i + 3..];
  }

  lemma SchemeRestIntro(scheme: seq<Tok>, rest: seq<Tok>, url: string, i: nat)
    requires i + 3 <= |url| && Matches(scheme, url[..i]) && url[i..i + 3] == "://" && Matches(rest, url[i + 3..])
    ensures Matches(scheme + (Lits("://") + rest), url)
  {
    assert url[i..][..3] == url[i..i + 3];
    assert url[i..][3..] == url[i + 3..];
    LitsThen("://", rest, url[i..]);
    ConcatIntro(scheme, Lits("://") + rest, url, i);
  }

  /** A match of `host / path`, cut at the `/`. */
  lemma HostPathElim(host: seq<Tok>, path: seq<Tok>, t: string) returns (n: nat)
    requires Matches(host + ([Lit('/')] + path), t)
    ensures n < |t| && Matches(host, t[..n]) && t[n] == '/' && Matches(path, t[n + 1..])
  {
    n := ConcatElim(host, [Lit('/')] + path, t);
    LitThen('/', path, t[n..]);
    assert t[n..][1..] == t[n + 1..];
  }

  lemma HostPathIntro(host: seq<Tok>, path: seq<Tok>, t: string, n: nat)
    requires n < |t| && Matches(host, t[..n]) && t[n] == '/' && Matches(path, t[n + 1..])
    ensures Matches(host + ([Lit('/')] + path), t)
  {
    assert t[n..][1..] == t[n + 1..];
    LitThen('/', path, t[n..]);
    ConcatIntro(host, [Lit('/')] + path, t, n);
  }

  lemma CompiledFits(parts: PatternParts, url: string) returns (i: int, j: int)
    requires Matches(Compile(parts), url)
    ensures 0 <= i <= j < |url| && SplitsAt(parts, url, i, j)
  {
    var h, p := HostToks(parts.host), PathToks(parts.path);
    var i0 := SchemeRestElim(SchemeToks(parts.scheme), h + ([Lit('/')] + p), url);
    var t := url[i0 + 3..];
    var n := HostPathElim(h, p, t);
    i, j := i0, i0 + 3 + n;
    assert url[i + 3..j] == t[..n] && url[j] == t[n] && url[j + 1..] == t[n + 1..];
    SchemeIff(parts.scheme, url[..i]);
    HostIff(parts.host, url[i + 3..j]);
    PathIff(parts.path, url[j + 1..]);
  }

  lemma FitsCompiled(parts: PatternParts, url: string, i: int, j: int)
    requires SplitsAt(parts, url, i, j)
    ensures Matches(Compile(parts), url)
  {
    var h, p := HostToks(parts.host), PathToks(parts.path);
    SchemeIff(parts.scheme, url[..i]);
    HostIff(parts.host, url[i + 3..j]);
    PathIff(parts.path, url[j + 1..]);
    var t := url[i + 3..];
    var n := j - i - 3;
    assert url[i + 3..j] == t[..n] && url[j] == t[n] && url[j + 1..] == t[n + 1..];
    HostPathIntro(h, p, t, n);
    SchemeRestIntro(SchemeToks(parts.scheme), h + ([Lit('/')] + p), url, i);
  }

  /** The compiled expression accepts exactly the URLs whose pieces fit the pattern's parts. */
  lemma CompiledPatternIff(parts: PatternParts, url: string)
    ensures Matches(Compile(parts), url) <==> UrlFitsPattern(parts, url)
  {
    if Matches(Compile(parts), url) {
      var i, j := CompiledFits(parts, url);
    }
    if UrlFitsPattern(parts, url) {
      var i, j :| 0 <= i <= j < |url| && SplitsAt(parts, url, i, j);
      FitsCompiled(parts, url, i, j);
    }
  }

  // ----- Rules --------------------------------------------------------------------------------

  /** `doesRuleMatchUrl`. */
  function DoesRuleMatchUrl(parser: Url.Parser, rule: Rule, url: string): (matched: bool)
    ensures matched ==> rule.enabled != Some(false) && IsHttpUrl(url)
    ensures rule.kind == "domain" ==> (matched <==> rule.enabled != Some(false) && IsHttpUrl(url) && GetHost(parser, url) == rule.value)
    ensures rule.kind == "pattern" ==>
      (matched <==> rule.enabled != Some(false) && IsHttpUrl(url)
                    && ParsePattern(rule.value).Some? && UrlFitsPattern(ParsePattern(rule.value).value, url))
    ensures rule.kind != "domain" && rule.kind != "pattern" ==> !matched
  {
    if rule.enabled == Some(false) then false
    else if !IsHttpUrl(url) then false
    else if rule.kind == "domain" then GetHost(parser, url) == rule.value
    else if rule.kind == "pattern" then
      (match ParsePattern(rule.value)
       case None => false
       case Some(parts) => CompiledPatternIff(parts, url); Matches(Compile(parts), url))
    else false
  }

  /** `ruleSpecificity`: 1000 or 2000 plus the value's length for domain and pattern rules, else 0. */
  function RuleSpecificity(rule: Rule): (n: int)
    ensures rule.kind == "domain" ==> n == 1000 + JsLength(rule.value)
    ensures rule.kind == "pattern" ==> n == 2000 + JsLength(rule.value)
    ensures rule.kind == "domain" ==> 1000 + |rule.value| <= n <= 1000 + 2 * |rule.value|
    ensures rule.kind == "pattern" ==> 2000 + |rule.value| <= n <= 2000 + 2 * |rule.value|
    ensures rule.kind != "domain" && rule.kind != "pattern" ==> n == 0
  {
    if rule.kind == "domain" then 1000 + JsLength(rule.value)
    else if rule.kind == "pattern" then 2000 + JsLength(rule.value)
    else 0
  }

  /** The first element of the stable sort by decreasing score: a maximum, earliest among ties. */
  function FirstBestIndex<T>(xs: seq<T>, score: T -> int): (k: nat)
    requires |xs| >= 1
    ensures k < |xs|
    ensures forall j :: 0 <= j < |xs| ==> score(xs[j]) <= score(xs[k])
    ensures forall j :: 0 <= j < k ==> score(xs[j]) < score(xs[k])
  {
    if |xs| == 1 then 0
    else
      var k := 1 + FirstBestIndex(xs[1..], score);
      assert forall j :: 1 <= j < |xs| ==> xs[j] == xs[1..][j - 1];
      if score(xs[k]) > score(xs[0]) then k else 0
  }

  /** Position `k` of `xs` holds a kept element of maximal score among the kept ones, and no
      earlier kept element scores as high. */
  predicate IsFirstBestBy<T>(xs: seq<T>, keep: T -> bool, score: T -> int, k: int) {
    && 0 <= k < |xs|
    && keep(xs[k])
    && (forall j :: 0 <= j < |xs| && keep(xs[j]) ==> score(xs[j]) <= score(xs[k]))
    && (forall j :: 0 <= j < k && keep(xs[j]) ==> score(xs[j]) < score(xs[k]))
  }

  /** The first best of the filtered list is the first best of the input. */
  lemma FilteredFirstBest<T(!new)>(xs: seq<T>, keep: T -> bool, score: T -> int, m: nat)
    requires m < |Filter(xs, keep)|
    requires forall j :: 0 <= j < |Filter(xs, keep)| ==> score(Filter(xs, keep)[j]) <= score(Filter(xs, keep)[m])
    requires forall j :: 0 <= j < m ==> score(Filter(xs, keep)[j]) < score(Filter(xs, keep)[m])
    ensures exists k :: IsFirstBestBy(xs, keep, score, k) && xs[k] == Filter(xs, keep)[m]
  {
    var k := FilteredFirstBestAt(xs, keep, score, m);
  }

  lemma {:induction false} FilteredFirstBestAt<T(!new)>(xs: seq<T>, keep: T -> bool, score: T -> int, m: nat) returns (k: nat)
    requires m < |Filter(xs, keep)|
    requires forall j :: 0 <= j < |Filter(xs, keep)| ==> score(Filter(xs, keep)[j]) <= score(Filter(xs, keep)[m])
    requires forall j :: 0 <= j < m ==> score(Filter(xs, keep)[j]) < score(Filter(xs, keep)[m])
    ensures IsFirstBestBy(xs, keep, score, k) && xs[k] == Filter(xs, keep)[m]
    decreases |xs|
  {
    var kept := Filter(xs, keep);
    var rest := Filter(xs[1..], keep);
    if keep(xs[0]) {
      assert kept == [xs[0]] + rest;
      if m == 0 {
        k := 0;
        HeadFirstBest(xs, keep, score);
      } else {
        var best := kept[m];
        assert rest[m - 1] == best;
        forall j | 0 <= j < |rest|
          ensures score(rest[j]) <= score(best) && (j < m - 1 ==> score(rest[j]) < score(best))
        {
          assert rest[j] == kept[j + 1];
        }
        var k' := FilteredFirstBestAt(xs[1..], keep, score, m - 1);
        k := k' + 1;
        assert kept[0] == xs[0] && score(kept[0]) < score(best);
        ShiftFirstBest(xs, keep, score, k');
        assert xs[k] == xs[1..][k'];
      }
    } else {
      assert kept == rest;
      var k' := FilteredFirstBestAt(xs[1..], keep, score, m);
      k := k' + 1;
      ShiftFirstBest(xs, keep, score, k');
      assert xs[k] == xs[1..][k'];
    }
  }

  /** A kept head that scores at least as high as every kept element of the filtered list. */
  lemma HeadFirstBest<T(!new)>(xs: seq<T>, keep: T -> bool, score: T -> int)
    requires xs != [] && keep(xs[0])
    requires forall j :: 0 <= j < |Filter(xs, keep)| ==> score(Filter(xs, keep)[j]) <= score(xs[0])
    ensures IsFirstBestBy(xs, keep, score, 0)
  {
    var kept := Filter(xs, keep);
    forall j | 0 <= j < |xs| && keep(xs[j])
      ensures score(xs[j]) <= score(xs[0])
    {
      assert xs[j] in kept;
      var i :| 0 <= i < |kept| && kept[i] == xs[j];
    }
  }

  /** A first best of the tail stays first best behind a head that is not kept or scores lower. */
  lemma ShiftFirstBest<T(!new)>(xs: seq<T>, keep: T -> bool, score: T -> int, k: nat)
    requires xs != [] && IsFirstBestBy(xs[1..], keep, score, k)
    requires keep(xs[0]) ==> score(xs[0]) < score(xs[1..][k])
    ensures IsFirstBestBy(xs, keep, score, k + 1)
  {
    assert forall j :: 1 <= j < |xs| ==> xs[j] == xs[1..][j - 1];
  }

  lemma LaterBetterIsNotFirstBest<T>(xs: seq<T>, keep: T -> bool, score: T -> int, k: int, j: int)
    requires 0 <= j < |xs| && keep(xs[j]) && 0 <= k < |xs| && score(xs[j]) > score(xs[k])
    ensures !IsFirstBestBy(xs, keep, score, k)
  {
  }

  lemma EarlierAsGoodIsNotFirstBest<T>(xs: seq<T>, keep: T -> bool, score: T -> int, k: int, j: int)
    requires 0 <= j < k < |xs| && keep(xs[j]) && score(xs[j]) >= score(xs[k])
    ensures !IsFirstBestBy(xs, keep, score, k)
  {
  }

  /** At most one position is the first best. */
  lemma FirstBestUnique<T>(xs: seq<T>, keep: T -> bool, score: T -> int)
    ensures forall k1, k2 :: IsFirstBestBy(xs, keep, score, k1) && IsFirstBestBy(xs, keep, score, k2) ==> k1 == k2
  {
  }

  /** The rules that match `url`. */
  function Matcher(parser: Url.Parser, url: string): Rule -> bool {
    r => DoesRuleMatchUrl(parser, r, url)
  }

  /** Position `k` of `rules` holds a rule matching `url` of maximal specificity, and no earlier
      matching rule is as specific. */
  predicate IsFirstBest(parser: Url.Parser, rules: seq<Rule>, url: string, k: int) {
    IsFirstBestBy(rules, Matcher(parser, url), RuleSpecificity, k)
  }

  /** Filter, then the first element of the stable sort by decreasing score. */
  function PickBy<T(==,!new)>(xs: seq<T>, keep: T -> bool, score: T -> int): (best: Option<T>)
    ensures best.None? <==> forall j :: 0 <= j < |xs| ==> !keep(xs[j])
    ensures best.Some? ==> exists k :: IsFirstBestBy(xs, keep, score, k) && xs[k] == best.value
    ensures best.Some? ==> forall k :: IsFirstBestBy(xs, keep, score, k) ==> xs[k] == best.value
  {
    var kept := Filter(xs, keep);
    if kept == [] then
      assert forall j :: 0 <= j < |xs| ==> xs[j] !in kept;
      None
    else
      var m := FirstBestIndex(kept, score);
      FilteredFirstBest(xs, keep, score, m);
      FirstBestUnique(xs, keep, score);
      Some(kept[m])
  }

  /** Of two kept elements, the later one is picked only when it scores strictly higher. */
  lemma PickOfTwo<T(!new)>(a: T, b: T, keep: T -> bool, score: T -> int)
    requires keep(a) && keep(b)
    ensures PickBy([a, b], keep, score) == if score(b) > score(a) then Some(b) else Some(a)
  {
    var xs := [a, b];
    var best := PickBy(xs, keep, score);
    assert best.Some? by {
      assert keep(xs[0]);
    }
    var k :| IsFirstBestBy(xs, keep, score, k) && xs[k] == best.value;
    if score(b) > score(a) {
      LaterBetterIsNotFirstBest(xs, keep, score, 0, 1);
    } else {
      EarlierAsGoodIsNotFirstBest(xs, keep, score, 1, 0);
    }
  }

  /** `pickBestRule`: `None` when nothing matches (a non-array counts as no rules); otherwise the
      input rule at the one position that `IsFirstBest` singles out. */
  function PickBestRule(parser: Url.Parser, rules: RuleList, url: string): (best: Option<Rule>)
    ensures best.None? <==> forall j :: 0 <= j < |AsArray(rules)| ==> !DoesRuleMatchUrl(parser, AsArray(rules)[j], url)
    ensures best.Some? ==> exists k :: IsFirstBest(parser, AsArray(rules), url, k) && AsArray(rules)[k] == best.value
    ensures best.Some? ==> forall k :: IsFirstBest(parser, AsArray(rules), url, k) ==> AsArray(rules)[k] == best.value
  {
    PickBy(AsArray(rules), Matcher(parser, url), RuleSpecificity)
  }

  // ----- Properties ---------------------------------------------------------------------------

  /** A URL that fits a pattern of any scheme already passes the HTTP gate; the gate matters only
      for domain rules. */
  lemma PatternMatchImpliesHttpUrl(parts: PatternParts, url: string)
    requires WellShaped(parts) && UrlFitsPattern(parts, url)
    ensures IsHttpUrl(url)
  {
    var i, j :| 0 <= i <= j < |url| && SplitsAt(parts, url, i, j);
    SchemeThenSeparator(url, i);
  }

  /** `http` or `https`, then `://`, makes an http URL. */
  lemma SchemeThenSeparator(url: string, i: int)
    requires 0 <= i && i + 3 <= |url| && (url[..i] == "http" || url[..i] == "https") && url[i..i + 3] == "://"
    ensures IsHttpUrl(url)
  {
    assert url[..i + 3] == url[..i] + url[i..i + 3];
    if i == 4 {
      assert "http" + "://" == "http://";
    } else {
      assert "https" + "://" == "https://";
    }
  }

  /** A pattern with the literal scheme `http` never matches an `https` URL. */
  lemma LiteralHttpRejectsHttps(parts: PatternParts, url: string)
    requires parts.scheme == "http" && StartsWith(url, "https://")
    ensures !UrlFitsPattern(parts, url)
  {
    forall i, j | 0 <= i <= j < |url|
      ensures !SplitsAt(parts, url, i, j)
    {
      if i == 4 {
        assert url[i..i + 3][0] == 's';
      }
    }
  }

  /** A domain rule matches on the exact host only. */
  lemma DomainMatchIsExactHost(parser: Url.Parser, rule: Rule, url: string)
    requires rule.kind == "domain" && rule.enabled != Some(false) && IsHttpUrl(url)
    ensures DoesRuleMatchUrl(parser, rule, url) <==> GetHost(parser, url) == rule.value
  {
  }

  /** A domain rule with an empty value matches every HTTP URL the parser rejects, since
      `getHost` turns the failure into `""`. */
  lemma EmptyDomainMatchesUnparsableUrl(parser: Url.Parser, rule: Rule, url: string)
    requires rule.kind == "domain" && rule.value == "" && rule.enabled != Some(false)
    requires IsHttpUrl(url) && parser.parse(url).None?
    ensures DoesRuleMatchUrl(parser, rule, url)
  {
  }

  /** A pattern without any `*` matches one URL: its own text (the expression is anchored). */
  lemma LiteralPatternMatchesExactly(parts: PatternParts, url: string)
    requires WellShaped(parts) && '*' !in parts.scheme && '*' !in parts.host && '*' !in parts.path
    ensures UrlFitsPattern(parts, url) <==> url == Source(parts)
  {
    if UrlFitsPattern(parts, url) {
      LiteralPatternFitsOnlySource(parts, url);
    }
    if url == Source(parts) {
      SourceFitsLiteralPattern(parts);
    }
  }

  lemma LiteralPatternFitsOnlySource(parts: PatternParts, url: string)
    requires WellShaped(parts) && '*' !in parts.scheme && '*' !in parts.host && '*' !in parts.path
    requires UrlFitsPattern(parts, url)
    ensures url == Source(parts)
  {
    SplitSingle(parts.path, '*');
    var i, j :| 0 <= i <= j < |url| && SplitsAt(parts, url, i, j);
    LiteralHostExact(parts.host, url[i + 3..j]);
    Reassembles(url, i, j);
  }

  /** The pieces `SplitsAt` cuts a URL into put it back together. */
  lemma Reassembles(url: string, i: int, j: int)
    requires 0 <= i && i + 3 <= j < |url| && url[i..i + 3] == "://" && url[j] == '/'
    ensures url == url[..i] + "://" + url[i + 3..j] + "/" + url[j + 1..]
  {
    assert url == url[..i] + url[i..i + 3] + url[i + 3..j] + [url[j]] + url[j + 1..];
  }

  lemma SourceFitsLiteralPattern(parts: PatternParts)
    requires WellShaped(parts) && '*' !in parts.scheme && '*' !in parts.host && '*' !in parts.path
    ensures UrlFitsPattern(parts, Source(parts))
  {
    SplitSingle(parts.path, '*');
    assert parts.host[0] != '*';
    FitsAssembled(parts, parts.scheme, parts.host, parts.path);
  }

  /** A host without `*` accepts only itself. */
  lemma LiteralHostExact(host: string, s: string)
    requires host != [] && '*' !in host && HostAccepts(host, s)
    ensures s == host
  {
    assert host[0] != '*';
    var segs, pieces := Split(host, '.'), Split(s, '.');
    SplitJoin(host, '.');
    forall k | 0 <= k < |segs|
      ensures pieces[k] == segs[k]
    {
      SegmentOfJoin(segs, k, '.');
    }
    assert pieces == segs;
    SplitJoin(s, '.');
  }

  /** A character of a segment is a character of the joined string. */
  lemma {:induction false} SegmentOfJoin(segs: seq<string>, k: int, c: char)
    requires |segs| >= 1 && 0 <= k < |segs|
    ensures forall ch :: ch in segs[k] ==> ch in Join(segs, c)
    decreases |segs|
  {
    if |segs| > 1 {
      assert Join(segs, c) == segs[0] + [c] + Join(segs[1..], c);
      if k > 0 {
        SegmentOfJoin(segs[1..], k - 1, c);
      }
    }
  }

  // The pattern `*://*.example.com/*` needs exactly one label in front of `example.com`; a rule
  // with that pattern matches where these parts fit, by `ParsePatternComplete` and the contract
  // of `DoesRuleMatchUrl`.

  predicate IsWildcardExample(parts: PatternParts) {
    parts == PatternParts("*", "*.example.com", "*")
  }

  /** Where a `*` scheme and some `*.suffix` host fit, the scheme has four or five characters and
      the host is at least as long as the pattern's host. */
  lemma SuffixHostLength(parts: PatternParts, url: string, i: int, j: int)
    requires parts.scheme == "*" && StartsWith(parts.host, "*.")
    ensures SplitsAt(parts, url, i, j) ==> (i == 4 || i == 5) && j - i - 3 >= |parts.host|
  {
  }

  lemma WildcardSubdomainRejectsBareDomain(parts: PatternParts, url: string)
    requires IsWildcardExample(parts) && url == "http://example.com/"
    ensures !UrlFitsPattern(parts, url)
  {
    forall i, j | 0 <= i <= j < |url|
      ensures !SplitsAt(parts, url, i, j)
    {
      SuffixHostLength(parts, url, i, j);
    }
  }

  lemma WildcardSubdomainRejectsTwoLabels(parts: PatternParts, url: string)
    requires IsWildcardExample(parts) && url == "https://a.b.example.com/"
    ensures !UrlFitsPattern(parts, url)
  {
    assert |url| == 24 && url[4] == 's' && url[9] == '.' && url[21] == 'o' && url[22] == 'm';
    forall i, j | 0 <= i <= j < |url|
      ensures !SplitsAt(parts, url, i, j)
    {
      TwoLabelsAt(parts, url, i, j);
    }
  }

  /** In a URL shaped like `https://a.b.example.com/`, no `://` starts at 4, and past the scheme
      `https` no host that ends at a `/` is one label and `example.com`. */
  lemma TwoLabelsAt(parts: PatternParts, url: string, i: int, j: int)
    requires IsWildcardExample(parts) && 0 <= i <= j < |url|
    requires |url| == 24 && url[4] == 's' && url[9] == '.' && url[21] == 'o' && url[22] == 'm'
    ensures !SplitsAt(parts, url, i, j)
  {
    SuffixHostLength(parts, url, i, j);
    assert parts.host[2..] == "example.com";
    if i == 4 {
      assert url[i..i + 3][0] == 's';
    } else if i == 5 && j == 23 {
      assert url[8..j][..3][1] == url[9];
    }
  }

  // The pattern `*://*.example.com/*` matches every `http` or `https` URL whose host is one
  // non-empty, dot-free label before `.example.com`, whatever its path
  // (`https://a.example.com/x` among them).
  lemma WildcardSubdomainAcceptsOneLabel(parts: PatternParts, scheme: string, sub: string, path: string)
    requires IsWildcardExample(parts)
    requires (scheme == "http" || scheme == "https") && sub != [] && '.' !in sub
    requires AllIn(NotLineTerminator, path)
    ensures UrlFitsPattern(parts, scheme + "://" + (sub + ".example.com") + "/" + path)
  {
    OneLabelHost(sub);
    StarPathAcceptsAnyLine(path);
    FitsAssembled(parts, scheme, sub + ".example.com", path);
  }

  /** A URL put together from pieces that a pattern's pieces accept fits the pattern. */
  lemma FitsAssembled(parts: PatternParts, scheme: string, host: string, path: string)
    requires SchemeAccepts(parts.scheme, scheme) && HostAccepts(parts.host, host) && PathAccepts(parts.path, path)
    ensures UrlFitsPattern(parts, scheme + "://" + host + "/" + path)
  {
    var url := scheme + "://" + host + "/" + path;
    var i, j := |scheme|, |scheme| + 3 + |host|;
    AssembledPieces(scheme, host, path);
    assert SplitsAt(parts, url, i, j);
  }

  /** The slices of `scheme://host/path` at the separators. */
  lemma AssembledPieces(scheme: string, host: string, path: string)
    ensures var url, i, j := scheme + "://" + host + "/" + path, |scheme|, |scheme| + 3 + |host|;
      && |url| == j + 1 + |path|
      && url[..i] == scheme && url[i..i + 3] == "://" && url[i + 3..j] == host
      && url[j] == '/' && url[j + 1..] == path
  {
  }

  /** `*.example.com` accepts a host that is one non-empty, dot-free label before `.example.com`. */
  lemma OneLabelHost(sub: string)
    requires sub != [] && '.' !in sub
    ensures HostAccepts("*.example.com", sub + ".example.com")
  {
    var host := sub + ".example.com";
    var n := |sub|;
    assert StartsWith("*.example.com", "*.") && "*.example.com"[2..] == "example.com";
    assert host[..n] == sub && host[n] == '.' && host[n + 1..] == "example.com";
  }

  /** A path of one `*` accepts any string without a line terminator. */
  lemma StarPathAcceptsAnyLine(s: string)
    requires AllIn(NotLineTerminator, s)
    ensures PathAccepts("*", s)
  {
    assert Split("*", '*') == ["", ""] by {
      assert IndexOf("*", '*') == 0;
      assert Split("", '*') == [""];
    }
    assert s[0..|s|] == s;
    assert FitsPieces([""], s[|s|..]);
  }

  /** With `d` a matching domain rule and `q` a matching pattern rule, the pattern wins only while
      the domain value is shorter than 1000 plus the pattern's length, or, when the domain rule
      comes second, no longer than that. */
  lemma PatternBeatsDomainOnlyBelowThreshold(parser: Url.Parser, d: Rule, q: Rule, url: string)
    requires d.kind == "domain" && q.kind == "pattern"
    requires DoesRuleMatchUrl(parser, d, url) && DoesRuleMatchUrl(parser, q, url)
    ensures PickBestRule(parser, RuleArray([d, q]), url) == Some(q) <==> JsLength(d.value) < 1000 + JsLength(q.value)
    ensures PickBestRule(parser, RuleArray([q, d]), url) == Some(q) <==> JsLength(d.value) <= 1000 + JsLength(q.value)
  {
    var keep := Matcher(parser, url);
    assert keep(d) && keep(q);
    PickOfTwo(d, q, keep, RuleSpecificity);
    PickOfTwo(q, d, keep, RuleSpecificity);
    assert d != q;
  }
}
