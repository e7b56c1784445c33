/**
 * Route patterns (router/router.go, `makePathRegexp` and `extractParamsFromURL`).
 *
 * A declared path such as `/users/:id` is compiled by rewriting every match of
 * `:[^/]+` into `[^/]+` and anchoring the result with `^` and `$`; the names of
 * the parameters are the first groups of the matches of `:([^/]+)`. The regular
 * expression is represented by its tokens: a literal character, or `[^/]+`.
 * The representation is faithful when the literal text of the path holds no
 * regular-expression metacharacter, which is what `WellFormed` demands.
 */
module Patterns {
  import opened Strings

  // ---------------------------------------------------------------------------
  // Segments of a declared path

  /** A segment that `:[^/]+` rewrites whole: a colon and a non-empty name. */
  predicate IsParamSegment(seg: string) {
    |seg| >= 2 && seg[0] == ':'
  }

  /** `strings.HasPrefix(seg, ":")`, the test `extractParamsFromURL` applies. */
  predicate HasColonPrefix(seg: string) {
    |seg| >= 1 && seg[0] == ':'
  }

  /** The characters with a meaning of their own in Go's regular-expression syntax. */
  const RegexMeta: set<char> := {'\\', '.', '+', '*', '?', '(', ')', '|', '[', ']', '{', '}', '^', '$'}

  /** A colon only as the first character, and no metacharacter in literal text. */
  predicate SegmentWellFormed(seg: string) {
    && (forall j :: 0 < j < |seg| ==> seg[j] != ':')
    && (!IsParamSegment(seg) ==> forall j :: 0 <= j < |seg| ==> seg[j] !in RegexMeta)
  }

  predicate AllSegmentsWellFormed(segs: seq<string>) {
    forall k :: 0 <= k < |segs| ==> SegmentWellFormed(segs[k])
  }

  /** The precondition under which the token form is the regular expression Go compiles. */
  predicate WellFormed(path: string) {
    AllSegmentsWellFormed(Split(path))
  }

  /** The parameter names, in left-to-right order, with the colon removed. */
  function ParamNamesOf(segs: seq<string>): seq<string>
  {
    if segs == [] then []
    else
      var n := |segs| - 1;
      ParamNamesOf(segs[..n]) + (if IsParamSegment(segs[n]) then [segs[n][1..]] else [])
  }

  function ParamNames(path: string): seq<string> {
    ParamNamesOf(Split(path))
  }

  lemma {:induction false} ParamNamesAppend(a: seq<string>, b: seq<string>)
    ensures ParamNamesOf(a + b) == ParamNamesOf(a) + ParamNamesOf(b)
    decreases |b|
  {
    if b == [] {
      assert a + b == a;
    } else {
      var n := |b| - 1;
      assert (a + b)[..|a + b| - 1] == a + b[..n];
      ParamNamesAppend(a, b[..n]);
    }
  }

  /** Declared segment `decl` accepts request segment `seg`: any non-empty text for a parameter, itself otherwise. */
  predicate SegmentMatches(decl: string, seg: string) {
    if IsParamSegment(decl) then seg != "" else seg == decl
  }

  /** Same number of segments, and each request segment accepted by its declared segment. */
  predicate SegmentsMatch(decls: seq<string>, segs: seq<string>) {
    |decls| == |segs| && forall k :: 0 <= k < |decls| ==> SegmentMatches(decls[k], segs[k])
  }

  lemma SegmentsMatchCons(d: string, ds: seq<string>, r: string, rs: seq<string>)
    ensures SegmentsMatch([d] + ds, [r] + rs) <==> SegmentMatches(d, r) && SegmentsMatch(ds, rs)
  {
    if SegmentMatches(d, r) && SegmentsMatch(ds, rs) {
      forall k | 0 <= k < |[d] + ds|
        ensures SegmentMatches(([d] + ds)[k], ([r] + rs)[k])
      {
        if k > 0 {
          assert ([d] + ds)[k] == ds[k - 1] && ([r] + rs)[k] == rs[k - 1];
        }
      }
    }
    if SegmentsMatch([d] + ds, [r] + rs) {
      assert SegmentMatches(([d] + ds)[0], ([r] + rs)[0]);
      forall k | 0 <= k < |ds|
        ensures SegmentMatches(ds[k], rs[k])
      {
        assert ([d] + ds)[k + 1] == ds[k] && ([r] + rs)[k + 1] == rs[k];
      }
    }
  }

  // ---------------------------------------------------------------------------
  // Scanning for `:[^/]+`

  /** A stretch of the declared path: a character kept as it is, or a match of `:([^/]+)`. */
  datatype Piece = Text(c: char) | Param(name: string)

  /**
   * The leftmost-first, non-overlapping matches of `:[^/]+` in `s`: a colon
   * followed by at least one character other than '/' starts a match, and the
   * match runs greedily up to the next '/' or the end.
   */
  function Scan(s: string): (ps: seq<Piece>)
    ensures Render(ps) == s
    decreases |s|
  {
    if |s| == 0 then []
    else if s[0] == ':' && |s| >= 2 && s[1] != '/' then
      var n := SlashIndex(s[1..]);
      var p, rest := Param(s[1..1 + n]), Scan(s[1 + n..]);
      assert ([p] + rest)[0] == p && ([p] + rest)[1..] == rest;
      assert s == RenderPiece(p) + s[1 + n..];
      [p] + rest
    else
      var p, rest := Text(s[0]), Scan(s[1..]);
      assert ([p] + rest)[0] == p && ([p] + rest)[1..] == rest;
      assert s == RenderPiece(p) + s[1..];
      [p] + rest
  }

  /** The text pieces stand for: a kept character, or a colon followed by the parameter name. */
  function Render(ps: seq<Piece>): string {
    if ps == [] then [] else RenderPiece(ps[0]) + Render(ps[1..])
  }

  function RenderPiece(p: Piece): string {
    match p
    case Text(c) => [c]
    case Param(name) => ":" + name
  }

  /** Every match the scan finds is a colon followed by a non-empty name free of '/'. */
  lemma {:induction false} ScanParamNames(s: string)
    ensures forall p :: p in Scan(s) && p.Param? ==> p.name != "" && NoSlash(p.name)
    decreases |s|
  {
    if |s| > 0 {
      if s[0] == ':' && |s| >= 2 && s[1] != '/' {
        var n := SlashIndex(s[1..]);
        assert s[1..][0] != '/';
        assert s[1..1 + n] == s[1..][..n];
        ScanParamNames(s[1 + n..]);
      } else {
        ScanParamNames(s[1..]);
      }
    }
  }

  function Texts(w: string): seq<Piece> {
    if w == [] then [] else [Text(w[0])] + Texts(w[1..])
  }

  /** What the scan makes of one declared segment. */
  function SegmentPieces(seg: string): seq<Piece> {
    if IsParamSegment(seg) then [Param(seg[1..])] else Texts(seg)
  }

  /** What the scan makes of a whole declared path, segment by segment. */
  function ScanSegments(segs: seq<string>): seq<Piece>
    requires |segs| >= 1
  {
    if |segs| == 1 then SegmentPieces(segs[0])
    else SegmentPieces(segs[0]) + [Text('/')] + ScanSegments(segs[1..])
  }

  lemma {:induction false} ScanTexts(w: string, r: string)
    requires forall j :: 0 <= j < |w| ==> w[j] != ':'
    ensures Scan(w + r) == Texts(w) + Scan(r)
  {
    if w == [] {
      assert w + r == r;
    } else {
      assert (w + r)[1..] == w[1..] + r;
      ScanTexts(w[1..], r);
    }
  }

  /** A well-formed segment followed by the rest of the path scans on its own. */
  lemma ScanSegment(seg: string, r: string)
    requires NoSlash(seg) && SegmentWellFormed(seg)
    requires r == [] || r[0] == '/'
    ensures Scan(seg + r) == SegmentPieces(seg) + Scan(r)
  {
    var s := seg + r;
    if IsParamSegment(seg) {
      assert s[1..] == seg[1..] + r;
      SlashIndexAt(seg[1..], r);
      var n := |seg| - 1;
      assert s[1..1 + n] == seg[1..];
      assert s[1 + n..] == r;
    } else if |seg| >= 1 && seg[0] == ':' {
      assert |seg| == 1;
      assert s[1..] == r;
      assert Texts(seg) == [Text(':')];
    } else {
      ScanTexts(seg, r);
    }
  }

  lemma ScanSlash(t: string)
    requires |t| > 0 && t[0] == '/'
    ensures Scan(t) == [Text('/')] + Scan(t[1..])
  {
  }

  /** The segments after the first one of a well-formed path are well formed. */
  lemma AllSegmentsWellFormedTail(segs: seq<string>)
    requires |segs| >= 1 && AllSegmentsWellFormed(segs)
    ensures SegmentWellFormed(segs[0]) && AllSegmentsWellFormed(segs[1..])
  {
    forall k | 0 <= k < |segs[1..]|
      ensures SegmentWellFormed(segs[1..][k])
    {
      assert segs[1..][k] == segs[k + 1];
    }
  }

  lemma ScanSegmentsCons(x: string, segs: seq<string>)
    requires |segs| >= 1
    ensures ScanSegments([x] + segs) == SegmentPieces(x) + [Text('/')] + ScanSegments(segs)
  {
    assert ([x] + segs)[1..] == segs;
  }

  /** Scanning joined well-formed segments is scanning each of them, with the slashes kept between them. */
  lemma {:induction false} ScanJoin(segs: seq<string>)
    requires |segs| >= 1 && AllSegmentsWellFormed(segs)
    requires forall k :: 0 <= k < |segs| ==> NoSlash(segs[k])
    ensures Scan(Join(segs)) == ScanSegments(segs)
  {
    AllSegmentsWellFormedTail(segs);
    var x := segs[0];
    if |segs| == 1 {
      assert x + [] == x;
      ScanSegment(x, []);
    } else {
      var rest := segs[1..];
      var t := "/" + Join(rest);
      assert Join(segs) == x + t;
      assert Scan(x + t) == SegmentPieces(x) + Scan(t) by {
        ScanSegment(x, t);
      }
      assert Scan(t) == [Text('/')] + Scan(Join(rest)) by {
        assert t[1..] == Join(rest);
        ScanSlash(t);
      }
      assert Scan(Join(rest)) == ScanSegments(rest) by {
        assert forall k :: 0 <= k < |rest| ==> rest[k] == segs[k + 1];
        ScanJoin(rest);
      }
    }
  }

  /** Scanning a well-formed path is scanning its segments, with the slashes kept between them. */
  lemma ScanBySegments(path: string)
    requires WellFormed(path)
    ensures Scan(path) == ScanSegments(Split(path))
  {
    JoinSplit(path);
    ScanJoin(Split(path));
  }

  // ---------------------------------------------------------------------------
  // The compiled regular expression and its matching

  /** A token of the rewritten expression: a literal character, or `[^/]+`. */
  datatype Token = Lit(c: char) | NonSlashRun

  /** A compiled expression: its body, and whether it is anchored by `^` and by `$`. */
  datatype Regexp = Regexp(begin: bool, body: seq<Token>, end: bool)

  function TokenOf(p: Piece): Token {
    match p
    case Text(c) => Lit(c)
    case Param(_) => NonSlashRun
  }

  function Tokens(ps: seq<Piece>): seq<Token> {
    if ps == [] then [] else [TokenOf(ps[0])] + Tokens(ps[1..])
  }

  lemma {:induction false} TokensPointwise(ps: seq<Piece>)
    ensures |Tokens(ps)| == |ps|
    ensures forall k :: 0 <= k < |ps| ==> Tokens(ps)[k] == TokenOf(ps[k])
  {
    if ps != [] {
      TokensPointwise(ps[1..]);
      forall k | 1 <= k < |ps|
        ensures Tokens(ps)[k] == TokenOf(ps[k])
      {
        assert Tokens(ps)[k] == Tokens(ps[1..])[k - 1];
        assert ps[1..][k - 1] == ps[k];
      }
    }
  }

  lemma {:induction false} TokensAppend(a: seq<Piece>, b: seq<Piece>)
    ensures Tokens(a + b) == Tokens(a) + Tokens(b)
  {
    if a == [] {
      assert a + b == b;
    } else {
      assert (a + b)[1..] == a[1..] + b;
      TokensAppend(a[1..], b);
    }
  }

  /** `regexp.MustCompile(":[^/]+").ReplaceAllString(path, "[^/]+")`, as tokens. */
  function ReplaceParams(path: string): (body: seq<Token>)
    ensures |body| == |Scan(path)|
    ensures forall k :: 0 <= k < |body| ==> body[k] == TokenOf(Scan(path)[k])
  {
    TokensPointwise(Scan(path));
    Tokens(Scan(path))
  }

  /** One element of `FindAllStringSubmatch`: the whole match and its first group. */
  datatype Submatch = Submatch(whole: string, group: string)

  function Submatches(ps: seq<Piece>): seq<Submatch> {
    if ps == [] then []
    else (match ps[0]
          case Param(name) => [Submatch(":" + name, name)]
          case Text(_) => [])
         + Submatches(ps[1..])
  }

  /** `regexp.MustCompile(":([^/]+)").FindAllStringSubmatch(path, -1)`. */
  function FindAllSubmatches(path: string): (ms: seq<Submatch>)
    ensures forall m :: m in ms ==> m.whole == ":" + m.group && m.group != "" && NoSlash(m.group)
  {
    ScanParamNames(path);
    SubmatchesOfParams(Scan(path));
    Submatches(Scan(path))
  }

  /** Each submatch is a match of a parameter piece: the colon and the name, and the name as its group. */
  lemma {:induction false} SubmatchesOfParams(ps: seq<Piece>)
    requires forall p :: p in ps && p.Param? ==> p.name != "" && NoSlash(p.name)
    ensures forall m :: m in Submatches(ps) ==> m.whole == ":" + m.group && m.group != "" && NoSlash(m.group)
  {
    if ps != [] {
      assert forall p :: p in ps[1..] ==> p in ps;
      SubmatchesOfParams(ps[1..]);
    }
  }

  function Groups(ms: seq<Submatch>): seq<string> {
    seq(|ms|, i requires 0 <= i < |ms| => ms[i].group)
  }

  /** `"^" + body + "$"`, compiled. */
  function Anchor(body: seq<Token>): Regexp {
    Regexp(true, body, true)
  }

  /** The matcher `makePathRegexp` returns for `path`. */
  function PathRegexp(path: string): (re: Regexp)
    ensures forall s :: MatchString(re, s) <==> FullMatch(ReplaceParams(path), s)
  {
    Anchor(ReplaceParams(path))
  }

  /** The tokens match the whole of `s`. */
  predicate FullMatch(body: seq<Token>, s: string)
    decreases |body|
  {
    if body == [] then s == []
    else match body[0]
      case Lit(c) => |s| > 0 && s[0] == c && FullMatch(body[1..], s[1..])
      case NonSlashRun => exists k :: 1 <= k <= |s| && NoSlash(s[..k]) && FullMatch(body[1..], s[k..])
  }

  /**
   * `MatchString`: the body matches some part of `s`, at its start if anchored
   * by `^`, at its end if by `$`. With both anchors it accepts exactly the
   * strings the body matches whole: no prefix and no partial matches.
   */
  predicate MatchString(re: Regexp, s: string)
    ensures re.begin && re.end ==> (MatchString(re, s) <==> FullMatch(re.body, s))
    ensures FullMatch(re.body, s) ==> MatchString(re, s)
  {
    assert s[0..|s|] == s;
    exists i, j :: 0 <= i <= j <= |s| && (re.begin ==> i == 0) && (re.end ==> j == |s|) && FullMatch(re.body, s[i..j])
  }

  lemma {:induction false} LiteralsMatch(w: string, rest: seq<Token>, s: string)
    ensures FullMatch(Tokens(Texts(w)) + rest, s) <==> |w| <= |s| && s[..|w|] == w && FullMatch(rest, s[|w|..])
  {
    if w == [] {
      assert Tokens(Texts(w)) + rest == rest;
      assert s[..0] == [] && s[0..] == s;
    } else {
      var body := Tokens(Texts(w)) + rest;
      assert Texts(w) == [Text(w[0])] + Texts(w[1..]);
      assert body == [Lit(w[0])] + (Tokens(Texts(w[1..])) + rest);
      assert body[0] == Lit(w[0]);
      assert body[1..] == Tokens(Texts(w[1..])) + rest;
      if |s| > 0 {
        LiteralsMatch(w[1..], rest, s[1..]);
        if |w| <= |s| {
          assert s[1..][..|w| - 1] == s[1..|w|];
          assert s[1..][|w| - 1..] == s[|w|..];
          assert s[..|w|] == [s[0]] + s[1..|w|];
          assert w == [w[0]] + w[1..];
        }
      }
    }
  }

  /** What may follow a segment's tokens: nothing, or a literal '/'. */
  predicate FollowsSegment(rest: seq<Token>) {
    rest == [] || rest[0] == Lit('/')
  }

  lemma RestRejects(rest: seq<Token>, t: string)
    requires FollowsSegment(rest)
    requires |t| > 0 && t[0] != '/'
    ensures !FullMatch(rest, t)
  {
  }

  /** A parameter segment's `[^/]+` consumes exactly the request's first segment, which must be non-empty. */
  lemma ParamSegmentHead(decl: string, rest: seq<Token>, s: string)
    requires NoSlash(decl) && IsParamSegment(decl)
    requires FollowsSegment(rest)
    ensures FullMatch(Tokens(SegmentPieces(decl)) + rest, s)
        <==> SegmentMatches(decl, s[..SlashIndex(s)]) && FullMatch(rest, s[SlashIndex(s)..])
  {
    var i := SlashIndex(s);
    var body := Tokens(SegmentPieces(decl)) + rest;
    assert Tokens(SegmentPieces(decl)) == [TokenOf(Param(decl[1..]))] + Tokens([]);
    assert body == [NonSlashRun] + rest;
    assert body[0] == NonSlashRun && body[1..] == rest;
    if FullMatch(body, s) {
      var k :| 1 <= k <= |s| && NoSlash(s[..k]) && FullMatch(rest, s[k..]);
      NoSlashPrefix(s, k);
      RestAtSlash(rest, s[k..]);
      assert k < |s| ==> s[k..][0] == s[k];
      assert k == i;
    }
    if SegmentMatches(decl, s[..i]) && FullMatch(rest, s[i..]) {
      assert 1 <= i <= |s| && NoSlash(s[..i]);
    }
  }

  /** A slash-free prefix ends at or before the first slash. */
  lemma {:induction false} NoSlashPrefix(s: string, k: nat)
    requires k <= |s| && NoSlash(s[..k])
    ensures k <= SlashIndex(s)
  {
    if k > 0 {
      assert s[..k][0] == s[0];
      assert s[1..][..k - 1] == s[..k][1..];
      NoSlashPrefix(s[1..], k - 1);
    }
  }

  /** What follows a segment, when it matches, starts at a '/' or at the end of the text. */
  lemma RestAtSlash(rest: seq<Token>, t: string)
    requires FollowsSegment(rest) && FullMatch(rest, t)
    ensures t == [] || t[0] == '/'
  {
  }

  /** A literal segment's characters consume exactly the request's first segment, which must equal it. */
  lemma LiteralSegmentHead(decl: string, rest: seq<Token>, s: string)
    requires NoSlash(decl) && !IsParamSegment(decl)
    requires FollowsSegment(rest)
    ensures FullMatch(Tokens(SegmentPieces(decl)) + rest, s)
        <==> SegmentMatches(decl, s[..SlashIndex(s)]) && FullMatch(rest, s[SlashIndex(s)..])
  {
    var i := SlashIndex(s);
    LiteralsMatch(decl, rest, s);
    if FullMatch(Tokens(SegmentPieces(decl)) + rest, s) {
      if |decl| < i {
        RestRejects(rest, s[|decl|..]);
      }
    }
  }

  /** The tokens of one declared segment consume exactly the request's first segment. */
  lemma SegmentHead(decl: string, rest: seq<Token>, s: string)
    requires NoSlash(decl)
    requires FollowsSegment(rest)
    ensures FullMatch(Tokens(SegmentPieces(decl)) + rest, s)
        <==> SegmentMatches(decl, s[..SlashIndex(s)]) && FullMatch(rest, s[SlashIndex(s)..])
  {
    if IsParamSegment(decl) {
      ParamSegmentHead(decl, rest, s);
    } else {
      LiteralSegmentHead(decl, rest, s);
    }
  }

  /** The tokens of pieces joined by a '/': the first part's, a literal '/', then the second part's. */
  lemma {:induction false} TokensSlash(a: seq<Piece>, b: seq<Piece>)
    ensures Tokens(a + [Text('/')] + b) == Tokens(a) + ([Lit('/')] + Tokens(b))
  {
    var slash: seq<Piece> := [Text('/')];
    var ta, tb := Tokens(a), Tokens(b);
    TokensAppend(a + slash, b);
    TokensAppend(a, slash);
    assert Tokens(slash) == [Lit('/')] + Tokens([]);
    assert (ta + [Lit('/')]) + tb == ta + ([Lit('/')] + tb);
  }

  lemma SplitUnfold(s: string)
    requires SlashIndex(s) < |s|
    ensures Split(s) == [s[..SlashIndex(s)]] + Split(s[SlashIndex(s) + 1..])
  {
  }

  /** A literal '/' followed by `tail` matches a text starting with '/' when `tail` matches the rest. */
  lemma SlashMatch(tail: seq<Token>, t: string)
    requires |t| > 0 && t[0] == '/'
    ensures FullMatch([Lit('/')] + tail, t) <==> FullMatch(tail, t[1..])
  {
    assert ([Lit('/')] + tail)[1..] == tail;
  }

  /** The tokens of a whole declared path accept `s` exactly when the segments match. */
  lemma {:induction false} MatchSegments(decls: seq<string>, s: string)
    requires |decls| >= 1
    requires forall k :: 0 <= k < |decls| ==> NoSlash(decls[k])
    ensures FullMatch(Tokens(ScanSegments(decls)), s) <==> SegmentsMatch(decls, Split(s))
    decreases |decls|
  {
    var i := SlashIndex(s);
    var x := decls[0];
    if |decls| == 1 {
      assert Tokens(ScanSegments(decls)) == Tokens(SegmentPieces(x)) + [];
      SegmentHead(x, [], s);
      if i == |s| {
        assert s[..i] == s;
      }
    } else {
      var ds := decls[1..];
      assert decls == [x] + ds;
      assert forall k :: 0 <= k < |ds| ==> ds[k] == decls[k + 1];
      ScanSegmentsCons(x, ds);
      TokensSlash(SegmentPieces(x), ScanSegments(ds));
      var tail := Tokens(ScanSegments(ds));
      SegmentHead(x, [Lit('/')] + tail, s);
      if i < |s| {
        SlashMatch(tail, s[i..]);
        assert s[i..][1..] == s[i + 1..];
        MatchSegments(ds, s[i + 1..]);
        SplitUnfold(s);
        SegmentsMatchCons(x, ds, s[..i], Split(s[i + 1..]));
      } else {
        assert s[i..] == [];
        assert |Split(s)| == 1;
      }
    }
  }

  /**
   * Under the well-formedness precondition the compiled matcher accepts a request
   * path exactly when both split into the same number of segments, each literal
   * segment is equal, and each parameter position holds a non-empty segment.
   */
  lemma PathRegexpAccepts(path: string, s: string)
    requires WellFormed(path)
    ensures MatchString(PathRegexp(path), s) <==> SegmentsMatch(Split(path), Split(s))
  {
    ScanBySegments(path);
    MatchSegments(Split(path), s);
  }

  // ---------------------------------------------------------------------------
  // Parameter names

  lemma {:induction false} SubmatchesAppend(a: seq<Piece>, b: seq<Piece>)
    ensures Submatches(a + b) == Submatches(a) + Submatches(b)
  {
    if a == [] {
      assert a + b == b;
    } else {
      assert (a + b)[0] == a[0];
      assert (a + b)[1..] == a[1..] + b;
      SubmatchesAppend(a[1..], b);
    }
  }

  lemma {:induction false} TextsHaveNoSubmatch(w: string)
    ensures Submatches(Texts(w)) == []
  {
    if w != [] {
      TextsHaveNoSubmatch(w[1..]);
    }
  }

  lemma SegmentGroups(x: string)
    ensures Groups(Submatches(SegmentPieces(x))) == ParamNamesOf([x])
  {
    assert [x][..0] == [];
    if IsParamSegment(x) {
      assert Submatches([Param(x[1..])]) == [Submatch(":" + x[1..], x[1..])] + Submatches([]);
    } else {
      TextsHaveNoSubmatch(x);
    }
  }

  lemma GroupsAppend(a: seq<Submatch>, b: seq<Submatch>)
    ensures Groups(a + b) == Groups(a) + Groups(b)
  {
  }

  lemma {:induction false} GroupsBySegments(decls: seq<string>)
    requires |decls| >= 1
    ensures Groups(Submatches(ScanSegments(decls))) == ParamNamesOf(decls)
  {
    var x := decls[0];
    SegmentGroups(x);
    if |decls| > 1 {
      var rest := decls[1..];
      assert decls == [x] + rest;
      ScanSegmentsCons(x, rest);
      GroupsBySegments(rest);
      SubmatchesAppend(SegmentPieces(x) + [Text('/')], ScanSegments(rest));
      SubmatchesAppend(SegmentPieces(x), [Text('/')]);
      assert Submatches([Text('/')]) == [];
      GroupsAppend(Submatches(SegmentPieces(x)), Submatches(ScanSegments(rest)));
      ParamNamesAppend([x], rest);
    } else {
      assert decls == [x];
    }
  }

  /** Under the precondition the match groups are the names of the parameter segments, in order. */
  lemma MatchGroupsAreParamNames(path: string)
    requires WellFormed(path)
    ensures Groups(FindAllSubmatches(path)) == ParamNames(path)
  {
    ScanBySegments(path);
    GroupsBySegments(Split(path));
  }

  /**
   * `makePathRegexp`: the anchored matcher, and the names filled into a slice
   * from the first group of every match.
   */
  method MakePathRegexp(path: string) returns (re: Regexp, names: seq<string>)
    requires WellFormed(path)
    ensures re == PathRegexp(path)
    ensures forall s :: MatchString(re, s) <==> SegmentsMatch(Split(path), Split(s))
    ensures names == ParamNames(path)
  {
    var regexRoute := ReplaceParams(path);
    var regexMatches := FindAllSubmatches(path);
    var matches := new string[|regexMatches|];
    for i := 0 to |regexMatches|
      invariant forall j :: 0 <= j < i ==> matches[j] == regexMatches[j].group
    {
      matches[i] := regexMatches[i].group;
    }
    re := Anchor(regexRoute);
    names := matches[..];
    forall s
      ensures MatchString(re, s) <==> SegmentsMatch(Split(path), Split(s))
    {
      PathRegexpAccepts(path, s);
    }
    assert names == Groups(regexMatches);
    MatchGroupsAreParamNames(path);
  }

  // ---------------------------------------------------------------------------
  // Parameter extraction

  /** Declared segment `i` starts with a colon and binds `name`, the rest of the segment. */
  predicate Declares(decls: seq<string>, i: int, name: string) {
    0 <= i < |decls| && HasColonPrefix(decls[i]) && decls[i][1..] == name
  }

  /** The map the loop of `extractParamsFromURL` has built after visiting every segment of `decls`. */
  function Bind(decls: seq<string>, segs: seq<string>): (params: map<string, string>)
    requires |decls| == |segs|
    ensures forall name :: name in params ==> params[name] in segs
    decreases |decls|
  {
    if decls == [] then map[]
    else
      var n := |decls| - 1;
      var params := Bind(decls[..n], segs[..n]);
      assert forall v :: v in segs[..n] ==> v in segs;
      if HasColonPrefix(decls[n]) then params[decls[n][1..] := segs[n]] else params
  }

  /** `extractParamsFromURL`: nothing at all when the segment counts differ. */
  function ExtractParams(routePath: string, path: string): (params: map<string, string>)
    ensures |Split(routePath)| != |Split(path)| ==> params == map[]
  {
    var decls, segs := Split(routePath), Split(path);
    if |decls| == |segs| then Bind(decls, segs) else map[]
  }

  /** The keys are exactly the names the colon segments declare; literal segments add none. */
  lemma {:induction false} BindKeys(decls: seq<string>, segs: seq<string>)
    requires |decls| == |segs|
    ensures forall name :: name in Bind(decls, segs) <==> exists i :: Declares(decls, i, name)
    decreases |decls|
  {
    if decls != [] {
      var n := |decls| - 1;
      var front := Bind(decls[..n], segs[..n]);
      BindKeys(decls[..n], segs[..n]);
      forall name
        ensures name in Bind(decls, segs) <==> exists i :: Declares(decls, i, name)
      {
        if name in front {
          var i :| Declares(decls[..n], i, name);
          assert Declares(decls, i, name);
        }
        if HasColonPrefix(decls[n]) && name == decls[n][1..] {
          assert Declares(decls, n, name);
        }
        if exists i :: Declares(decls, i, name) {
          var i :| Declares(decls, i, name);
          if i < n {
            assert Declares(decls[..n], i, name);
          }
        }
      }
    }
  }

  /** A name is bound to the request segment at the last position that declares it. */
  lemma {:induction false} BindValue(decls: seq<string>, segs: seq<string>, i: nat)
    requires |decls| == |segs|
    requires i < |decls| && HasColonPrefix(decls[i])
    requires forall j :: i < j < |decls| ==> !Declares(decls, j, decls[i][1..])
    ensures decls[i][1..] in Bind(decls, segs)
    ensures Bind(decls, segs)[decls[i][1..]] == segs[i]
    decreases |decls|
  {
    var n := |decls| - 1;
    if i < n {
      assert !Declares(decls, n, decls[i][1..]);
      forall j | i < j < n
        ensures !Declares(decls[..n], j, decls[..n][i][1..])
      {
        assert !Declares(decls, j, decls[i][1..]);
      }
      BindValue(decls[..n], segs[..n], i);
    }
  }

  /** Segment `i` starts with a colon and no later segment declares the same name. */
  predicate LastDeclaration(decls: seq<string>, i: int) {
    && 0 <= i < |decls| && HasColonPrefix(decls[i])
    && forall j :: i < j < |decls| ==> !Declares(decls, j, decls[i][1..])
  }

  /**
   * With equal segment counts, every key of the result is a colon segment's
   * name, and each name's value is the request segment at the same index as the
   * last segment that declares it (the later position wins for a repeated name).
   */
  lemma ExtractParamsBinds(routePath: string, path: string)
    requires |Split(routePath)| == |Split(path)|
    ensures forall name :: name in ExtractParams(routePath, path) <==> exists i :: Declares(Split(routePath), i, name)
    ensures forall i :: LastDeclaration(Split(routePath), i) ==>
              && Split(routePath)[i][1..] in ExtractParams(routePath, path)
              && ExtractParams(routePath, path)[Split(routePath)[i][1..]] == Split(path)[i]
  {
    var decls, segs := Split(routePath), Split(path);
    assert ExtractParams(routePath, path) == Bind(decls, segs);
    BindKeys(decls, segs);
    forall i | LastDeclaration(decls, i)
      ensures decls[i][1..] in Bind(decls, segs) && Bind(decls, segs)[decls[i][1..]] == segs[i]
    {
      BindValue(decls, segs, i);
    }
  }

  // ---------------------------------------------------------------------------
  // Round trip: substitute values into a pattern, then extract them

  /** The request segments obtained by putting `vals`, in order, in place of the parameter segments. */
  function Substitute(decls: seq<string>, vals: seq<string>): (segs: seq<string>)
    requires |vals| == |ParamNamesOf(decls)|
    ensures |segs| == |decls|
    decreases |decls|
  {
    if decls == [] then []
    else
      var n := |decls| - 1;
      var k := |ParamNamesOf(decls[..n])|;
      if IsParamSegment(decls[n]) then Substitute(decls[..n], vals[..k]) + [vals[k]]
      else Substitute(decls[..n], vals) + [decls[n]]
  }

  /** Names bound to values left to right, so that a later pair overrides an earlier one for the same name. */
  function ZipMap(names: seq<string>, vals: seq<string>): map<string, string>
    requires |names| == |vals|
    decreases |names|
  {
    if names == [] then map[]
    else
      var n := |names| - 1;
      ZipMap(names[..n], vals[..n])[names[n] := vals[n]]
  }

  lemma {:induction false} ZipMapLookup(names: seq<string>, vals: seq<string>, i: nat)
    requires |names| == |vals| && i < |names|
    requires forall j :: i < j < |names| ==> names[j] != names[i]
    ensures names[i] in ZipMap(names, vals) && ZipMap(names, vals)[names[i]] == vals[i]
    decreases |names|
  {
    var n := |names| - 1;
    if i < n {
      ZipMapLookup(names[..n], vals[..n], i);
    }
  }

  lemma {:induction false} ZipMapKeys(names: seq<string>, vals: seq<string>)
    requires |names| == |vals|
    ensures ZipMap(names, vals).Keys == (set j | 0 <= j < |names| :: names[j])
    decreases |names|
  {
    if names != [] {
      var n := |names| - 1;
      ZipMapKeys(names[..n], vals[..n]);
      var all := set j | 0 <= j < |names| :: names[j];
      var front := set j | 0 <= j < n :: names[..n][j];
      assert all == front + {names[n]} by {
        forall x | x in all ensures x in front + {names[n]} {
          var j :| 0 <= j < |names| && names[j] == x;
          if j < n {
            assert names[..n][j] == x;
          }
        }
      }
    }
  }

  lemma {:induction false} BindSubstitute(decls: seq<string>, vals: seq<string>)
    requires |vals| == |ParamNamesOf(decls)|
    requires forall k :: 0 <= k < |decls| ==> decls[k] != ":"
    ensures Bind(decls, Substitute(decls, vals)) == ZipMap(ParamNamesOf(decls), vals)
    decreases |decls|
  {
    if decls != [] {
      var n := |decls| - 1;
      var k := |ParamNamesOf(decls[..n])|;
      var segs := Substitute(decls, vals);
      assert decls[n] != ":";
      if IsParamSegment(decls[n]) {
        assert segs[..n] == Substitute(decls[..n], vals[..k]);
        BindSubstitute(decls[..n], vals[..k]);
        var names := ParamNamesOf(decls);
        assert names[..k] == ParamNamesOf(decls[..n]);
        assert vals[..k] == vals[..|names| - 1];
      } else {
        assert !HasColonPrefix(decls[n]);
        assert segs[..n] == Substitute(decls[..n], vals);
        assert decls[..n] == decls[..|decls| - 1];
        assert Bind(decls, segs) == Bind(decls[..n], segs[..n]);
        assert ParamNamesOf(decls) == ParamNamesOf(decls[..n]);
        BindSubstitute(decls[..n], vals);
      }
    }
  }

  lemma {:induction false} SubstituteMatches(decls: seq<string>, vals: seq<string>)
    requires |vals| == |ParamNamesOf(decls)|
    requires forall k :: 0 <= k < |decls| ==> NoSlash(decls[k])
    requires forall k :: 0 <= k < |vals| ==> vals[k] != "" && NoSlash(vals[k])
    ensures SegmentsMatch(decls, Substitute(decls, vals))
    ensures forall k :: 0 <= k < |decls| ==> NoSlash(Substitute(decls, vals)[k])
    decreases |decls|
  {
    if decls != [] {
      var n := |decls| - 1;
      var k := |ParamNamesOf(decls[..n])|;
      var segs := Substitute(decls, vals);
      var front := if IsParamSegment(decls[n]) then vals[..k] else vals;
      SubstituteLast(decls, vals);
      var fs := Substitute(decls[..n], front);
      SubstituteMatches(decls[..n], front);
      forall j | 0 <= j < |decls|
        ensures SegmentMatches(decls[j], segs[j]) && NoSlash(segs[j])
      {
        if j < n {
          assert segs[j] == segs[..n][j] == fs[j];
          assert decls[..n][j] == decls[j];
        }
      }
    }
  }

  /** The last substituted segment: the last value for a parameter segment, the segment itself otherwise. */
  lemma SubstituteLast(decls: seq<string>, vals: seq<string>)
    requires |vals| == |ParamNamesOf(decls)| && |decls| >= 1
    requires NoSlash(decls[|decls| - 1])
    requires forall k :: 0 <= k < |vals| ==> vals[k] != "" && NoSlash(vals[k])
    ensures var n := |decls| - 1;
            var k := |ParamNamesOf(decls[..n])|;
            && Substitute(decls, vals)[..n] == Substitute(decls[..n], if IsParamSegment(decls[n]) then vals[..k] else vals)
            && SegmentMatches(decls[n], Substitute(decls, vals)[n])
            && NoSlash(Substitute(decls, vals)[n])
  {
    var n := |decls| - 1;
    var k := |ParamNamesOf(decls[..n])|;
    if IsParamSegment(decls[n]) {
      assert Substitute(decls, vals)[n] == vals[k];
    }
  }

  /**
   * Substituting non-empty, slash-free values into a well-formed pattern gives a
   * request path the matcher accepts; extracting from it gives back the values,
   * bound name by name, the later position winning for a repeated name.
   */
  lemma RoundTrip(path: string, vals: seq<string>)
    requires WellFormed(path)
    requires forall k :: 0 <= k < |Split(path)| ==> Split(path)[k] != ":"
    requires |vals| == |ParamNames(path)|
    requires forall k :: 0 <= k < |vals| ==> vals[k] != "" && NoSlash(vals[k])
    ensures MatchString(PathRegexp(path), Join(Substitute(Split(path), vals)))
    ensures ExtractParams(path, Join(Substitute(Split(path), vals))) == ZipMap(ParamNames(path), vals)
  {
    var decls := Split(path);
    var segs := Substitute(decls, vals);
    SubstituteMatches(decls, vals);
    SplitJoin(segs);
    PathRegexpAccepts(path, Join(segs));
    BindSubstitute(decls, vals);
  }

  /** With distinct names every parameter gets back exactly its own value. */
  lemma RoundTripDistinct(path: string, vals: seq<string>)
    requires WellFormed(path)
    requires forall k :: 0 <= k < |Split(path)| ==> Split(path)[k] != ":"
    requires |vals| == |ParamNames(path)|
    requires forall k :: 0 <= k < |vals| ==> vals[k] != "" && NoSlash(vals[k])
    requires forall i, j :: 0 <= i < j < |vals| ==> ParamNames(path)[i] != ParamNames(path)[j]
    ensures var params := ExtractParams(path, Join(Substitute(Split(path), vals)));
            && params.Keys == (set j | 0 <= j < |vals| :: ParamNames(path)[j])
            && forall i :: 0 <= i < |vals| ==> params[ParamNames(path)[i]] == vals[i]
  {
    RoundTrip(path, vals);
    var names := ParamNames(path);
    ZipMapKeys(names, vals);
    forall i | 0 <= i < |vals|
      ensures ZipMap(names, vals)[names[i]] == vals[i]
    {
      ZipMapLookup(names, vals, i);
    }
  }
}
