/**
 * Behaviour of the compiled matcher and of parameter extraction on the route
 * shape the router is written for, `/<literal>/:<name>` (as in `/users/:id`).
 */
module Scenarios {
  import opened Strings
  import opened Patterns

  lemma SplitThree(a: string, b: string, c: string)
    requires NoSlash(a) && NoSlash(b) && NoSlash(c)
    ensures Split(a + "/" + b + "/" + c) == [a, b, c]
  {
    var segs := [a, b, c];
    assert segs[1..] == [b, c] && segs[1..][1..] == [c];
    assert Join([c]) == c;
    assert Join([b, c]) == b + "/" + c;
    assert Join(segs) == a + "/" + (b + "/" + c);
    assert a + "/" + (b + "/" + c) == a + "/" + b + "/" + c;
    assert NoSlash(segs[0]) && NoSlash(segs[1]) && NoSlash(segs[2]);
    SplitJoin(segs);
  }

  /** `/w/:n` is a well-formed route with a literal segment `w` and a parameter `n`. */
  predicate Shape(w: string, n: string) {
    NoSlash(w) && NoSlash(n) && n != "" && SegmentWellFormed(w) && !HasColonPrefix(w) && forall j :: 0 <= j < |n| ==> n[j] != ':'
  }

  lemma DeclSplit(w: string, n: string)
    requires Shape(w, n)
    ensures Split("/" + w + "/:" + n) == ["", w, [':'] + n]
  {
    assert "/" + w + "/:" + n == "" + "/" + w + "/" + ([':'] + n);
    SplitThree("", w, [':'] + n);
  }

  lemma ReqSplit(w: string, v: string)
    requires NoSlash(w) && NoSlash(v)
    ensures Split("/" + w + "/" + v) == ["", w, v]
  {
    assert "/" + w + "/" + v == "" + "/" + w + "/" + v;
    SplitThree("", w, v);
  }

  lemma ShapeNames(w: string, n: string)
    requires Shape(w, n)
    ensures ParamNames("/" + w + "/:" + n) == [n]
  {
    DeclSplit(w, n);
    var d := ["", w, [':'] + n];
    assert ([':'] + n)[1..] == n;
    assert d[..2] == ["", w] && d[..2][..1] == [""] && d[..2][..1][..0] == [];
    assert ParamNamesOf([]) == [];
    assert ParamNamesOf([""]) == [];
    assert ParamNamesOf(["", w]) == [];
  }

  lemma ShapeWellFormed(w: string, n: string)
    requires Shape(w, n)
    ensures WellFormed("/" + w + "/:" + n)
  {
    DeclSplit(w, n);
    assert SegmentWellFormed("");
    assert SegmentWellFormed([':'] + n);
  }

  lemma ShapeAccepts(w: string, n: string, v: string)
    requires Shape(w, n) && NoSlash(v) && v != ""
    ensures MatchString(PathRegexp("/" + w + "/:" + n), "/" + w + "/" + v)
  {
    DeclSplit(w, n);
    ReqSplit(w, v);
    ShapeWellFormed(w, n);
    PathRegexpAccepts("/" + w + "/:" + n, "/" + w + "/" + v);
    assert SegmentsMatch(["", w, [':'] + n], ["", w, v]);
  }

  lemma ShapeExtracts(w: string, n: string, v: string)
    requires Shape(w, n) && NoSlash(v)
    ensures ExtractParams("/" + w + "/:" + n, "/" + w + "/" + v) == map[n := v]
  {
    DeclSplit(w, n);
    ReqSplit(w, v);
    var d, r := ["", w, [':'] + n], ["", w, v];
    assert ([':'] + n)[1..] == n;
    assert d[..2] == ["", w] && r[..2] == ["", w];
    assert d[..2][..1] == [""] && r[..2][..1] == [""];
    assert d[..2][..1][..0] == [] && r[..2][..1][..0] == [];
    assert Bind([], []) == map[];
    assert Bind([""], [""]) == map[];
    assert Bind(["", w], ["", w]) == map[];
  }

  /** One segment too many: no match. */
  lemma ShapeRejectsLonger(w: string, n: string, v: string, extra: string)
    requires Shape(w, n) && NoSlash(v) && NoSlash(extra)
    ensures !MatchString(PathRegexp("/" + w + "/:" + n), "/" + w + "/" + v + "/" + extra)
  {
    var path := "/" + w + "/:" + n;
    var longer := "/" + w + "/" + v + "/" + extra;
    DeclSplit(w, n);
    ShapeWellFormed(w, n);
    var segs := ["", w, v, extra];
    assert segs[1..] == [w, v, extra];
    SplitThreeJoin(w, v, extra);
    assert Join(segs) == "" + "/" + (w + "/" + v + "/" + extra) == longer;
    assert NoSlash(segs[0]) && NoSlash(segs[1]) && NoSlash(segs[2]) && NoSlash(segs[3]);
    SplitJoin(segs);
    PathRegexpAccepts(path, longer);
  }

  /** One segment too few: no match. */
  lemma ShapeRejectsShorter(w: string, n: string)
    requires Shape(w, n)
    ensures !MatchString(PathRegexp("/" + w + "/:" + n), "/" + w)
  {
    var path := "/" + w + "/:" + n;
    DeclSplit(w, n);
    ShapeWellFormed(w, n);
    assert Join(["", w]) == "" + "/" + w == "/" + w;
    SplitJoin(["", w]);
    PathRegexpAccepts(path, "/" + w);
  }

  /** An empty parameter segment: no match. */
  lemma ShapeRejectsTrailing(w: string, n: string)
    requires Shape(w, n)
    ensures !MatchString(PathRegexp("/" + w + "/:" + n), "/" + w + "/")
  {
    var path := "/" + w + "/:" + n;
    DeclSplit(w, n);
    ShapeWellFormed(w, n);
    ReqSplit(w, "");
    assert "/" + w + "/" + "" == "/" + w + "/";
    PathRegexpAccepts(path, "/" + w + "/");
    assert IsParamSegment([':'] + n) && !SegmentMatches(Split(path)[2], Split("/" + w + "/")[2]);
  }

  lemma SplitThreeJoin(a: string, b: string, c: string)
    ensures Join([a, b, c]) == a + "/" + b + "/" + c
  {
    assert [a, b, c][1..] == [b, c] && [b, c][1..] == [c];
    assert Join([c]) == c;
    assert Join([b, c]) == b + "/" + c;
    assert a + "/" + (b + "/" + c) == a + "/" + b + "/" + c;
  }

  lemma UsersShape()
    ensures Shape("users", "id")
  {
    var w := "users";
    assert w[0] == 'u' && w[1] == 's' && w[2] == 'e' && w[3] == 'r' && w[4] == 's';
  }

  /** `/users/:id` against `/users/42`: one name, a match, and the parameter bound. */
  lemma UsersById(route: string, request: string)
    requires route == "/users/:id" && request == "/users/42"
    ensures ParamNames(route) == ["id"]
    ensures MatchString(PathRegexp(route), request)
    ensures ExtractParams(route, request) == map["id" := "42"]
  {
    var w, n := "users", "id";
    UsersShape();
    assert route == "/" + w + "/:" + n && request == "/" + w + "/" + "42";
    ShapeNames(w, n);
    ShapeAccepts(w, n, "42");
    ShapeExtracts(w, n, "42");
  }

  /** `/users/:id` against three near misses of `/users/42`. */
  lemma UsersByIdNearMisses(route: string, longer: string, shorter: string, trailing: string)
    requires route == "/users/:id"
    requires longer == "/users/42/extra" && shorter == "/users" && trailing == "/users/"
    ensures !MatchString(PathRegexp(route), longer)
    ensures !MatchString(PathRegexp(route), shorter)
    ensures !MatchString(PathRegexp(route), trailing)
  {
    var w, n := "users", "id";
    UsersShape();
    assert route == "/" + w + "/:" + n;
    assert longer == "/" + w + "/" + "42" + "/" + "extra";
    assert shorter == "/" + w && trailing == "/" + w + "/";
    ShapeRejectsLonger(w, n, "42", "extra");
    ShapeRejectsShorter(w, n);
    ShapeRejectsTrailing(w, n);
  }
}
