/** The router: where a route is registered, and what a request gets. */
module Routers {
  import opened Wrappers
  import opened RouterPath
  import opened RouterTrie

  predicate IsParamName(c: char) {
    '0' <= c <= '9' || 'A' <= c <= 'Z' || 'a' <= c <= 'z' || c == '_' || c == '-'
  }

  predicate StartsWithColon(seg: string) {
    seg != "" && seg[0] == ':'
  }

  /** A segment of a route: `:name` is a parameter if the name is well formed, and literal text if not. */
  function KeyOf(seg: string): Key {
    if StartsWithColon(seg) && (forall i | 1 <= i < |seg| :: IsParamName(seg[i])) then Param(seg[1..])
    else Static(seg)
  }

  function KeysOf(segs: seq<string>): seq<Key> {
    seq(|segs|, i requires 0 <= i < |segs| => KeyOf(segs[i]))
  }

  /** Routes with a segment and without a ':' in front of any go to the hash. */
  predicate GoesToHash(segs: seq<string>) {
    segs != [] && forall i | 0 <= i < |segs| :: !StartsWithColon(segs[i])
  }

  datatype Route = Route(m: Method, path: string, h: Handler)

  datatype Table = Table(statics: map<string, map<Method, Handler>>, root: Node)

  const EmptyTable := Table(map[], EmptyRoot)

  function AddTo(t: Table, r: Route): Table {
    var norm := Norm(r.path);
    var segs := Segments(norm);
    if GoesToHash(segs) then
      var known := if norm in t.statics then t.statics[norm] else map[];
      t.(statics := t.statics[norm := known[r.m := r.h]])
    else t.(root := Insert(t.root, KeysOf(segs), r.m, r.h))
  }

  /** What becomes of a request: a handler is called, an error response is sent, or neither. */
  datatype Outcome = Call(h: Handler, params: map<string, string>) | MethodNotAllowed | NotFound | Unanswered

  function FromTrie(root: Node, segs: seq<string>, m: Method): Outcome {
    var found := MatchNode(root, segs, m, map[]);
    var walk := GreedyWalk(root, segs);
    if !found.ok then if walk.complete && walk.end.handlers != map[] then MethodNotAllowed else NotFound
    else if m in walk.end.handlers then Call(walk.end.handlers[m], found.params)
    else Unanswered
  }

  function Lookup(t: Table, m: Method, path: string): Outcome {
    var norm := Norm(path);
    if norm in t.statics then
      if m in t.statics[norm] then Call(t.statics[norm][m], map[])
      else if t.statics[norm] != map[] then MethodNotAllowed
      else NotFound
    else
      FromTrie(t.root, Segments(norm), m)
  }

  /** The path of a URI: all before the first '?'. */
  function PathOf(uri: string): string {
    if uri == "" || uri[0] == '?' then "" else [uri[0]] + PathOf(uri[1..])
  }

  /** What a request gets; `m` is absent for the methods the router does not know. */
  function Answer(t: Table, m: Option<Method>, uri: string): Outcome {
    if m.None? then MethodNotAllowed else Lookup(t, m.value, PathOf(uri))
  }

  class Router {
    var staticRoutes: map<string, map<Method, Handler>>
    var root: Node

    ghost function Value(): Table
      reads this
    {
      Table(staticRoutes, root)
    }

    constructor ()
      ensures Value() == EmptyTable
    {
      staticRoutes := map[];
      root := EmptyRoot;
    }

    method AddRoute(m: Method, path: string, handler: Handler)
      modifies this
      ensures Value() == AddTo(old(Value()), Route(m, path, handler))
    {
      var norm := NormalizePath(path);
      var segs := SplitPath(norm);
      var hasParam := false;
      for i := 0 to |segs|
        invariant hasParam <==> exists j :: 0 <= j < i && StartsWithColon(segs[j])
      {
        if StartsWithColon(segs[i]) {
          hasParam := true;
          break;
        }
      }
      if !hasParam && segs != [] {
        var handlers := if norm in staticRoutes then staticRoutes[norm] else map[];
        staticRoutes := staticRoutes[norm := handlers[m := handler]];
        return;
      }
      var keys: seq<Key> := [];
      for i := 0 to |segs|
        invariant keys == KeysOf(segs)[..i]
      {
        keys := keys + [KeyOf(segs[i])];
      }
      assert keys == KeysOf(segs);
      root := Insert(root, keys, m, handler);
    }

    method OnRequest(m: Option<Method>, uri: string) returns (outcome: Outcome)
      ensures outcome == Answer(Value(), m, uri)
    {
      if m.None? {
        return MethodNotAllowed;
      }
      var path := "";
      var i := 0;
      while i < |uri| && uri[i] != '?'
        invariant 0 <= i <= |uri|
        invariant PathOf(uri) == path + PathOf(uri[i..])
      {
        path := path + [uri[i]];
        assert uri[i..][1..] == uri[i + 1..];
        i := i + 1;
      }
      assert path == PathOf(uri);
      var norm := NormalizePath(path);
      if norm in staticRoutes {
        if m.value in staticRoutes[norm] {
          return Call(staticRoutes[norm][m.value], map[]);
        }
        return if staticRoutes[norm] != map[] then MethodNotAllowed else NotFound;
      }
      var segs := SplitPath(norm);
      var found := MatchNode(root, segs, m.value, map[]);
      var end, pathExists := WalkTo(root, segs);
      if !found.ok {
        return if pathExists && end.handlers != map[] then MethodNotAllowed else NotFound;
      }
      if m.value in end.handlers {
        return Call(end.handlers[m.value], found.params);
      }
      return Unanswered;
    }
  }

  /** The loop of the greedy walk, as it picks the handler and as it tells a wrong method from a wrong path. */
  method WalkTo(root: Node, segs: seq<string>) returns (cur: Node, pathExists: bool)
    ensures cur == GreedyWalk(root, segs).end
    ensures pathExists == GreedyWalk(root, segs).complete
  {
    cur := root;
    pathExists := true;
    for i := 0 to |segs|
      invariant GreedyWalk(root, segs).end == GreedyWalk(cur, segs[i..]).end
      invariant GreedyWalk(root, segs).complete == GreedyWalk(cur, segs[i..]).complete
    {
      ghost var before := cur;
      var next := NextChild(cur.children, segs[i]);
      assert segs[i..][1..] == segs[i + 1..];
      match next {
        case None => return cur, false;
        case Some(c) => cur := c;
      }
    }
  }

  method NextChild(children: seq<Node>, seg: string) returns (next: Option<Node>)
    ensures next == if Find(children, Static(seg)).Some? then Find(children, Static(seg)) else FirstParam(children)
  {
    for i := 0 to |children|
      invariant Find(children, Static(seg)) == Find(children[i..], Static(seg))
    {
      assert children[i..][1..] == children[i + 1..];
      if children[i].key == Static(seg) {
        return Some(children[i]);
      }
    }
    for i := 0 to |children|
      invariant FirstParam(children) == FirstParam(children[i..])
    {
      assert children[i..][1..] == children[i + 1..];
      if children[i].key.Param? {
        return Some(children[i]);
      }
    }
    return None;
  }

  // ---- What a request gets, in terms of what was registered ----

  function TableOf(routes: seq<Route>): Table
    decreases |routes|
  {
    if routes == [] then EmptyTable else AddTo(TableOf(routes[..|routes| - 1]), routes[|routes| - 1])
  }

  /** The registrations that go to the trie. */
  function InTrie(routes: seq<Route>): seq<Registration>
    decreases |routes|
  {
    if routes == [] then []
    else
      var r := routes[|routes| - 1];
      InTrie(routes[..|routes| - 1])
      + if GoesToHash(Segments(r.path)) then [] else [Registration(KeysOf(Segments(r.path)), r.m, r.h)]
  }

  /** The literal routes with exactly the segments of `path`, and a leading '/' exactly if it has one. */
  predicate IsLiteral(r: Route, path: string) {
    GoesToHash(Segments(r.path)) && Segments(r.path) == Segments(path) && Absolute(r.path) == Absolute(path)
  }

  predicate SomeLiteral(routes: seq<Route>, path: string) {
    exists r :: r in routes && IsLiteral(r, path)
  }

  /** The handler of the latest literal registration. */
  function LatestLiteral(routes: seq<Route>, path: string, m: Method): Option<Handler>
    decreases |routes|
  {
    if routes == [] then None
    else
      var r := routes[|routes| - 1];
      if IsLiteral(r, path) && r.m == m then Some(r.h) else LatestLiteral(routes[..|routes| - 1], path, m)
  }

  lemma {:induction false} TableIsBuilt(routes: seq<Route>)
    ensures TableOf(routes).root == Build(InTrie(routes))
    decreases |routes|
  {
    if routes != [] {
      var init, r := routes[..|routes| - 1], routes[|routes| - 1];
      TableIsBuilt(init);
      NormKeeps(r.path);
      if GoesToHash(Segments(r.path)) {
        assert InTrie(routes) == InTrie(init);
      } else {
        assert InTrie(routes)[..|InTrie(routes)| - 1] == InTrie(init);
      }
    }
  }

  /** The answer of the hash for a method. */
  function HashAnswer(t: Table, path: string, m: Method): Option<Handler> {
    if Norm(path) in t.statics && m in t.statics[Norm(path)] then Some(t.statics[Norm(path)][m]) else None
  }

  predicate NoneEmpty(t: Table) {
    forall norm | norm in t.statics :: t.statics[norm] != map[]
  }

  lemma HashAfterAdd(t: Table, r: Route, path: string, m: Method)
    ensures Norm(path) in AddTo(t, r).statics <==> Norm(path) in t.statics || IsLiteral(r, path)
    ensures HashAnswer(AddTo(t, r), path, m)
         == if IsLiteral(r, path) && r.m == m then Some(r.h) else HashAnswer(t, path, m)
  {
    NormKeeps(r.path);
    SameNormIffSameSegments(path, r.path);
    hide Norm, Segments, KeysOf, Insert;
  }

  lemma NoneEmptyAfterAdd(t: Table, r: Route)
    requires NoneEmpty(t)
    ensures NoneEmpty(AddTo(t, r))
  {
    hide Norm, Segments, KeysOf, Insert;
    var norm := Norm(r.path);
    if GoesToHash(Segments(norm)) {
      assert r.m in AddTo(t, r).statics[norm];
    }
  }

  /** The hash, keyed by normalised text, is the index of literal routes by segments and leading '/'. */
  lemma {:induction false} HashIsLiteral(routes: seq<Route>, path: string, m: Method)
    ensures Norm(path) in TableOf(routes).statics <==> SomeLiteral(routes, path)
    ensures HashAnswer(TableOf(routes), path, m) == LatestLiteral(routes, path, m)
    ensures NoneEmpty(TableOf(routes))
    decreases |routes|
  {
    if routes != [] {
      var init, last := routes[..|routes| - 1], routes[|routes| - 1];
      assert last in routes && forall r | r in init :: r in routes;
      assert forall r | r in routes :: r in init || r == last;
      HashIsLiteral(init, path, m);
      HashAfterAdd(TableOf(init), last, path, m);
      NoneEmptyAfterAdd(TableOf(init), last);
    }
  }

  /** The route is registered for some method. */
  predicate SomeMethod(regs: seq<Registration>, route: seq<Key>) {
    exists m :: Latest(regs, route, m).Some?
  }

  /**
   What a request gets from the trie. The walk is told by the registrations (`GreedyPath`), and so is the
   route found, the one that `SearchPrefers` to all others that match.
   */
  predicate TrieOutcome(regs: seq<Registration>, segs: seq<string>, m: Method, outcome: Outcome) {
    var walk := GreedyPath(regs, [], segs);
    var path := FindPath(Build(regs), segs, m);
    if SomeRouteMatches(regs, segs, m) then
      // the route found is one that matches; the handler is the walk's, the bindings are the search's
      && path.Some? && Matches(path.value, segs) && Latest(regs, path.value, m).Some?
      && match Latest(regs, walk, m)
         case None => outcome == Unanswered
         case Some(h) =>
           if |walk| == |segs| then walk == path.value && outcome == Call(h, Bind(map[], path.value, segs))
           else
             !Matches(walk, segs)
             && outcome == Call(h, Bind(map[], path.value, segs) - Lost(Build(regs), segs, m))
    else
      outcome == if |walk| == |segs| && SomeMethod(regs, walk) then MethodNotAllowed else NotFound
  }

  /**
   What a request gets. Routes are registered in any order. If a literal route has the request's segments
   and, like it, a leading '/' or none, the latest of them for the method is called, without parameters, or
   the method refused. If not, and a route of the trie matches, the handler called is the one registered last
   for the path of the greedy walk. If the walk is as long as the request, that is the route the search
   found, and its bindings are complete; if it is shorter, that route does not match the request. Without
   a handler there the request goes unanswered. If no route matches, the method is refused when the walk
   is as long as the request and some method is registered for it, and else the path is not found.
   */
  lemma RequestOutcome(routes: seq<Route>, m: Method, uri: string, path: string)
    requires IsPathOf(path, uri)
    ensures var segs := Segments(path);
            var outcome := Answer(TableOf(routes), Some(m), uri);
            if SomeLiteral(routes, path) then
              outcome == match LatestLiteral(routes, path, m)
                         case Some(h) => Call(h, map[])
                         case None => MethodNotAllowed
            else TrieOutcome(InTrie(routes), segs, m, outcome)
  {
    PathOfIs(uri);
    OnlyPath(path, PathOf(uri), uri);
    TableIsBuilt(routes);
    NormKeeps(path);
    HashIsLiteral(routes, path, m);
    TrieOutcomeHolds(InTrie(routes), Segments(path), m);
  }

  /** All of a URI that comes before its query, if it has one. */
  predicate IsPathOf(path: string, uri: string) {
    path <= uri && '?' !in path && (path == uri || uri[|path|] == '?')
  }

  lemma {:induction false} PathOfIs(uri: string)
    ensures IsPathOf(PathOf(uri), uri)
    decreases |uri|
  {
    if uri != "" && uri[0] != '?' {
      PathOfIs(uri[1..]);
    }
  }

  lemma OnlyPath(p: string, q: string, uri: string)
    requires IsPathOf(p, uri) && IsPathOf(q, uri)
    ensures p == q
  {
  }

  /** A query changes nothing: for every table and method, the path alone gets the same answer. */
  lemma QueryIsIgnored(t: Table, m: Option<Method>, path: string, query: string)
    requires '?' !in path
    ensures Answer(t, m, path + "?" + query) == Answer(t, m, path)
  {
    PathOfIs(path);
    PathOfIs(path + "?" + query);
    OnlyPath(path, PathOf(path), path);
    OnlyPath(path, PathOf(path + "?" + query), path + "?" + query);
  }

  /** The characters of a parameter's name, by their codes. */
  lemma ParamNameChars(c: char)
    ensures IsParamName(c)
       <==> || 48 <= c as int <= 57 || 65 <= c as int <= 90 || 97 <= c as int <= 122
            || c as int == 95 || c as int == 45
  {
  }

  /**
   A ':' with a name makes a parameter, with other characters a literal segment, that goes to the trie
   all the same.
   */
  lemma KeysAtInputs()
    ensures KeyOf(":a-b_1") == Param("a-b_1") && KeyOf("a:b") == Static("a:b")
    ensures KeyOf(":a.b") == Static(":a.b") && !GoesToHash([":a.b"]) && GoesToHash(["a:b"])
  {
    assert ":a.b"[2] == '.';
    assert ":a-b_1"[1..] == "a-b_1";
    assert [":a.b"][0] == ":a.b";
  }

  lemma TrieOutcomeHolds(regs: seq<Registration>, segs: seq<string>, m: Method)
    ensures TrieOutcome(regs, segs, m, FromTrie(Build(regs), segs, m))
  {
    var root := Build(regs);
    SearchFindsRoutes(regs, segs, m);
    WalkLength(root, segs);
    GreedyWalkIs(regs, segs);
    if SomeRouteMatches(regs, segs, m) {
      DispatchIsRightIff(regs, segs, m);
      PathIsLatest(regs, segs, m);
    } else {
      SomeMethodAtEnd(regs, segs);
    }
  }

  lemma PathIsLatest(regs: seq<Registration>, segs: seq<string>, m: Method)
    requires FindPath(Build(regs), segs, m).Some?
    ensures var path := FindPath(Build(regs), segs, m).value;
            && Matches(path, segs) && Latest(regs, path, m).Some?
            && MatchNode(Build(regs), segs, m, map[]).params == Bind(map[], path, segs) - Lost(Build(regs), segs, m)
  {
    BuildIsOk(regs);
    PathIsRoute(Build(regs), segs, m);
    MatchIsPath(Build(regs), segs, m, map[]);
  }

  lemma SomeMethodAtEnd(regs: seq<Registration>, segs: seq<string>)
    ensures var walk := GreedyWalk(Build(regs), segs);
            walk.end.handlers != map[] <==> SomeMethod(regs, walk.path)
  {
    BuildIsOk(regs);
    var walk := GreedyWalk(Build(regs), segs);
    forall m: Method
      ensures m in walk.end.handlers <==> Latest(regs, walk.path, m).Some?
    {
      WalkEnd(Build(regs), segs, m);
    }
    hide Latest, Build, GreedyWalk;
    var none: map<Method, Handler> := map[];
    if walk.end.handlers != none {
      assert walk.end.handlers.Keys != {};
      var m :| m in walk.end.handlers.Keys;
      assert Latest(regs, walk.path, m).Some?;
    } else {
      assert forall m: Method :: Latest(regs, walk.path, m).None?;
    }
  }

  lemma SegmentsOfThree(a: string, b: string, c: string)
    requires IsSegment(a) && IsSegment(b) && IsSegment(c)
    ensures Segments("/" + a + "/" + b + "/" + c) == [a, b, c]
  {
    hide Segments, Join, RunLength;
    SegmentsOfPair(b, c);
    JoinCons(a, [b, c]);
    assert [a] + [b, c] == [a, b, c];
    SegmentsOfJoin([a, b, c]);
    var path := "/" + a + "/" + b + "/" + c;
    SegmentsStep(path);
    assert path[1..] == a + "/" + (b + "/" + c);
  }

  lemma SegmentsOfPair(a: string, b: string)
    requires IsSegment(a) && IsSegment(b)
    ensures Join([a, b]) == a + "/" + b
    ensures Segments("/" + a + "/" + b) == [a, b]
  {
    assert [a, b][1..] == [b];
    SegmentsOfJoin([a, b]);
    assert ("/" + a + "/" + b)[1..] == a + "/" + b;
  }

  /**
   Of `/:u/b/c` and `/a/:y`, only the first matches `/a/b/c`, but a request for it is handed to the
   second, with the first's binding.
   */
  lemma WrongHandlerCalled()
    ensures var routes := [Route(GET, "/:u/b/c", 1), Route(GET, "/a/:y", 2)];
            Lookup(TableOf(routes), GET, "/a/b/c") == Call(2, map["u" := "a"])
  {
    var routes := [Route(GET, "/:u/b/c", 1), Route(GET, "/a/:y", 2)];
    SegmentsOfWrong();
    RoutesOfWrong(routes);
    hide Segments, Norm, FromTrie, Build, InTrie;
    TableIsBuilt(routes);
    NormKeeps("/a/b/c");
    HashIsLiteral(routes, "/a/b/c", GET);
    NoLiteral(routes, "/a/b/c");
    SearchOfWrong(["a", "b", "c"]);
  }

  lemma SegmentsOfWrong()
    ensures Segments("/:u/b/c") == [":u", "b", "c"]
    ensures Segments("/a/:y") == ["a", ":y"]
    ensures Segments("/a/b/c") == ["a", "b", "c"]
  {
    hide Segments, Join, RunLength;
    SegmentsOfThree(":u", "b", "c");
    SegmentsOfThree("a", "b", "c");
    SegmentsOfPair("a", ":y");
    assert "/" + ":u" + "/" + "b" + "/" + "c" == "/:u/b/c";
    assert "/" + "a" + "/" + "b" + "/" + "c" == "/a/b/c";
    assert "/" + "a" + "/" + ":y" == "/a/:y";
  }

  lemma NoLiteral(routes: seq<Route>, path: string)
    requires forall r | r in routes :: !GoesToHash(Segments(r.path))
    ensures !SomeLiteral(routes, path)
  {
  }

  lemma InTrieOfTwo(first: Route, second: Route)
    requires !GoesToHash(Segments(first.path)) && !GoesToHash(Segments(second.path))
    ensures InTrie([first, second])
         == [Registration(KeysOf(Segments(first.path)), first.m, first.h),
             Registration(KeysOf(Segments(second.path)), second.m, second.h)]
  {
    hide Segments, KeysOf;
    var one := [first, second][..1];
    assert one[..0] == [] && one[0] == first && [first, second][..2 - 1] == one;
    assert InTrie([]) == [];
    assert InTrie(one) == [Registration(KeysOf(Segments(first.path)), first.m, first.h)];
  }

  lemma RoutesOfWrong(routes: seq<Route>)
    requires routes == [Route(GET, "/:u/b/c", 1), Route(GET, "/a/:y", 2)]
    ensures InTrie(routes) == [ROUTE_UBC, ROUTE_AY]
    ensures forall r | r in routes :: !GoesToHash(Segments(r.path))
  {
    SegmentsOfWrong();
    KeysOfWrong();
    hide Segments;
    assert [":u", "b", "c"][0] == ":u" && ["a", ":y"][1] == ":y";
    InTrieOfTwo(routes[0], routes[1]);
  }

  lemma KeysOfWrong()
    ensures KeysOf([":u", "b", "c"]) == ROUTE_UBC.route
    ensures KeysOf(["a", ":y"]) == ROUTE_AY.route
  {
  }

  lemma SearchOfWrong(segs: seq<string>)
    requires segs == ["a", "b", "c"]
    ensures FromTrie(Build([ROUTE_UBC, ROUTE_AY]), segs, GET) == Call(2, map["u" := "a"])
  {
    WalkOfEarlyStop(segs);
    MatchOfEarlyStop(segs);
  }

  /**
   With `/a/:y/z` in place of `/a/:y` the walk ends without a handler, and the request that `/:u/b/c`
   matches goes unanswered.
   */
  lemma RequestUnanswered()
    ensures var routes := [Route(GET, "/:u/b/c", 1), Route(GET, "/a/:y/z", 2)];
            Lookup(TableOf(routes), GET, "/a/b/c") == Unanswered
  {
    var routes := [Route(GET, "/:u/b/c", 1), Route(GET, "/a/:y/z", 2)];
    SegmentsOfWrong();
    RoutesOfUnanswered(routes);
    hide Segments, Norm, FromTrie, Build, InTrie;
    TableIsBuilt(routes);
    NormKeeps("/a/b/c");
    HashIsLiteral(routes, "/a/b/c", GET);
    NoLiteral(routes, "/a/b/c");
    SearchOfUnanswered(["a", "b", "c"]);
  }

  lemma RoutesOfUnanswered(routes: seq<Route>)
    requires routes == [Route(GET, "/:u/b/c", 1), Route(GET, "/a/:y/z", 2)]
    ensures InTrie(routes) == [ROUTE_UBC, ROUTE_AYZ]
    ensures forall r | r in routes :: !GoesToHash(Segments(r.path))
  {
    SegmentsOfWrong();
    SegmentsOfUnanswered();
    KeysOfUnanswered();
    hide Segments;
    assert [":u", "b", "c"][0] == ":u" && ["a", ":y", "z"][1] == ":y";
    InTrieOfTwo(routes[0], routes[1]);
  }

  lemma SegmentsOfUnanswered()
    ensures Segments("/a/:y/z") == ["a", ":y", "z"]
  {
    hide Segments, Join, RunLength;
    SegmentsOfThree("a", ":y", "z");
    assert "/" + "a" + "/" + ":y" + "/" + "z" == "/a/:y/z";
  }

  lemma KeysOfUnanswered()
    ensures KeysOf([":u", "b", "c"]) == ROUTE_UBC.route
    ensures KeysOf(["a", ":y", "z"]) == ROUTE_AYZ.route
  {
  }

  lemma SearchOfUnanswered(segs: seq<string>)
    requires segs == ["a", "b", "c"]
    ensures FromTrie(Build([ROUTE_UBC, ROUTE_AYZ]), segs, GET) == Unanswered
  {
    var regs := [ROUTE_UBC, ROUTE_AYZ];
    WalkWithoutHandler(segs);
    assert ROUTE_UBC in regs && Matches(ROUTE_UBC.route, segs);
    hide Build, MatchNode, GreedyWalk, Matches;
    SearchFindsRoutes(regs, segs, GET);
  }
}
