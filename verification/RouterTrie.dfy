/**
 The trie of routes with parameters: registration, the backtracking search, and the greedy walk that
 picks the handler once the search has succeeded. The trie owns its nodes, so it is a value here.
 */
module RouterTrie {
  import opened Wrappers

  datatype Method = GET | POST | PUT | PATCH | DELETE

  type Handler = nat

  /** What a node stands for: a literal segment, or any segment bound to a name. */
  datatype Key = Static(segment: string) | Param(name: string)

  datatype Node = Node(key: Key, handlers: map<Method, Handler>, children: seq<Node>)

  function Leaf(key: Key): Node {
    Node(key, map[], [])
  }

  const EmptyRoot := Leaf(Static(""))

  // ---- Registration ----

  /** Walks down `route` from `node`, creating what is missing, and sets the handler at its end. */
  function Insert(node: Node, route: seq<Key>, m: Method, h: Handler): Node
    decreases |route|, 1, 0
  {
    if route == [] then node.(handlers := node.handlers[m := h])
    else node.(children := InsertBelow(node.children, route, m, h))
  }

  function InsertBelow(children: seq<Node>, route: seq<Key>, m: Method, h: Handler): seq<Node>
    requires route != []
    decreases |route|, 0, |children|
  {
    if children == [] then [Insert(Leaf(route[0]), route[1..], m, h)]
    else if children[0].key == route[0] then [Insert(children[0], route[1..], m, h)] + children[1..]
    else [children[0]] + InsertBelow(children[1..], route, m, h)
  }

  /** The first child with the key (`findChild`). */
  function Find(children: seq<Node>, key: Key): Option<Node> {
    if children == [] then None
    else if children[0].key == key then Some(children[0])
    else Find(children[1..], key)
  }

  function Handled(node: Node, m: Method): Option<Handler> {
    if m in node.handlers then Some(node.handlers[m]) else None
  }

  /** The handler registered for a route. */
  function HandlerAt(node: Node, route: seq<Key>, m: Method): Option<Handler>
    decreases |route|
  {
    if route == [] then Handled(node, m)
    else
      match Find(node.children, route[0])
      case None => None
      case Some(c) => HandlerAt(c, route[1..], m)
  }

  lemma InsertKeepsKey(node: Node, route: seq<Key>, m: Method, h: Handler)
    ensures Insert(node, route, m, h).key == node.key
  {
  }

  lemma {:induction false} FindAfterInsert(children: seq<Node>, route: seq<Key>, m: Method, h: Handler, key: Key)
    requires route != []
    ensures Find(InsertBelow(children, route, m, h), key)
         == if key != route[0] then Find(children, key)
            else Some(Insert(match Find(children, key) case None => Leaf(key) case Some(c) => c, route[1..], m, h))
    decreases |children|
  {
    if children == [] {
      InsertKeepsKey(Leaf(route[0]), route[1..], m, h);
    } else if children[0].key == route[0] {
      InsertKeepsKey(children[0], route[1..], m, h);
    } else {
      FindAfterInsert(children[1..], route, m, h, key);
    }
  }

  lemma {:induction false} HandlerOfLeaf(key: Key, route: seq<Key>, m: Method)
    ensures HandlerAt(Leaf(key), route, m) == None
  {
  }

  /** Registering sets the handler of that route and method, and no other. */
  lemma {:induction false} HandlerAfterInsert(node: Node, route: seq<Key>, m: Method, h: Handler, r: seq<Key>,
                                              m': Method)
    ensures HandlerAt(Insert(node, route, m, h), r, m')
         == if r == route && m' == m then Some(h) else HandlerAt(node, r, m')
    decreases |route|
  {
    if route != [] && r != [] {
      FindAfterInsert(node.children, route, m, h, r[0]);
      if r[0] == route[0] {
        var c := match Find(node.children, r[0]) case None => Leaf(r[0]) case Some(c) => c;
        HandlerAfterInsert(c, route[1..], m, h, r[1..], m');
        HandlerOfLeaf(r[0], r[1..], m');
        assert r == [r[0]] + r[1..] && route == [route[0]] + route[1..];
      }
    }
  }

  // ---- The backtracking search ----

  datatype Match = Match(ok: bool, params: map<string, string>)

  /** `matchNode`: literal children first, then parameters, undoing the binding of each that fails. */
  function MatchNode(node: Node, segs: seq<string>, m: Method, params: map<string, string>): Match
    decreases |segs|, 1, 0
  {
    if segs == [] then Match(m in node.handlers, params)
    else
      var r := MatchStatics(node.children, segs, m, params);
      if r.ok then r else MatchParams(node.children, segs, m, r.params)
  }

  function MatchStatics(children: seq<Node>, segs: seq<string>, m: Method, params: map<string, string>): Match
    requires segs != []
    decreases |segs|, 0, |children|
  {
    if children == [] then Match(false, params)
    else if children[0].key == Static(segs[0]) then
      var r := MatchNode(children[0], segs[1..], m, params);
      if r.ok then r else MatchStatics(children[1..], segs, m, r.params)
    else MatchStatics(children[1..], segs, m, params)
  }

  function MatchParams(children: seq<Node>, segs: seq<string>, m: Method, params: map<string, string>): Match
    requires segs != []
    decreases |segs|, 0, |children|
  {
    if children == [] then Match(false, params)
    else if children[0].key.Param? then
      var name := children[0].key.name;
      var r := MatchNode(children[0], segs[1..], m, params[name := segs[0]]);
      if r.ok then r else MatchParams(children[1..], segs, m, r.params - {name})
    else MatchParams(children[1..], segs, m, params)
  }

  // ---- What the search should find ----

  /** A route matches the segments one by one. */
  predicate Matches(route: seq<Key>, segs: seq<string>) {
    |route| == |segs| && forall i | 0 <= i < |route| :: route[i].Static? ==> route[i].segment == segs[i]
  }

  /** The parameters of a route bound to the segments they stand for, added to `params`. */
  function Bind(params: map<string, string>, route: seq<Key>, segs: seq<string>): map<string, string>
    requires |route| == |segs|
    decreases |route|
  {
    if route == [] then params
    else Bind(if route[0].Param? then params[route[0].name := segs[0]] else params, route[1..], segs[1..])
  }

  /** The names of each route are distinct and none is in `bound`. */
  predicate DistinctNames(route: seq<Key>, bound: set<string>)
    decreases |route|
  {
    route == [] ||
    match route[0]
    case Static(_) => DistinctNames(route[1..], bound)
    case Param(name) => name !in bound && DistinctNames(route[1..], bound + {name})
  }

  /** The same for all paths of the trie. */
  predicate NamesOk(node: Node, bound: set<string>)
    decreases node, 0
  {
    forall c | c in node.children :: ChildNamesOk(c, bound)
  }

  predicate ChildNamesOk(c: Node, bound: set<string>)
    decreases c, 1
  {
    if c.key.Param? then c.key.name !in bound && NamesOk(c, bound + {c.key.name})
    else NamesOk(c, bound)
  }

  /** No two children of a node have the same key. */
  predicate KeysOk(node: Node) {
    && (forall i, j | 0 <= i < j < |node.children| :: node.children[i].key != node.children[j].key)
    && (forall c | c in node.children :: KeysOk(c))
  }

  predicate DistinctKeys(children: seq<Node>) {
    forall i, j | 0 <= i < j < |children| :: children[i].key != children[j].key
  }

  // ---- The path the search takes ----

  /** The keys from `node` to the node where the search succeeds. */
  function FindPath(node: Node, segs: seq<string>, m: Method): Option<seq<Key>>
    decreases |segs|, 1, 0
  {
    if segs == [] then if m in node.handlers then Some([]) else None
    else
      var p := FindPathBelow(node.children, segs, m, false);
      if p.Some? then p else FindPathBelow(node.children, segs, m, true)
  }

  predicate Admits(key: Key, seg: string, params: bool) {
    if params then key.Param? else key == Static(seg)
  }

  function FindPathBelow(children: seq<Node>, segs: seq<string>, m: Method, params: bool): Option<seq<Key>>
    requires segs != []
    decreases |segs|, 0, |children|
  {
    if children == [] then None
    else
      var p := if Admits(children[0].key, segs[0], params) then FindPath(children[0], segs[1..], m) else None;
      if p.Some? then Some([children[0].key] + p.value)
      else FindPathBelow(children[1..], segs, m, params)
  }

  // ---- The bindings the search leaves ----

  function NamesOf(key: Key): set<string> {
    if key.Param? then {key.name} else {}
  }

  /** The names of a route. */
  function Names(route: seq<Key>): set<string> {
    if route == [] then {} else NamesOf(route[0]) + Names(route[1..])
  }

  /** The names of the parameters that a failing search enters, and so erases. */
  function Tried(node: Node, segs: seq<string>): set<string>
    decreases |segs|, 1, 0
  {
    if segs == [] then {}
    else TriedBelow(node.children, segs, false) + TriedBelow(node.children, segs, true)
  }

  function TriedBelow(children: seq<Node>, segs: seq<string>, params: bool): set<string>
    requires segs != []
    decreases |segs|, 0, |children|
  {
    if children == [] then {}
    else (if Admits(children[0].key, segs[0], params) then TriedChild(children[0], segs) else {})
         + TriedBelow(children[1..], segs, params)
  }

  function TriedChild(c: Node, segs: seq<string>): set<string>
    requires segs != []
    decreases |segs|, 0, 0
  {
    NamesOf(c.key) + Tried(c, segs[1..])
  }

  /**
   The names a succeeding search loses: those tried in branches given up before the branch that succeeds
   was entered, unless that branch binds them again.
   */
  function Lost(node: Node, segs: seq<string>, m: Method): set<string>
    decreases |segs|, 1, 0
  {
    if segs == [] then {}
    else
      var p := FindPathBelow(node.children, segs, m, true);
      if FindPathBelow(node.children, segs, m, false).Some? then LostBelow(node.children, segs, m, false)
      else if p.None? then {}
      else LostBelow(node.children, segs, m, true) + (TriedBelow(node.children, segs, false) - Names(p.value))
  }

  function LostBelow(children: seq<Node>, segs: seq<string>, m: Method, params: bool): set<string>
    requires segs != []
    decreases |segs|, 0, |children|
  {
    if children == [] then {}
    else if !Admits(children[0].key, segs[0], params) then LostBelow(children[1..], segs, m, params)
    else if FindPath(children[0], segs[1..], m).Some? then Lost(children[0], segs[1..], m)
    else
      var p := FindPathBelow(children[1..], segs, m, params);
      if p.None? then {}
      else LostBelow(children[1..], segs, m, params) + (TriedChild(children[0], segs) - Names(p.value))
  }

  /** The bindings of a path less the names lost, or the bindings given less the names tried. */
  function Left(params: map<string, string>, path: Option<seq<Key>>, segs: seq<string>,
                tried: set<string>, lost: set<string>): map<string, string> {
    match path
    case Some(p) => if |p| == |segs| then Bind(params, p, segs) - lost else params
    case None => params - tried
  }

  lemma {:induction false} BindOfLess(params: map<string, string>, names: set<string>, route: seq<Key>,
                                      segs: seq<string>)
    requires |route| == |segs|
    ensures Bind(params - names, route, segs) == Bind(params, route, segs) - (names - Names(route))
    decreases |route|
  {
    if route != [] {
      if route[0].Param? {
        var bound := params[route[0].name := segs[0]];
        assert (params - names)[route[0].name := segs[0]] == bound - (names - {route[0].name});
        BindOfLess(bound, names - {route[0].name}, route[1..], segs[1..]);
        assert names - {route[0].name} - Names(route[1..]) == names - Names(route);
      } else {
        BindOfLess(params, names, route[1..], segs[1..]);
      }
    }
  }

  lemma {:induction false} NamesAreBound(params: map<string, string>, route: seq<Key>, segs: seq<string>)
    requires |route| == |segs|
    ensures Bind(params, route, segs).Keys == params.Keys + Names(route)
    decreases |route|
  {
    if route != [] {
      NamesAreBound(if route[0].Param? then params[route[0].name := segs[0]] else params, route[1..], segs[1..]);
    }
  }

  /** Giving up a branch first takes its names from what was given. */
  lemma LeftAfterFailure(params: map<string, string>, first: set<string>, path: Option<seq<Key>>, segs: seq<string>,
                         tried: set<string>, lost: set<string>)
    requires path.Some? ==> |path.value| == |segs|
    ensures Left(params - first, path, segs, tried, lost)
         == Left(params, path, segs, first + tried, lost + (first - if path.Some? then Names(path.value) else {}))
  {
    if path.Some? {
      BindOfLess(params, first, path.value, segs);
      var b := Bind(params, path.value, segs);
      assert b - (first - Names(path.value)) - lost == b - (lost + (first - Names(path.value)));
    } else {
      assert params - first - tried == params - (first + tried);
    }
  }

  /**
   The search succeeds exactly when there is a path. It leaves that path's bindings less the names lost, or,
   if it fails, the bindings it was given less the names tried.
   */
  lemma {:induction false} MatchIsPath(node: Node, segs: seq<string>, m: Method, params: map<string, string>)
    ensures var path := FindPath(node, segs, m);
            && (path.Some? ==> |path.value| == |segs|)
            && MatchNode(node, segs, m, params)
            == Match(path.Some?, Left(params, path, segs, Tried(node, segs), Lost(node, segs, m)))
    decreases |segs|, 1, 0
  {
    if segs == [] {
      assert params - {} == params;
    } else {
      var tried := TriedBelow(node.children, segs, false);
      MatchIsPathBelow(node.children, segs, m, params, false);
      if FindPathBelow(node.children, segs, m, false).None? {
        MatchIsPathBelow(node.children, segs, m, params - tried, true);
        LeftAfterFailure(params, tried, FindPathBelow(node.children, segs, m, true), segs,
                         TriedBelow(node.children, segs, true), LostBelow(node.children, segs, m, true));
      }
    }
  }

  /** The loop over the literal children, or over the parameters. */
  function MatchBelow(children: seq<Node>, segs: seq<string>, m: Method, params: map<string, string>,
                      parameters: bool): Match
    requires segs != []
  {
    if parameters then MatchParams(children, segs, m, params) else MatchStatics(children, segs, m, params)
  }

  lemma {:induction false} MatchIsPathBelow(children: seq<Node>, segs: seq<string>, m: Method,
                                            params: map<string, string>, parameters: bool)
    requires segs != []
    ensures var path := FindPathBelow(children, segs, m, parameters);
            && (path.Some? ==> |path.value| == |segs|)
            && MatchBelow(children, segs, m, params, parameters)
            == Match(path.Some?, Left(params, path, segs, TriedBelow(children, segs, parameters),
                                      LostBelow(children, segs, m, parameters)))
    decreases |segs|, 0, |children|
  {
    hide MatchNode, FindPath, Lost, Tried, Names;
    if children == [] {
      assert params - {} == params;
    } else {
      var c, rest := children[0], children[1..];
      if !Admits(c.key, segs[0], parameters) {
        MatchIsPathBelow(rest, segs, m, params, parameters);
      } else {
        var inner := if c.key.Param? then params[c.key.name := segs[0]] else params;
        MatchIsPath(c, segs[1..], m, inner);
        var p := FindPath(c, segs[1..], m);
        if p.Some? {
          assert ([c.key] + p.value)[1..] == p.value;
        } else {
          var tried := TriedChild(c, segs);
          assert inner - Tried(c, segs[1..]) - NamesOf(c.key) == params - tried;
          assert c.key.Static? ==> inner - Tried(c, segs[1..]) == params - tried;
          MatchIsPathBelow(rest, segs, m, params - tried, parameters);
          LeftAfterFailure(params, tried, FindPathBelow(rest, segs, m, parameters), segs,
                           TriedBelow(rest, segs, parameters), LostBelow(rest, segs, m, parameters));
        }
      }
    }
  }

  /** With distinct names along every path nothing that is bound is ever erased. */
  lemma {:induction false} DistinctNamesAreKept(node: Node, segs: seq<string>, m: Method, bound: set<string>)
    requires NamesOk(node, bound)
    ensures Tried(node, segs) !! bound
    ensures var path := FindPath(node, segs, m); path.Some? ==> Lost(node, segs, m) !! bound + Names(path.value)
    decreases |segs|, 1, 0
  {
    if segs != [] {
      assert forall c | c in node.children :: ChildNamesOk(c, bound);
      DistinctNamesAreKeptBelow(node.children, segs, m, bound, false);
      DistinctNamesAreKeptBelow(node.children, segs, m, bound, true);
    }
  }

  lemma {:induction false} DistinctNamesAreKeptBelow(children: seq<Node>, segs: seq<string>, m: Method,
                                                     bound: set<string>, params: bool)
    requires segs != [] && forall c | c in children :: ChildNamesOk(c, bound)
    ensures TriedBelow(children, segs, params) !! bound
    ensures var path := FindPathBelow(children, segs, m, params);
            path.Some? ==> LostBelow(children, segs, m, params) !! bound + Names(path.value)
    decreases |segs|, 0, |children|
  {
    if children != [] {
      var c := children[0];
      assert ChildNamesOk(c, bound) && bound + {} == bound;
      DistinctNamesAreKept(c, segs[1..], m, bound + NamesOf(c.key));
      DistinctNamesAreKeptBelow(children[1..], segs, m, bound, params);
      var p := FindPath(c, segs[1..], m);
      if p.Some? {
        assert ([c.key] + p.value)[1..] == p.value;
      }
    }
  }

  /** A path found is a registered route that matches. */
  lemma {:induction false} PathIsRoute(node: Node, segs: seq<string>, m: Method)
    requires KeysOk(node) && FindPath(node, segs, m).Some?
    ensures var p := FindPath(node, segs, m).value; Matches(p, segs) && HandlerAt(node, p, m).Some?
    decreases |segs|, 1, 0
  {
    if segs != [] {
      var params := FindPathBelow(node.children, segs, m, false).None?;
      var c := PathBelowIsRoute(node.children, segs, m, params);
    }
  }

  lemma {:induction false} PathBelowIsRoute(children: seq<Node>, segs: seq<string>, m: Method,
                                            params: bool) returns (c: Node)
    requires segs != [] && FindPathBelow(children, segs, m, params).Some?
    requires DistinctKeys(children) && forall d | d in children :: KeysOk(d)
    ensures c in children
    ensures var p := FindPathBelow(children, segs, m, params).value;
            && Matches(p, segs) && p[0] == c.key && Find(children, p[0]) == Some(c)
            && HandlerAt(c, p[1..], m).Some?
    decreases |segs|, 0, |children|
  {
    c := children[0];
    if Admits(c.key, segs[0], params) && FindPath(c, segs[1..], m).Some? {
      PathIsRoute(c, segs[1..], m);
      var p := FindPath(c, segs[1..], m).value;
      assert ([c.key] + p)[1..] == p;
    } else {
      assert forall d | d in children[1..] :: d in children;
      c := PathBelowIsRoute(children[1..], segs, m, params);
    }
  }

  /** If a registered route matches, the search finds a path. */
  lemma {:induction false} RouteIsFound(node: Node, segs: seq<string>, m: Method, route: seq<Key>)
    requires Matches(route, segs) && HandlerAt(node, route, m).Some?
    ensures FindPath(node, segs, m).Some?
    decreases |segs|, 1, 0
  {
    if segs != [] {
      RouteIsFoundBelow(node.children, segs, m, route, Find(node.children, route[0]).value);
    }
  }

  lemma {:induction false} RouteIsFoundBelow(children: seq<Node>, segs: seq<string>, m: Method, route: seq<Key>,
                                             c: Node)
    requires Matches(route, segs) && segs != []
    requires Find(children, route[0]) == Some(c) && HandlerAt(c, route[1..], m).Some?
    ensures FindPathBelow(children, segs, m, route[0].Param?).Some?
    decreases |segs|, 0, |children|
  {
    if children[0].key == route[0] {
      assert forall i | 0 <= i < |route[1..]| :: route[1..][i] == route[i + 1] && segs[1..][i] == segs[i + 1];
      RouteIsFound(c, segs[1..], m, route[1..]);
    } else {
      RouteIsFoundBelow(children[1..], segs, m, route, c);
    }
  }

  // ---- Registration keeps the trie in order ----

  lemma {:induction false} InsertKeepsKeys(node: Node, route: seq<Key>, m: Method, h: Handler)
    requires KeysOk(node)
    ensures KeysOk(Insert(node, route, m, h))
    decreases |route|, 1, 0
  {
    if route != [] {
      InsertBelowKeepsKeys(node.children, route, m, h);
    }
  }

  predicate NoKey(children: seq<Node>, key: Key) {
    forall i | 0 <= i < |children| :: children[i].key != key
  }

  lemma {:induction false} InsertBelowKeepsNoKey(children: seq<Node>, route: seq<Key>, m: Method, h: Handler, key: Key)
    requires route != [] && NoKey(children, key) && key != route[0]
    ensures NoKey(InsertBelow(children, route, m, h), key)
    decreases |children|
  {
    if children == [] {
      InsertKeepsKey(Leaf(route[0]), route[1..], m, h);
    } else if children[0].key == route[0] {
      InsertKeepsKey(children[0], route[1..], m, h);
    } else {
      InsertBelowKeepsNoKey(children[1..], route, m, h, key);
    }
  }

  lemma {:induction false} InsertBelowKeepsKeys(children: seq<Node>, route: seq<Key>, m: Method, h: Handler)
    requires route != [] && DistinctKeys(children) && forall c | c in children :: KeysOk(c)
    ensures DistinctKeys(InsertBelow(children, route, m, h))
    ensures forall c | c in InsertBelow(children, route, m, h) :: KeysOk(c)
    decreases |route|, 0, |children|
  {
    if children == [] {
      InsertKeepsKeys(Leaf(route[0]), route[1..], m, h);
    } else if children[0].key == route[0] {
      InsertKeepsKeys(children[0], route[1..], m, h);
      InsertKeepsKey(children[0], route[1..], m, h);
    } else {
      InsertBelowKeepsKeys(children[1..], route, m, h);
      InsertBelowKeepsNoKey(children[1..], route, m, h, children[0].key);
    }
  }

  lemma {:induction false} InsertKeepsNames(node: Node, route: seq<Key>, m: Method, h: Handler, bound: set<string>)
    requires NamesOk(node, bound) && DistinctNames(route, bound)
    ensures NamesOk(Insert(node, route, m, h), bound)
    decreases |route|, 1, 0
  {
    if route != [] {
      InsertBelowKeepsNames(node.children, route, m, h, bound);
      assert forall c | c in Insert(node, route, m, h).children :: ChildNamesOk(c, bound);
    } else {
      assert forall c | c in node.children :: ChildNamesOk(c, bound);
    }
  }

  lemma {:induction false} InsertBelowKeepsNames(children: seq<Node>, route: seq<Key>, m: Method, h: Handler,
                                                 bound: set<string>)
    requires route != [] && DistinctNames(route, bound) && forall c | c in children :: ChildNamesOk(c, bound)
    ensures forall c | c in InsertBelow(children, route, m, h) :: ChildNamesOk(c, bound)
    decreases |route|, 0, |children|
  {
    var inner := if route[0].Param? then bound + {route[0].name} else bound;
    if children == [] {
      InsertKeepsNames(Leaf(route[0]), route[1..], m, h, inner);
      InsertKeepsKey(Leaf(route[0]), route[1..], m, h);
    } else if children[0].key == route[0] {
      assert ChildNamesOk(children[0], bound);
      InsertKeepsNames(children[0], route[1..], m, h, inner);
      InsertKeepsKey(children[0], route[1..], m, h);
    } else {
      InsertBelowKeepsNames(children[1..], route, m, h, bound);
    }
  }

  // ---- Tries built by registrations ----

  datatype Registration = Registration(route: seq<Key>, m: Method, h: Handler)

  function Build(regs: seq<Registration>): Node
    decreases |regs|
  {
    if regs == [] then EmptyRoot
    else
      var last := regs[|regs| - 1];
      Insert(Build(regs[..|regs| - 1]), last.route, last.m, last.h)
  }

  /** The handler of the latest registration of a route and method. */
  function Latest(regs: seq<Registration>, route: seq<Key>, m: Method): Option<Handler>
    decreases |regs|
  {
    if regs == [] then None
    else
      var last := regs[|regs| - 1];
      if last.route == route && last.m == m then Some(last.h) else Latest(regs[..|regs| - 1], route, m)
  }

  lemma {:induction false} BuildIsOk(regs: seq<Registration>)
    ensures KeysOk(Build(regs))
    ensures (forall r | r in regs :: DistinctNames(r.route, {})) ==> NamesOk(Build(regs), {})
    ensures forall route, m :: HandlerAt(Build(regs), route, m) == Latest(regs, route, m)
    decreases |regs|
  {
    if regs == [] {
      forall route, m
        ensures HandlerAt(EmptyRoot, route, m) == None
      {
        HandlerOfLeaf(Static(""), route, m);
      }
    } else {
      var init, last := regs[..|regs| - 1], regs[|regs| - 1];
      BuildIsOk(init);
      InsertKeepsKeys(Build(init), last.route, last.m, last.h);
      assert last in regs && forall r | r in init :: r in regs;
      if forall r | r in regs :: DistinctNames(r.route, {}) {
        InsertKeepsNames(Build(init), last.route, last.m, last.h, {});
      }
      forall route, m
        ensures HandlerAt(Build(regs), route, m) == Latest(regs, route, m)
      {
        HandlerAfterInsert(Build(init), last.route, last.m, last.h, route, m);
      }
    }
  }

  lemma {:induction false} LatestIffRegistered(regs: seq<Registration>, route: seq<Key>, m: Method)
    ensures Latest(regs, route, m).Some? <==> exists r :: r in regs && r.route == route && r.m == m
    decreases |regs|
  {
    if regs != [] {
      var init := regs[..|regs| - 1];
      LatestIffRegistered(init, route, m);
      assert forall r | r in regs :: r in init || r == regs[|regs| - 1];
    }
  }

  /** Some registered route for the method matches. */
  predicate SomeRouteMatches(regs: seq<Registration>, segs: seq<string>, m: Method) {
    exists r :: r in regs && r.m == m && Matches(r.route, segs)
  }

  /**
   For a trie built by any registrations, the search succeeds if and only if some route registered for
   the method matches the segments. Failure leaves no bindings. Success leaves those of one such route,
   less the names lost on the way; they are exactly that route's bindings if and only if no name of the
   route is lost, and none is when the names of each registered route are distinct.
   */
  lemma SearchFindsRoutes(regs: seq<Registration>, segs: seq<string>, m: Method)
    ensures var found := MatchNode(Build(regs), segs, m, map[]);
            && (found.ok <==> SomeRouteMatches(regs, segs, m))
            && (!found.ok ==> found.params == map[])
    ensures var found := MatchNode(Build(regs), segs, m, map[]);
            var lost := Lost(Build(regs), segs, m);
            found.ok ==>
              exists r :: r in regs && r.m == m && Matches(r.route, segs)
                && FindPath(Build(regs), segs, m) == Some(r.route)
                && found.params == Bind(map[], r.route, segs) - lost
                && (found.params == Bind(map[], r.route, segs) <==> lost !! Names(r.route))
                && ((forall q | q in regs :: DistinctNames(q.route, {})) ==> lost !! Names(r.route))
  {
    var root := Build(regs);
    BuildIsOk(regs);
    MatchIsPath(root, segs, m, map[]);
    if FindPath(root, segs, m).Some? {
      var p := FindPath(root, segs, m).value;
      PathIsRoute(root, segs, m);
      LatestIffRegistered(regs, p, m);
      BindingsKeptIff(p, segs, Lost(root, segs, m));
      if forall q | q in regs :: DistinctNames(q.route, {}) {
        DistinctNamesAreKept(root, segs, m, {});
      }
      var r :| r in regs && r.route == p && r.m == m;
    }
    if SomeRouteMatches(regs, segs, m) {
      var r :| r in regs && r.m == m && Matches(r.route, segs);
      LatestIffRegistered(regs, r.route, m);
      RouteIsFound(root, segs, m, r.route);
    }
  }

  lemma BindingsKeptIff(route: seq<Key>, segs: seq<string>, lost: set<string>)
    requires |route| == |segs|
    ensures Bind(map[], route, segs) - lost == Bind(map[], route, segs) <==> lost !! Names(route)
  {
    var bindings := Bind(map[], route, segs);
    NamesAreBound(map[], route, segs);
    assert bindings.Keys == Names(route);
    assert (bindings - lost).Keys == Names(route) - lost;
  }

  /** A branch without forks. */
  function Chain(key: Key, route: seq<Key>, m: Method, h: Handler): Node
    decreases |route|
  {
    if route == [] then Node(key, map[m := h], []) else Node(key, map[], [Chain(route[0], route[1..], m, h)])
  }

  lemma {:induction false} InsertInLeaf(key: Key, route: seq<Key>, m: Method, h: Handler)
    ensures Insert(Leaf(key), route, m, h) == Chain(key, route, m, h)
    decreases |route|
  {
    if route != [] {
      InsertInLeaf(route[0], route[1..], m, h);
    }
  }

  lemma BuildOfTwo(first: Registration, second: Registration)
    ensures Build([first, second])
         == Insert(Chain(Static(""), first.route, first.m, first.h), second.route, second.m, second.h)
  {
    assert [first, second][..1] == [first] && [first][..0] == [];
    InsertInLeaf(Static(""), first.route, first.m, first.h);
    assert Build([first]) == Insert(Build([]), first.route, first.m, first.h);
  }

  const ROUTE_AA := Registration([Param("a"), Param("a")], GET, 1)
  const ROUTE_ABZ := Registration([Param("a"), Param("b"), Static("z")], GET, 2)
  const NODE_AA := Node(Param("a"), map[GET := 1], [])
  const NODE_BZ := Node(Param("b"), map[], [Node(Static("z"), map[GET := 2], [])])
  const NODE_A := Node(Param("a"), map[], [NODE_AA, NODE_BZ])

  lemma BuildOfRepeatedName()
    ensures Build([ROUTE_AA, ROUTE_ABZ]) == EmptyRoot.(children := [NODE_A])
  {
    var a, bz := [Param("a")], [Param("b"), Static("z")];
    BuildOfTwo(ROUTE_AA, ROUTE_ABZ);
    assert ROUTE_AA.route[1..] == a && a[1..] == [];
    assert Chain(Param("a"), a, GET, 1) == Node(Param("a"), map[], [NODE_AA]);
    assert Chain(Static(""), ROUTE_AA.route, GET, 1) == EmptyRoot.(children := [Node(Param("a"), map[], [NODE_AA])]);
    assert ROUTE_ABZ.route[1..] == bz && bz[1..] == [Static("z")] && [Static("z")][1..] == [];
    InsertInLeaf(Param("b"), [Static("z")], GET, 2);
    assert Chain(Param("b"), [Static("z")], GET, 2) == NODE_BZ;
    assert [NODE_AA][1..] == [];
    assert InsertBelow([], bz, GET, 2) == [NODE_BZ];
    assert InsertBelow([NODE_AA], bz, GET, 2) == [NODE_AA, NODE_BZ];
    assert Insert(Node(Param("a"), map[], [NODE_AA]), bz, GET, 2) == NODE_A;
    assert InsertBelow([Node(Param("a"), map[], [NODE_AA])], ROUTE_ABZ.route, GET, 2) == [NODE_A];
  }

  lemma MatchOfRepeatedName()
    ensures MatchNode(EmptyRoot.(children := [NODE_A]), ["x", "y", "z"], GET, map[]) == Match(true, map["b" := "y"])
  {
    var xyz, yz, last := ["x", "y", "z"], ["y", "z"], ["z"];
    assert xyz[1..] == yz && yz[1..] == last && last[1..] == [];
    var px: map<string, string> := map["a" := "x"];
    var py: map<string, string> := map["b" := "y"];
    var z := Node(Static("z"), map[GET := 2], []);
    assert MatchNode(z, [], GET, py) == Match(true, py);
    assert MatchStatics([z], last, GET, py) == Match(true, py);
    assert MatchNode(NODE_BZ, last, GET, py) == Match(true, py);
    assert MatchParams([NODE_BZ], yz, GET, map[]) == Match(true, py);
    assert MatchNode(NODE_AA, last, GET, px["a" := "y"]) == Match(false, px["a" := "y"]);
    assert px["a" := "y"] - {"a"} == map[];
    assert NODE_A.children[1..] == [NODE_BZ];
    assert MatchParams(NODE_A.children, yz, GET, px) == Match(true, py);
    assert MatchStatics(NODE_A.children[1..], yz, GET, px) == Match(false, px);
    assert MatchNode(NODE_A, yz, GET, px) == Match(true, py);
    assert MatchStatics([NODE_A], xyz, GET, map[]) == Match(false, map[]);
  }

  /**
   With `/:a/:a` beside it, `/:a/:b/z` loses a binding on `/x/y/z`, though its own names are distinct and
   it is the only route that matches: undoing the inner `a` takes the outer one with it.
   */
  lemma RepeatedNameLosesBinding(segs: seq<string>)
    requires segs == ["x", "y", "z"]
    ensures Matches(ROUTE_ABZ.route, segs) && !Matches(ROUTE_AA.route, segs) && DistinctNames(ROUTE_ABZ.route, {})
    ensures MatchNode(Build([ROUTE_AA, ROUTE_ABZ]), segs, GET, map[]) == Match(true, map["b" := "y"])
    ensures Bind(map[], ROUTE_ABZ.route, segs) == map["a" := "x", "b" := "y"]
  {
    BuildOfRepeatedName();
    MatchOfRepeatedName();
    hide MatchNode, Build;
    assert segs[1..] == ["y", "z"] && segs[1..][1..] == ["z"];
    var bz := [Param("b"), Static("z")];
    assert ROUTE_ABZ.route[1..] == bz && bz[1..] == [Static("z")] && [Static("z")][1..] == [];
    assert Bind(map[], ROUTE_ABZ.route, segs) == Bind(map["a" := "x"], bz, ["y", "z"])
        == Bind(map["a" := "x", "b" := "y"], [Static("z")], ["z"]);
    assert DistinctNames([Static("z")], {"a", "b"}) && DistinctNames(bz, {"a"});
  }

  // ---- The greedy walk ----

  /** The path walked, the node it stops at, and whether every segment was consumed. */
  datatype Walk = Walk(path: seq<Key>, end: Node, complete: bool)
  {
    function After(key: Key): Walk {
      Walk([key] + path, end, complete)
    }
  }

  function FirstParam(children: seq<Node>): Option<Node> {
    if children == [] then None
    else if children[0].key.Param? then Some(children[0])
    else FirstParam(children[1..])
  }

  /** The child the walk goes to: the literal one, else the first parameter. */
  function GreedyChild(node: Node, seg: string): Option<Node> {
    var c := Find(node.children, Static(seg));
    if c.Some? then c else FirstParam(node.children)
  }

  function GreedyWalk(node: Node, segs: seq<string>): Walk
    decreases |segs|
  {
    if segs == [] then Walk([], node, true)
    else
      match GreedyChild(node, segs[0])
      case None => Walk([], node, false)
      case Some(c) => GreedyWalk(c, segs[1..]).After(c.key)
  }

  /** A search below a list of children succeeds at the first child that admits the segment, if it succeeds there. */
  lemma {:induction false} FirstAdmitted(children: seq<Node>, segs: seq<string>, m: Method, params: bool, c: Node)
    requires segs != [] && FindPath(c, segs[1..], m).Some?
    requires (if params then FirstParam(children) else Find(children, Static(segs[0]))) == Some(c)
    ensures FindPathBelow(children, segs, m, params) == Some([c.key] + FindPath(c, segs[1..], m).value)
    ensures LostBelow(children, segs, m, params) == Lost(c, segs[1..], m)
    decreases |children|
  {
    if children[0] != c || !Admits(children[0].key, segs[0], params) {
      FirstAdmitted(children[1..], segs, m, params, c);
    }
  }

  lemma {:induction false} NoStaticPath(children: seq<Node>, segs: seq<string>, m: Method)
    requires segs != [] && Find(children, Static(segs[0])).None?
    ensures FindPathBelow(children, segs, m, false).None?
    ensures TriedBelow(children, segs, false) == {}
    decreases |children|
  {
    if children != [] {
      NoStaticPath(children[1..], segs, m);
    }
  }

  /**
   A walk that consumes every segment and ends on a handler for the method is the path of a search that
   never turns back.
   */
  lemma {:induction false} GreedyIsPath(node: Node, segs: seq<string>, m: Method)
    requires GreedyWalk(node, segs).complete && m in GreedyWalk(node, segs).end.handlers
    ensures FindPath(node, segs, m) == Some(GreedyWalk(node, segs).path)
    ensures Lost(node, segs, m) == {}
    decreases |segs|
  {
    if segs != [] {
      var c := GreedyChild(node, segs[0]).value;
      GreedyIsPath(c, segs[1..], m);
      if Find(node.children, Static(segs[0])).Some? {
        FirstAdmitted(node.children, segs, m, false, c);
      } else {
        NoStaticPath(node.children, segs, m);
        FirstAdmitted(node.children, segs, m, true, c);
      }
    }
  }

  /**
   So the search succeeds there too, with exactly the bindings of that walk, whatever the names are and
   whatever was bound before.
   */
  lemma GreedyIsSearch(node: Node, segs: seq<string>, m: Method, params: map<string, string>)
    requires GreedyWalk(node, segs).complete && m in GreedyWalk(node, segs).end.handlers
    ensures var walk := GreedyWalk(node, segs);
            && |walk.path| == |segs|
            && FindPath(node, segs, m) == Some(walk.path)
            && MatchNode(node, segs, m, params) == Match(true, Bind(params, walk.path, segs))
  {
    GreedyIsPath(node, segs, m);
    MatchIsPath(node, segs, m, params);
    var walk := GreedyWalk(node, segs);
    assert Bind(params, walk.path, segs) - {} == Bind(params, walk.path, segs);
  }

  lemma {:induction false} WalkLength(node: Node, segs: seq<string>)
    ensures |GreedyWalk(node, segs).path| <= |segs|
    ensures GreedyWalk(node, segs).complete <==> |GreedyWalk(node, segs).path| == |segs|
    decreases |segs|
  {
    if segs != [] && GreedyChild(node, segs[0]).Some? {
      WalkLength(GreedyChild(node, segs[0]).value, segs[1..]);
    }
  }

  lemma {:induction false} FirstParamIsFound(children: seq<Node>)
    requires FirstParam(children).Some?
    ensures FirstParam(children).value.key.Param?
    ensures Find(children, FirstParam(children).value.key) == FirstParam(children)
    decreases |children|
  {
    if !children[0].key.Param? {
      FirstParamIsFound(children[1..]);
    }
  }

  lemma {:induction false} FindHasKey(children: seq<Node>, key: Key)
    requires Find(children, key).Some?
    ensures Find(children, key).value.key == key
    decreases |children|
  {
    if children[0].key != key {
      FindHasKey(children[1..], key);
    }
  }

  /** The handlers at the end of the walk are those registered for its path. */
  lemma {:induction false} WalkEnd(node: Node, segs: seq<string>, m: Method)
    ensures HandlerAt(node, GreedyWalk(node, segs).path, m) == Handled(GreedyWalk(node, segs).end, m)
    decreases |segs|
  {
    if segs != [] && GreedyChild(node, segs[0]).Some? {
      var c := GreedyChild(node, segs[0]).value;
      if Find(node.children, Static(segs[0])).Some? {
        FindHasKey(node.children, Static(segs[0]));
      } else {
        FirstParamIsFound(node.children);
      }
      WalkEnd(c, segs[1..], m);
      assert ([c.key] + GreedyWalk(c, segs[1..]).path)[1..] == GreedyWalk(c, segs[1..]).path;
    }
  }

  /**
   What a request gets, once the search has succeeded: the handler at the end of the walk, with the
   bindings of the search. The walk goes to the route the search found if and only if it consumes every
   segment and ends on a handler for the method; then the handler called is the one registered last for
   that route, and the bindings are that route's. A walk that does not go there either ends without a
   handler for the method, or stops early on a route that does not match.
   */
  lemma DispatchIsRightIff(regs: seq<Registration>, segs: seq<string>, m: Method)
    requires SomeRouteMatches(regs, segs, m)
    ensures var walk := GreedyWalk(Build(regs), segs);
            var path := FindPath(Build(regs), segs, m);
            && path.Some?
            && Latest(regs, walk.path, m) == Handled(walk.end, m)
            && (walk.path == path.value <==> walk.complete && m in walk.end.handlers)
            && (walk.path == path.value ==>
                  && Matches(walk.path, segs)
                  && MatchNode(Build(regs), segs, m, map[]).params == Bind(map[], walk.path, segs))
            && (walk.path != path.value && m in walk.end.handlers ==> |walk.path| < |segs|)
  {
    var root := Build(regs);
    BuildIsOk(regs);
    SearchFindsRoutes(regs, segs, m);
    MatchIsPath(root, segs, m, map[]);
    PathIsRoute(root, segs, m);
    WalkLength(root, segs);
    WalkEnd(root, segs, m);
    if GreedyWalk(root, segs).complete && m in GreedyWalk(root, segs).end.handlers {
      GreedyIsSearch(root, segs, m, map[]);
    }
  }

  const ROUTE_UBC := Registration([Param("u"), Static("b"), Static("c")], GET, 1)
  const ROUTE_AY := Registration([Static("a"), Param("y")], GET, 2)
  const NODE_U := Node(Param("u"), map[], [Node(Static("b"), map[], [Node(Static("c"), map[GET := 1], [])])])
  const NODE_Y := Node(Param("y"), map[GET := 2], [])

  lemma BuildOfEarlyStop()
    ensures Build([ROUTE_UBC, ROUTE_AY]) == EmptyRoot.(children := [NODE_U, Node(Static("a"), map[], [NODE_Y])])
  {
    var bc, c, y := [Static("b"), Static("c")], [Static("c")], [Param("y")];
    BuildOfTwo(ROUTE_UBC, ROUTE_AY);
    assert ROUTE_UBC.route[1..] == bc && bc[1..] == c && c[1..] == [];
    assert Chain(Static("b"), c, GET, 1) == Node(Static("b"), map[], [Node(Static("c"), map[GET := 1], [])]);
    assert Chain(Param("u"), bc, GET, 1) == NODE_U;
    assert Chain(Static(""), ROUTE_UBC.route, GET, 1) == EmptyRoot.(children := [NODE_U]);
    assert ROUTE_AY.route[1..] == y && y[1..] == [];
    InsertInLeaf(Static("a"), y, GET, 2);
    assert Chain(Static("a"), y, GET, 2) == Node(Static("a"), map[], [NODE_Y]);
    assert [NODE_U][1..] == [];
    assert InsertBelow([], ROUTE_AY.route, GET, 2) == [Node(Static("a"), map[], [NODE_Y])];
    assert InsertBelow([NODE_U], ROUTE_AY.route, GET, 2) == [NODE_U, Node(Static("a"), map[], [NODE_Y])];
  }

  /**
   The walk can stop early on a shorter route: of `/:u/b/c` and `/a/:y`, only the first matches `/a/b/c`,
   but the handler at the end of the walk is the second's.
   */
  lemma WalkOfEarlyStop(segs: seq<string>)
    requires segs == ["a", "b", "c"]
    ensures Matches(ROUTE_UBC.route, segs) && !Matches(ROUTE_AY.route, segs)
    ensures var walk := GreedyWalk(Build([ROUTE_UBC, ROUTE_AY]), segs);
            !walk.complete && walk.end.handlers == map[GET := ROUTE_AY.h]
  {
    BuildOfEarlyStop();
    var a := Node(Static("a"), map[], [NODE_Y]);
    var root := EmptyRoot.(children := [NODE_U, a]);
    assert segs[1..] == ["b", "c"] && segs[1..][1..] == ["c"];
    assert [NODE_U, a][1..] == [a] && Find([a], Static("a")) == Some(a);
    assert GreedyChild(root, "a") == Some(a);
    assert [NODE_Y][1..] == [] && Find([NODE_Y], Static("b")) == None;
    assert GreedyChild(a, "b") == Some(NODE_Y);
    assert GreedyWalk(NODE_Y, ["c"]) == Walk([], NODE_Y, false);
    assert GreedyWalk(a, ["b", "c"]).end == NODE_Y;
  }

  /** The search turns back from `/a/:y`, whose name the route it finds does not use, so nothing is lost. */
  lemma MatchOfEarlyStop(segs: seq<string>)
    requires segs == ["a", "b", "c"]
    ensures MatchNode(Build([ROUTE_UBC, ROUTE_AY]), segs, GET, map[]) == Match(true, map["u" := "a"])
  {
    BuildOfEarlyStop();
    var a := Node(Static("a"), map[], [NODE_Y]);
    var none: map<string, string> := map[];
    var bc, c := ["b", "c"], ["c"];
    assert segs[1..] == bc && bc[1..] == c && c[1..] == [];
    assert [NODE_U, a][1..] == [a] && [a][1..] == [];
    assert MatchNode(NODE_Y, c, GET, map["y" := "b"]) == Match(false, map["y" := "b"]);
    assert map["y" := "b"] - {"y"} == none;
    assert MatchParams([NODE_Y], bc, GET, none) == Match(false, none);
    assert MatchNode(a, bc, GET, none) == Match(false, none);
    assert MatchStatics([a], segs, GET, none) == Match(false, none);
    assert MatchStatics([NODE_U, a], segs, GET, none) == Match(false, none);
    var u: map<string, string> := map["u" := "a"];
    var nodeC := Node(Static("c"), map[GET := 1], []);
    assert MatchNode(nodeC, [], GET, u) == Match(true, u);
    assert MatchStatics([nodeC], c, GET, u) == Match(true, u);
    assert MatchNode(Node(Static("b"), map[], [nodeC]), c, GET, u) == Match(true, u);
    assert MatchNode(NODE_U, bc, GET, u) == Match(true, u);
  }

  const ROUTE_AYZ := Registration([Static("a"), Param("y"), Static("z")], GET, 2)
  const NODE_YZ := Node(Param("y"), map[], [Node(Static("z"), map[GET := 2], [])])

  lemma BuildWithoutHandler()
    ensures Build([ROUTE_UBC, ROUTE_AYZ]) == EmptyRoot.(children := [NODE_U, Node(Static("a"), map[], [NODE_YZ])])
  {
    var bc, c, yz, z := [Static("b"), Static("c")], [Static("c")], [Param("y"), Static("z")], [Static("z")];
    BuildOfTwo(ROUTE_UBC, ROUTE_AYZ);
    assert ROUTE_UBC.route[1..] == bc && bc[1..] == c && c[1..] == [];
    assert Chain(Static("b"), c, GET, 1) == Node(Static("b"), map[], [Node(Static("c"), map[GET := 1], [])]);
    assert Chain(Param("u"), bc, GET, 1) == NODE_U;
    assert Chain(Static(""), ROUTE_UBC.route, GET, 1) == EmptyRoot.(children := [NODE_U]);
    assert ROUTE_AYZ.route[1..] == yz && yz[1..] == z && z[1..] == [];
    InsertInLeaf(Static("a"), yz, GET, 2);
    assert Chain(Param("y"), z, GET, 2) == NODE_YZ;
    assert Chain(Static("a"), yz, GET, 2) == Node(Static("a"), map[], [NODE_YZ]);
    assert [NODE_U][1..] == [];
    assert InsertBelow([], ROUTE_AYZ.route, GET, 2) == [Node(Static("a"), map[], [NODE_YZ])];
    assert InsertBelow([NODE_U], ROUTE_AYZ.route, GET, 2) == [NODE_U, Node(Static("a"), map[], [NODE_YZ])];
  }

  /** The walk can also stop where nothing is registered. */
  lemma WalkWithoutHandler(segs: seq<string>)
    requires segs == ["a", "b", "c"]
    ensures GreedyWalk(Build([ROUTE_UBC, ROUTE_AYZ]), segs).end.handlers == map[]
  {
    BuildWithoutHandler();
    var a := Node(Static("a"), map[], [NODE_YZ]);
    var root := EmptyRoot.(children := [NODE_U, a]);
    assert segs[1..] == ["b", "c"] && segs[1..][1..] == ["c"];
    assert [NODE_U, a][1..] == [a] && Find([a], Static("a")) == Some(a);
    assert GreedyChild(root, "a") == Some(a);
    assert [NODE_YZ][1..] == [] && Find([NODE_YZ], Static("b")) == None;
    assert GreedyChild(a, "b") == Some(NODE_YZ);
    assert GreedyWalk(NODE_YZ, ["c"]) == Walk([], NODE_YZ, false);
    assert GreedyWalk(a, ["b", "c"]).end == NODE_YZ;
  }

  // ---- Which of the matching routes wins, by the registrations alone ----

  /** The keys that follow `prefix` in the registered routes, in order of first appearance. */
  function NextKeys(regs: seq<Registration>, prefix: seq<Key>): seq<Key>
    decreases |regs|
  {
    if regs == [] then [] else Added(NextKeys(regs[..|regs| - 1], prefix), regs[|regs| - 1].route, prefix)
  }

  function Added(keys: seq<Key>, route: seq<Key>, prefix: seq<Key>): seq<Key> {
    if |prefix| < |route| && route[..|prefix|] == prefix && route[|prefix|] !in keys then keys + [route[|prefix|]]
    else keys
  }

  function KeysOfNodes(nodes: seq<Node>): (r: seq<Key>)
    ensures |r| == |nodes|
  {
    seq(|nodes|, i requires 0 <= i < |nodes| => nodes[i].key)
  }

  /** The keys of the children of the node at `prefix`. */
  function KeysAt(node: Node, prefix: seq<Key>): seq<Key>
    decreases |prefix|
  {
    if prefix == [] then KeysOfNodes(node.children)
    else
      match Find(node.children, prefix[0])
      case None => []
      case Some(c) => KeysAt(c, prefix[1..])
  }

  lemma {:induction false} InsertAppends(children: seq<Node>, route: seq<Key>, m: Method, h: Handler)
    requires route != []
    ensures KeysOfNodes(InsertBelow(children, route, m, h)) == Added(KeysOfNodes(children), route, [])
    decreases |children|
  {
    if children == [] {
      InsertKeepsKey(Leaf(route[0]), route[1..], m, h);
    } else if children[0].key == route[0] {
      InsertKeepsKey(children[0], route[1..], m, h);
      assert KeysOfNodes(children)[0] == route[0];
    } else {
      InsertAppends(children[1..], route, m, h);
      assert KeysOfNodes(children) == [children[0].key] + KeysOfNodes(children[1..]);
      assert KeysOfNodes(InsertBelow(children, route, m, h))
          == [children[0].key] + KeysOfNodes(InsertBelow(children[1..], route, m, h));
    }
  }

  lemma {:induction false} KeysAfterInsert(node: Node, route: seq<Key>, m: Method, h: Handler, prefix: seq<Key>)
    ensures KeysAt(Insert(node, route, m, h), prefix) == Added(KeysAt(node, prefix), route, prefix)
    decreases |prefix|
  {
    if route != [] {
      if prefix == [] {
        InsertAppends(node.children, route, m, h);
      } else {
        FindAfterInsert(node.children, route, m, h, prefix[0]);
        if prefix[0] == route[0] {
          var c := match Find(node.children, prefix[0]) case None => Leaf(prefix[0]) case Some(c) => c;
          KeysAfterInsert(c, route[1..], m, h, prefix[1..]);
          NoKeysInLeaf(prefix[0], prefix[1..]);
          AddedBelow(KeysAt(c, prefix[1..]), route, prefix);
        }
      }
    }
  }

  lemma NoKeysInLeaf(key: Key, prefix: seq<Key>)
    ensures KeysAt(Leaf(key), prefix) == []
  {
  }

  lemma AddedBelow(keys: seq<Key>, route: seq<Key>, prefix: seq<Key>)
    requires prefix != [] && route != [] && route[0] == prefix[0]
    ensures Added(keys, route[1..], prefix[1..]) == Added(keys, route, prefix)
  {
  }

  /** The children of every node stand in the order in which their keys were first registered. */
  lemma {:induction false} KeysInBuild(regs: seq<Registration>, prefix: seq<Key>)
    ensures KeysAt(Build(regs), prefix) == NextKeys(regs, prefix)
    decreases |regs|
  {
    if regs == [] {
      NoKeysInLeaf(Static(""), prefix);
    } else {
      var init, last := regs[..|regs| - 1], regs[|regs| - 1];
      KeysInBuild(init, prefix);
      KeysAfterInsert(Build(init), last.route, last.m, last.h, prefix);
    }
  }

  predicate Earlier(keys: seq<Key>, a: Key, b: Key) {
    exists i, j :: 0 <= i < j < |keys| && keys[i] == a && keys[j] == b
  }

  /**
   Where two routes part for the first time, `p` goes before `route`: it does not leave a literal for a
   parameter, and of two parameters it takes the one registered first.
   */
  ghost predicate Precedes(keysAt: seq<Key> -> seq<Key>, p: seq<Key>, route: seq<Key>) {
    forall i | 0 <= i < |p| && i < |route| && p[..i] == route[..i] && p[i] != route[i] ::
      route[i].Param? && (p[i].Param? ==> Earlier(keysAt(p[..i]), p[i], route[i]))
  }

  /** The child that a search below a list of children goes to is the first one through which it succeeds. */
  lemma {:induction false} FirstSuccess(children: seq<Node>, segs: seq<string>, m: Method, params: bool)
    returns (a: nat)
    requires segs != [] && FindPathBelow(children, segs, m, params).Some?
    ensures a < |children| && Admits(children[a].key, segs[0], params) && FindPath(children[a], segs[1..], m).Some?
    ensures FindPathBelow(children, segs, m, params).value
         == [children[a].key] + FindPath(children[a], segs[1..], m).value
    ensures forall j | 0 <= j < a ::
              !Admits(children[j].key, segs[0], params) || FindPath(children[j], segs[1..], m).None?
    decreases |children|
  {
    if Admits(children[0].key, segs[0], params) && FindPath(children[0], segs[1..], m).Some? {
      a := 0;
    } else {
      var b := FirstSuccess(children[1..], segs, m, params);
      a := b + 1;
      assert forall j | 0 < j < a :: children[j] == children[1..][j - 1];
    }
  }

  lemma {:induction false} FindIndex(children: seq<Node>, key: Key) returns (b: nat)
    requires Find(children, key).Some?
    ensures b < |children| && children[b] == Find(children, key).value && children[b].key == key
    decreases |children|
  {
    if children[0].key == key {
      b := 0;
    } else {
      var c := FindIndex(children[1..], key);
      b := c + 1;
    }
  }

  lemma {:induction false} FindOfIndex(children: seq<Node>, a: nat)
    requires DistinctKeys(children) && a < |children|
    ensures Find(children, children[a].key) == Some(children[a])
    decreases |children|
  {
    if a > 0 {
      FindOfIndex(children[1..], a - 1);
    }
  }

  lemma {:induction false} SearchPrecedes(node: Node, segs: seq<string>, m: Method, route: seq<Key>)
    requires KeysOk(node) && Matches(route, segs) && HandlerAt(node, route, m).Some?
    ensures FindPath(node, segs, m).Some? && Precedes(q => KeysAt(node, q), FindPath(node, segs, m).value, route)
    decreases |segs|
  {
    RouteIsFound(node, segs, m, route);
    if segs != [] {
      var p := FindPath(node, segs, m).value;
      var params := FindPathBelow(node.children, segs, m, false).None?;
      var a := FirstSuccess(node.children, segs, m, params);
      var b := FindIndex(node.children, route[0]);
      var c := node.children[b];
      assert Matches(route[1..], segs[1..]);
      RouteIsFound(c, segs[1..], m, route[1..]);
      RouteIsFoundBelow(node.children, segs, m, route, c);
      FindOfIndex(node.children, a);
      if a == b {
        assert c in node.children;
        SearchPrecedes(c, segs[1..], m, route[1..]);
        PrecedesBelow(node, c, p, route);
      } else {
        assert node.children[a].key != node.children[b].key;
        assert p[0] == node.children[a].key && route[0] == node.children[b].key;
        PrecedesAtOnce(node, p, route, a, b);
      }
    }
  }

  lemma PrecedesBelow(node: Node, c: Node, p: seq<Key>, route: seq<Key>)
    requires p != [] && route != [] && p[0] == route[0] && Find(node.children, p[0]) == Some(c)
    requires Precedes(q => KeysAt(c, q), p[1..], route[1..])
    ensures Precedes(q => KeysAt(node, q), p, route)
  {
    forall i | 0 <= i < |p| && i < |route| && p[..i] == route[..i] && p[i] != route[i]
      ensures route[i].Param? && (p[i].Param? ==> Earlier(KeysAt(node, p[..i]), p[i], route[i]))
    {
      assert p[1..][..i - 1] == p[..i][1..] && route[1..][..i - 1] == route[..i][1..];
      assert p[1..][i - 1] == p[i] && route[1..][i - 1] == route[i];
      assert KeysAt(node, p[..i]) == KeysAt(c, p[1..][..i - 1]);
    }
  }

  lemma PrecedesAtOnce(node: Node, p: seq<Key>, route: seq<Key>, a: nat, b: nat)
    requires p != [] && route != [] && a < |node.children| && b < |node.children|
    requires p[0] == node.children[a].key != route[0] == node.children[b].key
    requires route[0].Param? && (p[0].Param? ==> a < b)
    ensures Precedes(q => KeysAt(node, q), p, route)
  {
    forall i | 0 < i <= |p| && i <= |route|
      ensures p[..i] != route[..i]
    {
      assert p[..i][0] == p[0] && route[..i][0] == route[0];
    }
    assert p[..0] == [];
    var keys := KeysAt(node, []);
    assert keys[a] == p[0] && keys[b] == route[0];
  }

  /**
   Of all registered routes that match, the search finds the one that precedes every other: literals before
   parameters, and parameters in the order of their first registration.
   */
  lemma SearchPrefers(regs: seq<Registration>, segs: seq<string>, m: Method, r: Registration)
    requires r in regs && r.m == m && Matches(r.route, segs)
    ensures FindPath(Build(regs), segs, m).Some?
    ensures Precedes(q => NextKeys(regs, q), FindPath(Build(regs), segs, m).value, r.route)
  {
    BuildIsOk(regs);
    LatestIffRegistered(regs, r.route, m);
    SearchPrecedes(Build(regs), segs, m, r.route);
    var p := FindPath(Build(regs), segs, m).value;
    forall i | 0 <= i < |p|
      ensures KeysAt(Build(regs), p[..i]) == NextKeys(regs, p[..i])
    {
      KeysInBuild(regs, p[..i]);
    }
  }

  /** The key the greedy walk goes on with: the literal, else the first parameter. */
  function NextStep(keys: seq<Key>, seg: string): Option<Key> {
    if Static(seg) in keys then Some(Static(seg)) else FirstParamKey(keys)
  }

  function FirstParamKey(keys: seq<Key>): Option<Key> {
    if keys == [] then None else if keys[0].Param? then Some(keys[0]) else FirstParamKey(keys[1..])
  }

  /** The greedy walk from `prefix` on, told from the registrations. */
  function GreedyPath(regs: seq<Registration>, prefix: seq<Key>, segs: seq<string>): seq<Key>
    decreases |segs|
  {
    if segs == [] then []
    else
      match NextStep(NextKeys(regs, prefix), segs[0])
      case None => []
      case Some(key) => [key] + GreedyPath(regs, prefix + [key], segs[1..])
  }

  lemma {:induction false} StepOfChildren(children: seq<Node>, seg: string)
    ensures Find(children, Static(seg)).Some? <==> Static(seg) in KeysOfNodes(children)
    ensures FirstParamKey(KeysOfNodes(children))
         == match FirstParam(children) case None => None case Some(c) => Some(c.key)
    decreases |children|
  {
    if children != [] {
      StepOfChildren(children[1..], seg);
      assert KeysOfNodes(children) == [children[0].key] + KeysOfNodes(children[1..]);
    }
  }

  lemma {:induction false} KeysBelow(node: Node, prefix: seq<Key>, key: Key, c: Node)
    requires NodeAt(node, prefix).Some? && Find(NodeAt(node, prefix).value.children, key) == Some(c)
    ensures NodeAt(node, prefix + [key]) == Some(c)
    decreases |prefix|
  {
    if prefix == [] {
      assert (prefix + [key])[1..] == [];
    } else {
      assert (prefix + [key])[1..] == prefix[1..] + [key];
      KeysBelow(Find(node.children, prefix[0]).value, prefix[1..], key, c);
    }
  }

  function NodeAt(node: Node, prefix: seq<Key>): Option<Node>
    decreases |prefix|
  {
    if prefix == [] then Some(node)
    else
      match Find(node.children, prefix[0])
      case None => None
      case Some(c) => NodeAt(c, prefix[1..])
  }

  lemma {:induction false} KeysOfNodeAt(node: Node, prefix: seq<Key>)
    requires NodeAt(node, prefix).Some?
    ensures KeysAt(node, prefix) == KeysOfNodes(NodeAt(node, prefix).value.children)
    decreases |prefix|
  {
    if prefix != [] {
      KeysOfNodeAt(Find(node.children, prefix[0]).value, prefix[1..]);
    }
  }

  lemma {:induction false} WalkIsGreedyPath(regs: seq<Registration>, prefix: seq<Key>, node: Node, segs: seq<string>)
    requires NodeAt(Build(regs), prefix) == Some(node)
    ensures GreedyWalk(node, segs).path == GreedyPath(regs, prefix, segs)
    decreases |segs|
  {
    if segs != [] {
      KeysOfNodeAt(Build(regs), prefix);
      KeysInBuild(regs, prefix);
      StepOfChildren(node.children, segs[0]);
      if GreedyChild(node, segs[0]).Some? {
        var c := GreedyChild(node, segs[0]).value;
        if Find(node.children, Static(segs[0])).Some? {
          FindHasKey(node.children, Static(segs[0]));
        } else {
          FirstParamIsFound(node.children);
        }
        KeysBelow(Build(regs), prefix, c.key, c);
        WalkIsGreedyPath(regs, prefix + [c.key], c, segs[1..]);
      }
    }
  }

  /** The greedy walk of the trie is told by the registrations. */
  lemma GreedyWalkIs(regs: seq<Registration>, segs: seq<string>)
    ensures GreedyWalk(Build(regs), segs).path == GreedyPath(regs, [], segs)
  {
    WalkIsGreedyPath(regs, [], Build(regs), segs);
  }
}
