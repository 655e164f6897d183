/** `Router` (src/router/index.ts). A route template such as
    `/users/:id` is compiled by the source into an anchored regular
    expression; here it is a list of tokens, each a literal character or a
    named parameter, and the regular expression's backtracking search is an
    explicit matcher. */
module Router {
  import opened Wrappers
  import opened Text
  import opened Consts
  import opened Types
  import LastWins

  // ---------------------------------------------------------------------
  // Templates
  // ---------------------------------------------------------------------

  /** A literal character (metacharacters included: the source escapes
      them, so each matches only itself) or a `:name` parameter. */
  datatype Token = Lit(c: char) | Param(name: string)

  /** `[a-zA-Z_]`. */
  predicate IsNameStart(c: char) {
    'a' <= c <= 'z' || 'A' <= c <= 'Z' || c == '_'
  }

  /** `[a-zA-Z0-9_]`. */
  predicate IsNameChar(c: char) {
    IsNameStart(c) || IsDigit(c)
  }

  /** A parameter name: `[a-zA-Z_][a-zA-Z0-9_]*`. */
  predicate IsName(n: string) {
    |n| > 0 && IsNameStart(n[0]) && forall i | 0 <= i < |n| :: IsNameChar(n[i])
  }

  /** The length of the longest prefix of name characters. */
  function NameRun(s: string): (n: nat)
    ensures n <= |s|
    ensures forall i | 0 <= i < n :: IsNameChar(s[i])
    ensures n < |s| ==> !IsNameChar(s[n])
  {
    if |s| > 0 && IsNameChar(s[0]) then 1 + NameRun(s[1..]) else 0
  }

  /** `pathToRegex`, scanning left to right as the global replacement
      does: a `:` followed by a name start begins a parameter whose name is
      the longest run of name characters; every other character is a
      literal. */
  function Tokenize(path: string): (ts: seq<Token>)
    ensures forall i | 0 <= i < |ts| && ts[i].Param? :: IsName(ts[i].name)
    decreases |path|
  {
    if |path| == 0 then []
    else if path[0] == ':' && |path| > 1 && IsNameStart(path[1]) then
      var n := NameRun(path[1..]);
      [Param(path[1..1 + n])] + Tokenize(path[1 + n..])
    else [Lit(path[0])] + Tokenize(path[1..])
  }

  /** Writes tokens back as template text. */
  function Template(ts: seq<Token>): string {
    if |ts| == 0 then []
    else (match ts[0] case Lit(c) => [c] case Param(n) => ":" + n) + Template(ts[1..])
  }

  /** Tokenizing loses nothing: the tokens read back as the template. */
  lemma {:induction false} TemplateTokenize(path: string)
    ensures Template(Tokenize(path)) == path
    decreases |path|
  {
    if |path| > 0 {
      if path[0] == ':' && |path| > 1 && IsNameStart(path[1]) {
        var n := NameRun(path[1..]);
        ParamStep(path, n);
        TemplateTokenize(path[1 + n..]);
      } else {
        LitStep(path);
        TemplateTokenize(path[1..]);
      }
    }
  }

  /** One parameter token, written back, is the `:name` it was read
      from. */
  lemma {:induction false} ParamStep(path: string, n: nat)
    requires |path| > 1 && path[0] == ':' && IsNameStart(path[1]) && n == NameRun(path[1..])
    ensures Template(Tokenize(path)) == ":" + path[1..1 + n] + Template(Tokenize(path[1 + n..]))
    ensures path == ":" + path[1..1 + n] + path[1 + n..]
  {
    var ts := Tokenize(path);
    assert ts == [Param(path[1..1 + n])] + Tokenize(path[1 + n..]);
    assert ts[1..] == Tokenize(path[1 + n..]);
    assert path == path[..1] + path[1..1 + n] + path[1 + n..];
  }

  /** One literal token, written back, is its character. */
  lemma {:induction false} LitStep(path: string)
    requires |path| > 0 && !(path[0] == ':' && |path| > 1 && IsNameStart(path[1]))
    ensures Template(Tokenize(path)) == [path[0]] + Template(Tokenize(path[1..]))
    ensures path == [path[0]] + path[1..]
  {
    var ts := Tokenize(path);
    assert ts == [Lit(path[0])] + Tokenize(path[1..]);
    assert ts[1..] == Tokenize(path[1..]);
  }

  /** The parameter names, in the order they appear (`paramNames`). */
  function ParamNames(ts: seq<Token>): (names: seq<string>)
    ensures |names| <= |ts|
  {
    if |ts| == 0 then []
    else (if ts[0].Param? then [ts[0].name] else []) + ParamNames(ts[1..])
  }

  /** The text a template stands for once its parameters are replaced by
      the given values, in order. */
  function Render(ts: seq<Token>, values: seq<string>): string
    requires |values| == |ParamNames(ts)|
  {
    if |ts| == 0 then []
    else
      match ts[0]
      case Lit(c) => [c] + Render(ts[1..], values)
      case Param(_) => values[0] + Render(ts[1..], values[1..])
  }

  /** What one parameter may capture: `[^/]+`. */
  predicate IsSegment(v: string) {
    |v| > 0 && '/' !in v
  }

  predicate AllSegments(values: seq<string>) {
    forall i | 0 <= i < |values| :: IsSegment(values[i])
  }

  // ---------------------------------------------------------------------
  // Matching
  // ---------------------------------------------------------------------

  /** The length of the longest prefix without `/`. */
  function SegmentRun(s: string): (n: nat)
    ensures n <= |s| && '/' !in s[..n]
    ensures n < |s| ==> s[n] == '/'
  {
    if |s| > 0 && s[0] != '/' then
      var n := 1 + SegmentRun(s[1..]);
      assert s[..n] == [s[0]] + s[1..][..n - 1];
      n
    else 0
  }

  /** The anchored match of a template against a whole path, with the
      captures in order; a parameter tries its longest capture first and
      gives characters back only when the rest does not match, as the
      regular-expression engine backtracks. */
  function MatchTokens(ts: seq<Token>, s: string): (r: Option<seq<string>>)
    ensures r.Some? ==> |r.value| == |ParamNames(ts)| && AllSegments(r.value) && Render(ts, r.value) == s
    decreases |ts|, |s| + 1
  {
    if |ts| == 0 then (if |s| == 0 then Some([]) else None)
    else
      match ts[0]
      case Lit(c) => if |s| > 0 && s[0] == c then MatchTokens(ts[1..], s[1..]) else None
      case Param(_) => TryCaptures(ts[1..], s, SegmentRun(s))
  }

  /** A parameter followed by `rest`, trying the captures `s[..k]`,
      `s[..k-1]`, ..., `s[..1]` in that order. */
  function TryCaptures(rest: seq<Token>, s: string, k: nat): (r: Option<seq<string>>)
    requires k <= SegmentRun(s)
    ensures r.Some? ==>
              && |r.value| > 0 && 1 <= |r.value[0]| <= k && r.value[0] == s[..|r.value[0]|]
              && MatchTokens(rest, s[|r.value[0]|..]) == Some(r.value[1..])
    decreases |rest| + 1, k
  {
    if k == 0 then None
    else
      match MatchTokens(rest, s[k..])
      case Some(caps) =>
        assert ([s[..k]] + caps)[1..] == caps;
        Some([s[..k]] + caps)
      case None => TryCaptures(rest, s, k - 1)
  }

  /** There is no capture exactly when no capture lets the rest of the
      template match. */
  lemma {:induction false} TryCapturesNone(rest: seq<Token>, s: string, k: nat)
    requires k <= SegmentRun(s)
    ensures TryCaptures(rest, s, k).None? <==> forall j | 1 <= j <= k :: MatchTokens(rest, s[j..]).None?
    decreases k
  {
    if k > 0 && MatchTokens(rest, s[k..]).None? {
      TryCapturesNone(rest, s, k - 1);
    }
  }

  /** The capture tried is the longest one the rest of the template
      accepts. */
  lemma {:induction false} TryCapturesLongest(rest: seq<Token>, s: string, k: nat)
    requires k <= SegmentRun(s)
    requires TryCaptures(rest, s, k).Some?
    ensures forall j | |TryCaptures(rest, s, k).value[0]| < j <= k :: MatchTokens(rest, s[j..]).None?
    decreases k
  {
    var r := TryCaptures(rest, s, k);
    var n := |r.value[0]|;
    if MatchTokens(rest, s[k..]).None? {
      assert r == TryCaptures(rest, s, k - 1);
      TryCapturesLongest(rest, s, k - 1);
      assert forall j | n < j <= k - 1 :: MatchTokens(rest, s[j..]).None?;
    } else {
      assert n == k;
    }
  }

  /** The matcher accepts exactly the paths the template renders to with
      some segment values, and its captures are such values. */
  lemma {:induction false} MatchMeaning(ts: seq<Token>, s: string)
    ensures MatchTokens(ts, s).Some? <==>
              exists values :: |values| == |ParamNames(ts)| && AllSegments(values) && Render(ts, values) == s
  {
    if exists values :: |values| == |ParamNames(ts)| && AllSegments(values) && Render(ts, values) == s {
      var values :| |values| == |ParamNames(ts)| && AllSegments(values) && Render(ts, values) == s;
      MatchComplete(ts, values);
    }
  }

  /** Every rendering with segment values is matched. */
  lemma {:induction false} MatchComplete(ts: seq<Token>, values: seq<string>)
    requires |values| == |ParamNames(ts)| && AllSegments(values)
    ensures MatchTokens(ts, Render(ts, values)).Some?
    decreases |ts|
  {
    if |ts| > 0 {
      var s := Render(ts, values);
      match ts[0]
      case Lit(c) =>
        assert ParamNames(ts) == ParamNames(ts[1..]);
        MatchComplete(ts[1..], values);
        assert s[1..] == Render(ts[1..], values);
      case Param(_) =>
        assert ParamNames(ts) == [ts[0].name] + ParamNames(ts[1..]);
        var v := values[0];
        var tail := Render(ts[1..], values[1..]);
        assert AllSegments(values[1..]) by {
          assert forall i | 0 <= i < |values[1..]| :: values[1..][i] == values[i + 1];
        }
        MatchComplete(ts[1..], values[1..]);
        assert s == v + tail;
        assert s[|v|..] == tail;
        assert SegmentRun(s) >= |v| by { SegmentRunCovers(v, tail); }
        TryCapturesNone(ts[1..], s, SegmentRun(s));
    }
  }

  lemma {:induction false} SegmentRunCovers(v: string, tail: string)
    requires '/' !in v
    ensures SegmentRun(v + tail) >= |v|
    decreases |v|
  {
    if |v| > 0 {
      assert (v + tail)[1..] == v[1..] + tail;
      SegmentRunCovers(v[1..], tail);
    }
  }

  /** A template without parameters matches exactly one path: itself. */
  lemma {:induction false} LiteralTemplate(path: string, s: string)
    requires ParamNames(Tokenize(path)) == []
    ensures MatchTokens(Tokenize(path), s).Some? <==> s == path
  {
    var ts := Tokenize(path);
    TemplateTokenize(path);
    LiteralRender(ts);
    MatchMeaning(ts, s);
    if s == path {
      assert Render(ts, []) == s && AllSegments([]);
    }
  }

  lemma {:induction false} LiteralRender(ts: seq<Token>)
    requires ParamNames(ts) == []
    ensures Render(ts, []) == Template(ts)
    decreases |ts|
  {
    if |ts| > 0 {
      match ts[0]
      case Lit(_) => LiteralRender(ts[1..]);
      case Param(_) => assert false;
    }
  }

  // ---------------------------------------------------------------------
  // The router
  // ---------------------------------------------------------------------

  /** `Route`: the method, the compiled template and the handler. */
  datatype Route<H> = Route(httpMethod: Method, tokens: seq<Token>, handler: H)

  /** The routes in registration order. */
  datatype Router<H> = Router(routes: seq<Route<H>>)

  function Empty<H>(): Router<H> {
    Router([])
  }

  /** The methods the public registration helpers offer. */
  predicate Registrable(m: Method) {
    m == GET || m == POST || m == PUT || m == DELETE
  }

  /** Every route of the router was registered with one of them. */
  predicate Registered<H>(r: Router<H>) {
    forall i | 0 <= i < |r.routes| :: Registrable(r.routes[i].httpMethod)
  }

  /** `addRoute`: appends one route and keeps the others. */
  function AddRoute<H>(r: Router<H>, m: Method, path: string, handler: H): (r': Router<H>)
    ensures |r'.routes| == |r.routes| + 1 && r'.routes[..|r.routes|] == r.routes
    ensures var last := r'.routes[|r.routes|];
            last.httpMethod == m && last.handler == handler && Template(last.tokens) == path
  {
    TemplateTokenize(path);
    Router(r.routes + [Route(m, Tokenize(path), handler)])
  }

  /** `get`, `post`, `put` and `delete`: the only ways to register. */
  function Get<H>(r: Router<H>, path: string, handler: H): (r': Router<H>)
    ensures |r'.routes| == |r.routes| + 1 && r'.routes[..|r.routes|] == r.routes
    ensures r'.routes[|r.routes|].httpMethod == GET && r'.routes[|r.routes|].handler == handler
    ensures Template(r'.routes[|r.routes|].tokens) == path
    ensures Registered(r) ==> Registered(r')
  {
    AddRoute(r, GET, path, handler)
  }

  function Post<H>(r: Router<H>, path: string, handler: H): (r': Router<H>)
    ensures |r'.routes| == |r.routes| + 1 && r'.routes[..|r.routes|] == r.routes
    ensures r'.routes[|r.routes|].httpMethod == POST && r'.routes[|r.routes|].handler == handler
    ensures Template(r'.routes[|r.routes|].tokens) == path
    ensures Registered(r) ==> Registered(r')
  {
    AddRoute(r, POST, path, handler)
  }

  function Put<H>(r: Router<H>, path: string, handler: H): (r': Router<H>)
    ensures |r'.routes| == |r.routes| + 1 && r'.routes[..|r.routes|] == r.routes
    ensures r'.routes[|r.routes|].httpMethod == PUT && r'.routes[|r.routes|].handler == handler
    ensures Template(r'.routes[|r.routes|].tokens) == path
    ensures Registered(r) ==> Registered(r')
  {
    AddRoute(r, PUT, path, handler)
  }

  function Delete<H>(r: Router<H>, path: string, handler: H): (r': Router<H>)
    ensures |r'.routes| == |r.routes| + 1 && r'.routes[..|r.routes|] == r.routes
    ensures r'.routes[|r.routes|].httpMethod == DELETE && r'.routes[|r.routes|].handler == handler
    ensures Template(r'.routes[|r.routes|].tokens) == path
    ensures Registered(r) ==> Registered(r')
  {
    AddRoute(r, DELETE, path, handler)
  }

  /** A route takes a request when the method is the same and the
      template matches the path. */
  predicate Accepts<H>(route: Route<H>, m: Method, path: string) {
    route.httpMethod == m && MatchTokens(route.tokens, path).Some?
  }

  /** `params[name] = match[index + 1]` for each name in order, so a name
      that occurs twice keeps its last capture. */
  function Params(names: seq<string>, captures: seq<string>): map<string, string>
    requires |names| == |captures|
  {
    LastWins.Assign(ParamEntries(names, captures))
  }

  function ParamEntries(names: seq<string>, captures: seq<string>): (es: seq<Option<(string, string)>>)
    requires |names| == |captures|
    ensures |es| == |names| && forall i | 0 <= i < |names| :: es[i] == Some((names[i], captures[i]))
  {
    seq(|names|, i requires 0 <= i < |names| => Some((names[i], captures[i])))
  }

  /** Each parameter name is bound to its own capture, the last one when a
      name occurs twice, and no other name is bound. */
  lemma {:induction false} ParamsSpec(names: seq<string>, captures: seq<string>)
    requires |names| == |captures|
    ensures forall n :: n in Params(names, captures) <==> n in names
    ensures forall i | 0 <= i < |names| && (forall j | i < j < |names| :: names[j] != names[i]) ::
              Params(names, captures)[names[i]] == captures[i]
  {
    var es := ParamEntries(names, captures);
    LastWins.AssignSpec(es);
    forall n ensures n in Params(names, captures) <==> n in names {
      if n in names {
        var i :| 0 <= i < |names| && names[i] == n;
        assert LastWins.Writes(es, i, n);
      }
    }
    forall i | 0 <= i < |names| && (forall j | i < j < |names| :: names[j] != names[i])
      ensures Params(names, captures)[names[i]] == captures[i]
    {
      assert LastWins.LastWrite(es, i, names[i]);
    }
  }

  /** The handler and parameters a route that takes the path gives. */
  function Outcome<H>(route: Route<H>, path: string): (H, map<string, string>)
    requires MatchTokens(route.tokens, path).Some?
  {
    (route.handler, Params(ParamNames(route.tokens), MatchTokens(route.tokens, path).value))
  }

  /** The scan of `match` over the routes in order. */
  function MatchRoutes<H>(routes: seq<Route<H>>, m: Method, path: string): (r: Option<(H, map<string, string>)>)
    ensures r.None? <==> forall i | 0 <= i < |routes| :: !Accepts(routes[i], m, path)
    ensures r.Some? ==>
              exists i | 0 <= i < |routes| ::
                && Accepts(routes[i], m, path)
                && (forall j | 0 <= j < i :: !Accepts(routes[j], m, path))
                && r.value == Outcome(routes[i], path)
  {
    if |routes| == 0 then None
    else if Accepts(routes[0], m, path) then
      Some(Outcome(routes[0], path))
    else
      var r := MatchRoutes(routes[1..], m, path);
      assert forall i | 1 <= i < |routes| :: routes[i] == routes[1..][i - 1];
      r
  }

  /** `match`: the first route in registration order that takes the
      request's method and path; `None` is `null`. */
  function Match<H>(r: Router<H>, request: Request): Option<(H, map<string, string>)> {
    MatchRoutes(r.routes, request.httpMethod, request.path)
  }

  /** First match wins: a route added later never takes a request an
      earlier route already takes, and is consulted only when none does. */
  lemma {:induction false} AddRouteKeepsEarlier<H>(r: Router<H>, m: Method, path: string, handler: H, request: Request)
    ensures Match(r, request).Some? ==> Match(AddRoute(r, m, path, handler), request) == Match(r, request)
    ensures Match(r, request).None? && Accepts(Route(m, Tokenize(path), handler), request.httpMethod, request.path) ==>
              Match(AddRoute(r, m, path, handler), request) == Some(Outcome(Route(m, Tokenize(path), handler), request.path))
    ensures Match(r, request).None? && !Accepts(Route(m, Tokenize(path), handler), request.httpMethod, request.path) ==>
              Match(AddRoute(r, m, path, handler), request).None?
  {
    AppendRoute(r.routes, Route(m, Tokenize(path), handler), request.httpMethod, request.path);
  }

  lemma {:induction false} AppendRoute<H>(routes: seq<Route<H>>, route: Route<H>, m: Method, path: string)
    ensures MatchRoutes(routes + [route], m, path) ==
              match MatchRoutes(routes, m, path)
              case Some(o) => Some(o)
              case None => if Accepts(route, m, path) then Some(Outcome(route, path)) else None
    decreases |routes|
  {
    if |routes| > 0 {
      assert (routes + [route])[1..] == routes[1..] + [route];
      AppendRoute(routes[1..], route, m, path);
    } else {
      assert [] + [route] == [route];
    }
  }

  /** A router built only through the public helpers never serves PATCH,
      OPTIONS or HEAD: no route has that method. */
  lemma {:induction false} UnregistrableNeverMatches<H>(r: Router<H>, request: Request)
    requires Registered(r) && !Registrable(request.httpMethod)
    ensures Match(r, request).None?
  {
  }

  /** A route with another method never takes the request, whatever the
      path. */
  lemma {:induction false} OtherMethodSkipped<H>(routes: seq<Route<H>>, route: Route<H>, m: Method, path: string)
    requires route.httpMethod != m
    ensures MatchRoutes([route] + routes, m, path) == MatchRoutes(routes, m, path)
  {
    assert ([route] + routes)[1..] == routes;
  }

  /** A template of literal text and one trailing parameter, such as
      `/users/:id`, matches the text followed by any segment and binds the
      parameter to that segment: `/users/42` gives `id = "42"`. */
  lemma {:induction false} SingleParam(prefix: string, name: string, value: string)
    requires ':' !in prefix && IsName(name) && IsSegment(value)
    ensures ParamNames(Tokenize(prefix + ":" + name)) == [name]
    ensures MatchTokens(Tokenize(prefix + ":" + name), prefix + value) == Some([value])
    ensures Params([name], [value]) == map[name := value]
  {
    var ts := Tokenize(prefix + ":" + name);
    TokenizeLiteralThenParam(prefix, name);
    LiteralsMatch(prefix, [Param(name)], value);
    assert ParamNames([Param(name)]) == [name] + ParamNames([]);
    OneSegment(name, value);
    var es := ParamEntries([name], [value]);
    assert es[..0] == [] && es[0] == Some((name, value));
    assert LastWins.Assign(es[..0]) == map[];
    assert LastWins.Assign(es) == LastWins.Assign(es[..0])[name := value];
  }

  lemma {:induction false} OneSegment(name: string, value: string)
    requires IsSegment(value)
    ensures MatchTokens([Param(name)], value) == Some([value])
  {
    assert SegmentRun(value) == |value| by { SegmentRunCovers(value, ""); assert value + "" == value; }
    assert [Param(name)][1..] == [];
    assert value[|value|..] == [];
    assert MatchTokens([], value[|value|..]) == Some([]);
    assert value[..|value|] == value;
    var none: seq<string> := [];
    assert [value[..|value|]] + none == [value];
    assert TryCaptures([], value, |value|) == Some([value]);
  }

  /** Literal tokens for each character of a text. */
  function Literals(s: string): (ts: seq<Token>)
    ensures |ts| == |s| && forall i | 0 <= i < |s| :: ts[i] == Lit(s[i])
  {
    seq(|s|, i requires 0 <= i < |s| => Lit(s[i]))
  }

  lemma {:induction false} TokenizeLiteralThenParam(prefix: string, name: string)
    requires ':' !in prefix && IsName(name)
    ensures Tokenize(prefix + ":" + name) == Literals(prefix) + [Param(name)]
    ensures ParamNames(Literals(prefix) + [Param(name)]) == [name]
    decreases |prefix|
  {
    var s := prefix + ":" + name;
    if |prefix| == 0 {
      assert s == ":" + name;
      assert s[1..] == name && s[1] == name[0];
      assert NameRun(s[1..]) == |name| by { NameRunAll(name); }
      assert s[1..1 + |name|] == name;
      assert s[1 + |name|..] == [];
      assert Tokenize(s) == [Param(name)] + Tokenize([]);
      assert Literals(prefix) + [Param(name)] == [Param(name)];
      assert ParamNames([Param(name)]) == [name] + ParamNames([]);
    } else {
      TokenizeLiteralThenParam(prefix[1..], name);
      assert s[1..] == prefix[1..] + ":" + name;
      assert Literals(prefix) + [Param(name)] == [Lit(prefix[0])] + (Literals(prefix[1..]) + [Param(name)]);
    }
  }

  lemma {:induction false} NameRunAll(name: string)
    requires forall i | 0 <= i < |name| :: IsNameChar(name[i])
    ensures NameRun(name) == |name|
    decreases |name|
  {
    if |name| > 0 {
      NameRunAll(name[1..]);
    }
  }

  lemma {:induction false} LiteralsMatch(prefix: string, rest: seq<Token>, s: string)
    ensures MatchTokens(Literals(prefix) + rest, prefix + s) == MatchTokens(rest, s)
    decreases |prefix|
  {
    if |prefix| > 0 {
      assert (Literals(prefix) + rest)[1..] == Literals(prefix[1..]) + rest;
      assert (prefix + s)[1..] == prefix[1..] + s;
      LiteralsMatch(prefix[1..], rest, s);
    } else {
      assert Literals(prefix) + rest == rest;
      assert prefix + s == s;
    }
  }
}
