/**
 * The `Route` entity: an origin template, a path template, an action, the
 * action-parameter table, an optional name and an option bag. Setting a
 * template or an action normalises it; rendering a template with values is
 * delegated to the router's placeholder filler.
 */
module Routes {
  import opened Results
  import opened Text
  import opened ParamTable

  /** An action is either a closure, called with the parameter table and the
      caller's extra arguments, or a `Class[::method[/key...]]` reference. */
  datatype Action<!C, R> =
    | Closure(fn: (Table, seq<C>) -> Option<R>)
    | Reference(ref: string)

  datatype Route<!C, R> = Route(
    origin: string,
    path: string,
    action: Action<C, R>,
    params: Table,
    name: Option<string>,
    options: map<string, string>)

  /** What the route needs from its router: the placeholder filler, which may
      fail with a message, and the default action method name. */
  datatype Router = Router(
    fill: (string, seq<string>) -> Result<string, string>,
    defaultMethod: string)

  // ---------------------------------------------------------------------
  // normalisation
  // ---------------------------------------------------------------------

  /** A path in stored form: one leading `/`, and the rest neither starts nor
      ends with `/`. */
  predicate NormalPath(p: string) {
    StartsWith(p, '/') && !StartsWith(p[1..], '/') && !EndsWith(p[1..], '/')
  }

  /** A reference in stored form: no `\` at either end. */
  predicate NormalAction<C, R>(a: Action<C, R>) {
    a.Reference? ==> !StartsWith(a.ref, '\\') && !EndsWith(a.ref, '\\')
  }

  /** The invariant every route keeps between calls. */
  predicate Valid<C, R>(r: Route<C, R>) {
    && NormalPath(r.path)
    && !StartsWith(r.origin, '/')
    && NormalAction(r.action)
    && Ascending(r.params)
  }

  /** `setOrigin`: every leading `/` removed, the rest kept as is. */
  function NormalizeOrigin(o: string): (r: string)
    ensures !StartsWith(r, '/')
    ensures |r| <= |o| && o == o[..|o| - |r|] + r
    ensures AllAre(o[..|o| - |r|], '/')
  {
    var r := TrimLeft(o, '/');
    assert o == o[..|o| - |r|] + o[|o| - |r|..];
    r
  }

  /** `setPath`: every leading and trailing `/` removed, then one `/` put in
      front. */
  function NormalizePath(p: string): (r: string)
    ensures NormalPath(r)
    ensures r == "/" <==> AllAre(p, '/')
    ensures |r| <= |p| + 1
  {
    var r := "/" + Trim(p, '/');
    NormalizePathShape(p);
    r
  }

  lemma NormalizePathShape(p: string)
    ensures var m := Trim(p, '/');
      var r := "/" + m;
      && NormalPath(r)
      && (r == "/" <==> AllAre(p, '/'))
      && r[1..] == m
  {
    var m := Trim(p, '/');
    var r := "/" + m;
    assert r[1..] == m;
    assert r == "/" <==> m == [];
  }

  /** `setAction`: a reference loses every `\` at either end; a closure is
      stored unchanged. */
  function NormalizeAction<C, R>(a: Action<C, R>): (r: Action<C, R>)
    ensures NormalAction(r)
    ensures r.Closure? <==> a.Closure?
    ensures a.Closure? ==> r == a
    ensures a.Reference? ==> r.Reference? && r.ref == Trim(a.ref, '\\')
  {
    match a
    case Closure(_) => a
    case Reference(s) => Reference(Trim(s, '\\'))
  }

  /** A stored path is a fixed point of `setPath`. */
  lemma NormalizePathFixes(p: string)
    requires NormalPath(p)
    ensures NormalizePath(p) == p
  {
    assert "/" + p[1..] + [] == p;
    TrimUnique("/", p[1..], [], '/');
  }

  lemma NormalizePathIdempotent(p: string)
    ensures NormalizePath(NormalizePath(p)) == NormalizePath(p)
  {
    NormalizePathFixes(NormalizePath(p));
  }

  /** `setPath` keeps exactly the middle between the runs of `/`. */
  lemma NormalizePathMiddle(x: string, m: string, y: string)
    requires AllAre(x, '/') && AllAre(y, '/')
    requires !StartsWith(m, '/') && !EndsWith(m, '/')
    ensures NormalizePath(x + m + y) == "/" + m
  {
    TrimUnique(x, m, y, '/');
  }

  lemma NormalizeOriginIdempotent(o: string)
    ensures NormalizeOrigin(NormalizeOrigin(o)) == NormalizeOrigin(o)
  {
    TrimLeftIdempotent(o, '/');
  }

  /** `setOrigin` keeps exactly what follows the leading run of `/`. */
  lemma NormalizeOriginRest(x: string, m: string)
    requires AllAre(x, '/') && !StartsWith(m, '/')
    ensures NormalizeOrigin(x + m) == m
  {
    TrimLeftUnique(x, m, '/');
  }

  lemma NormalizeActionIdempotent<C, R>(a: Action<C, R>)
    ensures NormalizeAction(NormalizeAction(a)) == NormalizeAction(a)
  {
    if a.Reference? {
      TrimIdempotent(a.ref, '\\');
    }
  }

  /** The reference kept by `setAction` is the middle between the runs of
      `\`; its interior is untouched. */
  lemma NormalizeActionMiddle<C, R>(x: string, m: string, y: string)
    requires AllAre(x, '\\') && AllAre(y, '\\')
    requires !StartsWith(m, '\\') && !EndsWith(m, '\\')
    ensures NormalizeAction(Action<C, R>.Reference(x + m + y)) == Reference(m)
  {
    TrimUnique(x, m, y, '\\');
  }

  // ---------------------------------------------------------------------
  // construction and setters
  // ---------------------------------------------------------------------

  /** The constructor: origin, path and action go through their setters. */
  function NewRoute<C, R>(origin: string, path: string, action: Action<C, R>): (r: Route<C, R>)
    ensures Valid(r)
    ensures r.origin == NormalizeOrigin(origin)
    ensures r.path == NormalizePath(path)
    ensures r.action == NormalizeAction(action)
    ensures r.params == [] && r.name == None && r.options == map[]
  {
    Route(NormalizeOrigin(origin), NormalizePath(path), NormalizeAction(action), [], None, map[])
  }

  function SetOrigin<C, R>(r: Route<C, R>, origin: string): (r': Route<C, R>)
    ensures Valid(r) ==> Valid(r')
    ensures r' == r.(origin := r'.origin)
    ensures !StartsWith(r'.origin, '/')
    ensures |r'.origin| <= |origin|
    ensures origin == origin[..|origin| - |r'.origin|] + r'.origin
    ensures AllAre(origin[..|origin| - |r'.origin|], '/')
  {
    r.(origin := NormalizeOrigin(origin))
  }

  function SetPath<C, R>(r: Route<C, R>, path: string): (r': Route<C, R>)
    ensures Valid(r) ==> Valid(r')
    ensures r' == r.(path := r'.path)
    ensures NormalPath(r'.path)
    ensures r'.path == "/" <==> AllAre(path, '/')
    ensures r'.path == NormalizePath(path)
  {
    r.(path := NormalizePath(path))
  }

  function SetAction<C, R>(r: Route<C, R>, action: Action<C, R>): (r': Route<C, R>)
    ensures Valid(r) ==> Valid(r')
    ensures r' == r.(action := r'.action)
    ensures NormalAction(r'.action)
    ensures action.Closure? ==> r'.action == action
    ensures action.Reference? ==> r'.action.Reference? && |r'.action.ref| <= |action.ref|
    ensures r'.action == NormalizeAction(action)
  {
    r.(action := NormalizeAction(action))
  }

  /** `setActionParams`: the table is stored sorted by key. */
  function SetActionParams<C, R>(r: Route<C, R>, params: ParamArray): (r': Route<C, R>)
    ensures Valid(r) ==> Valid(r')
    ensures r' == r.(params := r'.params)
    ensures Ascending(r'.params)
    ensures |r'.params| == |params|
    ensures forall e :: e in r'.params <==> e in params
  {
    r.(params := KSort(params))
  }

  function SetName<C, R>(r: Route<C, R>, name: string): (r': Route<C, R>)
    ensures Valid(r) ==> Valid(r')
    ensures r' == r.(name := r'.name)
    ensures GetName(r') == Some(name)
  {
    r.(name := Some(name))
  }

  /** `setOptions` replaces the whole bag; nothing is merged. */
  function SetOptions<C, R>(r: Route<C, R>, options: map<string, string>): (r': Route<C, R>)
    ensures Valid(r) ==> Valid(r')
    ensures r' == r.(options := r'.options)
    ensures GetOptions(r') == options
  {
    r.(options := options)
  }

  /** Setting the stored path or origin again changes nothing. */
  lemma ResetPathUnchanged<C, R>(r: Route<C, R>)
    requires Valid(r)
    ensures SetPath(r, r.path) == r
  {
    NormalizePathFixes(r.path);
  }

  lemma ResetOriginUnchanged<C, R>(r: Route<C, R>)
    requires Valid(r)
    ensures SetOrigin(r, r.origin) == r
  {
    assert [] + r.origin == r.origin;
    NormalizeOriginRest([], r.origin);
  }

  /** After `setActionParams` every key answers with the value it was given. */
  lemma SetActionParamsBindings<C, R>(r: Route<C, R>, params: ParamArray, k: Key)
    ensures Lookup(SetActionParams(r, params).params, k) == Lookup(params, k)
  {
    KSortKeepsBindings(params, k);
  }

  // ---------------------------------------------------------------------
  // getters
  // ---------------------------------------------------------------------

  /** `getName`: the name last given to `setName`, none before that. */
  function GetName<C, R>(r: Route<C, R>): Option<string> {
    r.name
  }

  /** `getOptions`: the bag last given to `setOptions`, empty before that. */
  function GetOptions<C, R>(r: Route<C, R>): map<string, string> {
    r.options
  }

  /** The name read back is the one last set: a new route has none, and only
      `setName` changes it. */
  lemma NameReadBack<C, R>(r: Route<C, R>, origin: string, path: string, action: Action<C, R>,
                           name: string, options: map<string, string>, params: ParamArray)
    ensures GetName(NewRoute(origin, path, action)) == None
    ensures GetName(SetName(r, name)) == Some(name)
    ensures GetName(SetOrigin(r, origin)) == GetName(r)
    ensures GetName(SetPath(r, path)) == GetName(r)
    ensures GetName(SetAction(r, action)) == GetName(r)
    ensures GetName(SetActionParams(r, params)) == GetName(r)
    ensures GetName(SetOptions(r, options)) == GetName(r)
  {
  }

  /** The options read back are the bag last set: a new route has none, and
      only `setOptions` changes them. */
  lemma OptionsReadBack<C, R>(r: Route<C, R>, origin: string, path: string, action: Action<C, R>,
                              name: string, options: map<string, string>, params: ParamArray)
    ensures GetOptions(NewRoute(origin, path, action)) == map[]
    ensures GetOptions(SetOptions(r, options)) == options
    ensures GetOptions(SetOrigin(r, origin)) == GetOptions(r)
    ensures GetOptions(SetPath(r, path)) == GetOptions(r)
    ensures GetOptions(SetAction(r, action)) == GetOptions(r)
    ensures GetOptions(SetActionParams(r, params)) == GetOptions(r)
    ensures GetOptions(SetName(r, name)) == GetOptions(r)
  {
  }

  /** `getOrigin(...values)`: the stored template when no value is given,
      otherwise whatever the router's filler makes of it. */
  function GetOrigin<C, R>(r: Route<C, R>, router: Router, values: seq<string>): (s: Result<string, string>)
    ensures |values| == 0 ==> s == Ok(r.origin)
    ensures |values| > 0 ==> s == router.fill(r.origin, values)
  {
    if |values| > 0 then router.fill(r.origin, values) else Ok(r.origin)
  }

  /** `getPath(...values)`, likewise for the path template. */
  function GetPath<C, R>(r: Route<C, R>, router: Router, values: seq<string>): (s: Result<string, string>)
    ensures |values| == 0 ==> s == Ok(r.path)
    ensures |values| > 0 ==> s == router.fill(r.path, values)
  {
    if |values| > 0 then router.fill(r.path, values) else Ok(r.path)
  }

  /** `getURL`: rendered origin followed by rendered path; the origin is
      rendered first, so its failure is the one reported. */
  function GetURL<C, R>(r: Route<C, R>, router: Router, originValues: seq<string>, pathValues: seq<string>): (s: Result<string, string>)
    ensures s.Ok? <==> GetOrigin(r, router, originValues).Ok? && GetPath(r, router, pathValues).Ok?
    ensures s.Ok? ==> s.value == GetOrigin(r, router, originValues).value + GetPath(r, router, pathValues).value
    ensures GetOrigin(r, router, originValues).Err? ==> s == GetOrigin(r, router, originValues)
    ensures GetOrigin(r, router, originValues).Ok? && GetPath(r, router, pathValues).Err? ==>
      s == GetPath(r, router, pathValues)
  {
    var o :- GetOrigin(r, router, originValues);
    var p :- GetPath(r, router, pathValues);
    Ok(o + p)
  }

  /** Without values the URL is the two stored templates side by side, for
      every router; for a valid route the origin part never starts with `/`
      and the path part always does. */
  lemma PlainURL<C, R>(r: Route<C, R>, router: Router)
    requires Valid(r)
    ensures GetURL(r, router, [], []) == Ok(r.origin + r.path)
    ensures |r.origin| < |GetURL(r, router, [], []).value|
    ensures GetURL(r, router, [], []).value[|r.origin|] == '/'
  {
  }
}
