# Route — a Dafny model

This project models the `Route` class of the Framework Routing library: one
routable endpoint made of an origin template (`{scheme}://{host}[:port]`), a
path template, an action, an action-parameter table, an optional name and an
option bag. The model covers three things.

- **Normalisation and identity.** `setOrigin` drops every leading `/`.
  `setPath` drops every leading and trailing `/` and puts back one `/` in
  front. `setAction` drops every `\` at either end of a string reference.
  A closure action is stored unchanged. `getOrigin`, `getPath` and `getURL`
  return the stored templates, or hand them to the router's placeholder
  filler when values are given.
- **The action-parameter table.** `setActionParams` stores the table sorted by
  key (`ksort`).
- **Running the action.** A closure gets the parameter table and the
  constructor arguments. A reference `Class[::method[/key1/key2...]]` goes
  through these steps in order:
  1. It gets the router's default method when it names none.
  2. It is split at the first `::`.
  3. Each `/`-separated key is replaced by its value in the table, in the
     order the keys are written.
  4. The class is looked up, then instantiated, then its method is looked up.
  5. The target runs its `beforeAction` / main / `afterAction` lifecycle.

Files, one module each:

- `results.dfy` (`Results`): `Option` (PHP `null` or a value) and `Result`
  (a value or what would have been thrown).
- `text.dfy` (`Text`): PHP `ltrim`, `rtrim` and `trim` with one character.
  `explode` on one character, with `implode` as its inverse. First occurrence
  of a pattern, as used by `str_contains` and by `explode` with limit 2.
- `param_table.dfy` (`ParamTable`): the key order, table lookup, and `ksort`
  written as insertion sort.
- `routes.dfy` (`Routes`): the `Route` datatype, its invariant `Valid`, the
  constructor, setters and getters, and `getURL`.
- `dispatch.dfy` (`Dispatch`): splitting the reference, parsing the method
  spec, the class/method registry, the lifecycle, and `run`.

Collaborators outside the class become parameters.
- The router is a `Router` value. It holds the placeholder filler, a function
  that may fail with a message, and the default method name. The filler is
  only consulted when values are passed.
- PHP reflection (`class_exists`, `new $classname(...)`, `method_exists`,
  dynamic calls) becomes a `Registry`. It maps a class name to a factory that
  takes the constructor arguments and returns a `Target`. A `Target` has an
  optional `beforeAction`, a method table and an optional `afterAction`.
- Hooks, methods and closures are abstract functions. A PHP `null` response
  is `None`.

Two details of the code that the model keeps exactly:
- `setOrigin` removes every leading `/`, not only one, because it uses
  `ltrim`.
- The main method is skipped whenever `beforeAction` returns anything other
  than `null`. This includes `""`, `false` and `[]`, because the test is
  `=== null`.

## Model

| member | source | states |
|---|---|---|
| Text.LeadingRun | src/Route.php:78 | The length of the run of `c` at the front of `s`: every character before it is `c`, and the character at it, if any, is not. |
| Text.TrailingStart | src/Route.php:139 | Where the run of `c` at the back of `s` begins: every character from there on is `c`, and the one just before, if any, is not. |
| Text.LeadingRunUnique | src/Route.php:78 | Any length with only `c` before it and no `c` at it is the front run's length. |
| Text.TrailingStartUnique | src/Route.php:139 | Any position with only `c` from it on and no `c` just before it is where the back run begins. |
| Text.TrimLeft | src/Route.php:78 | `ltrim(s, c)` is a suffix of `s`. Everything it removed is `c`. What remains does not start with `c`. |
| Text.TrimRight | src/Route.php:139 | `rtrim(s, c)` is a prefix of `s`. Everything it removed is `c`. What remains does not end with `c`. |
| Text.Trim | src/Route.php:139 | `trim(s, c)` is a contiguous middle of `s`. Everything before and after it is `c`. It neither starts nor ends with `c`. It is empty exactly when `s` is all `c`. |
| Text.TrimLeftUnique | src/Route.php:78 | For any split of `s` into a run of `c` and a rest not starting with `c`, `ltrim` returns that rest. |
| Text.TrimUnique | src/Route.php:139 | For any decomposition of `s` into run of `c` + middle + run of `c`, where the middle neither starts nor ends with `c`, `trim` returns that middle. |
| Text.TrimIdempotent | src/Route.php:139 | Trimming an already trimmed string changes nothing. |
| Text.TrimFixes | src/Route.php:139 | A string that neither starts nor ends with `c` is its own `trim`. |
| Text.Split | src/Route.php:270 | `explode('/', s)` gives at least one piece. No piece contains the delimiter. Joining the pieces with the delimiter gives `s` back. |
| Text.SplitJoin | src/Route.php:270 | Exploding the join of delimiter-free pieces gives back exactly those pieces. |
| Text.SplitNoDelimiter | src/Route.php:267-268 | A spec without `/` explodes to itself alone. |
| Text.IndexOf | src/Route.php:224-227 | Returns the first index where the pattern occurs, and no earlier index holds it. Returns none exactly when the pattern occurs nowhere. |
| ParamTable.BelowTotal | src/Route.php:204 | Any two distinct keys are ordered one way or the other, so `ksort` has a total order to sort by. |
| ParamTable.BelowTransitive | src/Route.php:204 | The key order is transitive. |
| ParamTable.Lookup | src/Route.php:277-280 | Finds a value exactly when the key exists (`array_key_exists`). The value it finds is bound to that key in the table. |
| ParamTable.Insert | src/Route.php:204 | Inserting a new key into an ascending table keeps it ascending. It adds exactly that pair. |
| ParamTable.KSort | src/Route.php:204 | The result has keys in strictly ascending order. It has the same length and holds exactly the same pairs as the input. |
| ParamTable.KSortKeepsBindings | src/Route.php:202-207 | After sorting, every key looks up the same value as before, or is still absent. |
| ParamTable.KSortSorted | src/Route.php:204 | Sorting an already ascending table returns it unchanged. |
| Routes.NormalizeOrigin | src/Route.php:76-80 | The stored origin never starts with `/`. The input is a run of `/` followed by the stored origin. |
| Routes.NormalizeOriginRest | src/Route.php:76-80 | For input = run of `/` + rest, where rest does not start with `/`, the stored origin is exactly that rest. |
| Routes.NormalizeOriginIdempotent | src/Route.php:76-80 | Normalising an origin twice equals normalising it once. |
| Routes.NormalizePath | src/Route.php:137-141 | The stored path starts with `/`. Its remainder neither starts nor ends with `/`. The path is exactly `"/"` iff the input is empty or only slashes. |
| Routes.NormalizePathMiddle | src/Route.php:137-141 | For input = slashes + middle + slashes, where the middle has no `/` at either end, the stored path is `/` followed by that middle. |
| Routes.NormalizePathFixes | src/Route.php:137-141 | A path already in stored form is a fixed point of `setPath`. |
| Routes.NormalizePathIdempotent | src/Route.php:137-141 | Normalising a path twice equals normalising it once. |
| Routes.NormalizeAction | src/Route.php:177-181 | A closure is stored unchanged. A reference stays a reference with no `\` at either end. |
| Routes.NormalizeActionMiddle | src/Route.php:177-181 | For a reference = backslashes + middle + backslashes, where the middle has no `\` at either end, the stored reference is exactly that middle. The interior is untouched. |
| Routes.NormalizeActionIdempotent | src/Route.php:177-181 | Setting an action twice equals setting it once. |
| Routes.NewRoute | src/Route.php:44-54 | The constructor yields a route satisfying the invariant: normalised origin, path and action, an empty table, no name and no options. |
| Routes.SetOrigin | src/Route.php:76-80 | Keeps the route invariant when it held. Only the origin changes. The new origin is the input minus its leading run of `/`. |
| Routes.SetPath | src/Route.php:137-141 | Keeps the route invariant when it held. Only the path changes. The new path is the normalised input, so `NormalizePath`'s laws hold of it: stored form, and `"/"` exactly for inputs made only of slashes. |
| Routes.SetAction | src/Route.php:177-181 | Keeps the route invariant when it held. Only the action changes. The new action is the normalised input, so `NormalizeAction`'s laws hold of it: a reference has no `\` at either end and a closure is stored as given. |
| Routes.SetActionParams | src/Route.php:202-207 | Keeps the route invariant when it held. Only the table changes. The stored table has strictly ascending keys. It holds exactly the given pairs. |
| Routes.SetActionParamsBindings | src/Route.php:202-207 | After `setActionParams`, every key maps to the value it was given. |
| Routes.SetName | src/Route.php:126-130 | Keeps the route invariant when it held. Only the name changes. `getName` then returns it. |
| Routes.SetOptions | src/Route.php:109-113 | Keeps the route invariant when it held. Only the options change. `getOptions` returns exactly the given bag, with no merge. |
| Routes.ResetPathUnchanged | src/Route.php:137-156 | Calling `setPath(getPath())` on a valid route changes nothing. |
| Routes.ResetOriginUnchanged | src/Route.php:63-80 | Calling `setOrigin(getOrigin())` on a valid route changes nothing. |
| Routes.NameReadBack | src/Route.php:115-119 | `getName` returns none on a new route, returns the name given to the last `setName`, and is unchanged by every other setter. |
| Routes.OptionsReadBack | src/Route.php:98-102 | `getOptions` returns an empty bag on a new route, returns the bag given to the last `setOptions`, and is unchanged by every other setter. |
| Routes.GetOrigin | src/Route.php:63-69 | With no values it returns the stored origin, for any filler. With values it returns the filler's answer. |
| Routes.GetPath | src/Route.php:150-156 | With no values it returns the stored path, for any filler. With values it returns the filler's answer. |
| Routes.GetURL | src/Route.php:90-93 | Succeeds iff both parts render, and the URL is origin then path. An origin failure is reported first, then a path failure. |
| Routes.PlainURL | src/Route.php:90-93 | `getURL([], [])` is the stored origin followed by the stored path. For a valid route the `/` of the path comes right after the origin. |
| Dispatch.SplitReference | src/Route.php:224-227 | After appending the default method when `::` is absent: class + `::` + method spec gives back the reference. The split is at the first `::`: the class part contains no `::` and does not end in `:`. |
| Dispatch.FirstSeparatorAfter | src/Route.php:227 | The first `::` after a class name with no `::` and no trailing `:` is the one right after it. |
| Dispatch.SplitExplicitMethod | src/Route.php:227 | `Class::spec` splits into exactly `Class` and `spec`, even when `spec` contains further `::`. |
| Dispatch.SplitDefaultMethod | src/Route.php:224-227 | A reference without `::` that does not end in `:` resolves to that class and the router's default method. |
| Dispatch.TrailingColonReference | src/Route.php:224-227 | As written, a reference without `::` that ends in `:` loses that colon from its class name, and the method spec becomes `:` followed by the default method (`Users:` with `index` gives `Users` and `:index`). |
| Dispatch.LookupAll | src/Route.php:273-282 | Succeeds iff every key exists. It gives one value per key, in the keys' order, each equal to the table's value. Otherwise it fails naming the first missing key. |
| Dispatch.ParseMethodSpec | src/Route.php:265-287 | Without `/`: the spec is the method and there are no arguments. Otherwise the first `/`-segment is the method and each later segment is a key. Succeeds iff all keys exist, with one argument per key in order. Otherwise fails naming the first missing key. |
| Dispatch.ParseBuiltSpec | src/Route.php:265-287 | A spec built as `method/key1/key2...` from slash-free parts parses back to that method. It succeeds iff every key exists, and then gives one argument per key, in order, each the key's value. |
| Dispatch.Lifecycle | src/Route.php:241-255 | The state records the method and arguments. `actionRun` is true iff there is no `beforeAction` or it returned `null`. The main method is called, with the resolved arguments, exactly then. Hooks run at most once, in before, main, after order. `afterAction` on the prior response overrides it when present. |
| Dispatch.LifecycleIsMachine | src/Route.php:241-255 | A machine that runs one stage per step (before, main if the response is still `null`, after) ends after three steps where the lifecycle ends: same response, state and call trace. More steps change nothing. |
| Dispatch.ShortCircuit | src/Route.php:244-254 | A non-null `beforeAction` result skips the main method. The response is that result, passed through `afterAction` if present. |
| Dispatch.Resolve | src/Route.php:224-240 | An undefined key is reported first, then a missing class, then a missing method, in both directions: once every key is found, a class the registry lacks always gives the missing-class error for it, and a method the instance lacks always gives the missing-method error. Success means the class exists, the method exists on the instance built from the constructor arguments, and the call is the parsed spec. |
| Dispatch.UndefinedParameterFirst | src/Route.php:228-230 | When a key of the method spec is missing, resolution fails with an undefined-parameter error. That error is the same whatever the registry and the constructor arguments, so it is raised before the class check. |
| Dispatch.Run | src/Route.php:218-256 | A closure gets the table and the constructor arguments. A reference succeeds iff it resolves, and then returns the lifecycle's response. Otherwise it fails with the resolution error. |
| Dispatch.UnresolvedThroughRun | src/Route.php:229-240 | Running a reference whose keys are all found fails with the missing-class error when the class is absent, and with the missing-method error when the instance lacks the method. |
| Dispatch.ClosureSkipsResolution | src/Route.php:220-223 | A closure action's result does not depend on the router or the registry. |
| Dispatch.BlogEditOrder | src/Route.php:265-287 | `edit/0/2/1` over {0: x, 1: y, 2: z} calls `edit` with x, z, y. |
| Dispatch.UsersShowKey | src/Route.php:276-280 | `show/id` with {id: 42} passes `42`. With an empty table it fails naming `id`. |
| Dispatch.UsersDefaultIndex | src/Route.php:224-228 | `Users` with default `index` resolves to `Users::index` with no arguments. |

## Left out

- The router itself. `Router::fillPlaceholders` and `getDefaultRouteActionMethod` are not part of this model. They are fields of the `Router` parameter, and the route is passed its router on each call instead of holding it.
- PHP reflection. Class existence, instantiation and method existence are lookups in the `Registry` map and the target's method table. Constructor arguments are opaque values handed to the factory.
- Closure bodies, hook bodies and method bodies are abstract functions. A hook sees the dispatch state but cannot change it. In PHP, `beforeAction` could overwrite `actionRun` or `actionParams` on the instance; the model does not cover that.
- A main method named `beforeAction` or `afterAction` is looked up in the method table only. The model does not treat it as a hook at the same time.
- Arity. Calling a main method with fewer arguments than it declares throws PHP's `ArgumentCountError`; extra arguments are ignored. The model passes the argument list to an abstract function and does not cover either case.
- Case. `class_exists`, `method_exists` and PHP's dynamic calls ignore ASCII case in class and method names (src/Route.php:229, 236, 250). The registry and the method table match names exactly, so `users::SHOW` does not find `Users::show` here.
- Exceptions thrown by a constructor, `beforeAction`, the main method or `afterAction` propagate out of `run` and skip every later stage (src/Route.php:235-254). Hooks, methods and factories are total functions here, so `afterAction` always runs once it exists.
- Keys. `ParamTable.KSort` uses one key type: strings compared by code point, the order PHP uses between two non-numeric string keys. PHP stores a canonical decimal-integer string such as `"10"` as the integer key `10`, and sorts integer keys numerically, so `"10"` comes after `"2"` there but before it here. Other numeric strings such as `"1.5"` stay string keys, but the default `ksort` comparison still compares them numerically with each other and with integer keys. `ParamTable.Lookup` matches keys exactly: `"0"` and `0` are the same key in PHP, while the model has only strings.
- Values in the parameter table and options are strings; PHP allows mixed values in both. The options bag is a `map<string, string>`, so PHP's key order and integer keys are not kept: `getOptions` in PHP returns the array in the order it was given, with its keys as given.
- Exceptions are reduced to which key, class or method failed. Exception classes and message text are not modelled. Filler failures carry the filler's message unchanged.
- PHP strings are byte strings; here they are sequences of characters.
- The trivial getters `getAction` and `getActionParams` are plain field reads of the `Route` datatype.
- `tests/Support/UsersRouteActionsResource.php` is a fixture whose methods return their own names. It only gives the shape of a target (`index`, `show(id)`, ...).
