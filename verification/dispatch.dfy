/**
 * Running a route: a closure action is called with the parameter table; a
 * reference `Class[::method[/key...]]` is split, its keys are looked up in
 * the table, the class and method are resolved in a registry that stands in
 * for PHP reflection, and the target goes through its before / main / after
 * lifecycle.
 */
module Dispatch {
  import opened Results
  import opened Text
  import opened ParamTable
  import opened Routes

  /** What `run` throws, reduced to which key, class or method failed. */
  datatype RouteError =
    | UndefinedParameter(key: string)
    | UnresolvedClass(className: string)
    | UnresolvedMethod(className: string, methodName: string)

  /** A parsed method spec: the method name and the values found in the table
      for its keys, in the order the keys were written. */
  datatype MethodCall = MethodCall(methodName: string, args: seq<string>)

  // ---------------------------------------------------------------------
  // splitting a reference
  // ---------------------------------------------------------------------

  /** The reference with the default method appended when it names none. */
  function WithDefaultMethod(ref: string, defaultMethod: string): string {
    if Contains(ref, "::") then ref else ref + "::" + defaultMethod
  }

  lemma OccursInPrefix(s: string, pat: string, n: nat, j: nat)
    requires n <= |s| && OccursAt(s[..n], pat, j)
    ensures OccursAt(s, pat, j)
  {
    assert s[..n][j..j + |pat|] == s[j..j + |pat|];
  }

  /** `explode('::', WithDefaultMethod(ref), 2)`: the class name before the
      first `::` and the method spec after it. */
  function SplitReference(ref: string, defaultMethod: string): (parts: (string, string))
    ensures parts.0 + "::" + parts.1 == WithDefaultMethod(ref, defaultMethod)
    ensures !Contains(parts.0, "::")
    ensures IndexOf(WithDefaultMethod(ref, defaultMethod), "::") == Some(|parts.0|)
    ensures !EndsWith(parts.0, ':')
  {
    var full := WithDefaultMethod(ref, defaultMethod);
    assert Contains(full, "::") by {
      if !Contains(ref, "::") {
        assert OccursAt(full, "::", |ref|) by {
          assert full[|ref|..|ref| + 2] == "::";
        }
      }
    }
    var i := IndexOf(full, "::").value;
    var cls := full[..i];
    assert !Contains(cls, "::") by {
      if Contains(cls, "::") {
        OccursInPrefix(full, "::", i, IndexOf(cls, "::").value);
      }
    }
    assert !EndsWith(cls, ':') by {
      if i > 0 {
        assert !OccursAt(full, "::", i - 1);
        assert full[i] == ':' by { assert full[i..i + 2][0] == full[i]; }
        assert full[i - 1..i + 1] == [full[i - 1], full[i]];
      }
    }
    assert full == cls + "::" + full[i + 2..] by {
      assert full[i..i + 2] == "::";
    }
    (cls, full[i + 2..])
  }

  /** With a class name that has no `::` and does not end in `:`, the first
      `::` after it is the one written right after it. */
  lemma FirstSeparatorAfter(cls: string, rest: string)
    requires !Contains(cls, "::") && !EndsWith(cls, ':')
    ensures IndexOf(cls + "::" + rest, "::") == Some(|cls|)
  {
    var s := cls + "::" + rest;
    assert OccursAt(s, "::", |cls|) by {
      assert s[|cls|..|cls| + 2] == "::";
    }
    assert IndexOf(cls, "::").None?;
    forall j: nat | j < |cls| ensures !OccursAt(s, "::", j) {
      if j + 2 <= |cls| {
        assert !OccursAt(cls, "::", j);
        assert s[j..j + 2] == cls[j..j + 2];
      } else {
        assert s[j..j + 2][0] == cls[|cls| - 1];
      }
    }
  }

  /** A string with no `:` before its last character has no `::`. */
  lemma NoSeparator(s: string)
    requires |s| > 0 && ':' !in s[..|s| - 1]
    ensures !Contains(s, "::")
  {
    forall j: nat ensures !OccursAt(s, "::", j) {
      if j + 2 <= |s| {
        assert s[j] == s[..|s| - 1][j];
        assert s[j..j + 2][0] == s[j];
      }
    }
  }

  /** A reference that names its method splits at the `::` after the class. */
  lemma SplitExplicitMethod(cls: string, spec: string, defaultMethod: string)
    requires !Contains(cls, "::") && !EndsWith(cls, ':')
    ensures SplitReference(cls + "::" + spec, defaultMethod) == (cls, spec)
  {
    FirstSeparatorAfter(cls, spec);
    var s := cls + "::" + spec;
    assert s[..|cls|] == cls && s[|cls| + 2..] == spec;
  }

  /** A reference without `::` gets the default method. */
  lemma SplitDefaultMethod(ref: string, defaultMethod: string)
    requires !Contains(ref, "::") && !EndsWith(ref, ':')
    ensures SplitReference(ref, defaultMethod) == (ref, defaultMethod)
  {
    FirstSeparatorAfter(ref, defaultMethod);
    var s := ref + "::" + defaultMethod;
    assert s[..|ref|] == ref && s[|ref| + 2..] == defaultMethod;
  }

  /** As written, a reference without `::` that ends in `:` shares that
      colon with the appended separator, so the class name loses its last
      character and the method spec gains a leading `:`. */
  lemma TrailingColonReference(ref: string, defaultMethod: string)
    requires !Contains(ref, "::") && EndsWith(ref, ':')
    ensures SplitReference(ref, defaultMethod) == (ref[..|ref| - 1], ":" + defaultMethod)
  {
    var cls := ref[..|ref| - 1];
    DropTrailingColon(ref);
    var full := ref + "::" + defaultMethod;
    assert full == cls + "::" + (":" + defaultMethod) by {
      assert ref == cls + ":";
    }
    SplitExplicitParts(cls, ":" + defaultMethod);
    assert WithDefaultMethod(ref, defaultMethod) == full;
  }

  /** Dropping the trailing `:` of a `::`-free string leaves a class name
      with no `::` that does not end in `:`. */
  lemma DropTrailingColon(ref: string)
    requires !Contains(ref, "::") && EndsWith(ref, ':')
    ensures !Contains(ref[..|ref| - 1], "::") && !EndsWith(ref[..|ref| - 1], ':')
  {
    var n := |ref|;
    var cls := ref[..n - 1];
    if Contains(cls, "::") {
      OccursInPrefix(ref, "::", n - 1, IndexOf(cls, "::").value);
    }
    if n >= 2 {
      assert !OccursAt(ref, "::", n - 2);
      assert ref[n - 2..n] == [ref[n - 2], ref[n - 1]];
      assert cls[n - 2] == ref[n - 2];
    }
  }

  /** `explode('::', s, 2)` on `cls::rest` with a clean class name. */
  lemma SplitExplicitParts(cls: string, rest: string)
    requires !Contains(cls, "::") && !EndsWith(cls, ':')
    ensures var s := cls + "::" + rest;
      IndexOf(s, "::") == Some(|cls|) && s[..|cls|] == cls && s[|cls| + 2..] == rest
  {
    FirstSeparatorAfter(cls, rest);
    var s := cls + "::" + rest;
    assert s[..|cls|] == cls && s[|cls| + 2..] == rest;
  }

  // ---------------------------------------------------------------------
  // parsing a method spec
  // ---------------------------------------------------------------------

  /** Looks the keys up in the table in the order given; the first key the
      table lacks is reported. */
  function LookupAll(keys: seq<Key>, table: Table): (r: Result<seq<string>, RouteError>)
    ensures r.Ok? <==> forall i :: 0 <= i < |keys| ==> HasKey(table, keys[i])
    ensures r.Ok? ==> |r.value| == |keys|
    ensures r.Ok? ==> forall i :: 0 <= i < |keys| ==> Lookup(table, keys[i]) == Some(r.value[i])
    ensures r.Err? ==> exists i :: (0 <= i < |keys| && r.error == UndefinedParameter(keys[i])
                                    && !HasKey(table, keys[i])
                                    && forall j :: 0 <= j < i ==> HasKey(table, keys[j]))
    decreases |keys|
  {
    if |keys| == 0 then
      Ok([])
    else
      match Lookup(table, keys[0])
      case None => Err(UndefinedParameter(keys[0]))
      case Some(v) =>
        var rest := LookupAll(keys[1..], table);
        if rest.Err? then
          var i :| 0 <= i < |keys[1..]| && rest.error == UndefinedParameter(keys[1..][i])
            && !HasKey(table, keys[1..][i])
            && forall j :: 0 <= j < i ==> HasKey(table, keys[1..][j]);
          assert keys[i + 1] == keys[1..][i];
          assert forall j :: 0 <= j < i + 1 ==> HasKey(table, keys[j]) by {
            forall j | 0 <= j < i + 1 ensures HasKey(table, keys[j]) {
              if j > 0 { assert keys[j] == keys[1..][j - 1]; }
            }
          }
          Err(rest.error)
        else
          assert forall i :: 1 <= i < |keys| ==> keys[i] == keys[1..][i - 1];
          Ok([v] + rest.value)
  }

  /** `extractActionAndParams`: `method` alone, or `method/key1/key2...`
      whose keys are replaced by their values in the table. */
  function ParseMethodSpec(spec: string, table: Table): (r: Result<MethodCall, RouteError>)
    ensures '/' !in spec ==> r == Ok(MethodCall(spec, []))
    ensures var segs := Split(spec, '/');
      && (r.Ok? <==> forall i :: 1 <= i < |segs| ==> HasKey(table, segs[i]))
      && (r.Ok? ==> r.value.methodName == segs[0] && |r.value.args| == |segs| - 1)
      && (r.Ok? ==> forall i :: 1 <= i < |segs| ==> Lookup(table, segs[i]) == Some(r.value.args[i - 1]))
      && (r.Err? ==> exists i :: (1 <= i < |segs| && r.error == UndefinedParameter(segs[i])
                                    && !HasKey(table, segs[i])
                                    && forall j :: 1 <= j < i ==> HasKey(table, segs[j])))
  {
    var segs := Split(spec, '/');
    if '/' !in spec then
      SplitNoDelimiter(spec, '/');
      Ok(MethodCall(spec, []))
    else
      var keys := segs[1..];
      var looked := LookupAll(keys, table);
      assert forall i :: 1 <= i < |segs| ==> segs[i] == keys[i - 1];
      if looked.Err? then
        var k :| 0 <= k < |keys| && looked.error == UndefinedParameter(keys[k])
          && !HasKey(table, keys[k])
          && forall j :: 0 <= j < k ==> HasKey(table, keys[j]);
        assert segs[k + 1] == keys[k];
        Err(looked.error)
      else
        Ok(MethodCall(segs[0], looked.value))
  }

  /** A spec built as `method/key1/key2...` parses back to that method and
      to the values of those keys, in that order. */
  lemma ParseBuiltSpec(methodName: string, keys: seq<Key>, table: Table)
    requires '/' !in methodName
    requires forall i :: 0 <= i < |keys| ==> '/' !in keys[i]
    ensures var r := ParseMethodSpec(Join([methodName] + keys, '/'), table);
      && (r.Ok? <==> forall i :: 0 <= i < |keys| ==> HasKey(table, keys[i]))
      && (r.Ok? ==> r.value.methodName == methodName && |r.value.args| == |keys|)
      && (r.Ok? ==> forall i :: 0 <= i < |keys| ==> Lookup(table, keys[i]) == Some(r.value.args[i]))
  {
    var parts := [methodName] + keys;
    SplitJoin(parts, '/');
    assert forall i :: 0 <= i < |keys| ==> keys[i] == parts[i + 1];
  }

  // ---------------------------------------------------------------------
  // the lifecycle
  // ---------------------------------------------------------------------

  /** The metadata `run` records on the target: the method to run, its
      resolved arguments, and whether the main method has run. */
  datatype DispatchState = DispatchState(methodName: string, args: seq<string>, ran: bool)

  /** An instantiated dispatch target: the optional `beforeAction` and
      `afterAction` hooks and the methods it defines. A `None` response is
      PHP `null`. */
  datatype Target<!R> = Target(
    before: Option<DispatchState -> Option<R>>,
    methods: map<string, seq<string> -> Option<R>>,
    after: Option<(DispatchState, Option<R>) -> Option<R>>)

  /** What the lifecycle invoked, in order. */
  datatype Invocation = CalledBefore | CalledMain(methodName: string, args: seq<string>) | CalledAfter

  datatype Completion<R> = Completion(response: Option<R>, state: DispatchState, trace: seq<Invocation>)

  function Stage(i: Invocation): nat {
    match i
    case CalledBefore => 0
    case CalledMain(_, _) => 1
    case CalledAfter => 2
  }

  /** Each stage at most once, and before, main and after in that order. */
  predicate InStageOrder(trace: seq<Invocation>) {
    forall i, j :: 0 <= i < j < |trace| ==> Stage(trace[i]) < Stage(trace[j])
  }

  /** The state the target sees before its main method runs. */
  function Pending(call: MethodCall): DispatchState {
    DispatchState(call.methodName, call.args, false)
  }

  /** The `beforeAction` result, `null` when there is no such hook. */
  function EarlyResponse<R>(target: Target<R>, call: MethodCall): Option<R> {
    if target.before.Some? then target.before.value(Pending(call)) else None
  }

  /** The before / main / after lifecycle of `run`. */
  function Lifecycle<R>(target: Target<R>, call: MethodCall): (c: Completion<R>)
    requires call.methodName in target.methods
    ensures c.state.methodName == call.methodName && c.state.args == call.args
    ensures c.state.ran <==> EarlyResponse(target, call).None?
    ensures CalledMain(call.methodName, call.args) in c.trace <==> c.state.ran
    ensures forall k :: 0 <= k < |c.trace| && c.trace[k].CalledMain? ==>
      c.trace[k] == CalledMain(call.methodName, call.args)
    ensures CalledBefore in c.trace <==> target.before.Some?
    ensures CalledAfter in c.trace <==> target.after.Some?
    ensures InStageOrder(c.trace)
    ensures var prior := if c.state.ran then target.methods[call.methodName](call.args)
                         else EarlyResponse(target, call);
      c.response == if target.after.Some? then target.after.value(c.state, prior) else prior
  {
    var early := EarlyResponse(target, call);
    var ran := early.None?;
    var state := Pending(call).(ran := ran);
    var prior := if ran then target.methods[call.methodName](call.args) else early;
    var response := if target.after.Some? then target.after.value(state, prior) else prior;
    var trace :=
      (if target.before.Some? then [CalledBefore] else [])
      + (if ran then [CalledMain(call.methodName, call.args)] else [])
      + (if target.after.Some? then [CalledAfter] else []);
    Completion(response, state, trace)
  }

  /** A non-null `beforeAction` result skips the main method: the response
      is that result, passed through `afterAction` when there is one. */
  lemma ShortCircuit<R>(target: Target<R>, call: MethodCall)
    requires call.methodName in target.methods
    requires target.before.Some? && target.before.value(Pending(call)).Some?
    ensures var c := Lifecycle(target, call);
      && !c.state.ran
      && (forall k :: 0 <= k < |c.trace| ==> !c.trace[k].CalledMain?)
      && c.response == if target.after.Some?
                       then target.after.value(c.state, target.before.value(Pending(call)))
                       else target.before.value(Pending(call))
  {
  }

  /** The lifecycle as a machine that takes one stage per step. */
  datatype Phase = AtBefore | AtMain | AtAfter | Done

  datatype Machine<R> = Machine(phase: Phase, response: Option<R>, state: DispatchState, trace: seq<Invocation>)

  function Start<R>(call: MethodCall): Machine<R> {
    Machine(AtBefore, None, Pending(call), [])
  }

  /** One stage: run the hook or method of the current phase, if there is one
      and it is due, and move to the next phase. */
  function Step<R>(target: Target<R>, call: MethodCall, m: Machine<R>): Machine<R>
    requires call.methodName in target.methods
  {
    match m.phase
    case AtBefore =>
      if target.before.Some? then
        Machine(AtMain, target.before.value(m.state), m.state, m.trace + [CalledBefore])
      else
        m.(phase := AtMain)
    case AtMain =>
      if m.response.None? then
        Machine(AtAfter, target.methods[call.methodName](call.args), m.state.(ran := true),
                m.trace + [CalledMain(call.methodName, call.args)])
      else
        m.(phase := AtAfter)
    case AtAfter =>
      if target.after.Some? then
        Machine(Done, target.after.value(m.state, m.response), m.state, m.trace + [CalledAfter])
      else
        m.(phase := Done)
    case Done => m
  }

  function Steps<R>(target: Target<R>, call: MethodCall, m: Machine<R>, n: nat): Machine<R>
    requires call.methodName in target.methods
    decreases n
  {
    if n == 0 then m else Steps(target, call, Step(target, call, m), n - 1)
  }

  /** Three steps of the machine end where the lifecycle ends, and further
      steps change nothing. */
  lemma LifecycleIsMachine<R>(target: Target<R>, call: MethodCall, extra: nat)
    requires call.methodName in target.methods
    ensures var c := Lifecycle(target, call);
      Steps(target, call, Start(call), 3 + extra) == Machine(Done, c.response, c.state, c.trace)
  {
    var m0: Machine<R> := Start(call);
    var m1 := Step(target, call, m0);
    var m2 := Step(target, call, m1);
    var m3 := Step(target, call, m2);
    assert Steps(target, call, m0, 3) == m3 by {
      assert Steps(target, call, m2, 1) == m3;
      assert Steps(target, call, m1, 2) == m3;
    }
    var c := Lifecycle(target, call);
    assert m1.state == m0.state && m1.response == EarlyResponse(target, call);
    assert m3 == Machine(Done, c.response, c.state, c.trace);
    DoneIsFinal(target, call, m3, extra);
    StepsAdd(target, call, Start(call), 3, extra);
  }

  lemma {:induction false} DoneIsFinal<R>(target: Target<R>, call: MethodCall, m: Machine<R>, n: nat)
    requires call.methodName in target.methods && m.phase == Done
    ensures Steps(target, call, m, n) == m
    decreases n
  {
    if n > 0 {
      DoneIsFinal(target, call, m, n - 1);
    }
  }

  lemma {:induction false} StepsAdd<R>(target: Target<R>, call: MethodCall, m: Machine<R>, a: nat, b: nat)
    requires call.methodName in target.methods
    ensures Steps(target, call, m, a + b) == Steps(target, call, Steps(target, call, m, a), b)
    decreases a
  {
    if a > 0 {
      StepsAdd(target, call, Step(target, call, m), a - 1, b);
    }
  }

  // ---------------------------------------------------------------------
  // resolution and run
  // ---------------------------------------------------------------------

  /** Class names mapped to factories taking the constructor arguments: the
      registry that replaces `class_exists` and `new $classname(...)`. */
  type Registry<!C, !R> = map<string, seq<C> -> Target<R>>

  datatype Resolved<!R> = Resolved(className: string, target: Target<R>, call: MethodCall)

  /** Resolving a reference: default method, split at the first `::`, key
      lookup, class check, instantiation, method check, in that order. */
  function Resolve<C, R>(ref: string, table: Table, defaultMethod: string, registry: Registry<C, R>, construct: seq<C>): (r: Result<Resolved<R>, RouteError>)
    ensures var (cls, spec) := SplitReference(ref, defaultMethod);
      var parsed := ParseMethodSpec(spec, table);
      && (parsed.Err? ==> r == Err(parsed.error))
      && (r.Err? && r.error.UnresolvedClass? ==> parsed.Ok? && cls !in registry && r.error.className == cls)
      && (r.Err? && r.error.UnresolvedMethod? ==>
            parsed.Ok? && cls in registry && parsed.value.methodName !in registry[cls](construct).methods
            && r.error == UnresolvedMethod(cls, parsed.value.methodName))
      && (parsed.Ok? && cls !in registry ==> r == Err(UnresolvedClass(cls)))
      && (parsed.Ok? && cls in registry && parsed.value.methodName !in registry[cls](construct).methods ==>
            r == Err(UnresolvedMethod(cls, parsed.value.methodName)))
      && (r.Ok? <==> parsed.Ok? && cls in registry && parsed.value.methodName in registry[cls](construct).methods)
      && (r.Ok? ==> (r.value.className == cls && r.value.call == parsed.value
                     && r.value.target == registry[cls](construct)))
  {
    var (cls, spec) := SplitReference(ref, defaultMethod);
    var call :- ParseMethodSpec(spec, table);
    if cls !in registry then
      Err(UnresolvedClass(cls))
    else
      var target := registry[cls](construct);
      if call.methodName !in target.methods then
        Err(UnresolvedMethod(cls, call.methodName))
      else
        Ok(Resolved(cls, target, call))
  }

  /** An undefined parameter is reported whatever the registry holds and
      whatever the constructor arguments are: it is checked first. */
  lemma UndefinedParameterFirst<C, R>(ref: string, table: Table, defaultMethod: string,
                                      reg1: Registry<C, R>, construct1: seq<C>,
                                      reg2: Registry<C, R>, construct2: seq<C>)
    ensures ParseMethodSpec(SplitReference(ref, defaultMethod).1, table).Err? ==>
      && Resolve(ref, table, defaultMethod, reg1, construct1).Err?
      && Resolve(ref, table, defaultMethod, reg1, construct1).error.UndefinedParameter?
      && Resolve(ref, table, defaultMethod, reg2, construct2) == Resolve(ref, table, defaultMethod, reg1, construct1)
  {
    var parsed := ParseMethodSpec(SplitReference(ref, defaultMethod).1, table);
    if parsed.Err? {
      var segs := Split(SplitReference(ref, defaultMethod).1, '/');
      var i :| 1 <= i < |segs| && parsed.error == UndefinedParameter(segs[i]);
    }
  }

  /** `run`: a closure gets the parameter table and the constructor
      arguments; a reference is resolved and taken through the lifecycle. */
  function Run<C, R>(route: Route<C, R>, router: Router, registry: Registry<C, R>, construct: seq<C>): (r: Result<Option<R>, RouteError>)
    ensures route.action.Closure? ==> r == Ok(route.action.fn(route.params, construct))
    ensures route.action.Reference? ==>
      var res := Resolve(route.action.ref, route.params, router.defaultMethod, registry, construct);
      && (r.Ok? <==> res.Ok?)
      && (res.Err? ==> r == Err(res.error))
      && (res.Ok? ==> r.value == Lifecycle(res.value.target, res.value.call).response)
  {
    match route.action
    case Closure(fn) => Ok(fn(route.params, construct))
    case Reference(ref) =>
      var res :- Resolve(ref, route.params, router.defaultMethod, registry, construct);
      Ok(Lifecycle(res.target, res.call).response)
  }

  /** A reference to a class the registry lacks fails naming that class, and
      a method the instance lacks fails naming class and method, once every
      key has been found: neither the before nor the after hook runs. */
  lemma UnresolvedThroughRun<C, R>(route: Route<C, R>, router: Router, registry: Registry<C, R>, construct: seq<C>)
    ensures route.action.Reference? ==>
      var (cls, spec) := SplitReference(route.action.ref, router.defaultMethod);
      var parsed := ParseMethodSpec(spec, route.params);
      && (parsed.Ok? && cls !in registry ==>
            Run(route, router, registry, construct) == Err(UnresolvedClass(cls)))
      && (parsed.Ok? && cls in registry && parsed.value.methodName !in registry[cls](construct).methods ==>
            Run(route, router, registry, construct) == Err(UnresolvedMethod(cls, parsed.value.methodName)))
  {
  }

  /** A closure action consults neither the router nor the registry. */
  lemma ClosureSkipsResolution<C, R>(route: Route<C, R>, router1: Router, reg1: Registry<C, R>,
                                     router2: Router, reg2: Registry<C, R>, construct: seq<C>)
    requires route.action.Closure?
    ensures Run(route, router1, reg1, construct) == Run(route, router2, reg2, construct)
  {
  }

  // ---------------------------------------------------------------------
  // worked references
  // ---------------------------------------------------------------------

  // The literals come in through `requires` so that the verifier does not
  // evaluate the recursive functions on constant arguments.

  /** `Blog::edit/0/2/1` over the table {0: x, 1: y, 2: z} calls `edit`
      with x, z, y: the order the keys are written in, not the table's order. */
  lemma BlogEditOrder(spec: string, table: Table)
    requires spec == "edit/0/2/1" && table == [("0", "x"), ("1", "y"), ("2", "z")]
    ensures ParseMethodSpec(spec, table) == Ok(MethodCall("edit", ["x", "z", "y"]))
  {
    SplitEditSpec();
    assert spec[4] == '/';
    var segs := Split(spec, '/');
    assert segs[1..] == ["0", "2", "1"];
    BlogKeys(table);
  }

  lemma BlogKeys(table: Table)
    requires table == [("0", "x"), ("1", "y"), ("2", "z")]
    ensures LookupAll(["0", "2", "1"], table) == Ok(["x", "z", "y"])
  {
    BlogTableLookups();
    var keys := ["0", "2", "1"];
    var r := LookupAll(keys, table);
    assert forall i :: 0 <= i < |keys| ==> HasKey(table, keys[i]);
    assert r.value[0] == "x" && r.value[1] == "z" && r.value[2] == "y";
    assert r.value == ["x", "z", "y"];
  }

  lemma BlogTableLookups()
    ensures var table := [("0", "x"), ("1", "y"), ("2", "z")];
      && Lookup(table, "0") == Some("x")
      && Lookup(table, "1") == Some("y")
      && Lookup(table, "2") == Some("z")
  {
    var table := [("0", "x"), ("1", "y"), ("2", "z")];
    assert table[1..] == [("1", "y"), ("2", "z")];
    assert table[1..][1..] == [("2", "z")];
  }

  lemma SplitEditSpec()
    ensures Split("edit/0/2/1", '/') == ["edit", "0", "2", "1"]
  {
    var parts := ["edit", "0", "2", "1"];
    assert Join(parts, '/') == "edit/0/2/1";
    SplitJoin(parts, '/');
  }

  /** `Users::show/id` passes the value stored under `id`, and fails naming
      `id` when the table lacks it. */
  lemma UsersShowKey(spec: string, table: Table)
    requires spec == "show/id" && table == [("id", "42")]
    ensures ParseMethodSpec(spec, table) == Ok(MethodCall("show", ["42"]))
    ensures ParseMethodSpec(spec, []) == Err(UndefinedParameter("id"))
  {
    var parts := ["show", "id"];
    assert Join(parts, '/') == spec;
    SplitJoin(parts, '/');
    assert Lookup(table, "id") == Some("42");
    assert !HasKey([], "id");
    var r := ParseMethodSpec(spec, table);
    assert r.Ok?;
    assert r.value.args == ["42"];
  }

  /** `Users` with default method `index` runs `Users::index` with no
      arguments, whatever the table holds. */
  lemma UsersDefaultIndex(ref: string, defaultMethod: string, table: Table)
    requires ref == "Users" && defaultMethod == "index"
    ensures SplitReference(ref, defaultMethod) == ("Users", "index")
    ensures ParseMethodSpec(defaultMethod, table) == Ok(MethodCall("index", []))
  {
    assert ref[..4] == "User";
    NoSeparator(ref);
    SplitDefaultMethod(ref, defaultMethod);
  }
}
