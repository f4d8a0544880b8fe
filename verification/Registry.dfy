/** The method registry, and the log of the operations that changed it in the order its mutex
    let them through. */
module Registry {
  import opened Wrappers

  /** A handler function, told apart by a number; an empty `std::function` is `None` where a
      handler is passed in. */
  datatype Handler = Handler(id: nat)

  datatype Event =
    | Registered(name: string, handler: Handler, overwrite: bool)
    | Unregistered(name: string)

  type Methods = map<string, Handler>

  function Apply(m: Methods, e: Event): Methods {
    match e
    case Registered(name, handler, overwrite) =>
      if name in m && !overwrite then m else m[name := handler]
    case Unregistered(name) => m - {name}
  }

  function Replay(log: seq<Event>): Methods {
    if log == [] then map[] else Apply(Replay(log[..|log| - 1]), log[|log| - 1])
  }

  predicate IsRegistration(e: Event, name: string) {
    e.Registered? && e.name == name
  }

  predicate IsRemoval(e: Event, name: string) {
    e == Unregistered(name)
  }

  // ---- What the log says about a name ----------------------------------------------------

  /** Some entry after `j` and before `hi` removes the name. */
  ghost predicate RemovedAfter(log: seq<Event>, name: string, j: int, hi: nat) {
    exists u :: 0 <= u && j < u < hi && u < |log| && IsRemoval(log[u], name)
  }

  /** Entry `k` is the last effective registration of `name` since its last removal: nothing after
      it removes or overwrites, and it overwrote or was the first since a removal. */
  ghost predicate Binds(log: seq<Event>, name: string, k: nat) {
    && k < |log| && IsRegistration(log[k], name)
    && (forall j :: k < j < |log| ==> !IsRemoval(log[j], name))
    && (forall j :: k < j < |log| && IsRegistration(log[j], name) ==> !log[j].overwrite)
    && (log[k].overwrite ||
        forall j :: 0 <= j < k && IsRegistration(log[j], name) ==> RemovedAfter(log, name, j, k))
  }

  /** Some registration of `name` has not been removed. */
  ghost predicate StillRegistered(log: seq<Event>, name: string) {
    exists j :: 0 <= j < |log| && IsRegistration(log[j], name) && !RemovedAfter(log, name, j, |log|)
  }

  lemma RemovedPrefix(log: seq<Event>, e: Event, name: string, lo: int, hi: nat)
    requires hi <= |log|
    ensures RemovedAfter(log + [e], name, lo, hi) <==> RemovedAfter(log, name, lo, hi)
  {
    if RemovedAfter(log, name, lo, hi) {
      var u :| 0 <= u && lo < u < hi && u < |log| && IsRemoval(log[u], name);
      assert IsRemoval((log + [e])[u], name);
    }
    if RemovedAfter(log + [e], name, lo, hi) {
      var u :| 0 <= u && lo < u < hi && u < |log + [e]| && IsRemoval((log + [e])[u], name);
      assert IsRemoval(log[u], name);
    }
  }

  lemma BindsPrefix(log: seq<Event>, e: Event, name: string, k: nat)
    requires k < |log|
    ensures Binds(log + [e], name, k) <==>
      Binds(log, name, k) && !IsRemoval(e, name) && !(IsRegistration(e, name) && e.overwrite)
  {
    var log' := log + [e];
    assert log'[|log|] == e;
    forall j | 0 <= j < k
      ensures RemovedAfter(log', name, j, k) <==> RemovedAfter(log, name, j, k)
    {
      RemovedPrefix(log, e, name, j, k);
    }
    assert forall j :: 0 <= j < |log| ==> log'[j] == log[j];
  }

  lemma StillPrefix(log: seq<Event>, e: Event, name: string)
    ensures StillRegistered(log + [e], name) <==>
      !IsRemoval(e, name) && (IsRegistration(e, name) || StillRegistered(log, name))
  {
    var log' := log + [e];
    assert log'[|log|] == e;
    forall j | 0 <= j < |log|
      ensures log'[j] == log[j]
      ensures RemovedAfter(log', name, j, |log'|) <==>
        IsRemoval(e, name) || RemovedAfter(log, name, j, |log|)
    {
      RemovedPrefix(log, e, name, j, |log|);
      if RemovedAfter(log', name, j, |log'|) && !IsRemoval(e, name) {
        var u :| j < u < |log'| && IsRemoval(log'[u], name);
        assert u < |log|;
      }
    }
    if StillRegistered(log, name) && !IsRemoval(e, name) {
      var j :| 0 <= j < |log| && IsRegistration(log[j], name) && !RemovedAfter(log, name, j, |log|);
      assert IsRegistration(log'[j], name);
    }
    if IsRegistration(e, name) {
      assert IsRegistration(log'[|log|], name) && !RemovedAfter(log', name, |log|, |log'|);
    }
    if StillRegistered(log', name) {
      var j :| 0 <= j < |log'| && IsRegistration(log'[j], name) && !RemovedAfter(log', name, j, |log'|);
      if j < |log| {
        assert IsRegistration(log[j], name);
      }
    }
  }

  /** The registry agrees with its log: a name is bound exactly when some registration of it has not
      been removed, and then to the handler of its last effective registration. */
  lemma {:induction false} ReplayAgrees(log: seq<Event>, name: string)
    ensures name in Replay(log) <==> StillRegistered(log, name)
    ensures forall k: nat :: Binds(log, name, k) ==> name in Replay(log) && Replay(log)[name] == log[k].handler
    ensures name in Replay(log) ==> exists k: nat :: Binds(log, name, k)
  {
    if log != [] {
      var n := |log| - 1;
      var init, e := log[..n], log[n];
      assert log == init + [e];
      ReplayAgrees(init, name);
      StillPrefix(init, e, name);
      forall k: nat | k < n
        ensures Binds(log, name, k) <==>
          Binds(init, name, k) && !IsRemoval(e, name) && !(IsRegistration(e, name) && e.overwrite)
      {
        BindsPrefix(init, e, name, k);
      }
      NewestBinds(init, e, name);
      if name in Replay(log) {
        if IsRegistration(e, name) && (e.overwrite || name !in Replay(init)) {
          assert Binds(log, name, n);
        } else {
          var k: nat :| Binds(init, name, k);
          assert Binds(log, name, k);
        }
      }
    }
  }

  lemma NewestBinds(init: seq<Event>, e: Event, name: string)
    ensures Binds(init + [e], name, |init|) <==>
      IsRegistration(e, name) && (e.overwrite || !StillRegistered(init, name))
  {
    var log, n := init + [e], |init|;
    assert log[n] == e;
    forall j | 0 <= j < n
      ensures log[j] == init[j]
      ensures RemovedAfter(log, name, j, n) <==> RemovedAfter(init, name, j, n)
    {
      RemovedPrefix(init, e, name, j, n);
    }
  }

  /** A name that was bound and no longer is was removed in between. */
  lemma {:induction false} RemovalBetween(log: seq<Event>, name: string, lo: nat, hi: nat)
    requires lo <= hi <= |log|
    requires name in Replay(log[..lo]) && name !in Replay(log[..hi])
    ensures RemovedAfter(log, name, lo - 1, hi)
  {
    if lo < hi {
      assert log[..hi][..hi - 1] == log[..hi - 1];
      if name in Replay(log[..hi - 1]) {
        assert IsRemoval(log[hi - 1], name);
      } else {
        RemovalBetween(log, name, lo, hi - 1);
      }
    }
  }

  lemma ReplayStep(log: seq<Event>, e: Event)
    ensures Replay(log + [e]) == Apply(Replay(log), e)
  {}

  // ---- The registry ----------------------------------------------------------------------

  class MethodRegistry {
    var methods: Methods
    ghost var log: seq<Event>

    ghost predicate Valid()
      reads this
    {
      methods == Replay(log) && "" !in methods
    }

    constructor ()
      ensures Valid() && methods == map[] && log == []
    {
      methods, log := map[], [];
    }

    /** Fails on an empty name or an empty handler; otherwise says whether the handler is now the
        one bound: a bound name keeps its handler unless overwriting is allowed. */
    method RegisterMethod(name: string, handler: Option<Handler>, allowOverwrite: bool) returns (r: Result<bool>)
      requires Valid()
      modifies this
      ensures Valid()
      ensures r.Err? <==> name == "" || handler.None?
      ensures r.Err? ==> methods == old(methods) && log == old(log)
      ensures r.Err? ==> r.error == if name == "" then "Method name cannot be empty" else "Handler must be valid"
      ensures r.Ok? ==> log == old(log) + [Registered(name, handler.value, allowOverwrite)]
      ensures r.Ok? ==> (r.value <==> name !in old(methods) || allowOverwrite)
      ensures r.Ok? ==> name in methods
      ensures r.Ok? ==> methods[name] == if r.value then handler.value else old(methods)[name]
      ensures forall n :: n != name ==> (n in methods <==> n in old(methods))
      ensures forall n :: n != name && n in methods ==> methods[n] == old(methods)[n]
    {
      if name == "" {
        return Err("Method name cannot be empty");
      }
      if handler.None? {
        return Err("Handler must be valid");
      }
      ReplayStep(log, Registered(name, handler.value, allowOverwrite));
      log := log + [Registered(name, handler.value, allowOverwrite)];
      if name in methods {
        if !allowOverwrite {
          return Ok(false);
        }
        methods := methods[name := handler.value];
        return Ok(true);
      }
      methods := methods[name := handler.value];
      return Ok(true);
    }

    method UnregisterMethod(name: string) returns (removed: bool)
      requires Valid()
      modifies this
      ensures Valid() && log == old(log) + [Unregistered(name)]
      ensures removed <==> name in old(methods)
      ensures methods == old(methods) - {name}
    {
      ReplayStep(log, Unregistered(name));
      log := log + [Unregistered(name)];
      removed := name in methods;
      methods := methods - {name};
    }

    method HasMethod(name: string) returns (found: bool)
      requires Valid()
      ensures found <==> StillRegistered(log, name)
    {
      ReplayAgrees(log, name);
      found := name in methods;
    }

    /** The handler of the last effective registration since the last removal. */
    method GetHandler(name: string) returns (r: Result<Handler>)
      requires Valid()
      ensures r.Ok? <==> StillRegistered(log, name)
      ensures r.Ok? ==> exists k: nat :: Binds(log, name, k) && log[k].handler == r.value
      ensures r.Err? ==> r.error == "Method not found: " + name
    {
      ReplayAgrees(log, name);
      if name !in methods {
        return Err("Method not found: " + name);
      }
      ghost var k: nat :| Binds(log, name, k);
      r := Ok(methods[name]);
    }

    /** Each bound name once, in some order. */
    method ListMethods() returns (out: seq<string>)
      requires Valid()
      ensures forall i, j :: 0 <= i < j < |out| ==> out[i] != out[j]
      ensures forall n :: n in out <==> StillRegistered(log, n)
      ensures |out| == |methods| && "" !in out
    {
      out := [];
      var rest := methods.Keys;
      while rest != {}
        invariant rest <= methods.Keys && |out| + |rest| == |methods.Keys|
        invariant forall n :: n in out <==> n in methods && n !in rest
        invariant forall i, j :: 0 <= i < j < |out| ==> out[i] != out[j]
        decreases |rest|
      {
        var n :| n in rest;
        assert n !in out;
        rest := rest - {n};
        out := out + [n];
      }
      forall n: string
        ensures n in out <==> StillRegistered(log, n)
      {
        ReplayAgrees(log, n);
      }
    }

    /** The number of names that some registration in the log still binds. */
    method Size() returns (n: nat, ghost names: set<string>)
      requires Valid()
      ensures n == |names| && forall name :: name in names <==> StillRegistered(log, name)
    {
      n, names := |methods|, methods.Keys;
      assert |methods| == |methods.Keys|;
      forall name: string
        ensures name in methods <==> StillRegistered(log, name)
      {
        ReplayAgrees(log, name);
      }
    }
  }
}
