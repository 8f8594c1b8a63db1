/** The variable scopes of src/environment.rs: each scope maps names to
    values and may have an enclosing scope. `define` binds in the innermost
    scope, `get` and `assign` look outward until a scope binds the name. The
    source mutates a scope in place; here each update returns the new
    environment. */
module Environments {
  import opened Results
  import opened Evaluation

  datatype Environment = Environment(enclosing: Option<Environment>, values: map<string, Value>)

  /** The one way `assign` fails. */
  datatype EnvError = UndefinedVariable(name: string)

  /** How many scopes `env` has: its own and those enclosing it. */
  function Depth(env: Environment): (n: nat)
    ensures n >= 1
    ensures env.enclosing.Some? <==> n > 1
    decreases env
  {
    if env.enclosing.Some? then 1 + Depth(env.enclosing.value) else 1
  }

  /** The `j`-th scope of `env`, counting outward from its own (`0`). */
  function Scope(env: Environment, j: nat): (scope: map<string, Value>)
    requires j < Depth(env)
    ensures j == 0 ==> scope == env.values
    decreases env
  {
    if j == 0 then env.values else Scope(env.enclosing.value, j - 1)
  }

  /** Some scope of `env` binds `name`. */
  predicate Bound(env: Environment, name: string) {
    exists j | 0 <= j < Depth(env) :: name in Scope(env, j)
  }

  /** `i` is the innermost scope binding `name`. */
  predicate Innermost(env: Environment, name: string, i: nat) {
    && i < Depth(env)
    && name in Scope(env, i)
    && forall j | 0 <= j < i :: name !in Scope(env, j)
  }

  // ---------------------------------------------------------------------------
  // operations

  /** `Environment::new`: one empty scope. */
  function New(): (env: Environment)
    ensures Depth(env) == 1 && Scope(env, 0) == map[]
  {
    Environment(None, map[])
  }

  /** `Environment::new_from`: an empty scope enclosed by `parent`. */
  function NewFrom(parent: Environment): (env: Environment)
    ensures Depth(env) == Depth(parent) + 1 && Scope(env, 0) == map[]
    ensures forall j | 0 <= j < Depth(parent) :: Scope(env, j + 1) == Scope(parent, j)
  {
    Environment(Some(parent), map[])
  }

  /** `define`: bind `name` in the innermost scope, replacing any earlier
      binding there. */
  function Define(env: Environment, name: string, value: Value): (r: Environment)
    ensures Depth(r) == Depth(env) && Scope(r, 0) == Scope(env, 0)[name := value]
    ensures forall j | 0 < j < Depth(r) :: Scope(r, j) == Scope(env, j)
  {
    Environment(env.enclosing, env.values[name := value])
  }

  /** `get`: the value of the innermost binding, if any. It finds one
      exactly when some scope binds the name. */
  function Get(env: Environment, name: string): (r: Option<Value>)
    ensures r.Some? <==> Bound(env, name)
    decreases env
  {
    if name in env.values then
      assert name in Scope(env, 0);
      Some(env.values[name])
    else if env.enclosing.Some? then
      BoundOuter(env, name);
      Get(env.enclosing.value, name)
    else
      assert Depth(env) == 1;
      None
  }

  /** `assign`: overwrite the innermost binding of an already bound name. */
  function Assign(env: Environment, name: string, value: Value): (r: Result<Environment, EnvError>)
    ensures r.Err? ==> r.error == UndefinedVariable(name)
    decreases env
  {
    if name in env.values then Ok(Environment(env.enclosing, env.values[name := value]))
    else if env.enclosing.Some? then
      match Assign(env.enclosing.value, name, value)
      case Ok(outer) => Ok(Environment(Some(outer), env.values))
      case Err(e) => Err(e)
    else Err(UndefinedVariable(name))
  }

  // ---------------------------------------------------------------------------
  // get against the scopes

  /** A name bound in an enclosed environment's outer scopes is bound in the
      enclosing environment, one scope further in. */
  lemma BoundOuter(env: Environment, name: string)
    requires env.enclosing.Some? && name !in env.values
    ensures Bound(env, name) <==> Bound(env.enclosing.value, name)
  {
    var outer := env.enclosing.value;
    if Bound(env, name) {
      var w :| 0 <= w < Depth(env) && name in Scope(env, w);
      assert name in Scope(outer, w - 1);
    }
    if Bound(outer, name) {
      var w :| 0 <= w < Depth(outer) && name in Scope(outer, w);
      assert name in Scope(env, w + 1);
    }
  }

  /** `get` finds a value exactly when some scope binds the name, and the
      value it finds is the innermost scope's. */
  lemma {:induction false} GetInnermost(env: Environment, name: string) returns (i: nat)
    ensures Get(env, name).Some? <==> Bound(env, name)
    ensures Bound(env, name) ==> Innermost(env, name, i) && Get(env, name) == Some(Scope(env, i)[name])
    decreases env
  {
    if name in env.values {
      i := 0;
      assert name in Scope(env, 0);
    } else if env.enclosing.Some? {
      var outer := env.enclosing.value;
      BoundOuter(env, name);
      var k := GetInnermost(outer, name);
      i := k + 1;
      if Bound(outer, name) {
        assert Scope(env, i) == Scope(outer, k);
        forall j | 0 <= j < i ensures name !in Scope(env, j) {
          if j > 0 {
            assert Scope(env, j) == Scope(outer, j - 1);
          }
        }
      }
    } else {
      i := 0;
      assert Depth(env) == 1;
    }
  }

  /** A fresh environment binds nothing. */
  lemma NewIsEmpty(name: string)
    ensures Get(New(), name) == None
    ensures !Bound(New(), name)
  {
    var _ := GetInnermost(New(), name);
  }

  /** A scope opened inside `parent` sees exactly what `parent` sees until
      something is defined in it. */
  lemma NewFromSees(parent: Environment, name: string)
    ensures Get(NewFrom(parent), name) == Get(parent, name)
    ensures Bound(NewFrom(parent), name) <==> Bound(parent, name)
  {
    BoundOuter(NewFrom(parent), name);
  }

  /** After `define`, `get` returns the defined value for that name and what it
      returned before for every other name: the enclosing scopes are not
      touched, and a binding of an enclosing scope is shadowed. */
  lemma DefineGet(env: Environment, name: string, value: Value, other: string)
    ensures Get(Define(env, name, value), name) == Some(value)
    ensures other != name ==> Get(Define(env, name, value), other) == Get(env, other)
    ensures Define(env, name, value).enclosing == env.enclosing
  {
  }

  // ---------------------------------------------------------------------------
  // assign

  /** `assign` fails exactly when no scope binds the name. */
  lemma {:induction false} AssignFails(env: Environment, name: string, value: Value)
    ensures Assign(env, name, value).Ok? <==> Bound(env, name)
    decreases env
  {
    if name in env.values {
      assert name in Scope(env, 0);
    } else if env.enclosing.Some? {
      BoundOuter(env, name);
      AssignFails(env.enclosing.value, name, value);
    } else {
      assert Depth(env) == 1;
    }
  }

  /** A successful `assign` rewrites the innermost scope binding the name and
      no other, and keeps the number of scopes. */
  lemma {:induction false} AssignScopes(env: Environment, name: string, value: Value) returns (i: nat)
    requires Assign(env, name, value).Ok?
    ensures Innermost(env, name, i)
    ensures Depth(Assign(env, name, value).value) == Depth(env)
    ensures Scope(Assign(env, name, value).value, i) == Scope(env, i)[name := value]
    ensures forall j | 0 <= j < Depth(env) && j != i :: Scope(Assign(env, name, value).value, j) == Scope(env, j)
    decreases env
  {
    var r := Assign(env, name, value).value;
    if name in env.values {
      i := 0;
      forall j | 0 < j < Depth(env) ensures Scope(r, j) == Scope(env, j) {
      }
    } else {
      var outer := env.enclosing.value;
      var k := AssignScopes(outer, name, value);
      var outerAfter := Assign(outer, name, value).value;
      assert r == Environment(Some(outerAfter), env.values);
      i := k + 1;
      assert Scope(r, i) == Scope(outerAfter, k) && Scope(env, i) == Scope(outer, k);
      forall j | 0 <= j < i ensures name !in Scope(env, j) {
        if j > 0 {
          assert Scope(env, j) == Scope(outer, j - 1);
        }
      }
      forall j | 0 < j < Depth(env) && j != i ensures Scope(r, j) == Scope(env, j) {
        assert Scope(r, j) == Scope(outerAfter, j - 1) && Scope(env, j) == Scope(outer, j - 1);
      }
    }
  }

  /** After a successful `assign`, `get` returns the assigned value for that
      name and what it returned before for every other name. */
  lemma {:induction false} AssignGet(env: Environment, name: string, value: Value, other: string)
    requires Assign(env, name, value).Ok?
    ensures Get(Assign(env, name, value).value, name) == Some(value)
    ensures other != name ==> Get(Assign(env, name, value).value, other) == Get(env, other)
  {
    var r := Assign(env, name, value).value;
    var i := AssignScopes(env, name, value);
    var g := GetInnermost(r, name);
    assert Innermost(r, name, i) by {
      forall j | 0 <= j < i ensures name !in Scope(r, j) {
        assert Scope(r, j) == Scope(env, j);
      }
    }
    InnermostUnique(r, name, i, g);
    if other != name {
      SameBindings(env, r, other, i, name, value);
    }
  }

  /** Two environments whose scopes agree on `other` look it up alike. */
  lemma SameBindings(env: Environment, r: Environment, other: string, i: nat, name: string, value: Value)
    requires other != name && Depth(r) == Depth(env) && i < Depth(env)
    requires Scope(r, i) == Scope(env, i)[name := value]
    requires forall j | 0 <= j < Depth(env) && j != i :: Scope(r, j) == Scope(env, j)
    ensures Get(r, other) == Get(env, other)
  {
    var h := GetInnermost(env, other);
    var h' := GetInnermost(r, other);
    if Bound(env, other) {
      assert Innermost(r, other, h) by {
        forall j | 0 <= j < h ensures other !in Scope(r, j) {
          assert other !in Scope(env, j);
        }
        assert other in Scope(r, h);
      }
      InnermostUnique(r, other, h, h');
    } else {
      forall j | 0 <= j < Depth(r) ensures other !in Scope(r, j) {
        assert other !in Scope(env, j);
      }
    }
  }

  /** There is one innermost binding scope. */
  lemma InnermostUnique(env: Environment, name: string, i: nat, j: nat)
    requires Innermost(env, name, i) && Innermost(env, name, j)
    ensures i == j
  {
  }
}
