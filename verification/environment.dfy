/** The scope chain of lox/src/environment.rs. `Environment::new` clones
    the enclosing scope into a box, so an environment is a value: a Dafny
    datatype whose `enclosing` field is an optional copy of the outer
    scope. `get` and `assign` take a token and use its lexeme as the name. */
module Environments {
  import opened Wrappers
  import opened Tokens
  import opened Interpreting

  datatype Error = UndefinedVariable(name: string)

  datatype Environment = Environment(values: map<string, Value>, enclosing: Option<Environment>)

  /** The scopes of the chain, innermost first: an independent view used to
      state what lookups and assignments do. */
  function Scopes(env: Environment): (scopes: seq<map<string, Value>>)
    ensures |scopes| >= 1 && scopes[0] == env.values
    decreases env
  {
    match env.enclosing
    case None => [env.values]
    case Some(outer) => [env.values] + Scopes(outer)
  }

  /** The index of the innermost scope binding `name`, if any. */
  function Innermost(scopes: seq<map<string, Value>>, name: string): (k: Option<nat>)
    ensures k.Some? ==> k.value < |scopes| && name in scopes[k.value]
    ensures k.Some? ==> forall j :: 0 <= j < k.value ==> name !in scopes[j]
    ensures k.None? <==> forall j :: 0 <= j < |scopes| ==> name !in scopes[j]
  {
    if |scopes| == 0 then None
    else if name in scopes[0] then Some(0)
    else match Innermost(scopes[1..], name)
      case None => None
      case Some(k) => Some(k + 1)
  }

  /** Whether some scope of the chain binds `name`. */
  predicate Bound(env: Environment, name: string)
  {
    Innermost(Scopes(env), name).Some?
  }

  /** `Environment::new`: an empty scope over an optional copy of the
      enclosing environment. */
  function New(enclosing: Option<Environment>): (env: Environment)
    ensures enclosing.None? ==> Scopes(env) == [map[]]
    ensures enclosing.Some? ==> Scopes(env) == [map[]] + Scopes(enclosing.value)
  {
    Environment(map[], enclosing)
  }

  /** `define`: always succeeds and binds `name` in the innermost scope
      only, replacing any binding of `name` there. */
  function Define(env: Environment, name: string, value: Value): (r: Environment)
    ensures Scopes(r) == Scopes(env)[0 := Scopes(env)[0][name := value]]
  {
    env.(values := env.values[name := value])
  }

  /** `get`: the binding of the innermost scope that has the name. */
  function Get(env: Environment, token: Token): (r: Result<Value, Error>)
    ensures var k := Innermost(Scopes(env), token.lexeme);
      match k
      case Some(i) => r == Ok(Scopes(env)[i][token.lexeme])
      case None => r == Err(UndefinedVariable(token.lexeme))
    decreases env
  {
    var name := token.lexeme;
    if name in env.values then Ok(env.values[name])
    else match env.enclosing
      case Some(outer) => Get(outer, token)
      case None => Err(UndefinedVariable(name))
  }

  /** `assign`: overwrite the binding in the innermost scope that has the
      name; with no such scope, fail and change nothing. */
  function Assign(env: Environment, token: Token, value: Value): (r: Result<Environment, Error>)
    ensures var k := Innermost(Scopes(env), token.lexeme);
      match k
      case Some(i) => r.Ok? && Scopes(r.value) == Scopes(env)[i := Scopes(env)[i][token.lexeme := value]]
      case None => r == Err(UndefinedVariable(token.lexeme))
    decreases env
  {
    var name := token.lexeme;
    if name in env.values then Ok(env.(values := env.values[name := value]))
    else match env.enclosing
      case Some(outer) =>
        (match Assign(outer, token, value)
         case Ok(outer') => Ok(env.(enclosing := Some(outer')))
         case Err(e) => Err(e))
      case None => Err(UndefinedVariable(name))
  }
}

/** Properties of the scope chain that relate several operations. */
module EnvironmentProperties {
  import opened Wrappers
  import opened Tokens
  import opened Interpreting
  import opened Environments

  /** Two chains whose scopes bind the same names resolve every name to
      the same scope index. */
  lemma {:induction false} InnermostSameKeys(s: seq<map<string, Value>>, s': seq<map<string, Value>>, name: string)
    requires |s| == |s'|
    requires forall j :: 0 <= j < |s| ==> s[j].Keys == s'[j].Keys
    ensures Innermost(s, name) == Innermost(s', name)
  {
    if |s| > 0 && name !in s[0] {
      assert name !in s'[0];
      InnermostSameKeys(s[1..], s'[1..], name);
    }
  }

  /** After `define(n, v)`, `get(n)` returns `v`, and every other name
      resolves as before. */
  lemma DefineThenGet(env: Environment, name: string, value: Value, token: Token)
    ensures token.lexeme == name ==> Get(Define(env, name, value), token) == Ok(value)
    ensures token.lexeme != name ==> Get(Define(env, name, value), token) == Get(env, token)
  {
    var r := Define(env, name, value);
    if token.lexeme != name {
      assert Scopes(r) == Scopes(env)[0 := Scopes(env)[0][name := value]];
      if token.lexeme in env.values {
      } else {
        assert Scopes(r)[1..] == Scopes(env)[1..];
      }
    }
  }

  /** A binding in the innermost scope hides every binding of the same name
      further out: the enclosing chain plays no part in the answer. */
  lemma GetShadows(values: map<string, Value>, outer: Option<Environment>, token: Token)
    requires token.lexeme in values
    ensures Get(Environment(values, outer), token) == Ok(values[token.lexeme])
    ensures Get(Environment(values, outer), token) == Get(Environment(values, None), token)
  {
  }

  /** A name the innermost scope lacks is looked up in the enclosing scope,
      and with no enclosing scope the lookup fails naming the variable. */
  lemma GetFallsThrough(env: Environment, token: Token)
    requires token.lexeme !in env.values
    ensures env.enclosing.Some? ==> Get(env, token) == Get(env.enclosing.value, token)
    ensures env.enclosing.None? ==> Get(env, token) == Err(UndefinedVariable(token.lexeme))
  {
  }

  /** `get` fails exactly when no scope binds the name. */
  lemma GetFailsIffUnbound(env: Environment, token: Token)
    ensures Get(env, token).Err? <==> !Bound(env, token.lexeme)
    ensures Get(env, token).Err? ==> Get(env, token).error == UndefinedVariable(token.lexeme)
  {
  }

  /** `assign` to a name bound nowhere fails with `UndefinedVariable` and
      so creates no binding; otherwise it succeeds, the name now reads back
      as the new value, and the set of bound names and every other binding
      stay as they were. */
  lemma AssignSpec(env: Environment, token: Token, value: Value, other: Token)
    ensures !Bound(env, token.lexeme) <==> Assign(env, token, value) == Err(UndefinedVariable(token.lexeme))
    ensures Assign(env, token, value).Ok? ==>
      var r := Assign(env, token, value).value;
      && Get(r, token) == Ok(value)
      && (other.lexeme != token.lexeme ==> Get(r, other) == Get(env, other))
      && (Bound(r, other.lexeme) <==> Bound(env, other.lexeme))
      && |Scopes(r)| == |Scopes(env)|
  {
    var name := token.lexeme;
    match Innermost(Scopes(env), name)
    case None =>
    case Some(i) =>
      AssignKeepsKeys(env, token, value, i, other.lexeme);
      AssignKeepsKeys(env, token, value, i, name);
  }

  /** A successful `assign` rewrites one binding of scope `i` and leaves
      every scope's set of names as it was, so every name resolves to the
      same scope as before. */
  lemma AssignKeepsKeys(env: Environment, token: Token, value: Value, i: nat, name: string)
    requires Innermost(Scopes(env), token.lexeme) == Some(i)
    ensures Assign(env, token, value).Ok?
    ensures var s := Scopes(env);
      Scopes(Assign(env, token, value).value) == s[i := s[i][token.lexeme := value]]
    ensures Innermost(Scopes(Assign(env, token, value).value), name) == Innermost(Scopes(env), name)
  {
    var s := Scopes(env);
    var s' := Scopes(Assign(env, token, value).value);
    assert forall j :: 0 <= j < |s| ==> s[j].Keys == s'[j].Keys;
    InnermostSameKeys(s, s', name);
  }

  /** `new(Some(e))`: lookups through the child agree with `e` at first,
      and an assignment through the child lands in the child's copy of `e`,
      leaving the child's own scope empty. */
  lemma NewChildSpec(outer: Environment, token: Token, value: Value)
    ensures Get(New(Some(outer)), token) == Get(outer, token)
    ensures Bound(New(Some(outer)), token.lexeme) <==> Bound(outer, token.lexeme)
    ensures Assign(outer, token, value).Ok? ==>
      Assign(New(Some(outer)), token, value) == Ok(Environment(map[], Some(Assign(outer, token, value).value)))
    ensures Assign(outer, token, value).Err? ==>
      Assign(New(Some(outer)), token, value) == Assign(outer, token, value)
  {
    var child := New(Some(outer));
    assert Scopes(child)[1..] == Scopes(outer);
  }
}
