/** The parser's three symbol tables (Parser.hpp) and the two operations that
    maintain the variable table: `createVar` and `exitScope` (Parser.cpp). */
module Symbols {
  import opened Errors

  datatype VarType = ByteType | IntType | FloatType | PackType

  /** `Parser::ReturnType`. Package return types are not produced by the parser. */
  datatype ReturnType = RetByte | RetInt | RetFloat | RetPack | RetVoid

  /** A variable lives until the scope it was declared in is exited. */
  datatype Var = Var(ty: VarType, scope: nat)

  /** A function's argument types in order and its return type; the return
      type is unset (None) from the header until `funcType` fills it in. */
  datatype Func = Func(args: seq<VarType>, ret: Option<ReturnType>)

  /** Variables, functions and packages (a package maps field names to types). */
  datatype Tables = Tables(
    vars: map<string, Var>,
    funcs: map<string, Func>,
    packs: map<string, map<string, VarType>>)

  const EmptyTables := Tables(map[], map[], map[])

  /** `createVar`: declare `name` at `scope`. It is refused when the name is a
      function or already a variable (in any scope); the tables are then unchanged. */
  function CreateVar(t: Tables, name: string, ty: VarType, scope: nat): (r: (Error, Tables))
    ensures r.0.Failed() <==> name in t.funcs || name in t.vars
    ensures name in t.funcs ==> r.0 == SyntaxError("Cannot define variable with same name as function")
    ensures name !in t.funcs && name in t.vars ==> r.0 == SyntaxError("Cannot redefine variable")
    ensures r.0.Failed() ==> r.1 == t
    ensures !r.0.Failed() ==>
      && r.1.vars.Keys == t.vars.Keys + {name}
      && r.1.vars[name] == Var(ty, scope)
      && (forall n :: n in t.vars ==> r.1.vars[n] == t.vars[n])
    ensures r.1.funcs == t.funcs && r.1.packs == t.packs
  {
    if name in t.funcs then (SyntaxError("Cannot define variable with same name as function"), t)
    else if name in t.vars then (SyntaxError("Cannot redefine variable"), t)
    else (Success, t.(vars := t.vars[name := Var(ty, scope)]))
  }

  /** `exitScope`: forget every variable declared at `scope`. */
  function ExitScope(t: Tables, scope: nat): (r: Tables)
    ensures forall n :: n in r.vars <==> n in t.vars && t.vars[n].scope != scope
    ensures forall n :: n in r.vars ==> r.vars[n] == t.vars[n]
    ensures r.funcs == t.funcs && r.packs == t.packs
  {
    t.(vars := map n | n in t.vars && t.vars[n].scope != scope :: t.vars[n])
  }

  /** No variable is tagged with a depth greater than `scope`. */
  ghost predicate ScopesWithin(vars: map<string, Var>, scope: nat) {
    forall n :: n in vars ==> vars[n].scope <= scope
  }

  /** `vars` keeps every entry of `before`, with the same type and scope. */
  ghost predicate Keeps(vars: map<string, Var>, before: map<string, Var>) {
    forall n :: n in before ==> n in vars && vars[n] == before[n]
  }

  lemma ExitScopeIdempotent(t: Tables, scope: nat)
    ensures ExitScope(ExitScope(t, scope), scope) == ExitScope(t, scope)
  {
    var once := ExitScope(t, scope);
    var twice := ExitScope(once, scope);
    assert twice.vars == once.vars;
  }

  /** Leaving the innermost scope restores the depth bound of the enclosing one. */
  lemma ExitScopeLowers(t: Tables, scope: nat)
    requires scope > 0 && ScopesWithin(t.vars, scope)
    ensures ScopesWithin(ExitScope(t, scope).vars, scope - 1)
    ensures Keeps(ExitScope(t, scope).vars, map n | n in t.vars && t.vars[n].scope < scope :: t.vars[n])
  {
  }

  /** A declaration made in a scope is undone by leaving that scope. */
  lemma ExitScopeUndoesCreate(t: Tables, name: string, ty: VarType, scope: nat)
    requires name !in t.funcs && name !in t.vars
    ensures ExitScope(CreateVar(t, name, ty, scope).1, scope) == ExitScope(t, scope)
  {
    var lhs := ExitScope(CreateVar(t, name, ty, scope).1, scope);
    assert lhs.vars == ExitScope(t, scope).vars;
  }

  /** A declaration in an enclosing scope survives leaving an inner one. */
  lemma ExitScopeKeepsOuter(t: Tables, name: string, ty: VarType, outer: nat, inner: nat)
    requires outer != inner && name !in t.funcs && name !in t.vars
    ensures var r := ExitScope(CreateVar(t, name, ty, outer).1, inner);
      name in r.vars && r.vars[name] == Var(ty, outer)
  {
  }

  /** `vars` keeps every entry of `before` and has added entries only at depth `scope`. */
  ghost predicate Extends(vars: map<string, Var>, before: map<string, Var>, scope: nat) {
    && Keeps(vars, before)
    && forall n :: n in vars && n !in before ==> vars[n].scope == scope
  }

  /** No name is both a variable and a function. */
  ghost predicate Distinct(t: Tables) {
    forall n :: n in t.vars ==> n !in t.funcs
  }

  /** Leaving a scope forgets whatever was declared in it since `before`. */
  lemma ExitScopeForgetsAdded(t: Tables, before: Tables, scope: nat)
    requires Extends(t.vars, before.vars, scope)
    ensures ExitScope(t, scope).vars == ExitScope(before, scope).vars
  {
    assert ExitScope(t, scope).vars == ExitScope(before, scope).vars;
  }

  /** Leaving a scope no variable is tagged with changes nothing. */
  lemma ExitScopeUnused(t: Tables, scope: nat)
    requires forall n :: n in t.vars ==> t.vars[n].scope != scope
    ensures ExitScope(t, scope) == t
  {
    assert ExitScope(t, scope).vars == t.vars;
  }
}
