/** The recursive-descent parser of Parser.cpp: the rules `prog`, `defArgs`,
    `defArgsList`, `packItem`, `packItemList`, `funcType` and `body`, with the
    scope discipline around every compound construct. Each rule fetches its
    first token itself, as in the source, and hands back where it stopped:
    the error, the tokens not yet fetched, the tables, the scope depth and the
    code the expressions compiled so far. `ParserProcessState` is the pattern
    "if the sub-rule failed, return its result unchanged". */
module Parser {
  import opened Tokens
  import opened Errors
  import opened Symbols
  import opened Evaluation
  import opened Expressions

  datatype Parsed = At(err: Error, ts: seq<Token>, t: Tables, scope: nat, code: seq<Instr>)

  /** The value type a `byte`, `int` or `float` keyword names. */
  function TypeOf(tok: Token): (r: Option<VarType>)
    ensures r.Some? <==> tok.IsValueTypeKeyword()
    ensures r.Some? ==> r.value != PackType
  {
    if tok == Keyword(Byte) then Some(ByteType)
    else if tok == Keyword(Int) then Some(IntType)
    else if tok == Keyword(Float) then Some(FloatType)
    else None
  }

  // ---------------------------------------------------------------------------
  // Messages of the syntax errors; those ending in " [" are followed by the
  // offending name and "]".

  const AssignUndefined := "Cannot assign expression to a undefined variable"
  const FunctionNamedAsVariable := "Cannot define function with same name as variable ["
  const DuplicateField := "Cannot have same identificator for two package items ["
  const FunctionRedefined := "Cannot redefine function ["
  const PackageRedefined := "Cannot redefine package with the same name ["
  const PackageArgument := "Creating packages as arguments is not yet implemented"
  const OpenAfter := "Expected \"(\" after "
  const OpenAfterFor := "Expected \"(\" after for"
  const OpenAfterFunctionName := "Expected \"(\" after function identificator"
  const CloseAfterCondition := "Expected \")\" after expression"
  const CloseAfterThird := "Expected \")\" after third expression"
  const ColonAfterArguments := "Expected \":\" after argument definitions"
  const SemiColonAfterCall := "Expected \";\" after arguments"
  const SemiColonAfterExpression := "Expected \";\" after expression"
  const SemiColonAfterFirst := "Expected \";\" after first expression"
  const SemiColonAfterPackageVariable := "Expected \";\" after identificator"
  const SemiColonAfterField := "Expected \";\" after package item identificator"
  const SemiColonAfterReturn := "Expected \";\" after return"
  const SemiColonAfterSecond := "Expected \";\" after second expression"
  const SemiColonOrAssign := "Expected \";\" or assignment after variable declaration"
  const CurlyAfterClose := "Expected \"{\" after \")\""
  const CurlyAfterReturnType := "Expected \"{\" after function type"
  const CurlyAfterPackageName := "Expected \"{\" after package identificator ["
  const EmptyPackage := "Expected at least one item in package"
  const NameAfterFunc := "Expected identificator after \"func\" keyword"
  const NameAfterPack := "Expected identificator after \"pack\" keyword"
  const FieldName := "Expected identificator after package item type"
  const FirstArgumentName := "Expected identificator after type when defining function argument"
  const NameAfterType := "Expected identificator after type"
  const FieldType := "Expected item type when defining package item"
  const ArgumentType := "Expected type when defining function argument"
  const NotYetImplemented := "NYI"
  const BadReturnType := "Unexpected function return type"
  const KeywordInBody := "Unexpected keyword in function body"
  const KeywordAtTop := "Unexpected keyword in the global scope"
  const AfterElse := "Unexpected symbol after else"
  const AfterName := "Unexpected symbol after identificator"
  const AfterArgument := "Unexpected symbol near function argument definition a"
  const AfterComma := "Unexpected symbol near function argument definition c"
  const ArgumentsStart := "Unexpected symbol near function argument definition e"
  const SymbolInBody := "Unexpected symbol while processing function body"
  const TokenAtTop := "Unexpected token in the global scope"
  const UndefinedPackage := "Using undefined package"

  function Reject(msg: string, ts: seq<Token>, t: Tables, scope: nat, code: seq<Instr>): Parsed {
    At(SyntaxError(msg), ts, t, scope, code)
  }

  /** `pFunctions[name]`: a missing entry reads as a default-constructed item. */
  function FuncOf(t: Tables, name: string): Func {
    if name in t.funcs then t.funcs[name] else Func.Func([], None)
  }

  /** `pPackages[name].items`, with the same default. */
  function FieldsOf(t: Tables, name: string): map<string, VarType> {
    if name in t.packs then t.packs[name] else map[]
  }

  /** Every rule leaves the remaining input no longer than it found it. */
  ghost predicate Consumes(r: Parsed, ts: seq<Token>) {
    |r.ts| <= |ts| && (!r.err.Failed() ==> |r.ts| < |ts|)
  }

  // ---------------------------------------------------------------------------
  // Function headers

  /** One argument declaration: its type goes to the end of the function's
      argument list, then the name is declared one scope deeper than the
      header (the result of `createVar` is not looked at). */
  function AddArg(t: Tables, fname: string, ty: VarType, name: string, scope: nat): (r: Tables)
    ensures fname in r.funcs && r.funcs[fname].args == FuncOf(t, fname).args + [ty]
    ensures r.funcs[fname].ret == FuncOf(t, fname).ret
    ensures r.funcs.Keys == t.funcs.Keys + {fname}
    ensures forall g :: g in t.funcs && g != fname ==> r.funcs[g] == t.funcs[g]
    ensures r.packs == t.packs
    ensures Extends(r.vars, t.vars, scope)
    ensures Distinct(t) && fname in t.funcs ==> Distinct(r)
  {
    var f := FuncOf(t, fname);
    var t1 := t.(funcs := t.funcs[fname := f.(args := f.args + [ty])]);
    CreateVar(t1, name, ty, scope).1
  }

  /** How an argument rule may change the tables: only the current function's
      argument list grows, and variables are added at depth `scope + 1`. */
  ghost predicate ArgsOnly(r: Tables, t: Tables, fname: string, scope: nat) {
    && fname in r.funcs
    && FuncOf(t, fname).args <= r.funcs[fname].args
    && r.funcs[fname].ret == FuncOf(t, fname).ret
    && (forall i :: |FuncOf(t, fname).args| <= i < |r.funcs[fname].args| ==> r.funcs[fname].args[i] != PackType)
    && r.funcs.Keys == t.funcs.Keys + {fname}
    && (forall g :: g in t.funcs && g != fname ==> r.funcs[g] == t.funcs[g])
    && r.packs == t.packs
    && Extends(r.vars, t.vars, scope + 1)
    && (Distinct(t) && fname in t.funcs ==> Distinct(r))
  }

  lemma ArgsOnlyStep(r: Tables, t1: Tables, t: Tables, fname: string, ty: VarType, name: string, scope: nat)
    requires ty != PackType && t1 == AddArg(t, fname, ty, name, scope + 1)
    requires ArgsOnly(r, t1, fname, scope)
    ensures ArgsOnly(r, t, fname, scope)
  {
    assert FuncOf(t1, fname).args == FuncOf(t, fname).args + [ty];
  }

  lemma FieldsOnlyNone(t: Tables, pname: string)
    requires forall f :: f in FieldsOf(t, pname) ==> FieldsOf(t, pname)[f] != PackType
    ensures FieldsOnly(t, t, pname)
  {
  }

  lemma ArgsOnlyNone(t: Tables, fname: string, scope: nat)
    requires fname in t.funcs
    ensures ArgsOnly(t, t, fname, scope)
  {
  }

  /** `defArgs`, entered after the `(` of a function header. */
  function DefArgs(ts: seq<Token>, t: Tables, fname: string, scope: nat): (r: Parsed)
    requires fname in t.funcs
    ensures Consumes(r, ts) && r.scope == scope && r.code == []
    ensures ArgsOnly(r.t, t, fname, scope)
    ensures !r.err.Failed() ==> r.err == Success
  {
    ArgsOnlyNone(t, fname, scope);
    var (tok, ts1) := Next(ts);
    if tok.Keyword? then
      match TypeOf(tok)
      case None => Reject(ArgumentType, ts1, t, scope, [])
      case Some(ty) =>
        var (t2, ts2) := Next(ts1);
        if t2.Id? then
          var t1 := AddArg(t, fname, ty, t2.name, scope + 1);
          var r := DefArgsList(ts2, t1, fname, scope);
          ArgsOnlyStep(r.t, t1, t, fname, ty, t2.name, scope);
          r
        else Reject(FirstArgumentName, ts2, t, scope, [])
    else if tok.RightBracket? then At(Success, ts1, t, scope, [])
    else Reject(ArgumentsStart, ts1, t, scope, [])
  }

  /** `defArgsList`: `, TYPE ID` declares one more argument, `)` ends the list. */
  function DefArgsList(ts: seq<Token>, t: Tables, fname: string, scope: nat): (r: Parsed)
    requires fname in t.funcs
    decreases |ts|
    ensures Consumes(r, ts) && r.scope == scope && r.code == []
    ensures ArgsOnly(r.t, t, fname, scope)
    ensures !r.err.Failed() ==> r.err == Success
  {
    ArgsOnlyNone(t, fname, scope);
    var (tok, ts1) := Next(ts);
    if tok.Comma? then
      var (t2, ts2) := Next(ts1);
      if t2.Keyword? then
        match TypeOf(t2)
        case None => Reject(ArgumentType, ts2, t, scope, [])
        case Some(ty) =>
          var (t3, ts3) := Next(ts2);
          if t3.Id? then
            var t1 := AddArg(t, fname, ty, t3.name, scope + 1);
            var r := DefArgsList(ts3, t1, fname, scope);
            ArgsOnlyStep(r.t, t1, t, fname, ty, t3.name, scope);
            r
          else Reject(NameAfterType, ts3, t, scope, [])
      else if t2.Id? then Reject(PackageArgument, ts2, t, scope, [])
      else Reject(AfterComma, ts2, t, scope, [])
    else if tok.RightBracket? then At(Success, ts1, t, scope, [])
    else Reject(AfterArgument, ts1, t, scope, [])
  }

  /** The return type a keyword names after the `:` of a header. Packages are
      not accepted as return types. */
  function ReturnOf(tok: Token): Option<ReturnType> {
    if tok == Keyword(Byte) then Some(RetByte)
    else if tok == Keyword(Int) then Some(RetInt)
    else if tok == Keyword(Float) then Some(RetFloat)
    else if tok == Keyword(Void) then Some(RetVoid)
    else None
  }

  /** `funcType`: records the return type of the function being defined. */
  function FuncType(ts: seq<Token>, t: Tables, fname: string): (r: Parsed)
    requires fname in t.funcs
    ensures Consumes(r, ts) && r.scope == 0 && r.code == []
    ensures !r.err.Failed() <==> |ts| > 0 && ts[0] in {Keyword(Byte), Keyword(Int), Keyword(Float), Keyword(Void)}
    ensures r.err.Failed() ==> r.t == t && r.err == SyntaxError(BadReturnType)
    ensures !r.err.Failed() ==>
      && r.err == Success
      && r.t.vars == t.vars && r.t.packs == t.packs && r.t.funcs.Keys == t.funcs.Keys
      && r.t.funcs[fname].args == t.funcs[fname].args
      && r.t.funcs[fname].ret.Some? && r.t.funcs[fname].ret.value != RetPack
      && (forall g :: g in t.funcs && g != fname ==> r.t.funcs[g] == t.funcs[g])
  {
    var (tok, ts1) := Next(ts);
    match ReturnOf(tok)
    case None => Reject(BadReturnType, ts1, t, 0, [])
    case Some(rt) =>
      var f := FuncOf(t, fname);
      At(Success, ts1, t.(funcs := t.funcs[fname := f.(ret := Some(rt))]), 0, [])
  }

  // ---------------------------------------------------------------------------
  // Packages

  /** One package field: it is refused when the package already has a field of
      that name, otherwise it is added and the item list continues. */
  function AddField(t: Tables, pname: string, name: string, ty: VarType): (r: Tables)
    ensures r.vars == t.vars && r.funcs == t.funcs
    ensures r.packs.Keys == t.packs.Keys + {pname}
    ensures forall p :: p in t.packs && p != pname ==> r.packs[p] == t.packs[p]
    ensures FieldsOf(r, pname) == FieldsOf(t, pname)[name := ty]
  {
    t.(packs := t.packs[pname := FieldsOf(t, pname)[name := ty]])
  }

  /** How a package rule may change the tables: only the current package's
      fields grow, each with a value type, and no earlier field changes. */
  ghost predicate FieldsOnly(r: Tables, t: Tables, pname: string) {
    && r.vars == t.vars && r.funcs == t.funcs
    && r.packs.Keys <= t.packs.Keys + {pname}
    && (forall p :: p in t.packs && p != pname ==> p in r.packs && r.packs[p] == t.packs[p])
    && (forall f :: f in FieldsOf(t, pname) ==> f in FieldsOf(r, pname) && FieldsOf(r, pname)[f] == FieldsOf(t, pname)[f])
    && (forall f :: f in FieldsOf(r, pname) ==> FieldsOf(r, pname)[f] != PackType)
  }

  /** `packItem`, entered after the `{` of a package: at least one field. */
  function PackItem(ts: seq<Token>, t: Tables, pname: string): (r: Parsed)
    requires forall f :: f in FieldsOf(t, pname) ==> FieldsOf(t, pname)[f] != PackType
    ensures Consumes(r, ts) && r.scope == 0 && r.code == []
    ensures FieldsOnly(r.t, t, pname)
    ensures |ts| > 0 && ts[0] == RightCurly ==> r.err == SyntaxError(EmptyPackage)
    ensures !r.err.Failed() ==> r.err == Success && |FieldsOf(r.t, pname)| > |FieldsOf(t, pname)|
  {
    FieldsOnlyNone(t, pname);
    var (tok, ts1) := Next(ts);
    if tok.Keyword? then
      match TypeOf(tok)
      case None => Reject(FieldType, ts1, t, 0, [])
      case Some(ty) =>
        var (t2, ts2) := Next(ts1);
        if t2.Id? then
          if t2.name in FieldsOf(t, pname) then
            Reject(DuplicateField + t2.name + "]", ts2, t, 0, [])
          else
            var t1 := AddField(t, pname, t2.name, ty);
            var r := PackItemList(ts2, t1, pname);
            FieldsGrow(t, t1, r.t, pname, t2.name, ty);
            r
        else Reject(FieldName, ts2, t, 0, [])
    else if tok.RightCurly? then Reject(EmptyPackage, ts1, t, 0, [])
    else Reject(FieldType, ts1, t, 0, [])
  }

  /** `packItemList`: `;` then either `}` or one more field. */
  function PackItemList(ts: seq<Token>, t: Tables, pname: string): (r: Parsed)
    requires forall f :: f in FieldsOf(t, pname) ==> FieldsOf(t, pname)[f] != PackType
    decreases |ts|
    ensures Consumes(r, ts) && r.scope == 0 && r.code == []
    ensures FieldsOnly(r.t, t, pname)
    ensures !r.err.Failed() ==> r.err == Success && |FieldsOf(r.t, pname)| >= |FieldsOf(t, pname)|
  {
    FieldsOnlyNone(t, pname);
    var (tok, ts1) := Next(ts);
    var at := " [" + pname + "]";
    if tok.SemiColon? then
      var (t2, ts2) := Next(ts1);
      if t2.RightCurly? then At(Success, ts2, t, 0, [])
      else if t2.Keyword? then
        match TypeOf(t2)
        case None => Reject(FieldType + at, ts2, t, 0, [])
        case Some(ty) =>
          var (t3, ts3) := Next(ts2);
          if t3.Id? then
            if t3.name in FieldsOf(t, pname) then
              Reject(DuplicateField + t3.name + "]", ts3, t, 0, [])
            else
              var t1 := AddField(t, pname, t3.name, ty);
              var r := PackItemList(ts3, t1, pname);
              FieldsGrow(t, t1, r.t, pname, t3.name, ty);
              r
          else Reject(FieldName + at, ts3, t, 0, [])
      else Reject(FieldType + at, ts2, t, 0, [])
    else Reject(SemiColonAfterField + at, ts1, t, 0, [])
  }

  lemma FieldsGrow(t: Tables, t1: Tables, r: Tables, pname: string, name: string, ty: VarType)
    requires name !in FieldsOf(t, pname) && ty != PackType
    requires FieldsOf(t1, pname) == FieldsOf(t, pname)[name := ty]
    requires t1.vars == t.vars && t1.funcs == t.funcs && t1.packs.Keys == t.packs.Keys + {pname}
    requires forall p :: p in t.packs && p != pname ==> t1.packs[p] == t.packs[p]
    requires FieldsOnly(r, t1, pname)
    ensures FieldsOnly(r, t, pname)
    ensures |FieldsOf(t1, pname)| == |FieldsOf(t, pname)| + 1
    ensures |FieldsOf(r, pname)| >= |FieldsOf(t1, pname)|
  {
    assert FieldsOf(t1, pname).Keys == FieldsOf(t, pname).Keys + {name};
    assert FieldsOf(t1, pname).Keys <= FieldsOf(r, pname).Keys;
    SubsetSize(FieldsOf(t1, pname).Keys, FieldsOf(r, pname).Keys);
  }

  lemma SubsetSize<T>(a: set<T>, b: set<T>)
    requires a <= b
    ensures |a| <= |b|
  {
    assert b == a + (b - a);
  }

  // ---------------------------------------------------------------------------
  // Function bodies

  /** What a body rule promises: the function and package tables are left
      alone, and on success the scope depth is restored and the variables
      that were declared are kept, new ones appearing only at this depth. */
  ghost predicate Continues(r: Parsed, ts: seq<Token>, t: Tables, scope: nat) {
    && Consumes(r, ts)
    && r.t.funcs == t.funcs && r.t.packs == t.packs
    && r.scope >= scope
    && (Distinct(t) ==> Distinct(r.t))
    && (!r.err.Failed() ==>
         && r.err == Success && r.scope == scope
         && (ScopesWithin(t.vars, scope) ==> Extends(r.t.vars, t.vars, scope)))
  }

  /** `TYPE ID ;` or `TYPE ID = <expr> ;`, after the type keyword, at depth
      `scope`. The variable is declared only once the `;` is seen, after the
      initialiser was compiled, and a refused declaration does not stop parsing. */
  function Declaration(ty: VarType, ts: seq<Token>, t: Tables, scope: nat, code: seq<Instr>, fs: FloatSem): (r: Parsed)
    ensures Consumes(r, ts) && r.scope == scope && r.t.funcs == t.funcs && r.t.packs == t.packs
    ensures !r.err.Failed() ==>
      && r.err == Success && |ts| > 0 && ts[0].Id?
      && r.t == CreateVar(t, ts[0].name, ty, scope).1
    ensures r.err.Failed() ==> r.t == t
  {
    var (tok, ts1) := Next(ts);
    if !tok.Id? then Reject(NameAfterType, ts1, t, scope, code)
    else
      var (t2, ts2) := Next(ts1);
      if t2.SemiColon? then At(Success, ts2, CreateVar(t, tok.name, ty, scope).1, scope, code)
      else if t2.Assign? then
        var (t3, ts3) := Next(ts2);
        var e := Expr(t3, ts3, t, false, fs);
        if e.err.Failed() then At(e.err, e.ts, t, scope, code + e.code)
        else if e.tok.SemiColon? then At(Success, e.ts, CreateVar(t, tok.name, ty, scope).1, scope, code + e.code)
        else Reject(SemiColonAfterExpression, e.ts, t, scope, code + e.code)
      else Reject(SemiColonOrAssign, ts2, t, scope, code)
  }

  /** `body`: statements up to the `}` that closes the current block. */
  function Body(ts: seq<Token>, t: Tables, scope: nat, code: seq<Instr>, fs: FloatSem): (r: Parsed)
    decreases |ts|, 0
    ensures Continues(r, ts, t, scope)
  {
    var (tok, ts1) := Next(ts);
    if tok.IsValueTypeKeyword() then
      var ty := TypeOf(tok).value;
      var d := Declaration(ty, ts1, t, scope, code, fs);
      if d.err.Failed() then d
      else
        var r := Body(d.ts, d.t, scope, d.code, fs);
        DeclarationStep(r, d, ts1, t, ty, scope);
        r
    else if tok.Keyword? then
      if tok.kw.Return? then ReturnStatement(ts1, t, scope, code, fs)
      else if tok.kw.If? then Guarded("if", ts1, t, scope, code, fs)
      else if tok.kw.Else? then ElseStatement(ts1, t, scope, code, fs)
      else if tok.kw.While? then Guarded("while", ts1, t, scope, code, fs)
      else if tok.kw.For? then ForStatement(ts1, t, scope, code, fs)
      else Reject(KeywordInBody, ts1, t, scope, code)
    else if tok.RightCurly? then At(Success, ts1, t, scope, code)
    else if tok.Id? then NameStatement(tok.name, ts1, t, scope, code, fs)
    else Reject(SymbolInBody, ts1, t, scope, code)
  }

  /** After a successful declaration, the rest of the body continues from the
      tables the declaration produced. */
  lemma DeclarationStep(r: Parsed, d: Parsed, ts: seq<Token>, t: Tables, ty: VarType, scope: nat)
    requires !d.err.Failed() && d.scope == scope && |d.ts| < |ts| && |ts| > 0 && ts[0].Id?
    requires d.t == CreateVar(t, ts[0].name, ty, scope).1
    requires Continues(r, d.ts, d.t, scope)
    ensures Continues(r, ts, t, scope)
  {
    if ScopesWithin(t.vars, scope) && !r.err.Failed() {
      assert ScopesWithin(d.t.vars, scope);
    }
  }

  /** `{ <body> }` in a nested scope: the depth is raised, the block parsed,
      the variables tagged with the inner depth forgotten and the depth
      lowered again. */
  function Enclosed(ts: seq<Token>, t: Tables, scope: nat, code: seq<Instr>, fs: FloatSem): (r: Parsed)
    decreases |ts|, 1
    ensures Consumes(r, ts) && r.t.funcs == t.funcs && r.t.packs == t.packs && r.scope >= scope
    ensures Distinct(t) ==> Distinct(r.t)
    ensures !r.err.Failed() ==> r.err == Success && r.scope == scope
    ensures !r.err.Failed() && ScopesWithin(t.vars, scope + 1) ==> r.t == ExitScope(t, scope + 1)
  {
    var b := Body(ts, t, scope + 1, code, fs);
    if b.err.Failed() then b
    else
      EnclosedStep(b.t, t, scope);
      b.(t := ExitScope(b.t, scope + 1), scope := scope)
  }

  lemma EnclosedStep(b: Tables, t: Tables, scope: nat)
    requires b.funcs == t.funcs && b.packs == t.packs
    requires ScopesWithin(t.vars, scope + 1) ==> Extends(b.vars, t.vars, scope + 1)
    ensures ScopesWithin(t.vars, scope + 1) ==> ExitScope(b, scope + 1) == ExitScope(t, scope + 1)
  {
    if ScopesWithin(t.vars, scope + 1) {
      ExitScopeForgetsAdded(b, t, scope + 1);
    }
  }

  /** A compound statement's block followed by the rest of the enclosing body. */
  function Block(ts: seq<Token>, t: Tables, scope: nat, code: seq<Instr>, fs: FloatSem): (r: Parsed)
    decreases |ts|, 2
    ensures Continues(r, ts, t, scope)
  {
    var b := Enclosed(ts, t, scope, code, fs);
    if b.err.Failed() then b
    else
      BlockStep(t, scope);
      Body(b.ts, b.t, scope, b.code, fs)
  }

  lemma BlockStep(t: Tables, scope: nat)
    ensures ScopesWithin(t.vars, scope) ==> ExitScope(t, scope + 1) == t
  {
    if ScopesWithin(t.vars, scope) {
      ExitScopeUnused(t, scope + 1);
    }
  }

  /** `return ;` or `return <expr> ;`. */
  function ReturnStatement(ts: seq<Token>, t: Tables, scope: nat, code: seq<Instr>, fs: FloatSem): (r: Parsed)
    decreases |ts|, 0
    ensures Continues(r, ts, t, scope)
  {
    var (tok, ts1) := Next(ts);
    if tok.SemiColon? then Body(ts1, t, scope, code, fs)
    else
      var e := Expr(tok, ts1, t, false, fs);
      if e.err.Failed() then At(e.err, e.ts, t, scope, code + e.code)
      else if e.tok.SemiColon? then Body(e.ts, t, scope, code + e.code, fs)
      else Reject(SemiColonAfterReturn, e.ts, t, scope, code + e.code)
  }

  /** `if ( <expr> ) {` and `while ( <expr> ) {`, after the keyword; `what`
      names the keyword in the message about a missing `(`. */
  function Guarded(what: string, ts: seq<Token>, t: Tables, scope: nat, code: seq<Instr>, fs: FloatSem): (r: Parsed)
    decreases |ts|, 0
    ensures Continues(r, ts, t, scope)
  {
    var (t1, ts1) := Next(ts);
    if !t1.LeftBracket? then Reject(OpenAfter + what, ts1, t, scope, code)
    else
      var (t2, ts2) := Next(ts1);
      var e := Expr(t2, ts2, t, false, fs);
      if e.err.Failed() then At(e.err, e.ts, t, scope, code + e.code)
      else if !e.tok.RightBracket? then Reject(CloseAfterCondition, e.ts, t, scope, code + e.code)
      else
        var (t3, ts3) := Next(e.ts);
        if !t3.LeftCurly? then Reject(CurlyAfterClose, ts3, t, scope, code + e.code)
        else Block(ts3, t, scope, code + e.code, fs)
  }

  /** `else if ( <expr> ) {` or `else {`, after `else`. */
  function ElseStatement(ts: seq<Token>, t: Tables, scope: nat, code: seq<Instr>, fs: FloatSem): (r: Parsed)
    decreases |ts|, 1
    ensures Continues(r, ts, t, scope)
  {
    var (t1, ts1) := Next(ts);
    if t1.Keyword? then
      if t1.kw.If? then Guarded("if", ts1, t, scope, code, fs)
      else Reject(AfterElse, ts1, t, scope, code)
    else if t1.LeftCurly? then Block(ts1, t, scope, code, fs)
    else Reject(AfterElse, ts1, t, scope, code)
  }

  /** `for ( <expr> ; <expr> ; <expr> ) {`, after `for`. */
  function ForStatement(ts: seq<Token>, t: Tables, scope: nat, code: seq<Instr>, fs: FloatSem): (r: Parsed)
    decreases |ts|, 0
    ensures Continues(r, ts, t, scope)
  {
    var (t1, ts1) := Next(ts);
    if !t1.LeftBracket? then Reject(OpenAfterFor, ts1, t, scope, code)
    else
      var (t2, ts2) := Next(ts1);
      var e1 := Expr(t2, ts2, t, false, fs);
      var c1 := code + e1.code;
      if e1.err.Failed() then At(e1.err, e1.ts, t, scope, c1)
      else if !e1.tok.SemiColon? then Reject(SemiColonAfterFirst, e1.ts, t, scope, c1)
      else
        var (t3, ts3) := Next(e1.ts);
        var e2 := Expr(t3, ts3, t, false, fs);
        var c2 := c1 + e2.code;
        if e2.err.Failed() then At(e2.err, e2.ts, t, scope, c2)
        else if !e2.tok.SemiColon? then Reject(SemiColonAfterSecond, e2.ts, t, scope, c2)
        else
          var (t4, ts4) := Next(e2.ts);
          var e3 := Expr(t4, ts4, t, false, fs);
          var c3 := c2 + e3.code;
          if e3.err.Failed() then At(e3.err, e3.ts, t, scope, c3)
          else if !e3.tok.RightBracket? then Reject(CloseAfterThird, e3.ts, t, scope, c3)
          else
            var (t5, ts5) := Next(e3.ts);
            if !t5.LeftCurly? then Reject(CurlyAfterClose, ts5, t, scope, c3)
            else Block(ts5, t, scope, c3, fs)
  }

  /** A statement starting with a name, after the name: an assignment
      `ID = <expr> ;`, a call `ID ( <args> ;`, or a package-typed declaration
      `P x ;`, which registers the package name `P` itself as the variable. */
  function NameStatement(name: string, ts: seq<Token>, t: Tables, scope: nat, code: seq<Instr>, fs: FloatSem): (r: Parsed)
    decreases |ts|, 1
    ensures Continues(r, ts, t, scope)
  {
    var (t1, ts1) := Next(ts);
    if t1.Assign? then Assignment(name, ts1, t, scope, code, fs)
    else if t1.LeftBracket? then CallStatement(ts1, t, scope, code, fs)
    else if t1.Id? then PackDeclaration(name, ts1, t, scope, code, fs)
    else Reject(AfterName, ts1, t, scope, code)
  }

  /** `ID = <expr> ;`, after `=`: the name must already be a variable. */
  function Assignment(name: string, ts: seq<Token>, t: Tables, scope: nat, code: seq<Instr>, fs: FloatSem): (r: Parsed)
    decreases |ts|, 0
    ensures Continues(r, ts, t, scope)
    ensures name !in t.vars ==> r == Reject(AssignUndefined, ts, t, scope, code)
  {
    if name !in t.vars then Reject(AssignUndefined, ts, t, scope, code)
    else
      var (t2, ts2) := Next(ts);
      var e := Expr(t2, ts2, t, false, fs);
      if e.err.Failed() then At(e.err, e.ts, t, scope, code + e.code)
      else if e.tok.SemiColon? then Body(e.ts, t, scope, code + e.code, fs)
      else Reject(SemiColonAfterExpression, e.ts, t, scope, code + e.code)
  }

  /** `ID ( <args> ;`, after `(`. The name is not looked up and no call is
      emitted; only the arguments are compiled. */
  function CallStatement(ts: seq<Token>, t: Tables, scope: nat, code: seq<Instr>, fs: FloatSem): (r: Parsed)
    decreases |ts|, 0
    ensures Continues(r, ts, t, scope)
  {
    var a := Args(ts, t, fs);
    if a.err.Failed() then At(a.err, a.ts, t, scope, code + a.code)
    else
      var (t2, ts2) := Next(a.ts);
      if t2.SemiColon? then Body(ts2, t, scope, code + a.code, fs)
      else Reject(SemiColonAfterCall, ts2, t, scope, code + a.code)
  }

  /** `P x ;`, after `x`: `P` must be a package; the variable is entered before
      the `;` is checked. */
  function PackDeclaration(name: string, ts: seq<Token>, t: Tables, scope: nat, code: seq<Instr>, fs: FloatSem): (r: Parsed)
    decreases |ts|, 0
    ensures Continues(r, ts, t, scope)
    ensures name !in t.packs ==> r == Reject(UndefinedPackage, ts, t, scope, code)
  {
    if name !in t.packs then Reject(UndefinedPackage, ts, t, scope, code)
    else
      var t2 := CreateVar(t, name, PackType, scope).1;
      var (t3, ts3) := Next(ts);
      if t3.SemiColon? then
        var r := Body(ts3, t2, scope, code, fs);
        PackDeclarationStep(r, ts3, t, t2, name, scope);
        r
      else Reject(SemiColonAfterPackageVariable, ts3, t2, scope, code)
  }

  lemma PackDeclarationStep(r: Parsed, rest: seq<Token>, t: Tables, t2: Tables, name: string, scope: nat)
    requires t2 == CreateVar(t, name, PackType, scope).1
    requires Continues(r, rest, t2, scope)
    ensures !r.err.Failed() ==> r.err == Success && r.scope == scope
    ensures ScopesWithin(t.vars, scope) && !r.err.Failed() ==> Extends(r.t.vars, t.vars, scope)
    ensures Distinct(t) ==> Distinct(r.t)
  {
    if ScopesWithin(t.vars, scope) && !r.err.Failed() {
      assert ScopesWithin(t2.vars, scope);
    }
  }

  // ---------------------------------------------------------------------------
  // Programs

  /** What `prog` promises: it only ever adds functions and packages and never
      changes one that was complete before it started; on success the scope
      depth is back at the top level and every variable is a global one. */
  ghost predicate Grows(r: Parsed, t: Tables) {
    && t.funcs.Keys <= r.t.funcs.Keys && t.packs.Keys <= r.t.packs.Keys
    && (forall p :: p in t.packs ==> r.t.packs[p] == t.packs[p])
    && (Distinct(t) ==> Distinct(r.t))
    && (!r.err.Failed() && ScopesWithin(t.vars, 0) ==> r.scope == 0 && Extends(r.t.vars, t.vars, 0))
  }

  const EndOfSource := Error(Ok, "Reached the end of the source file")

  /** `prog`: one top-level declaration, then the rest of the program. A rule
      that succeeds returns the plain `Ok` error; only an empty remainder
      reports the end of the source file. */
  function Prog(ts: seq<Token>, t: Tables, code: seq<Instr>, fs: FloatSem): (r: Parsed)
    decreases |ts|, 1
    ensures Grows(r, t) && |r.ts| <= |ts|
    ensures !r.err.Failed() ==> r.err == Success || r.err == EndOfSource
  {
    var (tok, ts1) := Next(ts);
    if tok.Keyword? && tok.kw.Func? then Function(ts1, t, code, fs)
    else if tok.Keyword? && tok.kw.Pack? then Package(ts1, t, code, fs)
    else if tok.IsValueTypeKeyword() then
      var ty := TypeOf(tok).value;
      var d := Declaration(ty, ts1, t, 0, code, fs);
      if d.err.Failed() then d
      else
        var p := Prog(d.ts, d.t, d.code, fs);
        GlobalStep(p, d.t, t, ts1[0].name, ty);
        if p.err.Failed() then p else p.(err := Success)
    else if tok.Keyword? then Reject(KeywordAtTop, ts1, t, 0, code)
    else if tok.Id? then Reject(NotYetImplemented, ts1, t, 0, code)
    else if tok.Eof? then At(EndOfSource, ts1, t, 0, code)
    else Reject(TokenAtTop, ts1, t, 0, code)
  }

  lemma GlobalStep(p: Parsed, d: Tables, t: Tables, name: string, ty: VarType)
    requires d == CreateVar(t, name, ty, 0).1
    requires Grows(p, d)
    ensures Grows(p, t)
  {
    if !p.err.Failed() && ScopesWithin(t.vars, 0) {
      assert ScopesWithin(d.vars, 0);
    }
  }

  /** `func ID ( <def-args> : <type> { <body>`, after `func`. The function is
      entered in the table before its arguments and body are parsed, so the
      body may call it. */
  function Function(ts: seq<Token>, t: Tables, code: seq<Instr>, fs: FloatSem): (r: Parsed)
    decreases |ts|, 2
    ensures Grows(r, t) && |r.ts| <= |ts|
    ensures !r.err.Failed() ==> r.err == Success
  {
    var (t1, ts1) := Next(ts);
    if !t1.Id? then Reject(NameAfterFunc, ts1, t, 0, code)
    else
      var name := t1.name;
      if name in t.vars then Reject(FunctionNamedAsVariable + name + "]", ts1, t, 0, code)
      else if name in t.funcs then Reject(FunctionRedefined + name + "]", ts1, t, 0, code)
      else
        var th := t.(funcs := t.funcs[name := Func.Func([], None)]);
        Header(name, ts1, th, t, code, fs)
  }

  /** `f` is `t` with the function `name` entered and its arguments declared
      at depth 1; the functions that were there before are untouched. */
  ghost predicate Declares(f: Tables, t: Tables, name: string) {
    && name !in t.vars && name !in t.funcs
    && f.funcs.Keys == t.funcs.Keys + {name}
    && (forall g :: g in t.funcs ==> f.funcs[g] == t.funcs[g])
    && f.packs == t.packs
    && Extends(f.vars, t.vars, 1)
    && (Distinct(t) ==> Distinct(f))
  }

  /** Stopping anywhere in a header keeps what `prog` promises. */
  lemma DeclaresGrows(r: Parsed, f: Tables, t: Tables, name: string)
    requires Declares(f, t, name) && r.t == f && r.err.Failed()
    ensures Grows(r, t)
  {
  }

  /** The header after the function's name: `( <def-args>`, then the signature. */
  function Header(name: string, ts: seq<Token>, f: Tables, t: Tables, code: seq<Instr>, fs: FloatSem): (r: Parsed)
    requires Declares(f, t, name) && name in f.funcs
    decreases |ts|, 1
    ensures Grows(r, t) && |r.ts| <= |ts|
    ensures !r.err.Failed() ==> r.err == Success
  {
    var (t2, ts2) := Next(ts);
    if !t2.LeftBracket? then
      Reject(OpenAfterFunctionName + " [" + name + "]", ts2, f, 0, code)
    else
      var d := DefArgs(ts2, f, name, 0);
      ArgumentsDeclare(d.t, f, t, name);
      if d.err.Failed() then d.(code := code)
      else Signature(name, d.ts, d.t, t, code, fs)
  }

  /** After the arguments: `: <type> {`, then the function's block. */
  function Signature(name: string, ts: seq<Token>, d: Tables, t: Tables, code: seq<Instr>, fs: FloatSem): (r: Parsed)
    requires Declares(d, t, name) && name in d.funcs
    decreases |ts|, 1
    ensures Grows(r, t) && |r.ts| <= |ts|
    ensures !r.err.Failed() ==> r.err == Success
  {
    var at := " [" + name + "]";
    var (t3, ts3) := Next(ts);
    if !t3.Colon? then Reject(ColonAfterArguments + at, ts3, d, 0, code)
    else
      var ft := FuncType(ts3, d, name);
      if ft.err.Failed() then ft.(code := code)
      else
        ReturnTypeDeclares(ft.t, d, t, name);
        var (t4, ts4) := Next(ft.ts);
        if !t4.LeftCurly? then Reject(CurlyAfterReturnType + at, ts4, ft.t, 0, code)
        else FunctionBody(name, ts4, ft.t, t, code, fs)
  }

  lemma ArgumentsDeclare(d: Tables, f: Tables, t: Tables, name: string)
    requires Declares(f, t, name) && ArgsOnly(d, f, name, 0)
    ensures Declares(d, t, name)
  {
  }

  lemma ReturnTypeDeclares(ft: Tables, d: Tables, t: Tables, name: string)
    requires Declares(d, t, name)
    requires ft.vars == d.vars && ft.packs == d.packs && ft.funcs.Keys == d.funcs.Keys
    requires forall g :: g in d.funcs && g != name ==> ft.funcs[g] == d.funcs[g]
    ensures Declares(ft, t, name)
  {
  }

  /** The function's block, then the rest of the program. Leaving the block
      forgets the arguments together with the block's own variables. */
  function FunctionBody(name: string, ts: seq<Token>, f: Tables, t: Tables, code: seq<Instr>, fs: FloatSem): (r: Parsed)
    requires Declares(f, t, name)
    decreases |ts|, 0
    ensures Grows(r, t) && |r.ts| <= |ts|
    ensures !r.err.Failed() ==> r.err == Success
  {
    var b := Enclosed(ts, f, 0, code, fs);
    if b.err.Failed() then b
    else
      var p := Prog(b.ts, b.t, b.code, fs);
      FunctionStep(t, f, b.t, p, name);
      if p.err.Failed() then p else p.(err := Success)
  }

  lemma FunctionStep(t: Tables, f: Tables, b: Tables, p: Parsed, name: string)
    requires Declares(f, t, name)
    requires b.funcs == f.funcs && b.packs == f.packs && (Distinct(f) ==> Distinct(b))
    requires ScopesWithin(f.vars, 1) ==> b == ExitScope(f, 1)
    requires Grows(p, b)
    ensures Grows(p, t)
  {
    if ScopesWithin(t.vars, 0) {
      assert ScopesWithin(f.vars, 1);
      ExitScopeForgetsAdded(f, t, 1);
      ExitScopeUnused(t, 1);
    }
  }

  /** `pack ID { <pack-item>`, after `pack`. */
  function Package(ts: seq<Token>, t: Tables, code: seq<Instr>, fs: FloatSem): (r: Parsed)
    decreases |ts|, 1
    ensures Grows(r, t) && |r.ts| <= |ts|
    ensures !r.err.Failed() ==> r.err == Success
  {
    var (t1, ts1) := Next(ts);
    if !t1.Id? then Reject(NameAfterPack, ts1, t, 0, code)
    else
      var name := t1.name;
      if name in t.packs then Reject(PackageRedefined + name + "]", ts1, t, 0, code)
      else PackageBody(name, ts1, t, code, fs)
  }

  /** The package is entered with no fields, then `{` and its fields follow. */
  function PackageBody(name: string, ts: seq<Token>, t: Tables, code: seq<Instr>, fs: FloatSem): (r: Parsed)
    requires name !in t.packs
    decreases |ts|, 0
    ensures Grows(r, t) && |r.ts| <= |ts|
    ensures !r.err.Failed() ==> r.err == Success
  {
    var th := t.(packs := t.packs[name := map[]]);
    var (t2, ts2) := Next(ts);
    if !t2.LeftCurly? then Reject(CurlyAfterPackageName + name + "]", ts2, th, 0, code)
    else
      var i := PackItem(ts2, th, name);
      if i.err.Failed() then i.(code := code)
      else
        var p := Prog(i.ts, i.t, code, fs);
        PackageStep(t, th, i.t, p, name);
        if p.err.Failed() then p else p.(err := Success)
  }

  lemma PackageStep(t: Tables, th: Tables, i: Tables, p: Parsed, name: string)
    requires name !in t.packs && th == t.(packs := t.packs[name := map[]])
    requires FieldsOnly(i, th, name) && Grows(p, i)
    ensures Grows(p, t)
  {
  }

  /** `Parser::parse`: the whole program, from empty tables at depth 0. */
  function Parse(ts: seq<Token>, fs: FloatSem): (r: Parsed)
    ensures !r.err.Failed() ==> r.scope == 0 && Distinct(r.t) && ScopesWithin(r.t.vars, 0)
  {
    Prog(ts, EmptyTables, [], fs)
  }
}
