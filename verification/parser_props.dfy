/** Properties of the parser: what argument lists and package bodies add to
    the tables, the top-level outcomes, the redefinition checks, and the
    quirks of declarations whose `createVar` is refused. */
module ParserProps {
  import opened Types
  import opened Tokens
  import opened Errors
  import opened Symbols
  import opened Evaluation
  import opened Expressions
  import opened Parser

  /** A declaration `TYPE ID` as it appears in an argument list or a package. */
  datatype Decl = Decl(kw: KeywordType, name: string)

  predicate ValueTyped(ds: seq<Decl>) {
    forall i :: 0 <= i < |ds| ==> Keyword(ds[i].kw).IsValueTypeKeyword()
  }

  function TypeOfDecl(d: Decl): VarType
    requires Keyword(d.kw).IsValueTypeKeyword()
  {
    TypeOf(Keyword(d.kw)).value
  }

  function TypesOf(ds: seq<Decl>): (r: seq<VarType>)
    requires ValueTyped(ds)
    ensures |r| == |ds|
  {
    if |ds| == 0 then [] else [TypeOfDecl(ds[0])] + TypesOf(ds[1..])
  }

  // ---------------------------------------------------------------------------
  // Argument lists

  /** `TYPE ID , TYPE ID … )`: the tokens of an argument list after `(`. */
  function ArgTokens(ds: seq<Decl>): seq<Token> {
    if |ds| == 0 then [RightBracket] else [Keyword(ds[0].kw), Id(ds[0].name)] + MoreArgTokens(ds[1..])
  }

  /** `, TYPE ID … )`: what follows the first argument. */
  function MoreArgTokens(ds: seq<Decl>): seq<Token> {
    if |ds| == 0 then [RightBracket] else [Comma, Keyword(ds[0].kw), Id(ds[0].name)] + MoreArgTokens(ds[1..])
  }

  /** The arguments declared one after the other, as `defArgs` does. */
  function DeclareArgs(t: Tables, fname: string, ds: seq<Decl>, scope: nat): Tables
    requires ValueTyped(ds)
    decreases |ds|
  {
    if |ds| == 0 then t
    else DeclareArgs(AddArg(t, fname, TypeOfDecl(ds[0]), ds[0].name, scope), fname, ds[1..], scope)
  }

  lemma {:induction false} MoreArgsParsed(ds: seq<Decl>, rest: seq<Token>, t: Tables, fname: string, scope: nat)
    requires ValueTyped(ds) && fname in t.funcs
    ensures DefArgsList(MoreArgTokens(ds) + rest, t, fname, scope)
         == At(Success, rest, DeclareArgs(t, fname, ds, scope + 1), scope, [])
  {
    if |ds| == 0 {
      assert MoreArgTokens(ds) + rest == [RightBracket] + rest;
    } else {
      var t1 := AddArg(t, fname, TypeOfDecl(ds[0]), ds[0].name, scope + 1);
      var tail := MoreArgTokens(ds[1..]) + rest;
      AppendAssoc([Comma, Keyword(ds[0].kw), Id(ds[0].name)], MoreArgTokens(ds[1..]), rest);
      NextArg(ds[0], tail, t, fname, scope);
      MoreArgsParsed(ds[1..], rest, t1, fname, scope);
    }
  }

  /** `, TYPE ID` declares one argument and moves on. */
  lemma {:induction false} NextArg(d: Decl, tail: seq<Token>, t: Tables, fname: string, scope: nat)
    requires Keyword(d.kw).IsValueTypeKeyword() && fname in t.funcs
    ensures DefArgsList([Comma, Keyword(d.kw), Id(d.name)] + tail, t, fname, scope)
         == DefArgsList(tail, AddArg(t, fname, TypeOfDecl(d), d.name, scope + 1), fname, scope)
  {
    var ts := [Comma, Keyword(d.kw), Id(d.name)] + tail;
    assert ts[1..] == [Keyword(d.kw), Id(d.name)] + tail;
    assert ts[1..][1..] == [Id(d.name)] + tail;
    assert ts[1..][1..][1..] == tail;
  }

  /** A well-formed argument list is accepted up to and including its `)`,
      and declares exactly its arguments, in order, one scope deeper. */
  lemma {:induction false} ArgumentsParsed(ds: seq<Decl>, rest: seq<Token>, t: Tables, fname: string, scope: nat)
    requires ValueTyped(ds) && fname in t.funcs
    ensures DefArgs(ArgTokens(ds) + rest, t, fname, scope)
         == At(Success, rest, DeclareArgs(t, fname, ds, scope + 1), scope, [])
  {
    if |ds| == 0 {
      assert ArgTokens(ds) + rest == [RightBracket] + rest;
    } else {
      var t1 := AddArg(t, fname, TypeOfDecl(ds[0]), ds[0].name, scope + 1);
      AppendAssoc([Keyword(ds[0].kw), Id(ds[0].name)], MoreArgTokens(ds[1..]), rest);
      FirstArg(ds[0], MoreArgTokens(ds[1..]) + rest, t, fname, scope);
      MoreArgsParsed(ds[1..], rest, t1, fname, scope);
    }
  }

  /** The first `TYPE ID` declares one argument and moves on. */
  lemma {:induction false} FirstArg(d: Decl, tail: seq<Token>, t: Tables, fname: string, scope: nat)
    requires Keyword(d.kw).IsValueTypeKeyword() && fname in t.funcs
    ensures DefArgs([Keyword(d.kw), Id(d.name)] + tail, t, fname, scope)
         == DefArgsList(tail, AddArg(t, fname, TypeOfDecl(d), d.name, scope + 1), fname, scope)
  {
    var ts := [Keyword(d.kw), Id(d.name)] + tail;
    assert ts[1..] == [Id(d.name)] + tail;
    assert ts[1..][1..] == tail;
  }

  /** Names are pairwise different and clash with no existing variable or
      function, nor with the function being defined. */
  ghost predicate FreshNames(ds: seq<Decl>, t: Tables, fname: string) {
    forall i :: 0 <= i < |ds| ==>
      && ds[i].name !in t.vars && ds[i].name !in t.funcs && ds[i].name != fname
      && (forall j :: 0 <= j < i ==> ds[j].name != ds[i].name)
  }

  /** The argument types are appended to the function's signature in order;
      its return type, the other functions and the packages are untouched. */
  lemma {:induction false} DeclaredSignature(t: Tables, fname: string, ds: seq<Decl>, scope: nat)
    requires ValueTyped(ds)
    ensures var r := DeclareArgs(t, fname, ds, scope);
      && FuncOf(r, fname).args == FuncOf(t, fname).args + TypesOf(ds)
      && FuncOf(r, fname).ret == FuncOf(t, fname).ret
      && (forall g :: g in t.funcs && g != fname ==> g in r.funcs && r.funcs[g] == t.funcs[g])
      && r.packs == t.packs
  {
    DeclaredArgTypes(t, fname, ds, scope);
    DeclaredOthersKept(t, fname, ds, scope);
  }

  /** The argument types are appended in order and the return type is kept. */
  lemma {:induction false} DeclaredArgTypes(t: Tables, fname: string, ds: seq<Decl>, scope: nat)
    requires ValueTyped(ds)
    decreases |ds|
    ensures var r := DeclareArgs(t, fname, ds, scope);
      FuncOf(r, fname).args == FuncOf(t, fname).args + TypesOf(ds) && FuncOf(r, fname).ret == FuncOf(t, fname).ret
  {
    if |ds| > 0 {
      var t1 := AddArg(t, fname, TypeOfDecl(ds[0]), ds[0].name, scope);
      var a, ty, ts := FuncOf(t, fname).args, TypeOfDecl(ds[0]), TypesOf(ds[1..]);
      DeclaredArgTypes(t1, fname, ds[1..], scope);
      assert FuncOf(t1, fname).args == a + [ty];
      assert TypesOf(ds) == [ty] + ts;
      AppendAssoc(a, [ty], ts);
    }
  }

  /** Other functions and the packages are untouched by argument declarations. */
  lemma {:induction false} DeclaredOthersKept(t: Tables, fname: string, ds: seq<Decl>, scope: nat)
    requires ValueTyped(ds)
    decreases |ds|
    ensures var r := DeclareArgs(t, fname, ds, scope);
      && (forall g :: g in t.funcs && g != fname ==> g in r.funcs && r.funcs[g] == t.funcs[g])
      && r.packs == t.packs
  {
    if |ds| > 0 {
      var t1 := AddArg(t, fname, TypeOfDecl(ds[0]), ds[0].name, scope);
      DeclaredOthersKept(t1, fname, ds[1..], scope);
    }
  }

  /** Each fresh argument name becomes a variable of its type at the given
      depth. */
  lemma {:induction false} DeclaredVariables(t: Tables, fname: string, ds: seq<Decl>, scope: nat)
    requires ValueTyped(ds) && FreshNames(ds, t, fname)
    decreases |ds|
    ensures var r := DeclareArgs(t, fname, ds, scope);
      forall i :: 0 <= i < |ds| ==> ds[i].name in r.vars && r.vars[ds[i].name] == Var(TypeOfDecl(ds[i]), scope)
  {
    if |ds| > 0 {
      var t1 := AddArg(t, fname, TypeOfDecl(ds[0]), ds[0].name, scope);
      assert t1.vars == t.vars[ds[0].name := Var(TypeOfDecl(ds[0]), scope)];
      assert FreshNames(ds[1..], t1, fname) by {
        forall i | 0 <= i < |ds| - 1
          ensures ds[1..][i].name !in t1.vars && ds[1..][i].name !in t1.funcs
        {
          assert ds[1..][i] == ds[i + 1];
        }
      }
      DeclaredVariables(t1, fname, ds[1..], scope);
      assert forall i :: 0 <= i < |ds| - 1 ==> ds[1..][i].name != ds[0].name;
      DeclarationsKept(t1, fname, ds[1..], scope, ds[0].name);
      var r := DeclareArgs(t, fname, ds, scope);
      forall i | 0 <= i < |ds| ensures ds[i].name in r.vars && r.vars[ds[i].name] == Var(TypeOfDecl(ds[i]), scope) {
        if i > 0 {
          assert ds[i] == ds[1..][i - 1];
        }
      }
    }
  }

  /** A variable declared earlier survives later argument declarations whose
      names differ from it. */
  lemma {:induction false} DeclarationsKept(t: Tables, fname: string, ds: seq<Decl>, scope: nat, name: string)
    requires ValueTyped(ds) && name in t.vars
    requires forall i :: 0 <= i < |ds| ==> ds[i].name != name
    decreases |ds|
    ensures var r := DeclareArgs(t, fname, ds, scope); name in r.vars && r.vars[name] == t.vars[name]
  {
    if |ds| > 0 {
      var t1 := AddArg(t, fname, TypeOfDecl(ds[0]), ds[0].name, scope);
      DeclarationsKept(t1, fname, ds[1..], scope, name);
    }
  }

  /** The function is entered before its arguments are parsed: an argument
      named like the function is refused by `createVar`, whose result is not
      looked at, so its type is still appended but no variable is declared. */
  lemma {:induction false} ArgumentNamedAsFunction(fname: string, rest: seq<Token>, t: Tables, scope: nat)
    requires fname in t.funcs
    ensures DefArgs([Keyword(Int), Id(fname), RightBracket] + rest, t, fname, scope)
         == At(Success, rest, t.(funcs := t.funcs[fname := t.funcs[fname].(args := t.funcs[fname].args + [IntType])]), scope, [])
  {
    ArgumentsParsed([Decl(Int, fname)], rest, t, fname, scope);
    assert ArgTokens([Decl(Int, fname)]) == [Keyword(Int), Id(fname), RightBracket];
    assert DeclareArgs(t, fname, [Decl(Int, fname)], scope + 1) == AddArg(t, fname, IntType, fname, scope + 1);
  }

  // ---------------------------------------------------------------------------
  // Package bodies

  /** `TYPE ID ; … }`: the fields of a package after its `{`. */
  function FieldTokens(ds: seq<Decl>): seq<Token> {
    if |ds| == 0 then [RightCurly] else [Keyword(ds[0].kw), Id(ds[0].name), SemiColon] + FieldTokens(ds[1..])
  }

  /** The fields added one after the other, as `packItem` does. */
  function AddFields(t: Tables, pname: string, ds: seq<Decl>): Tables
    requires ValueTyped(ds)
    decreases |ds|
  {
    if |ds| == 0 then t
    else AddFields(AddField(t, pname, ds[0].name, TypeOfDecl(ds[0])), pname, ds[1..])
  }

  /** Field names are pairwise different and new to the package. */
  ghost predicate NewFields(ds: seq<Decl>, t: Tables, pname: string) {
    forall i :: 0 <= i < |ds| ==>
      && ds[i].name !in FieldsOf(t, pname)
      && (forall j :: 0 <= j < i ==> ds[j].name != ds[i].name)
  }

  lemma {:induction false} NewFieldsStep(ds: seq<Decl>, t: Tables, pname: string)
    requires |ds| > 0 && ValueTyped(ds) && ds[0].name !in FieldsOf(t, pname)
    ensures NewFields(ds, t, pname) <==> NewFields(ds[1..], AddField(t, pname, ds[0].name, TypeOfDecl(ds[0])), pname)
  {
    var t1 := AddField(t, pname, ds[0].name, TypeOfDecl(ds[0]));
    if NewFields(ds[1..], t1, pname) {
      forall i | 0 <= i < |ds|
        ensures ds[i].name !in FieldsOf(t, pname) && (forall j :: 0 <= j < i ==> ds[j].name != ds[i].name)
      {
        if i > 0 {
          assert ds[i] == ds[1..][i - 1];
          forall j | 0 <= j < i ensures ds[j].name != ds[i].name {
            if j > 0 {
              assert ds[j] == ds[1..][j - 1];
            }
          }
        }
      }
    }
    if NewFields(ds, t, pname) {
      forall i | 0 <= i < |ds| - 1
        ensures ds[1..][i].name !in FieldsOf(t1, pname)
        ensures forall j :: 0 <= j < i ==> ds[1..][j].name != ds[1..][i].name
      {
        assert ds[1..][i] == ds[i + 1];
        assert ds[0].name != ds[i + 1].name;
      }
    }
  }

  /** What parsing the fields `ds` followed by `rest` yields: success exactly
      when the names are new and pairwise different, and then exactly those
      fields added; otherwise the report of a repeated field. */
  ghost predicate FieldsOutcome(r: Parsed, ds: seq<Decl>, rest: seq<Token>, t: Tables, pname: string)
    requires ValueTyped(ds)
  {
    && (!r.err.Failed() <==> NewFields(ds, t, pname))
    && (NewFields(ds, t, pname) ==> r == At(Success, rest, AddFields(t, pname, ds), 0, []))
    && (!NewFields(ds, t, pname) ==> DuplicateField <= r.err.msg)
  }

  lemma {:induction false} DuplicateReported(name: string)
    ensures DuplicateField <= SyntaxError(DuplicateField + name + "]").msg
  {
    assert DuplicateField + name + "]" == DuplicateField + (name + "]");
  }

  /** `; }` ends the field list. */
  lemma {:induction false} ListEnds(rest: seq<Token>, t: Tables, pname: string)
    requires forall f :: f in FieldsOf(t, pname) ==> FieldsOf(t, pname)[f] != PackType
    ensures PackItemList([SemiColon, RightCurly] + rest, t, pname) == At(Success, rest, t, 0, [])
  {
    var ts := [SemiColon, RightCurly] + rest;
    assert ts[1..] == [RightCurly] + rest;
    assert ts[1..][1..] == rest;
  }

  /** `; TYPE ID` adds one field to the list, or stops on a repeated name. */
  lemma {:induction false} ListField(d: Decl, tail: seq<Token>, t: Tables, pname: string)
    requires Keyword(d.kw).IsValueTypeKeyword()
    requires forall f :: f in FieldsOf(t, pname) ==> FieldsOf(t, pname)[f] != PackType
    ensures PackItemList([SemiColon, Keyword(d.kw), Id(d.name)] + tail, t, pname)
         == if d.name in FieldsOf(t, pname) then Reject(DuplicateField + d.name + "]", tail, t, 0, [])
            else PackItemList(tail, AddField(t, pname, d.name, TypeOfDecl(d)), pname)
  {
    var ts := [SemiColon, Keyword(d.kw), Id(d.name)] + tail;
    assert ts[1..] == [Keyword(d.kw), Id(d.name)] + tail;
    assert ts[1..][1..] == [Id(d.name)] + tail;
    assert ts[1..][1..][1..] == tail;
  }

  /** The first field `TYPE ID` of a package body. */
  lemma {:induction false} FirstField(d: Decl, tail: seq<Token>, t: Tables, pname: string)
    requires Keyword(d.kw).IsValueTypeKeyword()
    requires forall f :: f in FieldsOf(t, pname) ==> FieldsOf(t, pname)[f] != PackType
    ensures PackItem([Keyword(d.kw), Id(d.name)] + tail, t, pname)
         == if d.name in FieldsOf(t, pname) then Reject(DuplicateField + d.name + "]", tail, t, 0, [])
            else PackItemList(tail, AddField(t, pname, d.name, TypeOfDecl(d)), pname)
  {
    var ts := [Keyword(d.kw), Id(d.name)] + tail;
    assert ts[1..] == [Id(d.name)] + tail;
    assert ts[1..][1..] == tail;
  }

  /** The rest of a package body after its first field. A body is accepted
      exactly when its field names are new and pairwise different; it then
      adds exactly those fields, otherwise it stops at the first repeated name. */
  lemma {:induction false} MoreFieldsParsed(ds: seq<Decl>, rest: seq<Token>, t: Tables, pname: string)
    requires ValueTyped(ds)
    requires forall f :: f in FieldsOf(t, pname) ==> FieldsOf(t, pname)[f] != PackType
    decreases |ds|
    ensures FieldsOutcome(PackItemList([SemiColon] + FieldTokens(ds) + rest, t, pname), ds, rest, t, pname)
  {
    if |ds| == 0 {
      assert [SemiColon] + FieldTokens(ds) + rest == [SemiColon, RightCurly] + rest;
      ListEnds(rest, t, pname);
    } else {
      var tail := [SemiColon] + FieldTokens(ds[1..]) + rest;
      assert [SemiColon] + FieldTokens(ds) + rest == [SemiColon, Keyword(ds[0].kw), Id(ds[0].name)] + tail;
      ListField(ds[0], tail, t, pname);
      if ds[0].name in FieldsOf(t, pname) {
        DuplicateReported(ds[0].name);
      } else {
        NewFieldsStep(ds, t, pname);
        MoreFieldsParsed(ds[1..], rest, AddField(t, pname, ds[0].name, TypeOfDecl(ds[0])), pname);
      }
    }
  }

  /** A package body: the first field, then the others. (An empty body `}`
      is refused, as `PackItem` states.) */
  lemma {:induction false} FieldsParsed(ds: seq<Decl>, rest: seq<Token>, t: Tables, pname: string)
    requires |ds| > 0 && ValueTyped(ds)
    requires forall f :: f in FieldsOf(t, pname) ==> FieldsOf(t, pname)[f] != PackType
    ensures FieldsOutcome(PackItem(FieldTokens(ds) + rest, t, pname), ds, rest, t, pname)
  {
    var tail := [SemiColon] + FieldTokens(ds[1..]) + rest;
    assert FieldTokens(ds) + rest == [Keyword(ds[0].kw), Id(ds[0].name)] + tail;
    FirstField(ds[0], tail, t, pname);
    if ds[0].name in FieldsOf(t, pname) {
      DuplicateReported(ds[0].name);
    } else {
      NewFieldsStep(ds, t, pname);
      MoreFieldsParsed(ds[1..], rest, AddField(t, pname, ds[0].name, TypeOfDecl(ds[0])), pname);
    }
  }

  /** The fields a package ends up with: the earlier ones plus one per
      declaration, with the declared type. */
  lemma {:induction false} AddedFields(t: Tables, pname: string, ds: seq<Decl>)
    requires ValueTyped(ds) && NewFields(ds, t, pname)
    ensures var r := FieldsOf(AddFields(t, pname, ds), pname);
      && (forall f :: f in FieldsOf(t, pname) ==> f in r && r[f] == FieldsOf(t, pname)[f])
      && (forall i :: 0 <= i < |ds| ==> ds[i].name in r && r[ds[i].name] == TypeOfDecl(ds[i]))
      && |r| == |FieldsOf(t, pname)| + |ds|
  {
    EarlierFieldsKept(t, pname, ds);
    DeclaredFields(t, pname, ds);
    FieldCount(t, pname, ds);
  }

  /** Fields the package had before are kept with their types. */
  lemma {:induction false} EarlierFieldsKept(t: Tables, pname: string, ds: seq<Decl>)
    requires ValueTyped(ds) && NewFields(ds, t, pname)
    decreases |ds|
    ensures var r := FieldsOf(AddFields(t, pname, ds), pname);
      forall f :: f in FieldsOf(t, pname) ==> f in r && r[f] == FieldsOf(t, pname)[f]
  {
    if |ds| > 0 {
      var t1 := AddField(t, pname, ds[0].name, TypeOfDecl(ds[0]));
      NewFieldsStep(ds, t, pname);
      EarlierFieldsKept(t1, pname, ds[1..]);
    }
  }

  /** Each declared field is present with its declared type. */
  lemma {:induction false} DeclaredFields(t: Tables, pname: string, ds: seq<Decl>)
    requires ValueTyped(ds) && NewFields(ds, t, pname)
    decreases |ds|
    ensures var r := FieldsOf(AddFields(t, pname, ds), pname);
      forall i :: 0 <= i < |ds| ==> ds[i].name in r && r[ds[i].name] == TypeOfDecl(ds[i])
  {
    if |ds| > 0 {
      var t1 := AddField(t, pname, ds[0].name, TypeOfDecl(ds[0]));
      NewFieldsStep(ds, t, pname);
      DeclaredFields(t1, pname, ds[1..]);
      EarlierFieldsKept(t1, pname, ds[1..]);
      var r := FieldsOf(AddFields(t, pname, ds), pname);
      forall i | 0 <= i < |ds| ensures ds[i].name in r && r[ds[i].name] == TypeOfDecl(ds[i]) {
        if i > 0 {
          assert ds[i] == ds[1..][i - 1];
        }
      }
    }
  }

  /** Every declaration adds one field. */
  lemma {:induction false} FieldCount(t: Tables, pname: string, ds: seq<Decl>)
    requires ValueTyped(ds) && NewFields(ds, t, pname)
    decreases |ds|
    ensures |FieldsOf(AddFields(t, pname, ds), pname)| == |FieldsOf(t, pname)| + |ds|
  {
    if |ds| > 0 {
      var t1 := AddField(t, pname, ds[0].name, TypeOfDecl(ds[0]));
      NewFieldsStep(ds, t, pname);
      FieldCount(t1, pname, ds[1..]);
    }
  }

  // ---------------------------------------------------------------------------
  // Top level

  /** An empty remainder reports the end of the source file; a name, a
      keyword other than `func`, `pack`, `byte`, `int` and `float`, or any
      other token is refused. */
  lemma {:induction false} TopLevel(tok: Token, rest: seq<Token>, t: Tables, code: seq<Instr>, fs: FloatSem)
    ensures Prog([], t, code, fs) == At(EndOfSource, [], t, 0, code)
    ensures tok.Id? ==> Prog([tok] + rest, t, code, fs) == At(SyntaxError(NotYetImplemented), rest, t, 0, code)
    ensures tok.Keyword? && !(tok.kw.Func? || tok.kw.Pack? || tok.IsValueTypeKeyword()) ==>
      Prog([tok] + rest, t, code, fs) == At(SyntaxError(KeywordAtTop), rest, t, 0, code)
    ensures !tok.Keyword? && !tok.Id? && !tok.Eof? ==>
      Prog([tok] + rest, t, code, fs) == At(SyntaxError(TokenAtTop), rest, t, 0, code)
  {
    assert ([tok] + rest)[1..] == rest;
  }

  /** A global declaration that is accepted hands over to the rest of the
      program; the rest's error comes back unchanged when it failed, and
      becomes a plain `Ok` when it succeeded, so the end-of-file report only
      survives for an empty program. */
  lemma {:induction false} GlobalDeclaration(kw: KeywordType, x: string, rest: seq<Token>, t: Tables, code: seq<Instr>, fs: FloatSem)
    requires Keyword(kw).IsValueTypeKeyword()
    ensures var p := Prog(rest, CreateVar(t, x, TypeOf(Keyword(kw)).value, 0).1, code, fs);
      Prog([Keyword(kw), Id(x), SemiColon] + rest, t, code, fs)
      == if p.err.Failed() then p else p.(err := Success)
  {
    var ts := [Keyword(kw), Id(x), SemiColon] + rest;
    assert ts[1..] == [Id(x), SemiColon] + rest;
    assert ts[1..][1..] == [SemiColon] + rest;
    assert ts[1..][1..][1..] == rest;
  }

  /** A program made of one global declaration ends with a plain `Ok`. */
  lemma {:induction false} OneDeclarationEndsOk(kw: KeywordType, x: string, t: Tables, fs: FloatSem)
    requires Keyword(kw).IsValueTypeKeyword()
    ensures Prog([Keyword(kw), Id(x), SemiColon], t, [], fs).err == Success
  {
    GlobalDeclaration(kw, x, [], t, [], fs);
    assert [Keyword(kw), Id(x), SemiColon] + [] == [Keyword(kw), Id(x), SemiColon];
  }

  /** A function header naming an existing variable or function is refused. */
  lemma {:induction false} FunctionRedefinition(f: string, rest: seq<Token>, t: Tables, code: seq<Instr>, fs: FloatSem)
    requires f in t.vars || f in t.funcs
    ensures Prog([Keyword(KeywordType.Func), Id(f)] + rest, t, code, fs)
         == if f in t.vars then Reject(FunctionNamedAsVariable + f + "]", rest, t, 0, code)
            else Reject(FunctionRedefined + f + "]", rest, t, 0, code)
  {
    var ts := [Keyword(KeywordType.Func), Id(f)] + rest;
    assert ts[1..] == [Id(f)] + rest;
    assert ts[1..][1..] == rest;
  }

  /** A package name may be defined only once. */
  lemma {:induction false} PackageRedefinition(p: string, rest: seq<Token>, t: Tables, code: seq<Instr>, fs: FloatSem)
    requires p in t.packs
    ensures Prog([Keyword(Pack), Id(p)] + rest, t, code, fs)
         == Reject(PackageRedefined + p + "]", rest, t, 0, code)
  {
    var ts := [Keyword(Pack), Id(p)] + rest;
    assert ts[1..] == [Id(p)] + rest;
    assert ts[1..][1..] == rest;
  }

  /** A package without fields is refused. */
  lemma {:induction false} EmptyPackageRefused(p: string, rest: seq<Token>, t: Tables, code: seq<Instr>, fs: FloatSem)
    requires p !in t.packs
    ensures Prog([Keyword(Pack), Id(p), LeftCurly, RightCurly] + rest, t, code, fs).err
         == SyntaxError(EmptyPackage)
  {
    var ts := [Keyword(Pack), Id(p), LeftCurly, RightCurly] + rest;
    var th := t.(packs := t.packs[p := map[]]);
    assert ts[1..] == [Id(p), LeftCurly, RightCurly] + rest;
    assert ts[1..][1..] == [LeftCurly, RightCurly] + rest;
    assert ts[1..][1..][1..] == [RightCurly] + rest;
    assert Prog(ts, t, code, fs) == Package(ts[1..], t, code, fs);
    assert Package(ts[1..], t, code, fs) == PackageBody(p, ts[1..][1..], t, code, fs);
    assert PackItem(ts[1..][1..][1..], th, p).err == SyntaxError(EmptyPackage);
  }

  // ---------------------------------------------------------------------------
  // Statements

  /** Assigning to a name that is not a variable is refused before the
      expression is looked at. */
  lemma {:induction false} AssignmentToUndefined(x: string, rest: seq<Token>, t: Tables, scope: nat, code: seq<Instr>, fs: FloatSem)
    requires x !in t.vars
    ensures Body([Id(x), Assign] + rest, t, scope, code, fs) == Reject(AssignUndefined, rest, t, scope, code)
  {
    var ts := [Id(x), Assign] + rest;
    assert ts[1..] == [Assign] + rest;
    assert ts[1..][1..] == rest;
  }

  /** `P x ;` with `P` not a package is refused. */
  lemma {:induction false} UndefinedPackageRefused(p: string, x: string, rest: seq<Token>, t: Tables, scope: nat, code: seq<Instr>, fs: FloatSem)
    requires p !in t.packs
    ensures Body([Id(p), Id(x)] + rest, t, scope, code, fs) == Reject(UndefinedPackage, rest, t, scope, code)
  {
    var ts := [Id(p), Id(x)] + rest;
    assert ts[1..] == [Id(x)] + rest;
    assert ts[1..][1..] == rest;
  }

  /** `P x ;` with `P` a package declares a variable named `P` (when `createVar`
      accepts it), and `x` is not declared at all. */
  lemma {:induction false} PackageVariableNamedAfterPackage(p: string, x: string, rest: seq<Token>, t: Tables, scope: nat, code: seq<Instr>, fs: FloatSem)
    requires p in t.packs
    ensures var t2 := CreateVar(t, p, PackType, scope).1;
      && Body([Id(p), Id(x), SemiColon] + rest, t, scope, code, fs) == Body(rest, t2, scope, code, fs)
      && (p !in t.funcs ==> p in t2.vars)
      && (p !in t.funcs && p !in t.vars ==> t2.vars[p] == Var(PackType, scope))
      && (x != p ==> (x in t2.vars <==> x in t.vars))
  {
    var ts := [Id(p), Id(x), SemiColon] + rest;
    assert ts[1..] == [Id(x), SemiColon] + rest;
    assert ts[1..][1..] == [SemiColon] + rest;
    assert ts[1..][1..][1..] == rest;
    assert Body(ts, t, scope, code, fs) == NameStatement(p, ts[1..], t, scope, code, fs);
    assert NameStatement(p, ts[1..], t, scope, code, fs) == PackDeclaration(p, ts[1..][1..], t, scope, code, fs);
  }

  /** `TYPE ID ;` hands over to the rest of the body with the tables
      `createVar` leaves, whether it accepted the name or not. */
  lemma {:induction false} DeclarationThenBody(kw: KeywordType, x: string, rest: seq<Token>, t: Tables, scope: nat, code: seq<Instr>, fs: FloatSem)
    requires Keyword(kw).IsValueTypeKeyword()
    ensures Body([Keyword(kw), Id(x), SemiColon] + rest, t, scope, code, fs)
         == Body(rest, CreateVar(t, x, TypeOf(Keyword(kw)).value, scope).1, scope, code, fs)
  {
    var ts := [Keyword(kw), Id(x), SemiColon] + rest;
    assert ts[1..] == [Id(x), SemiColon] + rest;
    assert ts[1..][1..] == [SemiColon] + rest;
    assert ts[1..][1..][1..] == rest;
  }

  /** A declaration whose name is already a variable or a function is refused
      by `createVar`, but parsing goes on with the tables unchanged. */
  lemma {:induction false} RedeclarationContinues(kw: KeywordType, x: string, rest: seq<Token>, t: Tables, scope: nat, code: seq<Instr>, fs: FloatSem)
    requires Keyword(kw).IsValueTypeKeyword() && (x in t.vars || x in t.funcs)
    ensures Body([Keyword(kw), Id(x), SemiColon] + rest, t, scope, code, fs) == Body(rest, t, scope, code, fs)
  {
    DeclarationThenBody(kw, x, rest, t, scope, code, fs);
  }

  lemma {:induction false} BodyCloses(rest: seq<Token>, t: Tables, scope: nat, code: seq<Instr>, fs: FloatSem)
    ensures Body([RightCurly] + rest, t, scope, code, fs) == At(Success, rest, t, scope, code)
  {
    assert ([RightCurly] + rest)[1..] == rest;
  }

  lemma {:induction false} ElseBlock(inner: seq<Token>, t: Tables, scope: nat, code: seq<Instr>, fs: FloatSem)
    ensures Body([Keyword(Else), LeftCurly] + inner, t, scope, code, fs) == Block(inner, t, scope, code, fs)
  {
    var ts := [Keyword(Else), LeftCurly] + inner;
    assert ts[1..] == [LeftCurly] + inner;
    assert ts[1..][1..] == inner;
    assert Body(ts, t, scope, code, fs) == ElseStatement(ts[1..], t, scope, code, fs);
  }

  /** A variable declared inside `else { … }` is forgotten once the block is
      left: assigning to it afterwards is refused. */
  lemma {:induction false} BlockLocalForgotten(x: string, rest: seq<Token>, t: Tables, scope: nat, code: seq<Instr>, fs: FloatSem)
    requires x !in t.vars && x !in t.funcs && ScopesWithin(t.vars, scope)
    ensures Body([Keyword(Else), LeftCurly, Keyword(Int), Id(x), SemiColon, RightCurly, Id(x), Assign] + rest, t, scope, code, fs)
         == Reject(AssignUndefined, rest, t, scope, code)
  {
    var inner := [Keyword(Int), Id(x), SemiColon] + ([RightCurly] + ([Id(x), Assign] + rest));
    LocalBlockThenAssign(x, rest, t, scope, code, fs);
    ElseBlock(inner, t, scope, code, fs);
    assert [Keyword(Else), LeftCurly] + inner
        == [Keyword(Else), LeftCurly, Keyword(Int), Id(x), SemiColon, RightCurly, Id(x), Assign] + rest;
  }

  /** `int x ; }` followed by an assignment to `x`: the block is left and
      the assignment finds no `x`. */
  lemma {:induction false} LocalBlockThenAssign(x: string, rest: seq<Token>, t: Tables, scope: nat, code: seq<Instr>, fs: FloatSem)
    requires x !in t.vars && x !in t.funcs && ScopesWithin(t.vars, scope)
    ensures Block([Keyword(Int), Id(x), SemiColon] + ([RightCurly] + ([Id(x), Assign] + rest)), t, scope, code, fs)
         == Reject(AssignUndefined, rest, t, scope, code)
  {
    var after := [Id(x), Assign] + rest;
    var inner := [Keyword(Int), Id(x), SemiColon] + ([RightCurly] + after);
    LocalBlock(x, after, t, scope, code, fs);
    AssignmentToUndefined(x, rest, t, scope, code, fs);
  }

  /** `int x ; }` declares `x` inside a block and forgets it at the `}`. */
  lemma {:induction false} LocalBlock(x: string, after: seq<Token>, t: Tables, scope: nat, code: seq<Instr>, fs: FloatSem)
    requires x !in t.vars && x !in t.funcs && ScopesWithin(t.vars, scope)
    ensures Enclosed([Keyword(Int), Id(x), SemiColon] + ([RightCurly] + after), t, scope, code, fs)
         == At(Success, after, t, scope, code)
  {
    var t1 := CreateVar(t, x, IntType, scope + 1).1;
    DeclarationThenBody(Int, x, [RightCurly] + after, t, scope + 1, code, fs);
    BodyCloses(after, t1, scope + 1, code, fs);
    assert ExitScope(t1, scope + 1) == t by {
      ExitScopeUndoesCreate(t, x, IntType, scope + 1);
      ExitScopeUnused(t, scope + 1);
    }
  }

  // ---------------------------------------------------------------------------
  // Function headers

  /** A fresh function name is entered with no arguments and no return type
      before anything after the name is read. */
  lemma {:induction false} FunctionEntered(f: string, rest: seq<Token>, t: Tables, code: seq<Instr>, fs: FloatSem)
    requires f !in t.vars && f !in t.funcs
    ensures Prog([Keyword(KeywordType.Func), Id(f)] + rest, t, code, fs)
         == Header(f, rest, t.(funcs := t.funcs[f := Func.Func([], None)]), t, code, fs)
  {
    var ts := [Keyword(KeywordType.Func), Id(f)] + rest;
    assert ts[1..] == [Id(f)] + rest;
    assert ts[1..][1..] == rest;
  }

  /** The header's `(` and arguments, once the arguments have been parsed. */
  lemma {:induction false} HeaderArguments(f: string, args: seq<Token>, after: seq<Token>, th: Tables, d: Tables, t: Tables, code: seq<Instr>, fs: FloatSem)
    requires Declares(th, t, f) && f in th.funcs && Declares(d, t, f) && f in d.funcs
    requires DefArgs(args + after, th, f, 0) == At(Success, after, d, 0, [])
    ensures Header(f, [LeftBracket] + (args + after), th, t, code, fs) == Signature(f, after, d, t, code, fs)
  {
    assert ([LeftBracket] + (args + after))[1..] == args + after;
  }

  /** `: void {` records the return type and enters the function's block. */
  lemma {:induction false} VoidSignature(f: string, body: seq<Token>, d: Tables, t: Tables, code: seq<Instr>, fs: FloatSem)
    requires Declares(d, t, f) && f in d.funcs
    ensures Signature(f, [Colon, Keyword(Void), LeftCurly] + body, d, t, code, fs)
         == FunctionBody(f, body, d.(funcs := d.funcs[f := d.funcs[f].(ret := Some(RetVoid))]), t, code, fs)
  {
    var after := [Colon, Keyword(Void), LeftCurly] + body;
    assert after[1..] == [Keyword(Void), LeftCurly] + body;
    assert after[1..][1..] == [LeftCurly] + body;
    assert ([LeftCurly] + body)[1..] == body;
    assert FuncType(after[1..], d, f)
        == At(Success, [LeftCurly] + body, d.(funcs := d.funcs[f := d.funcs[f].(ret := Some(RetVoid))]), 0, []);
  }
}
