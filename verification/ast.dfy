/** The slice of Python's abstract syntax tree that the compiler builds and
    inspects.  Expressions never contain statements, so every traversal that
    looks for statements only walks statement bodies. */
module Ast {
  import opened Base

  /** `NameConstant` values. */
  datatype ConstVal = TrueVal | FalseVal | NoneVal

  datatype Expr =
    | Name(id: string)
    | Attribute(value: Expr, attr: string)
    | Call(func: Expr, args: seq<Expr>, keywords: seq<Keyword>)
    | Str(s: string)
    | Num(n: int)
    | Constant(c: ConstVal)
    | Subscript(value: Expr, index: Expr)
    | Compare(left: Expr, right: Expr)

  /** A keyword argument; `arg == None` is a `**value` splat. */
  datatype Keyword = Keyword(arg: Option<string>, value: Expr)

  /** A positional parameter with its optional annotation. */
  datatype Arg = Arg(arg: string, annotation: Option<Expr>)

  /** The unannotated `self` parameter of a method. */
  const SelfArg := Arg("self", None)

  datatype Stmt =
    | ImportFrom(mod: string, names: seq<string>)
    | Assign(targets: seq<Expr>, value: Expr)
    | AnnAssign(target: Expr, annotation: Expr, value: Expr)
    | FunctionDef(name: string, args: seq<Arg>, body: seq<Stmt>, decorators: seq<Expr>)
    | ClassDef(name: string, bases: seq<Expr>, body: seq<Stmt>)
    | While(test: Expr, body: seq<Stmt>)
    | If(test: Expr, body: seq<Stmt>)
    | ExprStmt(value: Expr)
    | Pass
    | Assert(test: Expr)
    | Raise(exc: Option<Expr>)
    | Return(result: Option<Expr>)

  datatype Module = Module(body: seq<Stmt>)

  /** Statements that own a nested statement list. */
  predicate HasBody(s: Stmt)
  {
    s.FunctionDef? || s.ClassDef? || s.While? || s.If?
  }

  /** A compound statement with its body replaced. */
  function WithBody(s: Stmt, b: seq<Stmt>): (r: Stmt)
    requires HasBody(s)
    ensures r == s.(body := b)
  {
    match s
    case FunctionDef(n, a, _, d) => FunctionDef(n, a, b, d)
    case ClassDef(n, bs, _) => ClassDef(n, bs, b)
    case While(t, _) => While(t, b)
    case If(t, _) => If(t, b)
    case _ => s
  }

  /** All statements of `ss`, nested ones included, in the order a
      `NodeVisitor` meets them (pre-order). */
  function Walk(ss: seq<Stmt>): seq<Stmt>
    decreases ss
  {
    if |ss| == 0 then []
    else
      assert ss[0] in ss;
      [ss[0]] + (if HasBody(ss[0]) then Walk(ss[0].body) else []) + Walk(ss[1..])
  }

  lemma {:induction false} WalkAppend(a: seq<Stmt>, b: seq<Stmt>)
    ensures Walk(a + b) == Walk(a) + Walk(b)
    decreases a
  {
    if |a| == 0 {
      assert a + b == b;
    } else {
      assert (a + b)[0] == a[0];
      assert (a + b)[1..] == a[1..] + b;
      WalkAppend(a[1..], b);
    }
  }

  lemma {:induction false} WalkContainsTop(ss: seq<Stmt>)
    ensures forall s :: s in ss ==> s in Walk(ss)
    decreases ss
  {
    if |ss| > 0 {
      WalkContainsTop(ss[1..]);
      forall s | s in ss ensures s in Walk(ss) {
        if s != ss[0] {
          assert s in ss[1..];
        }
      }
    }
  }

  /** A position in a statement list: an index at each nesting level. */
  type Path = seq<nat>

  predicate ValidPath(ss: seq<Stmt>, p: Path)
    decreases ss
  {
    && |p| >= 1
    && p[0] < |ss|
    && (|p| == 1 || (assert ss[p[0]] in ss; HasBody(ss[p[0]]) && ValidPath(ss[p[0]].body, p[1..])))
  }

  /** The statement at a path. */
  function At(ss: seq<Stmt>, p: Path): Stmt
    requires ValidPath(ss, p)
    decreases ss
  {
    assert ss[p[0]] in ss;
    if |p| == 1 then ss[p[0]] else At(ss[p[0]].body, p[1..])
  }

  /** `ss` with the statement at `p` replaced by `s`. */
  function Replace(ss: seq<Stmt>, p: Path, s: Stmt): (r: seq<Stmt>)
    requires ValidPath(ss, p)
    ensures |r| == |ss|
    decreases ss
  {
    assert ss[p[0]] in ss;
    if |p| == 1 then ss[p[0] := s]
    else ss[p[0] := WithBody(ss[p[0]], Replace(ss[p[0]].body, p[1..], s))]
  }

  lemma {:induction false} ReplaceAt(ss: seq<Stmt>, p: Path, s: Stmt)
    requires ValidPath(ss, p)
    ensures ValidPath(Replace(ss, p, s), p)
    ensures At(Replace(ss, p, s), p) == s
    decreases ss
  {
    assert ss[p[0]] in ss;
    if |p| > 1 {
      ReplaceAt(ss[p[0]].body, p[1..], s);
    }
  }

  /** Replacing a statement by itself changes nothing. */
  lemma {:induction false} ReplaceSelf(ss: seq<Stmt>, p: Path)
    requires ValidPath(ss, p)
    ensures Replace(ss, p, At(ss, p)) == ss
    decreases ss
  {
    assert ss[p[0]] in ss;
    if |p| > 1 {
      ReplaceSelf(ss[p[0]].body, p[1..]);
    }
  }

  /** The statement at a valid path is one the traversal visits. */
  lemma {:induction false} AtInWalk(ss: seq<Stmt>, p: Path)
    requires ValidPath(ss, p)
    ensures At(ss, p) in Walk(ss)
    decreases ss
  {
    var i := p[0];
    assert ss[i] in ss;
    assert ss == ss[..i] + [ss[i]] + ss[i + 1..];
    WalkAppend(ss[..i] + [ss[i]], ss[i + 1..]);
    WalkAppend(ss[..i], [ss[i]]);
    assert Walk([ss[i]]) == [ss[i]] + (if HasBody(ss[i]) then Walk(ss[i].body) else []) + Walk([]);
    if |p| > 1 {
      AtInWalk(ss[i].body, p[1..]);
    }
  }
}
