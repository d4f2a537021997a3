/** Search and mutation primitives over syntax trees
    (`src/python/arcor2/source/utils.py`, duplicated in `generate_source.py`).
    Every in-place `NodeVisitor`/`NodeTransformer` becomes a pure function. */
module TreeUtils {
  import opened Base
  import opened Ast

  // ---------------------------------------------------------------------
  // find_function / find_class_def

  datatype DefKind = FunctionKind | ClassKind

  predicate IsDef(s: Stmt, k: DefKind)
  {
    match k
    case FunctionKind => s.FunctionDef?
    case ClassKind => s.ClassDef?
  }

  predicate Defines(s: Stmt, k: DefKind, name: string)
  {
    IsDef(s, k) && s.name == name
  }

  /** Some statement of the tree (nested ones included) defines `name`. */
  predicate DefinedIn(ss: seq<Stmt>, k: DefKind, name: string)
  {
    exists x :: x in Walk(ss) && Defines(x, k, name)
  }

  function Shift(p: Path): Path
    requires |p| >= 1
  {
    [p[0] + 1] + p[1..]
  }

  lemma ShiftValid(ss: seq<Stmt>, p: Path)
    requires |ss| >= 1 && ValidPath(ss[1..], p)
    ensures ValidPath(ss, Shift(p)) && At(ss, Shift(p)) == At(ss[1..], p)
  {
    assert ss[1..][p[0]] == ss[p[0] + 1];
    assert Shift(p)[1..] == p[1..];
  }

  lemma DescendValid(ss: seq<Stmt>, p: Path)
    requires |ss| >= 1 && HasBody(ss[0]) && ValidPath(ss[0].body, p)
    ensures ValidPath(ss, [0] + p) && At(ss, [0] + p) == At(ss[0].body, p)
  {
    assert ([0] + p)[1..] == p;
  }

  /** The search visitor run over `ss` when a match was (`fb`) or was not
      recorded before: a matching definition is recorded and not entered; a
      non-matching definition of the searched kind is entered only while
      nothing is recorded; every other compound statement is always entered,
      so a later match overwrites an earlier one.  The result is the path,
      relative to `ss`, of the last match recorded inside `ss`. */
  function FindIn(ss: seq<Stmt>, k: DefKind, name: string, fb: bool): (r: Option<Path>)
    ensures r.Some? ==> ValidPath(ss, r.value) && Defines(At(ss, r.value), k, name)
    decreases ss
  {
    if |ss| == 0 then None
    else
      var s := ss[0];
      assert s in ss;
      var inner: Option<Path> :=
        if Defines(s, k, name) then Some([0])
        else if HasBody(s) && (!IsDef(s, k) || !fb) then
          match FindIn(s.body, k, name, fb)
          case Some(p) => DescendValid(ss, p); Some([0] + p)
          case None => None
        else None;
      var rest := FindIn(ss[1..], k, name, fb || inner.Some?);
      match rest
      case Some(p) => ShiftValid(ss, p); Some(Shift(p))
      case None => inner
  }

  /** Started with nothing recorded, the visitor records something exactly
      when some statement of the tree defines the name. */
  lemma {:induction false} FindInComplete(ss: seq<Stmt>, k: DefKind, name: string)
    ensures FindIn(ss, k, name, false).Some? <==> DefinedIn(ss, k, name)
    decreases ss
  {
    var r := FindIn(ss, k, name, false);
    if r.Some? {
      AtInWalk(ss, r.value);
    }
    if |ss| > 0 && DefinedIn(ss, k, name) {
      var s := ss[0];
      assert s in ss;
      var x :| x in Walk(ss) && Defines(x, k, name);
      var below := if HasBody(s) then Walk(s.body) else [];
      assert Walk(ss) == [s] + below + Walk(ss[1..]);
      if x == s {
      } else if x in below {
        FindInComplete(s.body, k, name);
      } else {
        assert x in Walk(ss[1..]);
        FindInComplete(ss[1..], k, name);
      }
    }
  }

  lemma ReplaceTail(ss: seq<Stmt>, p: Path, s: Stmt)
    requires ValidPath(ss, p) && p[0] > 0
    ensures ValidPath(ss[1..], [p[0] - 1] + p[1..])
    ensures At(ss[1..], [p[0] - 1] + p[1..]) == At(ss, p)
    ensures Replace(ss, p, s)[0] == ss[0]
    ensures Replace(ss, p, s)[1..] == Replace(ss[1..], [p[0] - 1] + p[1..], s)
  {
    var q := [p[0] - 1] + p[1..];
    assert q[1..] == p[1..];
    assert ss[1..][q[0]] == ss[p[0]];
  }

  /** Exchanging the definition at a path for another one of the same kind
      and name does not change where the visitor's search ends: a match is
      never entered. */
  lemma {:induction false} FindInReplace(ss: seq<Stmt>, p: Path, s': Stmt, k: DefKind, name: string, fb: bool)
    requires ValidPath(ss, p) && Defines(At(ss, p), k, name) && Defines(s', k, name)
    ensures FindIn(Replace(ss, p, s'), k, name, fb) == FindIn(ss, k, name, fb)
    decreases ss, 1
  {
    if p[0] == 0 {
      FindInReplaceHead(ss, p, s', k, name, fb);
    } else {
      ReplaceTail(ss, p, s');
      var q := [p[0] - 1] + p[1..];
      FindInReplace(ss[1..], q, s', k, name, true);
      FindInReplace(ss[1..], q, s', k, name, false);
      FindInSameHead(Replace(ss, p, s'), ss, k, name, fb);
    }
  }

  /** Two lists with the same head whose tails search alike search alike. */
  lemma FindInSameHead(a: seq<Stmt>, b: seq<Stmt>, k: DefKind, name: string, fb: bool)
    requires |a| > 0 && |b| > 0 && a[0] == b[0]
    requires FindIn(a[1..], k, name, true) == FindIn(b[1..], k, name, true)
    requires FindIn(a[1..], k, name, false) == FindIn(b[1..], k, name, false)
    ensures FindIn(a, k, name, fb) == FindIn(b, k, name, fb)
  {
  }

  lemma {:induction false} FindInReplaceHead(ss: seq<Stmt>, p: Path, s': Stmt, k: DefKind, name: string, fb: bool)
    requires ValidPath(ss, p) && Defines(At(ss, p), k, name) && Defines(s', k, name)
    requires p[0] == 0
    ensures FindIn(Replace(ss, p, s'), k, name, fb) == FindIn(ss, k, name, fb)
    decreases ss, 0
  {
    var r := Replace(ss, p, s');
    var s := ss[0];
    assert s in ss;
    assert r[1..] == ss[1..];
    if |p| > 1 {
      assert r[0] == WithBody(s, Replace(s.body, p[1..], s'));
      assert Defines(r[0], k, name) == Defines(s, k, name);
      if !Defines(s, k, name) && (!IsDef(s, k) || !fb) {
        FindInReplace(s.body, p[1..], s', k, name, fb);
      }
    }
  }

  /** Path of the definition the search visitor returns. */
  function FindDefPath(tree: Module, k: DefKind, name: string): (r: Option<Path>)
    ensures r.Some? ==> ValidPath(tree.body, r.value) && Defines(At(tree.body, r.value), k, name)
    ensures r.Some? <==> DefinedIn(tree.body, k, name)
  {
    FindInComplete(tree.body, k, name);
    FindIn(tree.body, k, name, false)
  }

  /** `find_function`: a function definition with the requested name taken
      from the tree, or `SourceException` exactly when there is none. */
  function FindFunction(name: string, tree: Module): (r: Result<Stmt>)
    ensures r.Ok? ==> r.value.FunctionDef? && r.value.name == name && r.value in Walk(tree.body)
    ensures r.Err? <==> !DefinedIn(tree.body, FunctionKind, name)
    ensures r.Err? ==> r.error == SourceError("Function " + name + " not found.")
  {
    match FindDefPath(tree, FunctionKind, name)
    case Some(p) => AtInWalk(tree.body, p); Ok(At(tree.body, p))
    case None => Err(SourceError("Function " + name + " not found."))
  }

  /** `find_class_def`: a class definition with the requested name taken from
      the tree, or `SourceException` exactly when there is none. */
  function FindClassDef(name: string, tree: Module): (r: Result<Stmt>)
    ensures r.Ok? ==> r.value.ClassDef? && r.value.name == name && r.value in Walk(tree.body)
    ensures r.Err? <==> !DefinedIn(tree.body, ClassKind, name)
    ensures r.Err? ==> r.error == SourceError("Class definition " + name + " not found.")
  {
    match FindDefPath(tree, ClassKind, name)
    case Some(p) => AtInWalk(tree.body, p); Ok(At(tree.body, p))
    case None => Err(SourceError("Class definition " + name + " not found."))
  }

  /** The visitor does not stop at its first match: of two top-level
      functions with the same name, the second one is returned. */
  lemma FindFunctionLastWins(a: Stmt, b: Stmt)
    requires a.FunctionDef? && b.FunctionDef? && a.name == b.name
    ensures FindFunction(a.name, Module([a, b])) == Ok(b)
  {
    var ss := [a, b];
    assert ss[1..] == [b];
    assert [b][1..] == [];
    assert FindIn([b], FunctionKind, a.name, true) == Some([0]);
    assert Shift([0]) == [1];
    assert FindIn(ss[1..], FunctionKind, a.name, false || true) == Some([0]);
    assert FindIn(ss, FunctionKind, a.name, false) == Some([1]);
  }

  // ---------------------------------------------------------------------
  // add_import

  predicate ImportsFrom(s: Stmt, mod: string)
  {
    s.ImportFrom? && s.mod == mod
  }

  /** Some `from mod import ...` occurs in the tree. */
  predicate HasImport(ss: seq<Stmt>, mod: string)
  {
    exists x :: x in Walk(ss) && ImportsFrom(x, mod)
  }

  /** Every `from mod import ...` of the tree lists `cls`. */
  predicate ListedEverywhere(ss: seq<Stmt>, mod: string, cls: string)
  {
    forall x :: x in Walk(ss) && ImportsFrom(x, mod) ==> cls in x.names
  }

  /** The transformer of `add_import`: every `from mod import ...` anywhere
      in the tree that does not list `cls` gets it appended. */
  function MarkImports(ss: seq<Stmt>, mod: string, cls: string): (r: seq<Stmt>)
    ensures |r| == |ss|
    decreases ss
  {
    if |ss| == 0 then []
    else
      var s := ss[0];
      assert s in ss;
      var s' :=
        if ImportsFrom(s, mod) then (if cls in s.names then s else s.(names := s.names + [cls]))
        else if HasBody(s) then WithBody(s, MarkImports(s.body, mod, cls))
        else s;
      [s'] + MarkImports(ss[1..], mod, cls)
  }

  /** What the transformer does to one statement and everything below it. */
  function MarkStmt(s: Stmt, mod: string, cls: string): Stmt
  {
    MarkImports([s], mod, cls)[0]
  }

  /** `b` is `a` with every statement rewritten by the transformer. */
  predicate Marked(a: seq<Stmt>, b: seq<Stmt>, mod: string, cls: string)
  {
    |b| == |a| && forall i :: 0 <= i < |a| ==> b[i] == MarkStmt(a[i], mod, cls)
  }

  lemma MarkedConcat(a1: seq<Stmt>, b1: seq<Stmt>, a2: seq<Stmt>, b2: seq<Stmt>, mod: string, cls: string)
    requires Marked(a1, b1, mod, cls) && Marked(a2, b2, mod, cls)
    ensures Marked(a1 + a2, b1 + b2, mod, cls)
  {
  }

  /** The transformer leaves the head of a list as `MarkStmt` says. */
  lemma MarkImportsHead(ss: seq<Stmt>, mod: string, cls: string)
    requires |ss| > 0
    ensures MarkImports(ss, mod, cls) == [MarkStmt(ss[0], mod, cls)] + MarkImports(ss[1..], mod, cls)
  {
    assert [ss[0]][1..] == [];
  }

  /** The transformer rewrites statement by statement: the traversal of its
      output is the traversal of its input with each statement rewritten. */
  lemma {:induction false} WalkMarkImports(ss: seq<Stmt>, mod: string, cls: string)
    ensures Marked(Walk(ss), Walk(MarkImports(ss, mod, cls)), mod, cls)
    decreases ss
  {
    if |ss| > 0 {
      var s := ss[0];
      assert s in ss;
      var m := MarkImports(ss, mod, cls);
      MarkImportsHead(ss, mod, cls);
      var s' := MarkStmt(s, mod, cls);
      WalkMarkImports(ss[1..], mod, cls);
      var below := if HasBody(s) then Walk(s.body) else [];
      var below' := if HasBody(s') then Walk(s'.body) else [];
      if HasBody(s) {
        WalkMarkImports(s.body, mod, cls);
        assert s'.body == MarkImports(s.body, mod, cls);
      }
      assert Marked(below, below', mod, cls);
      assert Marked([s], [s'], mod, cls);
      MarkedConcat([s], [s'], below, below', mod, cls);
      MarkedConcat([s] + below, [s'] + below', Walk(ss[1..]), Walk(m[1..]), mod, cls);
      assert Walk(ss) == [s] + below + Walk(ss[1..]);
      assert Walk(m) == [s'] + below' + Walk(m[1..]);
    }
  }

  /** The parts of a list whose every matching import lists `cls` have the
      same property. */
  lemma ListedEverywhereParts(ss: seq<Stmt>, mod: string, cls: string)
    requires |ss| > 0 && ListedEverywhere(ss, mod, cls)
    ensures ImportsFrom(ss[0], mod) ==> cls in ss[0].names
    ensures HasBody(ss[0]) ==> ListedEverywhere(ss[0].body, mod, cls)
    ensures ListedEverywhere(ss[1..], mod, cls)
  {
    var below := if HasBody(ss[0]) then Walk(ss[0].body) else [];
    assert Walk(ss) == [ss[0]] + below + Walk(ss[1..]);
  }

  /** When every matching import already lists `cls`, the transformer
      changes nothing. */
  lemma {:induction false} MarkImportsIdentity(ss: seq<Stmt>, mod: string, cls: string)
    requires ListedEverywhere(ss, mod, cls)
    ensures MarkImports(ss, mod, cls) == ss
    decreases ss
  {
    if |ss| > 0 {
      var s := ss[0];
      assert s in ss;
      ListedEverywhereParts(ss, mod, cls);
      MarkImportsIdentity(ss[1..], mod, cls);
      if HasBody(s) {
        MarkImportsIdentity(s.body, mod, cls);
        assert WithBody(s, s.body) == s;
      }
      assert MarkImports(ss, mod, cls) == [s] + MarkImports(ss[1..], mod, cls);
      assert [s] + ss[1..] == ss;
    }
  }

  /** `add_import` without the dynamic-import check: mark every matching
      import, and when there was none insert `from mod import cls` first. */
  function AddImport(tree: Module, mod: string, cls: string): (r: Module)
    ensures HasImport(r.body, mod)
    ensures ListedEverywhere(r.body, mod, cls)
  {
    WalkMarkImports(tree.body, mod, cls);
    if HasImport(tree.body, mod) then
      var r := Module(MarkImports(tree.body, mod, cls));
      assert forall i :: 0 <= i < |Walk(tree.body)| ==>
        (ImportsFrom(Walk(r.body)[i], mod) ==> cls in Walk(r.body)[i].names) by {
        forall i | 0 <= i < |Walk(tree.body)|
          ensures ImportsFrom(Walk(r.body)[i], mod) ==> cls in Walk(r.body)[i].names
        {
          var x := Walk(tree.body)[i];
          assert [x][1..] == [];
          assert Walk(r.body)[i] == MarkImports([x], mod, cls)[0];
        }
      }
      var x :| x in Walk(tree.body) && ImportsFrom(x, mod);
      var j :| 0 <= j < |Walk(tree.body)| && Walk(tree.body)[j] == x;
      assert [x][1..] == [];
      assert ImportsFrom(Walk(r.body)[j], mod);
      r
    else
      var n := ImportFrom(mod, [cls]);
      WalkAppend([n], tree.body);
      assert Walk([n]) == [n];
      assert n in Walk([n] + tree.body);
      Module([n] + tree.body)
  }

  /** When some import of `mod` exists and every one lists `cls`, the tree is
      unchanged. */
  lemma AddImportPresent(tree: Module, mod: string, cls: string)
    requires HasImport(tree.body, mod) && ListedEverywhere(tree.body, mod, cls)
    ensures AddImport(tree, mod, cls) == tree
  {
    MarkImportsIdentity(tree.body, mod, cls);
  }

  /** When no import of `mod` exists, `from mod import cls` is inserted at
      index 0 and the old body follows unchanged. */
  lemma AddImportInserts(tree: Module, mod: string, cls: string)
    requires !HasImport(tree.body, mod)
    ensures AddImport(tree, mod, cls).body == [ImportFrom(mod, [cls])] + tree.body
  {
  }

  /** When imports of `mod` exist, the tree keeps its shape and order: each
      import of `mod` gets `cls` appended unless it lists it already, every
      simple statement is unchanged, and every compound statement differs at
      most in its body. */
  lemma AddImportAppends(tree: Module, mod: string, cls: string)
    requires HasImport(tree.body, mod)
    ensures var w := Walk(tree.body); var w' := Walk(AddImport(tree, mod, cls).body);
      && |w'| == |w|
      && (forall i :: 0 <= i < |w| && ImportsFrom(w[i], mod) ==>
            w'[i] == w[i].(names := w[i].names + (if cls in w[i].names then [] else [cls])))
      && (forall i :: 0 <= i < |w| && !ImportsFrom(w[i], mod) && !HasBody(w[i]) ==> w'[i] == w[i])
      && (forall i :: 0 <= i < |w| && HasBody(w[i]) ==> HasBody(w'[i]) && WithBody(w'[i], []) == WithBody(w[i], []))
  {
    var w := Walk(tree.body);
    var w' := Walk(AddImport(tree, mod, cls).body);
    assert AddImport(tree, mod, cls).body == MarkImports(tree.body, mod, cls);
    WalkMarkImports(tree.body, mod, cls);
    MarkedShape(w, w', mod, cls);
  }

  /** Statement by statement, what a rewritten list differs in. */
  lemma MarkedShape(a: seq<Stmt>, b: seq<Stmt>, mod: string, cls: string)
    requires Marked(a, b, mod, cls)
    ensures forall i :: 0 <= i < |a| && ImportsFrom(a[i], mod) ==>
      b[i] == a[i].(names := a[i].names + (if cls in a[i].names then [] else [cls]))
    ensures forall i :: 0 <= i < |a| && !ImportsFrom(a[i], mod) && !HasBody(a[i]) ==> b[i] == a[i]
    ensures forall i :: 0 <= i < |a| && HasBody(a[i]) ==> HasBody(b[i]) && WithBody(b[i], []) == WithBody(a[i], [])
  {
    forall i | 0 <= i < |a| {
      MarkStmtShape(a[i], mod, cls);
    }
  }

  /** What the transformer does to one statement, nested bodies aside. */
  lemma MarkStmtShape(s: Stmt, mod: string, cls: string)
    ensures ImportsFrom(s, mod) ==>
      MarkStmt(s, mod, cls) == s.(names := s.names + (if cls in s.names then [] else [cls]))
    ensures !ImportsFrom(s, mod) && !HasBody(s) ==> MarkStmt(s, mod, cls) == s
    ensures HasBody(s) ==> HasBody(MarkStmt(s, mod, cls)) && WithBody(MarkStmt(s, mod, cls), []) == WithBody(s, [])
  {
    assert [s][1..] == [];
    if ImportsFrom(s, mod) && cls in s.names {
      assert s.names + [] == s.names;
    }
  }

  /** Adding the same import twice is the same as adding it once. */
  lemma AddImportIdempotent(tree: Module, mod: string, cls: string)
    ensures AddImport(AddImport(tree, mod, cls), mod, cls) == AddImport(tree, mod, cls)
  {
    var r := AddImport(tree, mod, cls);
    MarkImportsIdentity(r.body, mod, cls);
  }

  // ---------------------------------------------------------------------
  // append_method_call, get_name, get_name_attr

  function GetName(name: string): Expr
  {
    Name(name)
  }

  function GetNameAttr(name: string, attr: string): Expr
  {
    Attribute(GetName(name), attr)
  }

  /** `append_method_call`: exactly one `instance.meth(*args, **kwargs)`
      statement is added at the end; the existing body is a prefix. */
  function AppendMethodCall(body: seq<Stmt>, instance: string, meth: string,
                            args: seq<Expr>, kwargs: seq<Keyword>): (r: seq<Stmt>)
    ensures |r| == |body| + 1 && r[..|body|] == body
    ensures r[|body|].ExprStmt? && r[|body|].value.Call?
    ensures r[|body|].value.func == Attribute(Name(instance), meth)
    ensures r[|body|].value.args == args && r[|body|].value.keywords == kwargs
  {
    body + [ExprStmt(Call(GetNameAttr(instance, meth), args, kwargs))]
  }

  // ---------------------------------------------------------------------
  // find_asserts / find_raises

  datatype NodeKind = AssertNode | RaiseNode

  predicate IsKind(s: Stmt, k: NodeKind)
  {
    match k
    case AssertNode => s.Assert?
    case RaiseNode => s.Raise?
  }

  /** The statements of a flat list that are of kind `k`, in order. */
  function Filter(ss: seq<Stmt>, k: NodeKind): (r: seq<Stmt>)
    ensures forall x :: x in r <==> x in ss && IsKind(x, k)
  {
    if |ss| == 0 then []
    else (if IsKind(ss[0], k) then [ss[0]] else []) + Filter(ss[1..], k)
  }

  lemma {:induction false} FilterAppend(a: seq<Stmt>, b: seq<Stmt>, k: NodeKind)
    ensures Filter(a + b, k) == Filter(a, k) + Filter(b, k)
  {
    if |a| == 0 {
      assert a + b == b;
    } else {
      assert (a + b)[1..] == a[1..] + b;
      FilterAppend(a[1..], b, k);
    }
  }

  /** The collecting visitor: a node of kind `k` is recorded and not
      entered, every other compound statement is entered. */
  function Collect(ss: seq<Stmt>, k: NodeKind): seq<Stmt>
    decreases ss
  {
    if |ss| == 0 then []
    else
      assert ss[0] in ss;
      (if IsKind(ss[0], k) then [ss[0]]
       else if HasBody(ss[0]) then Collect(ss[0].body, k)
       else [])
      + Collect(ss[1..], k)
  }

  /** The visitor returns exactly the nodes of kind `k` in traversal order. */
  lemma {:induction false} CollectIsFilteredWalk(ss: seq<Stmt>, k: NodeKind)
    ensures Collect(ss, k) == Filter(Walk(ss), k)
    decreases ss
  {
    if |ss| > 0 {
      var s := ss[0];
      assert s in ss;
      var below := if HasBody(s) then Walk(s.body) else [];
      CollectIsFilteredWalk(ss[1..], k);
      if HasBody(s) {
        CollectIsFilteredWalk(s.body, k);
      }
      FilterAppend([s] + below, Walk(ss[1..]), k);
      FilterAppend([s], below, k);
      assert Filter([s], k) == (if IsKind(s, k) then [s] else []) + Filter([], k);
    }
  }

  /** `find_asserts`: every `assert` of the tree, in traversal order, and
      nothing else. */
  function FindAsserts(tree: Stmt): (r: seq<Stmt>)
    ensures r == Filter(Walk([tree]), AssertNode)
    ensures forall x :: x in r <==> x in Walk([tree]) && x.Assert?
  {
    CollectIsFilteredWalk([tree], AssertNode);
    Collect([tree], AssertNode)
  }

  /** `find_raises`: every `raise` of the tree, in traversal order, and
      nothing else. */
  function FindRaises(tree: Stmt): (r: seq<Stmt>)
    ensures r == Filter(Walk([tree]), RaiseNode)
    ensures forall x :: x in r <==> x in Walk([tree]) && x.Raise?
  {
    CollectIsFilteredWalk([tree], RaiseNode);
    Collect([tree], RaiseNode)
  }
}
