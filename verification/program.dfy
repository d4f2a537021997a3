/** The generators of `generate_source.py` that build whole trees:
    `program_src`, the script for a scene and a project, and
    `derived_resources_class`, the project's `Resources` class. */
module Program {
  import opened Base
  import opened Ast
  import opened Graph
  import opened TreeUtils
  import opened Emitter
  import opened Recoverer
  import opened RoundTrip
  import Names

  // ---------------------------------------------------------------------
  // program_src

  /** The module and class a scene object's type is imported from: a
      built-in type from `arcor2.object_types`, any other from its own
      module under `object_types`. */
  function TypeImport(o: SceneObject, builtIn: set<string>): (string, string)
  {
    if o.objType in builtIn then ("arcor2.object_types", o.objType)
    else ("object_types." + Names.CamelToSnake(o.objType), o.objType)
  }

  /** One round of the loop of `program_src` over the scene's objects:
      import the object's type, then bind the instance in `main`. */
  function BindObject(tree: Module, o: SceneObject, builtIn: set<string>): Result<Module>
  {
    var (mod, cls) := TypeImport(o, builtIn);
    ObjectInstanceFromRes(AddImport(tree, mod, cls), o.id, o.objType)
  }

  function BindObjects(tree: Module, objects: seq<SceneObject>, builtIn: set<string>): Result<Module>
    decreases |objects|
  {
    if |objects| == 0 then Ok(tree)
    else
      var t :- BindObject(tree, objects[0], builtIn);
      BindObjects(t, objects[1..], builtIn)
  }

  /** `program_src` up to the conversion to text: the empty script, the
      resources import and instance, the scene's objects, then the logic. */
  function ProgramTree(scene: Scene, builtIn: set<string>, ac: ActionsCache): Result<Module>
  {
    var t0 := AddImport(EmptyScriptTree(), "resources", "Resources");
    var t1 :- AddClsInst(t0, "Resources", "res");
    var t2 :- BindObjects(t1, scene.objects, builtIn);
    AddLogicToLoop(t2, ac)
  }

  /** The bindings of the scene's objects, in scene order. */
  function Bindings(objects: seq<SceneObject>): (r: seq<Stmt>)
    ensures |r| == |objects|
    ensures forall i :: 0 <= i < |objects| ==> r[i] == InstanceBinding(objects[i].id, objects[i].objType)
  {
    if |objects| == 0 then [] else [InstanceBinding(objects[0].id, objects[0].objType)] + Bindings(objects[1..])
  }

  /** `res = Resources()` */
  const ResourcesInstance := ClsInstance("Resources", "res")

  /** `from resources import Resources` */
  const ResourcesImport := ImportFrom("resources", ["Resources"])

  /** What a generated `main` holds before its loop: the resources
      instance, then one binding per scene object. */
  function Instances(objects: seq<SceneObject>): seq<Stmt>
  {
    [ResourcesInstance] + Bindings(objects)
  }

  /** `main` as the generator shapes it: some assignments, then the loop. */
  function MainOf(insts: seq<Stmt>, loop: seq<Stmt>): Stmt
  {
    FunctionDef("main", [], insts + [While(Constant(TrueVal), loop)], [])
  }

  /** What follows the imports of a generated script: `main`, then the
      entry guard. */
  function Tail(insts: seq<Stmt>, loop: seq<Stmt>): seq<Stmt>
  {
    [MainOf(insts, loop), EntryGuard]
  }

  predicate AllImports(pre: seq<Stmt>)
  {
    forall i :: 0 <= i < |pre| ==> pre[i].ImportFrom?
  }

  predicate AllAssigns(insts: seq<Stmt>)
  {
    forall i :: 0 <= i < |insts| ==> IsAssignment(insts[i])
  }

  /** One of the imports lists `cls` from `mod`. */
  predicate Lists(pre: seq<Stmt>, mod: string, cls: string)
  {
    exists i :: 0 <= i < |pre| && pre[i].ImportFrom? && pre[i].mod == mod && cls in pre[i].names
  }

  /** What the import transformer does to one import: `cls` is appended to
      an import of `mod` that lacks it. */
  function Listing(s: Stmt, mod: string, cls: string): Stmt
  {
    if ImportsFrom(s, mod) && cls !in s.names then s.(names := s.names + [cls]) else s
  }

  function ListingAll(pre: seq<Stmt>, mod: string, cls: string): (r: seq<Stmt>)
    ensures |r| == |pre| && forall i :: 0 <= i < |pre| ==> r[i] == Listing(pre[i], mod, cls)
  {
    if |pre| == 0 then [] else [Listing(pre[0], mod, cls)] + ListingAll(pre[1..], mod, cls)
  }

  /** The leading imports after `add_import`: every import of `mod` lists
      `cls`, and when there was none, one is put first. */
  function WithImport(pre: seq<Stmt>, mod: string, cls: string): seq<Stmt>
  {
    if exists i :: 0 <= i < |pre| && ImportsFrom(pre[i], mod) then ListingAll(pre, mod, cls)
    else [ImportFrom(mod, [cls])] + pre
  }

  /** The leading imports after one round of the loop over the scene's
      objects. */
  function NextImports(pre: seq<Stmt>, o: SceneObject, builtIn: set<string>): seq<Stmt>
  {
    WithImport(pre, TypeImport(o, builtIn).0, TypeImport(o, builtIn).1)
  }

  /** The leading imports after the loop over the scene's objects. */
  function FinalImports(pre: seq<Stmt>, objects: seq<SceneObject>, builtIn: set<string>): seq<Stmt>
    decreases |objects|
  {
    if |objects| == 0 then pre
    else FinalImports(NextImports(pre, objects[0], builtIn), objects[1..], builtIn)
  }

  /** The imports `program_src` writes for a scene. */
  function ProgramImports(scene: Scene, builtIn: set<string>): seq<Stmt>
  {
    FinalImports([ResourcesImport], scene.objects, builtIn)
  }

  /** The script `program_src` builds for a scene before the logic is
      added. */
  function Skeleton(scene: Scene, builtIn: set<string>): Module
  {
    Module(ProgramImports(scene, builtIn) + Tail(Instances(scene.objects), [Pass]))
  }

  /** Adding an import lists the class and keeps every class listed. */
  lemma WithImportLists(pre: seq<Stmt>, mod: string, cls: string)
    requires AllImports(pre)
    ensures AllImports(WithImport(pre, mod, cls))
    ensures Lists(WithImport(pre, mod, cls), mod, cls)
    ensures forall m, c :: Lists(pre, m, c) ==> Lists(WithImport(pre, mod, cls), m, c)
  {
    var r := WithImport(pre, mod, cls);
    if exists i :: 0 <= i < |pre| && ImportsFrom(pre[i], mod) {
      var j :| 0 <= j < |pre| && ImportsFrom(pre[j], mod);
      assert r[j] == Listing(pre[j], mod, cls);
    } else {
      assert r[0] == ImportFrom(mod, [cls]);
      forall m, c | Lists(pre, m, c) ensures Lists(r, m, c) {
        var i :| 0 <= i < |pre| && pre[i].ImportFrom? && pre[i].mod == m && c in pre[i].names;
        assert r[i + 1] == pre[i];
      }
    }
  }

  /** After the loop over the scene's objects, every object's type is
      imported from its module, and every class imported before still is. */
  lemma {:induction false} FinalImportsList(pre: seq<Stmt>, objects: seq<SceneObject>, builtIn: set<string>)
    requires AllImports(pre)
    ensures AllImports(FinalImports(pre, objects, builtIn))
    ensures forall m, c :: Lists(pre, m, c) ==> Lists(FinalImports(pre, objects, builtIn), m, c)
    ensures forall i :: 0 <= i < |objects| ==>
      Lists(FinalImports(pre, objects, builtIn), TypeImport(objects[i], builtIn).0, TypeImport(objects[i], builtIn).1)
    decreases |objects|
  {
    if |objects| > 0 {
      var (mod, cls) := TypeImport(objects[0], builtIn);
      var pre' := WithImport(pre, mod, cls);
      WithImportLists(pre, mod, cls);
      FinalImportsList(pre', objects[1..], builtIn);
      forall i | 0 < i < |objects|
        ensures Lists(FinalImports(pre, objects, builtIn), TypeImport(objects[i], builtIn).0, TypeImport(objects[i], builtIn).1)
      {
        assert objects[1..][i - 1] == objects[i];
      }
    }
  }

  /** `program_src` imports `Resources` from `resources` and every scene
      object's type from its module; the imports lead the script. */
  lemma ProgramImportsListed(scene: Scene, builtIn: set<string>)
    ensures AllImports(ProgramImports(scene, builtIn))
    ensures Lists(ProgramImports(scene, builtIn), "resources", "Resources")
    ensures forall i :: 0 <= i < |scene.objects| ==>
      Lists(ProgramImports(scene, builtIn), TypeImport(scene.objects[i], builtIn).0, TypeImport(scene.objects[i], builtIn).1)
  {
    assert Lists([ResourcesImport], "resources", "Resources") by {
      assert [ResourcesImport][0].names == ["Resources"];
    }
    FinalImportsList([ResourcesImport], scene.objects, builtIn);
  }

  // The statement-level facts the generic lemmas below rest on.

  /** No statement of the tree, nested ones included, is an import. */
  predicate ImportFree(ss: seq<Stmt>)
    decreases ss
  {
    forall x :: x in ss ==> !x.ImportFrom? && (HasBody(x) ==> ImportFree(x.body))
  }

  /** No statement of the tree, nested ones included, is an assignment. */
  predicate AssignFree(ss: seq<Stmt>)
    decreases ss
  {
    forall x :: x in ss ==> !x.Assign? && (HasBody(x) ==> AssignFree(x.body))
  }

  lemma {:induction false} WalkImportFree(ss: seq<Stmt>)
    requires ImportFree(ss)
    ensures forall x :: x in Walk(ss) ==> !x.ImportFrom?
    decreases ss
  {
    if |ss| > 0 {
      var s := ss[0];
      assert s in ss;
      WalkImportFree(ss[1..]);
      if HasBody(s) {
        WalkImportFree(s.body);
      }
    }
  }

  /** A list of simple statements is its own traversal. */
  lemma {:induction false} WalkFlat(ss: seq<Stmt>)
    requires forall i :: 0 <= i < |ss| ==> !HasBody(ss[i])
    ensures Walk(ss) == ss
    decreases ss
  {
    if |ss| > 0 {
      WalkFlat(ss[1..]);
      assert [ss[0]] + [] + ss[1..] == ss;
    }
  }

  /** The import transformer leaves an import-free tree alone. */
  lemma {:induction false} MarkImportsFree(ss: seq<Stmt>, mod: string, cls: string)
    requires ImportFree(ss)
    ensures MarkImports(ss, mod, cls) == ss
    decreases ss
  {
    if |ss| > 0 {
      var s := ss[0];
      assert s in ss;
      MarkImportsFree(ss[1..], mod, cls);
      if HasBody(s) {
        MarkImportsFree(s.body, mod, cls);
        assert WithBody(s, s.body) == s;
      }
      assert [s] + ss[1..] == ss;
    }
  }

  lemma {:induction false} MarkImportsAppend(a: seq<Stmt>, b: seq<Stmt>, mod: string, cls: string)
    ensures MarkImports(a + b, mod, cls) == MarkImports(a, mod, cls) + MarkImports(b, mod, cls)
    decreases a
  {
    if |a| == 0 {
      assert a + b == b;
    } else {
      assert (a + b)[0] == a[0];
      assert (a + b)[1..] == a[1..] + b;
      MarkImportsAppend(a[1..], b, mod, cls);
    }
  }

  /** On a list of imports the transformer is `Listing` at each one. */
  lemma {:induction false} MarkImportsOnImports(ss: seq<Stmt>, mod: string, cls: string)
    requires AllImports(ss)
    ensures MarkImports(ss, mod, cls) == ListingAll(ss, mod, cls)
    decreases ss
  {
    if |ss| > 0 {
      MarkImportsOnImports(ss[1..], mod, cls);
      assert MarkImports(ss, mod, cls) == [Listing(ss[0], mod, cls)] + MarkImports(ss[1..], mod, cls);
      assert ListingAll(ss, mod, cls) == [Listing(ss[0], mod, cls)] + ListingAll(ss[1..], mod, cls);
    }
  }

  /** The part of a generated script after its imports has no import. */
  lemma TailFree(insts: seq<Stmt>)
    requires AllAssigns(insts)
    ensures ImportFree(Tail(insts, [Pass]))
  {
    var main := MainOf(insts, [Pass]);
    assert ImportFree([Pass]);
    assert ImportFree(main.body) by {
      forall x | x in main.body ensures !x.ImportFrom? && (HasBody(x) ==> ImportFree(x.body)) {
        if x in insts {
          var i :| 0 <= i < |insts| && insts[i] == x;
        }
      }
    }
    assert ImportFree(EntryGuard.body);
  }

  /** In a generated script, the imports of `mod` are among the leading
      imports. */
  lemma ImportsUpFront(pre: seq<Stmt>, insts: seq<Stmt>, mod: string)
    requires AllImports(pre) && AllAssigns(insts)
    ensures HasImport(pre + Tail(insts, [Pass]), mod) <==> exists i :: 0 <= i < |pre| && ImportsFrom(pre[i], mod)
  {
    var tail := Tail(insts, [Pass]);
    TailFree(insts);
    WalkImportFree(tail);
    WalkFlat(pre);
    WalkAppend(pre, tail);
    if HasImport(pre + tail, mod) {
      var x :| x in Walk(pre + tail) && ImportsFrom(x, mod);
      assert x in pre;
      var i :| 0 <= i < |pre| && pre[i] == x;
    }
    if exists i :: 0 <= i < |pre| && ImportsFrom(pre[i], mod) {
      var i :| 0 <= i < |pre| && ImportsFrom(pre[i], mod);
      assert pre[i] in Walk(pre + tail);
    }
  }

  /** `add_import` on a generated script only changes its leading imports. */
  lemma AddImportToScript(pre: seq<Stmt>, insts: seq<Stmt>, mod: string, cls: string)
    requires AllImports(pre) && AllAssigns(insts)
    ensures AddImport(Module(pre + Tail(insts, [Pass])), mod, cls) == Module(WithImport(pre, mod, cls) + Tail(insts, [Pass]))
  {
    var t := Module(pre + Tail(insts, [Pass]));
    ImportsUpFront(pre, insts, mod);
    if HasImport(t.body, mod) {
      TailFree(insts);
      MarkImportsFree(Tail(insts, [Pass]), mod, cls);
      MarkImportsAppend(pre, Tail(insts, [Pass]), mod, cls);
      MarkImportsOnImports(pre, mod, cls);
    } else {
      AddImportInserts(t, mod, cls);
    }
  }

  /** The entry guard calls `main` but defines nothing. */
  lemma GuardDefinesNoMain(fb: bool)
    ensures FindIn([EntryGuard], FunctionKind, "main", fb) == None
  {
    assert [EntryGuard][1..] == [];
    assert EntryGuard.body[1..] == [];
  }

  /** The search for `main` in a generated script ends at the `main` after
      the imports. */
  lemma {:induction false} MainAfterImports(pre: seq<Stmt>, insts: seq<Stmt>, loop: seq<Stmt>, fb: bool)
    requires AllImports(pre)
    ensures FindIn(pre + Tail(insts, loop), FunctionKind, "main", fb) == Some([|pre|])
    decreases |pre|
  {
    var ss := pre + Tail(insts, loop);
    if |pre| == 0 {
      assert ss == Tail(insts, loop) && ss[1..] == [EntryGuard];
      GuardDefinesNoMain(true);
    } else {
      assert ss[1..] == pre[1..] + Tail(insts, loop);
      MainAfterImports(pre[1..], insts, loop, fb);
      assert Shift([|pre| - 1]) == [|pre|];
    }
  }

  // ---------------------------------------------------------------------
  // The empty script and the resources instance.

  /** The empty script is a generated script with no imports and nothing
      before the loop. */
  lemma EmptyScriptShape()
    ensures EmptyScriptTree() == Module([] + Tail([], [Pass]))
  {
    assert [] + [While(Constant(TrueVal), [Pass])] == [While(Constant(TrueVal), [Pass])];
  }

  lemma {:induction false} InsertInMainsAppend(a: seq<Stmt>, b: seq<Stmt>, stmt: Stmt)
    ensures InsertInMains(a + b, stmt) == InsertInMains(a, stmt) + InsertInMains(b, stmt)
    decreases a
  {
    if |a| == 0 {
      assert a + b == b;
    } else {
      assert (a + b)[0] == a[0];
      assert (a + b)[1..] == a[1..] + b;
      InsertInMainsAppend(a[1..], b, stmt);
    }
  }

  lemma {:induction false} InsertInMainsImports(pre: seq<Stmt>, stmt: Stmt)
    requires AllImports(pre)
    ensures InsertInMains(pre, stmt) == pre
    decreases pre
  {
    if |pre| > 0 {
      InsertInMainsImports(pre[1..], stmt);
      assert [pre[0]] + pre[1..] == pre;
    }
  }

  /** The inserting transformer puts the statement first in a `main` and
      leaves the entry guard alone. */
  lemma InsertInMainAndGuard(m: Stmt, stmt: Stmt)
    requires m.FunctionDef? && m.name == "main"
    ensures InsertInMains([m, EntryGuard], stmt) == [WithBody(m, [stmt] + m.body), EntryGuard]
  {
    assert [m, EntryGuard][1..] == [EntryGuard];
    GuardUntouched(stmt);
  }

  /** The entry guard holds no `main`. */
  lemma GuardUntouched(stmt: Stmt)
    ensures InsertInMains([EntryGuard], stmt) == [EntryGuard]
  {
    var call := EntryGuard.body[0];
    assert [EntryGuard][1..] == [] && EntryGuard.body[1..] == [];
    assert InsertInMains([call], stmt) == [call];
  }

  /** A statement put first in a generated `main` becomes its first
      instance. */
  lemma MainWithInstance(insts: seq<Stmt>, loop: seq<Stmt>, stmt: Stmt)
    ensures WithBody(MainOf(insts, loop), [stmt] + MainOf(insts, loop).body) == MainOf([stmt] + insts, loop)
  {
    var w := [While(Constant(TrueVal), loop)];
    assert [stmt] + (insts + w) == ([stmt] + insts) + w;
  }

  /** The inserting transformer puts the statement first in the generated
      `main`. */
  lemma InsertInTail(insts: seq<Stmt>, loop: seq<Stmt>, stmt: Stmt)
    ensures InsertInMains(Tail(insts, loop), stmt) == Tail([stmt] + insts, loop)
  {
    InsertInMainAndGuard(MainOf(insts, loop), stmt);
    MainWithInstance(insts, loop, stmt);
  }

  /** A generated script without instances has no assignment. */
  lemma AssignFreeScript(pre: seq<Stmt>)
    requires AllImports(pre)
    ensures AssignFree(pre + Tail([], [Pass]))
  {
    var w := While(Constant(TrueVal), [Pass]);
    assert AssignFree([Pass]);
    assert AssignFree(MainOf([], [Pass]).body) by {
      assert MainOf([], [Pass]).body == [w];
    }
    assert AssignFree(EntryGuard.body);
    forall x | x in pre + Tail([], [Pass]) ensures !x.Assign? && (HasBody(x) ==> AssignFree(x.body)) {
      if x in pre {
        var i :| 0 <= i < |pre| && pre[i] == x;
      }
    }
  }

  /** Without assignments, a `main` body holds no instance of anything. */
  lemma {:induction false} CheckMainBodyFree(items: seq<Stmt>, name: string, cls: string)
    requires AssignFree(items)
    ensures CheckMainBody(items, name, cls, false) == Ok(false)
    decreases items
  {
    if |items| > 0 {
      assert items[0] in items;
      CheckMainBodyFree(items[1..], name, cls);
    }
  }

  /** Without assignments, the instance search finds nothing. */
  lemma {:induction false} FindClsInstFree(ss: seq<Stmt>, name: string, cls: string)
    requires AssignFree(ss)
    ensures FindClsInstIn(ss, name, cls, false) == Ok(false)
    decreases ss
  {
    if |ss| > 0 {
      var s := ss[0];
      assert s in ss;
      if HasBody(s) {
        FindClsInstFree(s.body, name, cls);
        if s.FunctionDef? && s.name == "main" {
          CheckMainBodyFree(s.body, name, cls);
        }
      }
      FindClsInstFree(ss[1..], name, cls);
    }
  }

  /** A class listed by a leading import counts as imported. */
  lemma ListedIsImported(pre: seq<Stmt>, insts: seq<Stmt>, i: nat, cls: string)
    requires AllImports(pre) && i < |pre| && cls in pre[i].names
    ensures ClsImported(pre + Tail(insts, [Pass]), cls)
  {
    WalkFlat(pre);
    WalkAppend(pre, Tail(insts, [Pass]));
    assert pre[i] in Walk(pre + Tail(insts, [Pass]));
  }

  /** `add_cls_inst` on a generated script whose `main` has nothing before
      its loop puts the instance first in `main`. */
  lemma AddClsInstToScript(pre: seq<Stmt>, i: nat, cls: string, name: string)
    requires AllImports(pre) && i < |pre| && cls in pre[i].names
    ensures AddClsInst(Module(pre + Tail([], [Pass])), cls, name) == Ok(Module(pre + Tail([ClsInstance(cls, name)], [Pass])))
  {
    var ss := pre + Tail([], [Pass]);
    var stmt := ClsInstance(cls, name);
    ListedIsImported(pre, [], i, cls);
    AssignFreeScript(pre);
    FindClsInstFree(ss, name, cls);
    InsertInMainsAppend(pre, Tail([], [Pass]), stmt);
    InsertInMainsImports(pre, stmt);
    InsertInTail([], [Pass], stmt);
    assert [stmt] + [] == [stmt];
  }

  /** Importing a class into a script without imports and instantiating
      it. */
  lemma StartSteps(mod: string, cls: string, name: string)
    ensures AddClsInst(AddImport(Module([] + Tail([], [Pass])), mod, cls), cls, name)
         == Ok(Module([ImportFrom(mod, [cls])] + Tail([ClsInstance(cls, name)], [Pass])))
  {
    AddImportToScript([], [], mod, cls);
    assert WithImport([], mod, cls) == [ImportFrom(mod, [cls])];
    AddClsInstToScript([ImportFrom(mod, [cls])], 0, cls, name);
  }

  /** The resources import and instance turn the empty script into a
      generated script without objects. */
  lemma ProgramStart()
    ensures AddClsInst(AddImport(EmptyScriptTree(), "resources", "Resources"), "Resources", "res")
         == Ok(Module([ResourcesImport] + Tail([ResourcesInstance], [Pass])))
  {
    EmptyScriptShape();
    StartSteps("resources", "Resources", "res");
  }

  // add_cls_inst on a generated script whose `main` already holds
  // instances.

  /** No function definition anywhere in the tree. */
  predicate DefFree(ss: seq<Stmt>)
    decreases ss
  {
    forall x :: x in ss ==> !x.FunctionDef? && (HasBody(x) ==> DefFree(x.body))
  }

  /** Without functions there is no `main` to scan. */
  lemma {:induction false} FindClsInstDefFree(ss: seq<Stmt>, name: string, cls: string, found: bool)
    requires DefFree(ss)
    ensures FindClsInstIn(ss, name, cls, found) == Ok(found)
    decreases ss
  {
    if |ss| > 0 {
      assert ss[0] in ss;
      if HasBody(ss[0]) {
        FindClsInstDefFree(ss[0].body, name, cls, found);
      }
      FindClsInstDefFree(ss[1..], name, cls, found);
    }
  }

  /** Leading imports do not affect the instance search. */
  lemma {:induction false} FindClsInstImports(pre: seq<Stmt>, rest: seq<Stmt>, name: string, cls: string, found: bool)
    requires AllImports(pre)
    ensures FindClsInstIn(pre + rest, name, cls, found) == FindClsInstIn(rest, name, cls, found)
    decreases pre
  {
    if |pre| > 0 {
      assert (pre + rest)[0] == pre[0];
      assert (pre + rest)[1..] == pre[1..] + rest;
      FindClsInstImports(pre[1..], rest, name, cls, found);
    } else {
      assert pre + rest == rest;
    }
  }

  /** A trailing statement that is not an assignment does not affect the
      scan of a body. */
  lemma {:induction false} CheckMainBodyLast(items: seq<Stmt>, w: Stmt, name: string, cls: string, found: bool)
    requires !w.Assign?
    ensures CheckMainBody(items + [w], name, cls, found) == CheckMainBody(items, name, cls, found)
    decreases items
  {
    if |items| > 0 {
      assert (items + [w])[0] == items[0];
      assert (items + [w])[1..] == items[1..] + [w];
      CheckMainBodyLast(items[1..], w, name, cls, true);
      CheckMainBodyLast(items[1..], w, name, cls, found);
    } else {
      assert items + [w] == [w];
    }
  }

  /** The body of a generated `main` holds no function. */
  lemma MainBodyDefFree(insts: seq<Stmt>)
    requires AllAssigns(insts)
    ensures DefFree(MainOf(insts, [Pass]).body)
    ensures DefFree([EntryGuard])
  {
    var w := While(Constant(TrueVal), [Pass]);
    assert DefFree([Pass]);
    assert DefFree(EntryGuard.body);
    forall x | x in insts + [w] ensures !x.FunctionDef? && (HasBody(x) ==> DefFree(x.body)) {
      if x in insts {
        var i :| 0 <= i < |insts| && insts[i] == x;
        assert IsAssignment(insts[i]);
      }
    }
  }

  /** In a generated script the instance search is the scan of the
      instances of `main`. */
  lemma FindClsInstScript(pre: seq<Stmt>, insts: seq<Stmt>, name: string, cls: string)
    requires AllImports(pre) && AllAssigns(insts)
    ensures FindClsInstIn(pre + Tail(insts, [Pass]), name, cls, false) == CheckMainBody(insts, name, cls, false)
  {
    var m := MainOf(insts, [Pass]);
    FindClsInstImports(pre, Tail(insts, [Pass]), name, cls, false);
    CheckMainBodyLast(insts, While(Constant(TrueVal), [Pass]), name, cls, false);
    MainBodyDefFree(insts);
    FindClsInstDefFree(m.body, name, cls, false);
    FindClsInstDefFree([EntryGuard], name, cls, false);
    FindClsInstDefFree([EntryGuard], name, cls, true);
    assert Tail(insts, [Pass])[1..] == [EntryGuard];
  }

  /** `add_cls_inst` on a generated script: an instance of another class
      under the same name is refused, an instance of the same class is
      kept, and otherwise the new instance goes first in `main`. */
  lemma AddClsInstInScript(pre: seq<Stmt>, k: nat, insts: seq<Stmt>, cls: string, name: string)
    requires AllImports(pre) && k < |pre| && cls in pre[k].names
    requires AllAssigns(insts) && forall i :: 0 <= i < |insts| ==> Readable(insts[i], name)
    ensures var r := AddClsInst(Module(pre + Tail(insts, [Pass])), cls, name);
      && (r.Err? <==> exists i :: 0 <= i < |insts| && Clashes(insts[i], name, cls))
      && (r.Err? ==> exists i :: 0 <= i < |insts| && Clashes(insts[i], name, cls)
                        && (forall j :: 0 <= j < i ==> !Clashes(insts[j], name, cls))
                        && r.error == AlreadyUsed(name, insts[i].value.func.id))
      && (r.Ok? && (exists i :: 0 <= i < |insts| && BindsName(insts[i], name)) ==>
            r.value == Module(pre + Tail(insts, [Pass])))
      && ((forall i :: 0 <= i < |insts| ==> !BindsName(insts[i], name)) ==>
            r == Ok(Module(pre + Tail([ClsInstance(cls, name)] + insts, [Pass]))))
  {
    var stmt := ClsInstance(cls, name);
    ListedIsImported(pre, insts, k, cls);
    FindClsInstScript(pre, insts, name, cls);
    CheckMainBodySpec(insts, name, cls, false);
    InsertInMainsAppend(pre, Tail(insts, [Pass]), stmt);
    InsertInMainsImports(pre, stmt);
    InsertInTail(insts, [Pass], stmt);
  }

  // ---------------------------------------------------------------------
  // The scene's objects.

  /** The last assignment of a generated `main` is its last instance. */
  lemma LastAssignOfMain(insts: seq<Stmt>)
    requires AllAssigns(insts) && |insts| > 0
    ensures LastAssignIndex(MainOf(insts, [Pass]).body) == Some(|insts| - 1)
  {
    var body := MainOf(insts, [Pass]).body;
    assert body[..|body| - 1] == insts;
    assert IsAssignment(insts[|insts| - 1]);
  }

  /** Inserting a binding after the last instance of `main`. */
  lemma MainWithBinding(insts: seq<Stmt>, b: Stmt)
    ensures var body := MainOf(insts, [Pass]).body;
      WithBody(MainOf(insts, [Pass]), body[..|insts|] + [b] + body[|insts|..]) == MainOf(insts + [b], [Pass])
  {
    var body := MainOf(insts, [Pass]).body;
    assert body[..|insts|] == insts;
    assert body[|insts|..] == [While(Constant(TrueVal), [Pass])];
  }

  /** Binding an object in a generated script appends its binding to the
      instances of `main`. */
  lemma InstanceInScript(pre: seq<Stmt>, insts: seq<Stmt>, objectId: string, clsName: string)
    requires AllImports(pre) && AllAssigns(insts) && |insts| > 0
    ensures ObjectInstanceFromRes(Module(pre + Tail(insts, [Pass])), objectId, clsName)
         == Ok(Module(pre + Tail(insts + [InstanceBinding(objectId, clsName)], [Pass])))
  {
    var t := Module(pre + Tail(insts, [Pass]));
    var n := |pre|;
    MainAfterImports(pre, insts, [Pass], false);
    var main := MainOf(insts, [Pass]);
    var b := InstanceBinding(objectId, clsName);
    LastAssignOfMain(insts);
    assert At(t.body, [n]) == main;
    var m' := WithBody(main, main.body[..|insts|] + [b] + main.body[|insts|..]);
    MainWithBinding(insts, b);
    assert Replace(t.body, [n], m') == pre + Tail(insts + [b], [Pass]);
  }

  /** One round of the loop over the scene's objects. */
  lemma BindObjectInScript(pre: seq<Stmt>, insts: seq<Stmt>, o: SceneObject, builtIn: set<string>)
    requires AllImports(pre) && AllAssigns(insts) && |insts| > 0
    ensures AllImports(NextImports(pre, o, builtIn))
    ensures AllAssigns(insts + [InstanceBinding(o.id, o.objType)])
    ensures BindObject(Module(pre + Tail(insts, [Pass])), o, builtIn)
         == Ok(Module(NextImports(pre, o, builtIn) + Tail(insts + [InstanceBinding(o.id, o.objType)], [Pass])))
  {
    var (mod, cls) := TypeImport(o, builtIn);
    AddImportToScript(pre, insts, mod, cls);
    WithImportLists(pre, mod, cls);
    InstanceInScript(WithImport(pre, mod, cls), insts, o.id, o.objType);
  }

  /** One round of the loop, for any script it applies to. */
  lemma BindObjectRound(pre: seq<Stmt>, insts: seq<Stmt>, o: SceneObject, builtIn: set<string>)
    ensures AllImports(pre) && AllAssigns(insts) && |insts| > 0 ==>
      && AllImports(NextImports(pre, o, builtIn))
      && AllAssigns(insts + [InstanceBinding(o.id, o.objType)])
      && BindObject(Module(pre + Tail(insts, [Pass])), o, builtIn)
         == Ok(Module(NextImports(pre, o, builtIn) + Tail(insts + [InstanceBinding(o.id, o.objType)], [Pass])))
  {
    if AllImports(pre) && AllAssigns(insts) && |insts| > 0 {
      BindObjectInScript(pre, insts, o, builtIn);
    }
  }

  /** The loop takes one round and goes on with the rest. */
  lemma BindObjectsUnfold(t: Module, objects: seq<SceneObject>, builtIn: set<string>)
    ensures |objects| > 0 && BindObject(t, objects[0], builtIn).Ok? ==>
      BindObjects(t, objects, builtIn) == BindObjects(BindObject(t, objects[0], builtIn).value, objects[1..], builtIn)
  {
  }

  /** What one round adds to the imports and the instances. */
  lemma RoundAdds(pre: seq<Stmt>, insts: seq<Stmt>, objects: seq<SceneObject>, builtIn: set<string>)
    ensures |objects| > 0 ==>
      var b := InstanceBinding(objects[0].id, objects[0].objType);
      && FinalImports(pre, objects, builtIn) == FinalImports(NextImports(pre, objects[0], builtIn), objects[1..], builtIn)
      && insts + Bindings(objects) == insts + [b] + Bindings(objects[1..])
  {
    if |objects| > 0 {
      var b := InstanceBinding(objects[0].id, objects[0].objType);
      assert Bindings(objects) == [b] + Bindings(objects[1..]);
      AppendOne(insts, b, Bindings(objects[1..]));
    }
  }

  lemma AppendOne(a: seq<Stmt>, b: Stmt, r: seq<Stmt>)
    ensures a + ([b] + r) == a + [b] + r
  {
  }

  /** Binding the scene's objects in a generated script always succeeds:
      the imports become those the loop adds, and `main` gets one binding
      per object, in scene order, after the instances it had. */
  lemma BindObjectsInScript(pre: seq<Stmt>, insts: seq<Stmt>, objects: seq<SceneObject>, builtIn: set<string>)
    requires AllImports(pre) && AllAssigns(insts) && |insts| > 0
    ensures BindObjects(Module(pre + Tail(insts, [Pass])), objects, builtIn)
         == Ok(Module(FinalImports(pre, objects, builtIn) + Tail(insts + Bindings(objects), [Pass])))
  {
    BindObjectsFrom(pre, insts, objects, builtIn);
  }

  lemma {:induction false} BindObjectsFrom(pre: seq<Stmt>, insts: seq<Stmt>, objects: seq<SceneObject>,
                                           builtIn: set<string>)
    ensures AllImports(pre) && AllAssigns(insts) && |insts| > 0 ==>
      BindObjects(Module(pre + Tail(insts, [Pass])), objects, builtIn)
      == Ok(Module(FinalImports(pre, objects, builtIn) + Tail(insts + Bindings(objects), [Pass])))
    decreases objects
  {
    if |objects| == 0 {
      assert insts + Bindings(objects) == insts;
    } else {
      var o, rest := objects[0], objects[1..];
      var pre', insts' := NextImports(pre, o, builtIn), insts + [InstanceBinding(o.id, o.objType)];
      BindObjectRound(pre, insts, o, builtIn);
      BindObjectsUnfold(Module(pre + Tail(insts, [Pass])), objects, builtIn);
      RoundAdds(pre, insts, objects, builtIn);
      BindObjectsFrom(pre', insts', rest, builtIn);
    }
  }

  /** What the skeleton is made of. */
  lemma SkeletonParts(scene: Scene, builtIn: set<string>)
    ensures AllImports(ProgramImports(scene, builtIn))
    ensures AllAssigns(Instances(scene.objects)) && |Instances(scene.objects)| > 0
  {
    ProgramImportsListed(scene, builtIn);
    assert IsAssignment(ResourcesInstance);
  }

  /** The loop over the scene's objects turns the script with the
      resources instance into the skeleton. */
  lemma ProgramSkeleton(scene: Scene, builtIn: set<string>)
    ensures BindObjects(Module([ResourcesImport] + Tail([ResourcesInstance], [Pass])), scene.objects, builtIn)
         == Ok(Skeleton(scene, builtIn))
  {
    assert AllImports([ResourcesImport]) && AllAssigns([ResourcesInstance]);
    BindObjectsFrom([ResourcesImport], [ResourcesInstance], scene.objects, builtIn);
  }

  /** `program_src` adds the logic to the skeleton; nothing before it can
      fail. */
  lemma ProgramTreeIsSkeleton(scene: Scene, builtIn: set<string>, ac: ActionsCache)
    ensures ProgramTree(scene, builtIn, ac) == AddLogicToLoop(Skeleton(scene, builtIn), ac)
  {
    ProgramStart();
    ProgramSkeleton(scene, builtIn);
  }

  // ---------------------------------------------------------------------
  // The logic.

  /** In a generated script the loop is found in `main`, right after the
      instances. */
  lemma LoopInScript(pre: seq<Stmt>, insts: seq<Stmt>, loop: seq<Stmt>)
    requires AllImports(pre) && AllAssigns(insts)
    ensures LoopLocation(Module(pre + Tail(insts, loop))) == Ok(LoopLoc([|pre|], |insts|))
    ensures LoopBodyAt(Module(pre + Tail(insts, loop)), LoopLoc([|pre|], |insts|)) == loop
  {
    var t := Module(pre + Tail(insts, loop));
    MainAfterImports(pre, insts, loop, false);
    var body := MainOf(insts, loop).body;
    assert At(t.body, [|pre|]).body == body;
    assert body[|insts|].While?;
    assert forall j :: 0 <= j < |insts| ==> !body[j].While? by {
      forall j | 0 <= j < |insts| ensures !body[j].While? {
        assert body[j] == insts[j];
      }
    }
  }

  /** Replacing the loop body of a generated script only changes the loop
      in `main`. */
  lemma LoopReplacedInScript(pre: seq<Stmt>, insts: seq<Stmt>, nb: seq<Stmt>)
    requires AllImports(pre) && AllAssigns(insts)
    ensures LoopLocation(Module(pre + Tail(insts, [Pass]))).Ok?
    ensures WithLoopBody(Module(pre + Tail(insts, [Pass])), LoopLocation(Module(pre + Tail(insts, [Pass]))).value, nb)
         == Module(pre + Tail(insts, nb))
  {
    LoopInScript(pre, insts, [Pass]);
    var t := Module(pre + Tail(insts, [Pass]));
    var main := MainOf(insts, [Pass]);
    assert At(t.body, [|pre|]) == main;
    var w := main.body[|insts|];
    assert main.body[|insts| := WithBody(w, nb)] == MainOf(insts, nb).body;
    assert WithBody(main, MainOf(insts, nb).body) == MainOf(insts, nb);
    assert t.body[|pre| := MainOf(insts, nb)] == pre + Tail(insts, nb);
  }

  /** The logic of a generated script reports a missing first or last
      action. */
  lemma ScriptMissingEnds(pre: seq<Stmt>, insts: seq<Stmt>, ac: ActionsCache)
    ensures AllImports(pre) && AllAssigns(insts) ==>
      && (ac.first.None? ==>
            AddLogicToLoop(Module(pre + Tail(insts, [Pass])), ac) == Err(GenerateSourceError("'start' action not found.")))
      && (ac.first.Some? && ac.last.None? ==>
            AddLogicToLoop(Module(pre + Tail(insts, [Pass])), ac) == Err(GenerateSourceError("'end' action not found.")))
  {
    if AllImports(pre) && AllAssigns(insts) {
      LoopInScript(pre, insts, [Pass]);
    }
  }

  /** `program_src` reports a missing first or last action as
      `add_logic_to_loop` does: nothing before it can fail. */
  lemma ProgramTreeMissingEnds(scene: Scene, builtIn: set<string>, ac: ActionsCache)
    ensures ac.first.None? ==> ProgramTree(scene, builtIn, ac) == Err(GenerateSourceError("'start' action not found."))
    ensures ac.first.Some? && ac.last.None? ==>
      ProgramTree(scene, builtIn, ac) == Err(GenerateSourceError("'end' action not found."))
  {
    ProgramTreeIsSkeleton(scene, builtIn, ac);
    SkeletonParts(scene, builtIn);
    ScriptMissingEnds(ProgramImports(scene, builtIn), Instances(scene.objects), ac);
  }

  /** The loop of a generated script holds only the placeholder. */
  lemma ScriptLoopFound(pre: seq<Stmt>, insts: seq<Stmt>)
    ensures AllImports(pre) && AllAssigns(insts) ==>
      && LoopLocation(Module(pre + Tail(insts, [Pass]))).Ok?
      && LoopBodyAt(Module(pre + Tail(insts, [Pass])), LoopLocation(Module(pre + Tail(insts, [Pass]))).value) == [Pass]
  {
    if AllImports(pre) && AllAssigns(insts) {
      LoopInScript(pre, insts, [Pass]);
    }
  }

  lemma ScriptLoopReplaced(pre: seq<Stmt>, insts: seq<Stmt>, nb: seq<Stmt>)
    ensures AllImports(pre) && AllAssigns(insts) ==>
      && LoopLocation(Module(pre + Tail(insts, [Pass]))).Ok?
      && WithLoopBody(Module(pre + Tail(insts, [Pass])), LoopLocation(Module(pre + Tail(insts, [Pass]))).value, nb)
         == Module(pre + Tail(insts, nb))
  {
    if AllImports(pre) && AllAssigns(insts) {
      LoopReplacedInScript(pre, insts, nb);
    }
  }

  /** For a well-formed chain and any tree with a loop, the emitter
      replaces the loop body by the chain's calls after the old body. */
  lemma ChainIntoLoop(t: Module, ac: ActionsCache, chain: seq<string>)
    ensures LoopLocation(t).Ok? && ChainReady(ac, chain) ==>
      && Callable(ac.actions, chain)
      && AddLogicToLoop(t, ac) == Ok(WithLoopBody(t, LoopLocation(t).value,
                                                  DropPass(LoopBodyAt(t, LoopLocation(t).value)) + Calls(ac.actions, chain)))
  {
    if LoopLocation(t).Ok? && ChainReady(ac, chain) {
      AddLogicToLoopChain(t, ac, chain);
    }
  }

  /** For a well-formed chain, the logic of a generated script is one call
      per chained action, in chain order. */
  lemma ScriptChain(pre: seq<Stmt>, insts: seq<Stmt>, ac: ActionsCache, chain: seq<string>)
    ensures AllImports(pre) && AllAssigns(insts) && ChainReady(ac, chain) ==>
      && Callable(ac.actions, chain)
      && AddLogicToLoop(Module(pre + Tail(insts, [Pass])), ac) == Ok(Module(pre + Tail(insts, Calls(ac.actions, chain))))
  {
    if AllImports(pre) && AllAssigns(insts) && ChainReady(ac, chain) {
      var t := Module(pre + Tail(insts, [Pass]));
      ScriptLoopFound(pre, insts);
      ChainIntoLoop(t, ac, chain);
      var calls := Calls(ac.actions, chain);
      ScriptLoopReplaced(pre, insts, calls);
      assert DropPass([Pass]) + calls == calls;
    }
  }

  /** For a well-formed chain, `program_src` builds the imports, then a
      `main` holding the resources instance, one binding per scene object
      in scene order and a loop of one call per chained action in chain
      order, then the entry guard. */
  lemma ProgramTreeChain(scene: Scene, builtIn: set<string>, ac: ActionsCache, chain: seq<string>)
    requires ChainReady(ac, chain)
    ensures Callable(ac.actions, chain)
    ensures ProgramTree(scene, builtIn, ac)
         == Ok(Module(ProgramImports(scene, builtIn) + Tail(Instances(scene.objects), Calls(ac.actions, chain))))
  {
    ProgramTreeIsSkeleton(scene, builtIn, ac);
    SkeletonParts(scene, builtIn);
    ScriptChain(ProgramImports(scene, builtIn), Instances(scene.objects), ac, chain);
  }

  /** Recovering the logic from the script `program_src` builds for a
      well-formed chain succeeds and relinks the chain. */
  lemma ProgramLogicRecovered(scene: Scene, builtIn: set<string>, ac: ActionsCache, chain: seq<string>)
    requires ChainReady(ac, chain)
    ensures Callable(ac.actions, chain)
    ensures var r := GetLogicFromSource(Module(ProgramImports(scene, builtIn)
                                               + Tail(Instances(scene.objects), Calls(ac.actions, chain))), ac.actions);
      r.error.None? && FullyLinked(ac.actions, r.actions, chain)
  {
    var pre, insts := ProgramImports(scene, builtIn), Instances(scene.objects);
    SkeletonParts(scene, builtIn);
    LoopInScript(pre, insts, [Pass]);
    ScriptChain(pre, insts, ac, chain);
    EmitThenRecover(Module(pre + Tail(insts, [Pass])), ac, chain);
  }

  // ---------------------------------------------------------------------
  // derived_resources_class

  function SelfAttr(attr: string): Expr
  {
    Attribute(Name("self"), attr)
  }

  /** `super(Resources, self).__init__('<project id>')` */
  function SuperInit(projectId: string): Stmt
  {
    ExprStmt(Call(Attribute(Call(Name("super"), [Name("Resources"), Name("self")], []), "__init__"),
                  [Str(projectId)], []))
  }

  /** `self._<param> = self.parameters('<param>')` */
  function ParamAssign(param: string): Stmt
  {
    Assign([SelfAttr("_" + param)], Call(SelfAttr("parameters"), [Str(param)], []))
  }

  /** The read-only property of a parameter, which prints and returns the
      field the constructor set. */
  function ParamProperty(param: string): Stmt
  {
    FunctionDef(param, [SelfArg],
                [ExprStmt(Call(Attribute(Name("Resources"), "print_info"), [Str(param), SelfAttr("_" + param)], [])),
                 Return(Some(SelfAttr("_" + param)))],
                [Name("property")])
  }

  function ParamAssigns(params: seq<string>): seq<Stmt>
  {
    if |params| == 0 then [] else [ParamAssign(params[0])] + ParamAssigns(params[1..])
  }

  function ParamProperties(params: seq<string>): seq<Stmt>
  {
    if |params| == 0 then [] else [ParamProperty(params[0])] + ParamProperties(params[1..])
  }

  /** `derived_resources_class` up to the conversion to text: the import
      of the base class, then `Resources` with its constructor and one
      property per parameter. */
  function DerivedResourcesClass(projectId: string, params: seq<string>): Module
  {
    var tree := AddImport(Module([]), "arcor2.resources", "ResourcesBase");
    var init := FunctionDef("__init__", [SelfArg], [SuperInit(projectId)] + ParamAssigns(params), []);
    Module(tree.body + [ClassDef("Resources", [Name("ResourcesBase")], [init] + ParamProperties(params))])
  }

  /** The parameter a constructor statement reads into a field:
      `self._p = self.parameters('p')` reads `p` into `_p`. */
  function AssignedParam(s: Stmt): Option<string>
  {
    if && s.Assign? && |s.targets| == 1 && s.targets[0].Attribute? && s.targets[0].value == Name("self")
       && s.value.Call? && s.value.func == SelfAttr("parameters") && |s.value.args| == 1 && s.value.args[0].Str?
       && s.targets[0].attr == "_" + s.value.args[0].s
    then Some(s.value.args[0].s)
    else None
  }

  /** The parameters a constructor body reads, in order. */
  function AssignedParams(ss: seq<Stmt>): seq<string>
  {
    if |ss| == 0 then []
    else (match AssignedParam(ss[0]) case Some(p) => [p] case None => []) + AssignedParams(ss[1..])
  }

  /** The methods of a class body decorated with `@property`, in order. */
  function PropertyNames(ss: seq<Stmt>): seq<string>
  {
    if |ss| == 0 then []
    else (if ss[0].FunctionDef? && ss[0].decorators == [Name("property")] then [ss[0].name] else [])
         + PropertyNames(ss[1..])
  }

  /** The property of a parameter returns the field its assignment sets. */
  predicate ReturnsField(prop: Stmt, assign: Stmt)
  {
    && prop.FunctionDef? && |prop.body| > 0 && prop.body[|prop.body| - 1].Return?
    && assign.Assign? && |assign.targets| == 1
    && prop.body[|prop.body| - 1].result == Some(assign.targets[0])
  }

  lemma {:induction false} AssignedParamsRead(params: seq<string>)
    ensures AssignedParams(ParamAssigns(params)) == params
    decreases params
  {
    if |params| > 0 {
      AssignedParamsRead(params[1..]);
      assert ParamAssigns(params)[1..] == ParamAssigns(params[1..]);
      assert [params[0]] + params[1..] == params;
    }
  }

  lemma {:induction false} PropertyNamesRead(params: seq<string>)
    ensures PropertyNames(ParamProperties(params)) == params
    decreases params
  {
    if |params| > 0 {
      PropertyNamesRead(params[1..]);
      assert ParamProperties(params)[1..] == ParamProperties(params[1..]);
      assert [params[0]] + params[1..] == params;
    }
  }

  lemma {:induction false} PropertiesMatchAssigns(params: seq<string>)
    ensures |ParamProperties(params)| == |ParamAssigns(params)| == |params|
    ensures forall i :: 0 <= i < |params| ==>
      && ParamProperties(params)[i] == ParamProperty(params[i])
      && ParamAssigns(params)[i] == ParamAssign(params[i])
    decreases params
  {
    if |params| > 0 {
      PropertiesMatchAssigns(params[1..]);
      forall i | 0 < i < |params|
        ensures ParamProperties(params)[i] == ParamProperty(params[i])
        ensures ParamAssigns(params)[i] == ParamAssign(params[i])
      {
        assert params[1..][i - 1] == params[i];
      }
    }
  }

  /** The generated module imports the base class and defines `Resources`
      on it, whose constructor first calls the base constructor with the
      project id and then reads every parameter, in order, into a field;
      the class's properties are exactly the parameters, in order, and
      each returns the field the constructor set for it. */
  lemma DerivedResourcesClassReadBack(projectId: string, params: seq<string>)
    ensures var t := DerivedResourcesClass(projectId, params);
      && |t.body| == 2
      && t.body[0] == ImportFrom("arcor2.resources", ["ResourcesBase"])
      && t.body[1].ClassDef? && t.body[1].name == "Resources" && t.body[1].bases == [Name("ResourcesBase")]
      && |t.body[1].body| == |params| + 1
      && var init := t.body[1].body[0];
         && init.FunctionDef? && init.name == "__init__" && init.args == [SelfArg]
         && |init.body| == |params| + 1
         && init.body[0] == SuperInit(projectId)
         && AssignedParams(init.body[1..]) == params
         && PropertyNames(t.body[1].body) == params
         && forall i :: 1 <= i <= |params| ==> ReturnsField(t.body[1].body[i], init.body[i])
  {
    AddImportInserts(Module([]), "arcor2.resources", "ResourcesBase");
    var t := DerivedResourcesClass(projectId, params);
    var init := FunctionDef("__init__", [SelfArg], [SuperInit(projectId)] + ParamAssigns(params), []);
    var body := [init] + ParamProperties(params);
    assert t.body == [ImportFrom("arcor2.resources", ["ResourcesBase"]), ClassDef("Resources", [Name("ResourcesBase")], body)];
    AssignedParamsRead(params);
    PropertyNamesRead(params);
    PropertiesMatchAssigns(params);
    assert init.body[1..] == ParamAssigns(params);
    assert body[1..] == ParamProperties(params);
    forall i | 1 <= i <= |params| ensures ReturnsField(body[i], init.body[i]) {
      assert body[i] == ParamProperty(params[i - 1]);
      assert init.body[i] == ParamAssign(params[i - 1]);
    }
  }
}
