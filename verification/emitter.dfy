/** The script emitter of `generate_source.py`: the program skeleton, the
    instance bindings in `main`, and the chain of action calls appended to
    the body of `main`'s loop. */
module Emitter {
  import opened Base
  import opened Ast
  import opened Graph
  import opened TreeUtils
  import Names

  // ---------------------------------------------------------------------
  // fix_object_name

  /** `s.replace(a, b)` for single characters. */
  function ReplaceChar(s: string, a: char, b: char): (r: string)
    ensures |r| == |s|
    ensures forall i :: 0 <= i < |s| ==> r[i] == (if s[i] == a then b else s[i])
  {
    if |s| == 0 then [] else [if s[0] == a then b else s[0]] + ReplaceChar(s[1..], a, b)
  }

  /** `fix_object_name`: the variable name bound to a scene object never
      contains a space. */
  function FixObjectName(objectId: string): (r: string)
    ensures ' ' !in r
    ensures |r| == |Names.CamelToSnake(objectId)|
  {
    var r := ReplaceChar(Names.CamelToSnake(objectId), ' ', '_');
    assert forall i :: 0 <= i < |r| ==> r[i] != ' ';
    r
  }

  /** For an id without spaces the replacement is a no-op, so the variable
      name is the plain snake-case form the recoverer compares against. */
  lemma FixObjectNameNoSpace(objectId: string)
    requires ' ' !in objectId
    ensures FixObjectName(objectId) == Names.CamelToSnake(objectId)
  {
    Names.CamelToSnakeNoSpace(objectId);
    var c := Names.CamelToSnake(objectId);
    assert forall i :: 0 <= i < |c| ==> c[i] != ' ';
  }

  // ---------------------------------------------------------------------
  // find_function (the copy in generate_source.py) and main_loop_body

  /** `find_function` of `generate_source.py`, which raises
      `GenerateSourceException`; the result is the path of the definition. */
  function FindFunctionPath(name: string, tree: Module): (r: Result<Path>)
    ensures r.Ok? ==> ValidPath(tree.body, r.value) && Defines(At(tree.body, r.value), FunctionKind, name)
    ensures r.Err? <==> !DefinedIn(tree.body, FunctionKind, name)
    ensures r.Err? ==> r.error == GenerateSourceError("Function " + name + " not found.")
  {
    match FindDefPath(tree, FunctionKind, name)
    case Some(p) => Ok(p)
    case None => Err(GenerateSourceError("Function " + name + " not found."))
  }

  /** Index of the first `while` statement of a body. */
  function FirstWhile(ss: seq<Stmt>): (r: Option<nat>)
    ensures r.Some? ==> r.value < |ss| && ss[r.value].While? && forall j :: 0 <= j < r.value ==> !ss[j].While?
    ensures r.None? ==> forall j :: 0 <= j < |ss| ==> !ss[j].While?
  {
    if |ss| == 0 then None
    else if ss[0].While? then Some(0)
    else match FirstWhile(ss[1..]) case Some(i) => Some(i + 1) case None => None
  }

  /** Where the main loop sits: the path of `main` and the index of the loop
      in its body. */
  datatype LoopLoc = LoopLoc(mainPath: Path, index: nat)

  predicate ValidLoc(tree: Module, loc: LoopLoc)
  {
    && ValidPath(tree.body, loc.mainPath)
    && Defines(At(tree.body, loc.mainPath), FunctionKind, "main")
    && loc.index < |At(tree.body, loc.mainPath).body|
    && At(tree.body, loc.mainPath).body[loc.index].While?
    && forall j :: 0 <= j < loc.index ==> !At(tree.body, loc.mainPath).body[j].While?
  }

  /** The loop of `main_loop_body`: the first `while` of the `main` that
      `find_function` settles on; "Main loop not found." when that `main`
      has none. */
  function LoopLocation(tree: Module): (r: Result<LoopLoc>)
    ensures r.Ok? ==> ValidLoc(tree, r.value)
    ensures r.Ok? ==> FindFunctionPath("main", tree) == Ok(r.value.mainPath)
    ensures !DefinedIn(tree.body, FunctionKind, "main") ==> r == Err(GenerateSourceError("Function main not found."))
    ensures DefinedIn(tree.body, FunctionKind, "main") ==>
      var m := At(tree.body, FindFunctionPath("main", tree).value);
      && (r.Err? <==> forall j :: 0 <= j < |m.body| ==> !m.body[j].While?)
      && (r.Err? ==> r.error == GenerateSourceError("Main loop not found."))
  {
    var p :- FindFunctionPath("main", tree);
    match FirstWhile(At(tree.body, p).body)
    case Some(i) => Ok(LoopLoc(p, i))
    case None => Err(GenerateSourceError("Main loop not found."))
  }

  function LoopBodyAt(tree: Module, loc: LoopLoc): seq<Stmt>
    requires ValidLoc(tree, loc)
  {
    At(tree.body, loc.mainPath).body[loc.index].body
  }

  /** `main_loop_body`: the body of the first loop of `main`. */
  function MainLoopBody(tree: Module): (r: Result<seq<Stmt>>)
    ensures r.Ok? ==> exists loc :: ValidLoc(tree, loc) && r.value == LoopBodyAt(tree, loc)
    ensures !DefinedIn(tree.body, FunctionKind, "main") ==> r == Err(GenerateSourceError("Function main not found."))
    ensures DefinedIn(tree.body, FunctionKind, "main") ==>
      var m := At(tree.body, FindFunctionPath("main", tree).value);
      && (r.Err? <==> forall j :: 0 <= j < |m.body| ==> !m.body[j].While?)
      && (r.Err? ==> r.error == GenerateSourceError("Main loop not found."))
      && (r.Ok? ==> exists i :: 0 <= i < |m.body| && m.body[i].While? && r.value == m.body[i].body
                     && forall j :: 0 <= j < i ==> !m.body[j].While?)
  {
    var loc :- LoopLocation(tree);
    Ok(LoopBodyAt(tree, loc))
  }

  /** The tree with the body of the loop at `loc` replaced. */
  function WithLoopBody(tree: Module, loc: LoopLoc, nb: seq<Stmt>): Module
    requires ValidLoc(tree, loc)
  {
    var m := At(tree.body, loc.mainPath);
    var w := m.body[loc.index];
    Module(Replace(tree.body, loc.mainPath, WithBody(m, m.body[loc.index := WithBody(w, nb)])))
  }

  /** Rewriting the loop body keeps `main` and its loop where they were, and
      the main loop body is then exactly the new one. */
  lemma WithLoopBodyFound(tree: Module, nb: seq<Stmt>)
    requires LoopLocation(tree).Ok?
    ensures LoopLocation(WithLoopBody(tree, LoopLocation(tree).value, nb)) == LoopLocation(tree)
    ensures MainLoopBody(WithLoopBody(tree, LoopLocation(tree).value, nb)) == Ok(nb)
  {
    var loc := LoopLocation(tree).value;
    var m := At(tree.body, loc.mainPath);
    var m' := WithBody(m, m.body[loc.index := WithBody(m.body[loc.index], nb)]);
    FindInReplace(tree.body, loc.mainPath, m', FunctionKind, "main", false);
    ReplaceAt(tree.body, loc.mainPath, m');
    var t := WithLoopBody(tree, loc, nb);
    assert FindDefPath(t, FunctionKind, "main") == Some(loc.mainPath);
    assert At(t.body, loc.mainPath) == m';
    assert m'.body[loc.index].While?;
    assert forall j :: 0 <= j < loc.index ==> !m'.body[j].While?;
  }

  // ---------------------------------------------------------------------
  // empty_script_tree

  /** `if __name__ == '__main__': main()` */
  const EntryGuard: Stmt :=
    If(Compare(Name("__name__"), Str("__main__")), [ExprStmt(Call(Name("main"), [], []))])

  /** `empty_script_tree`: a `main` whose only statement is `while True:
      pass`, and the guarded entry point. */
  function EmptyScriptTree(): (r: Module)
    ensures LoopLocation(r) == Ok(LoopLoc([0], 0))
    ensures MainLoopBody(r) == Ok([Pass])
  {
    var main := FunctionDef("main", [], [While(Constant(TrueVal), [Pass])], []);
    var r := Module([main, EntryGuard]);
    assert [main, EntryGuard][1..] == [EntryGuard];
    assert [EntryGuard][1..] == [];
    assert EntryGuard.body[1..] == [];
    assert FindIn([EntryGuard], FunctionKind, "main", true) == None;
    assert FindIn(r.body, FunctionKind, "main", false) == Some([0]);
    r
  }

  // ---------------------------------------------------------------------
  // add_logic_to_loop

  /** The call statement emitted for an action: `obj.method(**res.<id>)`. */
  function ActionCall(obj: string, meth: string, actionId: string): Stmt
  {
    ExprStmt(Call(Attribute(Name(obj), meth), [], [Keyword(None, Attribute(Name("res"), actionId))]))
  }

  /** The placeholder `pass` is dropped once a call is added. */
  function DropPass(loop: seq<Stmt>): seq<Stmt>
  {
    if |loop| == 1 && loop[0].Pass? then [] else loop
  }

  /** The call emitted for an action whose type splits at '/'. */
  function CallOf(act: Action): (r: Stmt)
    requires Names.SplitPair(act.actionType, '/').Some?
    ensures r.ExprStmt? && r.value.Call? && r.value.keywords == [Keyword(None, Attribute(Name("res"), act.id))]
    ensures r.value.args == []
    ensures var (obj, meth) := Names.SplitPair(act.actionType, '/').value;
      r.value.func == Attribute(Name(FixObjectName(obj)), meth)
  {
    var (obj, meth) := Names.SplitPair(act.actionType, '/').value;
    ActionCall(FixObjectName(obj), meth, act.id)
  }

  /** The walk of `add_logic_to_loop` from the action `cur`.  `fuel` counts
      how many more links may be followed: once it runs out, every action
      met since the start is in the cache and none was the last one, so an
      action repeated and the walk cycles forever. */
  function EmitFrom(actions: map<string, Action>, cur: string, last: string,
                    loop: seq<Stmt>, fuel: nat): (r: Result<seq<Stmt>>)
    ensures r.Ok? ==> |r.value| > |DropPass(loop)| && r.value[..|DropPass(loop)|] == DropPass(loop)
    decreases fuel
  {
    if cur !in actions then Err(Fault("KeyError"))
    else
      var act := actions[cur];
      var loop1 := DropPass(loop);
      match Names.SplitPair(act.actionType, '/')
      case None => Err(Fault("ValueError"))
      case Some((obj, meth)) =>
        var loop2 := AppendMethodCall(loop1, FixObjectName(obj), meth, [],
                                      [Keyword(None, Attribute(Name("res"), act.id))]);
        if act.id == last then Ok(loop2)
        else if |act.outputs| == 0 then Err(Fault("IndexError"))
        else match act.outputs[0]
          case Ref(next) =>
            if fuel == 0 then Err(Diverges)
            else
              var r := EmitFrom(actions, next, last, loop2, fuel - 1);
              assert DropPass(loop2) == loop2;
              assert r.Ok? ==> r.value[..|loop1|] == r.value[..|loop2|][..|loop1|];
              r
          case _ => Err(Fault("KeyError"))
  }

  /** The first output of `act` names the action `next`. */
  predicate LinksTo(act: Action, next: string)
  {
    |act.outputs| >= 1 && act.outputs[0] == Ref(next)
  }

  /** A well-formed chain: from `first`, each action's first output names
      the next one, up to `last`; no action repeats, every action is filed
      under its own id and has a type of the form `object/method`. */
  ghost predicate IsChain(actions: map<string, Action>, chain: seq<string>, first: string, last: string)
  {
    && |chain| >= 1 && chain[0] == first && chain[|chain| - 1] == last
    && Distinct(chain)
    && (forall i :: 0 <= i < |chain| ==>
          chain[i] in actions && actions[chain[i]].id == chain[i]
          && Names.SplitPair(actions[chain[i]].actionType, '/').Some?)
    && (forall i, j {:trigger chain[i], chain[j]} :: 0 <= i < j < |chain| && j == i + 1 ==>
          LinksTo(actions[chain[i]], chain[j]))
  }

  /** Every action of `chain` is in the cache with a type that splits at '/'. */
  predicate Callable(actions: map<string, Action>, chain: seq<string>)
  {
    |chain| == 0 ||
    (chain[0] in actions && Names.SplitPair(actions[chain[0]].actionType, '/').Some?
     && Callable(actions, chain[1..]))
  }

  /** One call per action of the chain, in chain order. */
  function Calls(actions: map<string, Action>, chain: seq<string>): (r: seq<Stmt>)
    requires Callable(actions, chain)
    ensures |r| == |chain|
    ensures forall i :: 0 <= i < |chain| ==>
      chain[i] in actions && Names.SplitPair(actions[chain[i]].actionType, '/').Some?
    ensures forall i :: 0 <= i < |chain| ==> r[i] == CallOf(actions[chain[i]])
  {
    if |chain| == 0 then [] else [CallOf(actions[chain[0]])] + Calls(actions, chain[1..])
  }

  /** The walk's view of a chain, link by link: each action but the last
      names the next one and is not the last action. */
  predicate Linked(actions: map<string, Action>, chain: seq<string>, last: string)
  {
    && |chain| >= 1 && chain[0] in actions
    && Names.SplitPair(actions[chain[0]].actionType, '/').Some?
    && (if |chain| == 1 then actions[chain[0]].id == last
        else actions[chain[0]].id != last && LinksTo(actions[chain[0]], chain[1])
             && Linked(actions, chain[1..], last))
  }

  lemma {:induction false} LinkedCallable(actions: map<string, Action>, chain: seq<string>, last: string)
    requires Linked(actions, chain, last)
    ensures Callable(actions, chain)
    decreases |chain|
  {
    if |chain| > 1 {
      LinkedCallable(actions, chain[1..], last);
    } else {
      assert chain[1..] == [];
    }
  }

  /** Every suffix of a well-formed chain is linked. */
  lemma {:induction false} ChainLinked(actions: map<string, Action>, chain: seq<string>, last: string, k: nat)
    requires |chain| >= 1 && IsChain(actions, chain, chain[0], last)
    requires k < |chain|
    ensures Linked(actions, chain[k..], last)
    decreases |chain| - k
  {
    var c := chain[k..];
    assert c[0] == chain[k];
    if k < |chain| - 1 {
      ChainLinked(actions, chain, last, k + 1);
      assert c[1..] == chain[k + 1..];
      assert c[1] == chain[k + 1];
      assert LinksTo(actions[chain[k]], chain[k + 1]);
      assert chain[k] != chain[|chain| - 1];
    }
  }

  /** One step of the walk: the current action's call is appended and the
      walk goes on at its first output. */
  lemma EmitFromStep(actions: map<string, Action>, cur: string, last: string,
                     loop: seq<Stmt>, fuel: nat)
    requires cur in actions && Names.SplitPair(actions[cur].actionType, '/').Some?
    requires actions[cur].id != last && |actions[cur].outputs| >= 1 && actions[cur].outputs[0].Ref?
    requires fuel > 0
    ensures EmitFrom(actions, cur, last, loop, fuel)
         == EmitFrom(actions, actions[cur].outputs[0].id, last, DropPass(loop) + [CallOf(actions[cur])], fuel - 1)
  {
  }

  /** The walk ends with the call of the last action. */
  lemma EmitFromLast(actions: map<string, Action>, cur: string, last: string,
                     loop: seq<Stmt>, fuel: nat)
    requires cur in actions && Names.SplitPair(actions[cur].actionType, '/').Some?
    requires actions[cur].id == last
    ensures EmitFrom(actions, cur, last, loop, fuel) == Ok(DropPass(loop) + [CallOf(actions[cur])])
  {
  }

  /** Along a linked chain the walk emits the calls of the chain's actions,
      in order, after the old body. */
  lemma {:induction false} EmitLinked(actions: map<string, Action>, chain: seq<string>, last: string,
                                      loop: seq<Stmt>, fuel: nat)
    requires Linked(actions, chain, last) && fuel >= |chain| - 1
    ensures Callable(actions, chain)
    ensures EmitFrom(actions, chain[0], last, loop, fuel) == Ok(DropPass(loop) + Calls(actions, chain))
    decreases |chain|
  {
    LinkedCallable(actions, chain, last);
    if |chain| == 1 {
      EmitLinkedOne(actions, chain, last, loop, fuel);
    } else {
      var tail := chain[1..];
      assert Linked(actions, tail, last);
      var loop' := DropPass(loop) + [CallOf(actions[chain[0]])];
      EmitLinked(actions, tail, last, loop', fuel - 1);
      EmitLinkedStep(actions, chain, last, loop, fuel);
    }
  }

  /** The base case of `EmitLinked`: a chain of the last action alone. */
  lemma EmitLinkedOne(actions: map<string, Action>, chain: seq<string>, last: string,
                      loop: seq<Stmt>, fuel: nat)
    requires Linked(actions, chain, last) && |chain| == 1 && Callable(actions, chain)
    ensures EmitFrom(actions, chain[0], last, loop, fuel) == Ok(DropPass(loop) + Calls(actions, chain))
  {
    EmitFromLast(actions, chain[0], last, loop, fuel);
    assert chain[1..] == [];
    assert Calls(actions, chain[1..]) == [];
    assert Calls(actions, chain) == [CallOf(actions[chain[0]])];
  }

  /** The inductive step of `EmitLinked`: the walk from the chain's head
      takes one step and then emits the tail's calls. */
  lemma EmitLinkedStep(actions: map<string, Action>, chain: seq<string>, last: string,
                       loop: seq<Stmt>, fuel: nat)
    requires Linked(actions, chain, last) && |chain| > 1 && fuel >= |chain| - 1
    requires Callable(actions, chain) && Callable(actions, chain[1..])
    requires EmitFrom(actions, chain[1..][0], last, DropPass(loop) + [CallOf(actions[chain[0]])], fuel - 1)
          == Ok(DropPass(DropPass(loop) + [CallOf(actions[chain[0]])]) + Calls(actions, chain[1..]))
    ensures EmitFrom(actions, chain[0], last, loop, fuel) == Ok(DropPass(loop) + Calls(actions, chain))
  {
    var c := CallOf(actions[chain[0]]);
    EmitFromStep(actions, chain[0], last, loop, fuel);
    assert actions[chain[0]].outputs[0].id == chain[1..][0];
    AppendCall(DropPass(loop), c, Calls(actions, chain[1..]));
    assert Calls(actions, chain) == [c] + Calls(actions, chain[1..]);
  }

  /** Appending a call to a body never leaves the lone placeholder, and
      appending the rest after it is appending both. */
  lemma AppendCall(pre: seq<Stmt>, c: Stmt, rest: seq<Stmt>)
    requires c.ExprStmt?
    ensures DropPass(pre + [c]) + rest == pre + ([c] + rest)
  {
    assert (pre + [c])[|pre|] == c;
    assert (pre + [c]) + rest == pre + ([c] + rest);
  }

  /** `add_logic_to_loop`: errors from locating the loop come first, then a
      missing first action, then a missing last action; otherwise the walk
      from the first action appends one call per visited action. */
  function AddLogicToLoop(tree: Module, ac: ActionsCache): (r: Result<Module>)
    ensures LoopLocation(tree).Err? ==> r == Err(LoopLocation(tree).error)
    ensures LoopLocation(tree).Ok? && ac.first.None? ==>
      r == Err(GenerateSourceError("'start' action not found."))
    ensures LoopLocation(tree).Ok? && ac.first.Some? && ac.last.None? ==>
      r == Err(GenerateSourceError("'end' action not found."))
    ensures r.Ok? ==> MainLoopBody(r.value).Ok?
    ensures r.Ok? ==> var prev := LoopBodyAt(tree, LoopLocation(tree).value);
      var nb := MainLoopBody(r.value).value;
      |nb| > |DropPass(prev)| && nb[..|DropPass(prev)|] == DropPass(prev)
  {
    var loc :- LoopLocation(tree);
    if ac.first.None? then Err(GenerateSourceError("'start' action not found."))
    else if ac.last.None? then Err(GenerateSourceError("'end' action not found."))
    else
      var nb :- EmitFrom(ac.actions, ac.first.value, ac.last.value, LoopBodyAt(tree, loc), |ac.actions|);
      WithLoopBodyFound(tree, nb);
      Ok(WithLoopBody(tree, loc, nb))
  }

  /** For a well-formed chain the loop body becomes exactly one call per
      action in chain order, ending with the last action, after the old body
      with its placeholder `pass` removed. */
  lemma AddLogicToLoopChain(tree: Module, ac: ActionsCache, chain: seq<string>)
    requires LoopLocation(tree).Ok?
    requires ac.first.Some? && ac.last.Some?
    requires IsChain(ac.actions, chain, ac.first.value, ac.last.value)
    ensures Callable(ac.actions, chain)
    ensures AddLogicToLoop(tree, ac).Ok?
    ensures MainLoopBody(AddLogicToLoop(tree, ac).value) ==
      Ok(DropPass(LoopBodyAt(tree, LoopLocation(tree).value)) + Calls(ac.actions, chain))
    ensures AddLogicToLoop(tree, ac) == Ok(WithLoopBody(tree, LoopLocation(tree).value,
      DropPass(LoopBodyAt(tree, LoopLocation(tree).value)) + Calls(ac.actions, chain)))
  {
    DistinctBound(chain, ac.actions.Keys);
    var loc := LoopLocation(tree).value;
    ChainLinked(ac.actions, chain, ac.last.value, 0);
    assert chain[0..] == chain;
    EmitLinked(ac.actions, chain, ac.last.value, LoopBodyAt(tree, loc), |ac.actions|);
    WithLoopBodyFound(tree, DropPass(LoopBodyAt(tree, loc)) + Calls(ac.actions, chain));
  }

  // ---------------------------------------------------------------------
  // object_instance_from_res

  predicate IsAssignment(s: Stmt)
  {
    s.Assign? || s.AnnAssign?
  }

  /** Index of the last `Assign`/`AnnAssign` of a body. */
  function LastAssignIndex(ss: seq<Stmt>): (r: Option<nat>)
    ensures r.Some? ==>
      (r.value < |ss| && IsAssignment(ss[r.value]) &&
       forall j :: r.value < j < |ss| ==> !IsAssignment(ss[j]))
    ensures r.None? ==> forall j :: 0 <= j < |ss| ==> !IsAssignment(ss[j])
  {
    if |ss| == 0 then None
    else if IsAssignment(ss[|ss| - 1]) then Some(|ss| - 1)
    else LastAssignIndex(ss[..|ss| - 1])
  }

  /** `name: Cls = res.objects['<object id>']` */
  function InstanceBinding(objectId: string, clsName: string): Stmt
  {
    AnnAssign(Name(FixObjectName(objectId)), Name(clsName),
              Subscript(Attribute(Name("res"), "objects"), Str(objectId)))
  }

  /** `object_instance_from_res`: the binding goes right after the last
      assignment of `main`'s body, and there must be one. */
  function ObjectInstanceFromRes(tree: Module, objectId: string, clsName: string): (r: Result<Module>)
    ensures var fp := FindDefPath(tree, FunctionKind, "main");
      && (fp.None? ==> r == Err(GenerateSourceError("Function main not found.")))
      && (fp.Some? ==>
            var body := At(tree.body, fp.value).body;
            && (r.Err? <==> forall j :: 0 <= j < |body| ==> !IsAssignment(body[j]))
            && (r.Err? ==> r.error == GenerateSourceError(""))
            && (r.Ok? ==>
                  && FindDefPath(r.value, FunctionKind, "main") == fp
                  && exists i :: 0 <= i < |body| && IsAssignment(body[i])
                       && (forall j :: i < j < |body| ==> !IsAssignment(body[j]))
                       && At(r.value.body, fp.value).body
                            == body[..i + 1] + [InstanceBinding(objectId, clsName)] + body[i + 1..]))
  {
    var p :- FindFunctionPath("main", tree);
    var m := At(tree.body, p);
    match LastAssignIndex(m.body)
    case None => Err(GenerateSourceError(""))
    case Some(i) =>
      assert IsAssignment(m.body[i]);
      assert FindDefPath(tree, FunctionKind, "main") == Some(p);
      assert At(tree.body, FindDefPath(tree, FunctionKind, "main").value).body == m.body;
      assert !(forall j :: 0 <= j < |m.body| ==> !IsAssignment(m.body[j]));
      var m' := WithBody(m, m.body[..i + 1] + [InstanceBinding(objectId, clsName)] + m.body[i + 1..]);
      FindInReplace(tree.body, p, m', FunctionKind, "main", false);
      ReplaceAt(tree.body, p, m');
      Ok(Module(Replace(tree.body, p, m')))
  }

  // ---------------------------------------------------------------------
  // add_cls_inst

  /** Some `from ... import` anywhere in the tree lists `cls`. */
  predicate ClsImported(ss: seq<Stmt>, cls: string)
  {
    exists x :: x in Walk(ss) && x.ImportFrom? && cls in x.names
  }

  /** The scan of one `main` body by `add_cls_inst`: an assignment to `name`
      must construct `cls`.  Reading `targets[0].id` or `value.func.id` of
      an assignment of another shape raises. */
  function CheckMainBody(items: seq<Stmt>, name: string, cls: string, found: bool): Result<bool>
  {
    if |items| == 0 then Ok(found)
    else
      var item := items[0];
      if !item.Assign? then CheckMainBody(items[1..], name, cls, found)
      else if |item.targets| == 0 then Err(Fault("IndexError"))
      else if !item.targets[0].Name? then Err(Fault("AttributeError"))
      else if item.targets[0].id != name then CheckMainBody(items[1..], name, cls, found)
      else if !(item.value.Call? && item.value.func.Name?) then Err(Fault("AttributeError"))
      else if item.value.func.id != cls then
        Err(GenerateSourceError("Name '" + name + "' already used for instance of '" + item.value.func.id + "'!"))
      else CheckMainBody(items[1..], name, cls, true)
  }

  /** The instance-search visitor of `add_cls_inst`: every `main` it reaches
      is scanned, and a function is entered only while nothing was found. */
  function FindClsInstIn(ss: seq<Stmt>, name: string, cls: string, found: bool): Result<bool>
    decreases ss
  {
    if |ss| == 0 then Ok(found)
    else
      var s := ss[0];
      assert s in ss;
      var f1 :-
        if s.FunctionDef? then
          var f0 :- if s.name == "main" then CheckMainBody(s.body, name, cls, found) else Ok(found);
          if !f0 then FindClsInstIn(s.body, name, cls, f0) else Ok(f0)
        else if HasBody(s) then FindClsInstIn(s.body, name, cls, found)
        else Ok(found);
      FindClsInstIn(ss[1..], name, cls, f1)
  }

  /** The inserting transformer of `add_cls_inst`: every `main` not nested
      in another function gets `stmt` as its first statement. */
  function InsertInMains(ss: seq<Stmt>, stmt: Stmt): (r: seq<Stmt>)
    ensures |r| == |ss|
    decreases ss
  {
    if |ss| == 0 then []
    else
      var s := ss[0];
      assert s in ss;
      var s' :=
        if s.FunctionDef? then (if s.name == "main" then WithBody(s, [stmt] + s.body) else s)
        else if HasBody(s) then WithBody(s, InsertInMains(s.body, stmt))
        else s;
      [s'] + InsertInMains(ss[1..], stmt)
  }

  /** `name = cls()` */
  function ClsInstance(cls: string, name: string): Stmt
  {
    Assign([Name(name)], Call(Name(cls), [], []))
  }

  /** `add_cls_inst` without keyword arguments. */
  function AddClsInst(tree: Module, cls: string, name: string): (r: Result<Module>)
    ensures !ClsImported(tree.body, cls) ==> r == Err(GenerateSourceError("Class '" + cls + "' not imported!"))
    ensures r.Ok? ==> ClsImported(tree.body, cls)
    ensures r.Ok? ==> r.value == tree || r.value.body == InsertInMains(tree.body, ClsInstance(cls, name))
  {
    if !ClsImported(tree.body, cls) then Err(GenerateSourceError("Class '" + cls + "' not imported!"))
    else
      var found :- FindClsInstIn(tree.body, name, cls, false);
      if found then Ok(tree) else Ok(Module(InsertInMains(tree.body, ClsInstance(cls, name))))
  }

  /** An assignment `name = ...` in the shape the scan reads. */
  predicate BindsName(s: Stmt, name: string)
  {
    s.Assign? && |s.targets| > 0 && s.targets[0].Name? && s.targets[0].id == name
  }

  /** A statement the scan of a `main` body reads without raising: an
      assignment has a plain name as first target, and one to `name`
      constructs an instance by a plain class name. */
  predicate Readable(s: Stmt, name: string)
  {
    s.Assign? ==>
      && |s.targets| > 0 && s.targets[0].Name?
      && (s.targets[0].id == name ==> s.value.Call? && s.value.func.Name?)
  }

  /** `name` is bound to an instance of a class other than `cls`. */
  predicate Clashes(s: Stmt, name: string, cls: string)
  {
    BindsName(s, name) && s.value.Call? && s.value.func.Name? && s.value.func.id != cls
  }

  function AlreadyUsed(name: string, other: string): Error
  {
    GenerateSourceError("Name '" + name + "' already used for instance of '" + other + "'!")
  }

  /** Without a clash the scan reports whether `name` is bound at all. */
  lemma {:induction false} CheckMainBodyOk(items: seq<Stmt>, name: string, cls: string, found: bool)
    requires forall i :: 0 <= i < |items| ==> Readable(items[i], name) && !Clashes(items[i], name, cls)
    ensures CheckMainBody(items, name, cls, found)
         == Ok(found || exists i :: 0 <= i < |items| && BindsName(items[i], name))
    decreases items
  {
    if |items| > 0 {
      var rest := items[1..];
      assert forall i :: 0 <= i < |rest| ==> rest[i] == items[i + 1];
      var f' := if BindsName(items[0], name) then true else found;
      CheckMainBodyOk(rest, name, cls, f');
      if exists i :: 0 <= i < |items| && BindsName(items[i], name) {
        var i :| 0 <= i < |items| && BindsName(items[i], name);
        if i > 0 { assert BindsName(rest[i - 1], name); }
      }
    }
  }

  /** The scan stops at the first clash. */
  lemma {:induction false} CheckMainBodyClash(items: seq<Stmt>, name: string, cls: string, found: bool, k: nat)
    requires forall i :: 0 <= i < |items| ==> Readable(items[i], name)
    requires k < |items| && Clashes(items[k], name, cls)
    requires forall j :: 0 <= j < k ==> !Clashes(items[j], name, cls)
    ensures CheckMainBody(items, name, cls, found) == Err(AlreadyUsed(name, items[k].value.func.id))
    decreases items
  {
    if k > 0 {
      var rest := items[1..];
      assert forall i :: 0 <= i < |rest| ==> rest[i] == items[i + 1];
      assert !Clashes(items[0], name, cls);
      var f' := if BindsName(items[0], name) then true else found;
      CheckMainBodyClash(rest, name, cls, f', k - 1);
    }
  }

  /** A clash somewhere means a first clash. */
  lemma {:induction false} FirstClash(items: seq<Stmt>, name: string, cls: string, k: nat) returns (i: nat)
    requires k < |items| && Clashes(items[k], name, cls)
    ensures i <= k && Clashes(items[i], name, cls)
    ensures forall j :: 0 <= j < i ==> !Clashes(items[j], name, cls)
    decreases k
  {
    if j :| 0 <= j < k && Clashes(items[j], name, cls) {
      i := FirstClash(items, name, cls, j);
    } else {
      i := k;
    }
  }

  /** The scan of a `main` body by `add_cls_inst` fails at the first
      assignment binding `name` to another class; otherwise it reports
      whether `name` is bound at all. */
  lemma CheckMainBodySpec(items: seq<Stmt>, name: string, cls: string, found: bool)
    requires forall i :: 0 <= i < |items| ==> Readable(items[i], name)
    ensures var r := CheckMainBody(items, name, cls, found);
      && (r.Err? <==> exists i :: 0 <= i < |items| && Clashes(items[i], name, cls))
      && (r.Ok? ==> r.value == (found || exists i :: 0 <= i < |items| && BindsName(items[i], name)))
      && (r.Err? ==> exists i :: 0 <= i < |items| && Clashes(items[i], name, cls)
                        && (forall j :: 0 <= j < i ==> !Clashes(items[j], name, cls))
                        && r.error == AlreadyUsed(name, items[i].value.func.id))
  {
    if k :| 0 <= k < |items| && Clashes(items[k], name, cls) {
      var i := FirstClash(items, name, cls, k);
      CheckMainBodyClash(items, name, cls, found, i);
    } else {
      CheckMainBodyOk(items, name, cls, found);
    }
  }

  // ---------------------------------------------------------------------
  // add_method_call_in_main

  /** Index of the last plain `Assign` of a body (an `AnnAssign` does not
      count here). */
  function LastPlainAssign(ss: seq<Stmt>): (r: Option<nat>)
    ensures r.Some? ==>
      (r.value < |ss| && ss[r.value].Assign? && forall j :: r.value < j < |ss| ==> !ss[j].Assign?)
    ensures r.None? ==> forall j :: 0 <= j < |ss| ==> !ss[j].Assign?
  {
    if |ss| == 0 then None
    else if ss[|ss| - 1].Assign? then Some(|ss| - 1)
    else LastPlainAssign(ss[..|ss| - 1])
  }

  /** `instance.method(*args)`; the keyword arguments the caller passes are
      not used. */
  function MethodCall(instance: string, meth: string, args: seq<Expr>): Stmt
  {
    ExprStmt(Call(Attribute(Name(instance), meth), args, []))
  }

  /** `main`'s body with `stmt` inserted after position `i`. */
  function InsertAfter(tree: Module, p: Path, i: nat, stmt: Stmt): (r: Module)
    requires ValidPath(tree.body, p) && Defines(At(tree.body, p), FunctionKind, "main")
    requires FindDefPath(tree, FunctionKind, "main") == Some(p)
    requires i < |At(tree.body, p).body|
    ensures FindDefPath(r, FunctionKind, "main") == Some(p)
    ensures var body := At(tree.body, p).body;
      At(r.body, p).body == body[..i + 1] + [stmt] + body[i + 1..]
  {
    var m := At(tree.body, p);
    var m' := WithBody(m, m.body[..i + 1] + [stmt] + m.body[i + 1..]);
    FindInReplace(tree.body, p, m', FunctionKind, "main", false);
    ReplaceAt(tree.body, p, m');
    Module(Replace(tree.body, p, m'))
  }

  /** `add_method_call_in_main` as written: the check `if not
      last_assign_idx` also refuses an assignment at index 0. */
  function AddMethodCallInMainAsWritten(tree: Module, instance: string, meth: string, args: seq<Expr>): (r: Result<Module>)
    ensures var fp := FindDefPath(tree, FunctionKind, "main");
      && (fp.None? ==> r == Err(GenerateSourceError("Function main not found.")))
      && (fp.Some? ==>
            var body := At(tree.body, fp.value).body;
            r.Err? <==> LastPlainAssign(body).None? || LastPlainAssign(body) == Some(0))
    ensures r.Ok? ==> r == AddMethodCallInMain(tree, instance, meth, args)
  {
    var p :- FindFunctionPath("main", tree);
    match LastPlainAssign(At(tree.body, p).body)
    case None => Err(GenerateSourceError(""))
    case Some(i) =>
      if i == 0 then Err(GenerateSourceError(""))
      else Ok(InsertAfter(tree, p, i, MethodCall(instance, meth, args)))
  }

  /** `add_method_call_in_main` as intended: the call goes right after the
      last assignment of `main`, wherever it is, and there must be one. */
  function AddMethodCallInMain(tree: Module, instance: string, meth: string, args: seq<Expr>): (r: Result<Module>)
    ensures var fp := FindDefPath(tree, FunctionKind, "main");
      && (fp.None? ==> r == Err(GenerateSourceError("Function main not found.")))
      && (fp.Some? ==>
            var body := At(tree.body, fp.value).body;
            && (r.Err? <==> forall j :: 0 <= j < |body| ==> !body[j].Assign?)
            && (r.Err? ==> r.error == GenerateSourceError(""))
            && (r.Ok? ==>
                  && FindDefPath(r.value, FunctionKind, "main") == fp
                  && exists i :: 0 <= i < |body| && body[i].Assign?
                       && (forall j :: i < j < |body| ==> !body[j].Assign?)
                       && At(r.value.body, fp.value).body
                            == body[..i + 1] + [MethodCall(instance, meth, args)] + body[i + 1..]))
  {
    var p :- FindFunctionPath("main", tree);
    assert FindDefPath(tree, FunctionKind, "main") == Some(p);
    var body := At(tree.body, p).body;
    match LastPlainAssign(body)
    case None => Err(GenerateSourceError(""))
    case Some(i) =>
      assert body[i].Assign?;
      Ok(InsertAfter(tree, p, i, MethodCall(instance, meth, args)))
  }

  /** Where `main`'s last assignment is not its first statement, the two
      agree. */
  lemma AddMethodCallInMainAgrees(tree: Module, instance: string, meth: string, args: seq<Expr>)
    requires FindDefPath(tree, FunctionKind, "main").Some?
    requires LastPlainAssign(At(tree.body, FindDefPath(tree, FunctionKind, "main").value).body) != Some(0)
    ensures AddMethodCallInMainAsWritten(tree, instance, meth, args) == AddMethodCallInMain(tree, instance, meth, args)
  {
  }

  /** A `main` that starts with its only assignment: the code as written
      refuses it, the intended version inserts the call after it. */
  lemma FirstAssignRefusedAsWritten()
    ensures var a := Assign([Name("r")], Call(Name("R"), [], []));
      var t := Module([FunctionDef("main", [], [a], [])]);
      && AddMethodCallInMainAsWritten(t, "r", "go", []) == Err(GenerateSourceError(""))
      && AddMethodCallInMain(t, "r", "go", [])
           == Ok(Module([FunctionDef("main", [], [a, MethodCall("r", "go", [])], [])]))
  {
    var a := Assign([Name("r")], Call(Name("R"), [], []));
    var main := FunctionDef("main", [], [a], []);
    var t := Module([main]);
    assert [main][1..] == [];
    assert [a][1..] == [];
    assert FindIn(t.body, FunctionKind, "main", false) == Some([0]);
    assert LastPlainAssign([a]) == Some(0);
    var c := MethodCall("r", "go", []);
    assert FindFunctionPath("main", t) == Ok([0]);
    assert At(t.body, [0]) == main;
    assert [a][..1] + [c] + [a][1..] == [a, c];
    assert InsertAfter(t, [0], 0, c) == Module([FunctionDef("main", [], [a, c], [])]);
  }
}
