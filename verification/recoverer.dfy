/** `get_logic_from_source`: reading the order of the actions back from the
    main loop of a script and relinking the project's actions to match it.
    The actions are edited in place in the source, so a failure part-way
    leaves the edits made before it; the model returns the cache as it is
    when the walk stops together with the error, if any. */
module Recoverer {
  import opened Base
  import opened Ast
  import opened Graph
  import Names
  import opened Emitter

  /** What a loop statement names: `obj.meth(**res.<actionId>)`. */
  datatype CallShape = CallShape(obj: string, meth: string, actionId: string)

  /** Reading one loop statement: an expression statement whose value is a
      call of an attribute of a plain name, with a first keyword whose value
      is an attribute.  Anything else lacks one of the attributes read and
      is reported as unexpected content. */
  function ParseCall(s: Stmt): (r: Result<CallShape>)
    ensures !s.ExprStmt? ==> r == Err(GenerateSourceError("Unexpected content."))
    ensures s.ExprStmt? && r.Err? ==> r.error == GenerateSourceError("Script has unexpected content.")
    ensures r.Ok? <==>
      && s.ExprStmt? && s.value.Call? && s.value.func.Attribute? && s.value.func.value.Name?
      && |s.value.keywords| >= 1 && s.value.keywords[0].value.Attribute?
    ensures r.Ok? ==>
      && r.value.obj == s.value.func.value.id && r.value.meth == s.value.func.attr
      && r.value.actionId == s.value.keywords[0].value.attr
  {
    if !s.ExprStmt? then Err(GenerateSourceError("Unexpected content."))
    else match s.value
      case Call(Attribute(Name(o), m), _, kws) =>
        if |kws| >= 1 && kws[0].value.Attribute? then Ok(CallShape(o, m, kws[0].value.attr))
        else Err(GenerateSourceError("Script has unexpected content."))
      case _ => Err(GenerateSourceError("Script has unexpected content."))
  }

  /** The statements the emitter writes are read back as what they name. */
  lemma ParseActionCall(obj: string, meth: string, actionId: string)
    ensures ParseCall(ActionCall(obj, meth, actionId)) == Ok(CallShape(obj, meth, actionId))
  {
  }

  /** The action id a statement names, or "" when it names none. */
  function IdOf(s: Stmt): string
  {
    match ParseCall(s)
    case Ok(c) => c.actionId
    case Err(_) => ""
  }

  function IdsOf(loop: seq<Stmt>): (r: seq<string>)
    ensures |r| == |loop| && forall i :: 0 <= i < |loop| ==> r[i] == IdOf(loop[i])
  {
    if |loop| == 0 then [] else [IdOf(loop[0])] + IdsOf(loop[1..])
  }

  function Elems(s: seq<string>): set<string>
  {
    set x | x in s
  }

  /** The action named by a call exists and its type, split at '/', gives
      the call's variable (after case conversion) and method. */
  predicate Matches(actions: map<string, Action>, c: CallShape)
  {
    && c.actionId in actions
    && match Names.SplitPair(actions[c.actionId].actionType, '/')
       case Some((o, m)) => Names.CamelToSnake(o) == c.obj && m == c.meth
       case None => false
  }

  function Mismatch(actionType: string, c: CallShape): Error
  {
    GenerateSourceError("Action type " + actionType + " does not correspond to source, where it is "
                        + c.obj + "/" + c.meth + ".")
  }

  /** The checks a loop statement goes through before its action is
      relinked, in the order they are made; `found` holds the ids met so
      far.  A type that does not split into two parts at '/' is an
      unhandled `ValueError`. */
  function CheckCall(actions: map<string, Action>, found: set<string>, s: Stmt): (r: Result<string>)
    ensures ParseCall(s).Err? ==> r == Err(ParseCall(s).error)
    ensures ParseCall(s).Ok? && IdOf(s) in found ==>
      r == Err(GenerateSourceError("Duplicate action: " + IdOf(s) + "."))
    ensures ParseCall(s).Ok? && IdOf(s) !in found && IdOf(s) !in actions ==>
      r == Err(GenerateSourceError("Unknown action " + IdOf(s) + "."))
    ensures ParseCall(s).Ok? && IdOf(s) !in found && IdOf(s) in actions
            && Names.SplitPair(actions[IdOf(s)].actionType, '/').None? ==>
      r == Err(Fault("ValueError"))
    ensures ParseCall(s).Ok? && IdOf(s) !in found && IdOf(s) in actions
            && Names.SplitPair(actions[IdOf(s)].actionType, '/').Some? && !Matches(actions, ParseCall(s).value) ==>
      r == Err(Mismatch(actions[IdOf(s)].actionType, ParseCall(s).value))
    ensures r.Ok? <==> ParseCall(s).Ok? && IdOf(s) !in found && Matches(actions, ParseCall(s).value)
    ensures r.Ok? ==> r.value == IdOf(s)
  {
    var c :- ParseCall(s);
    if c.actionId in found then Err(GenerateSourceError("Duplicate action: " + c.actionId + "."))
    else if c.actionId !in actions then Err(GenerateSourceError("Unknown action " + c.actionId + "."))
    else
      var t := actions[c.actionId].actionType;
      match Names.SplitPair(t, '/')
      case None => Err(Fault("ValueError"))
      case Some((o, m)) =>
        if Names.CamelToSnake(o) != c.obj || m != c.meth then Err(Mismatch(t, c))
        else Ok(c.actionId)
  }

  /** Two caches hold the same actions, links aside. */
  predicate SameActions(orig: map<string, Action>, m: map<string, Action>)
  {
    && m.Keys == orig.Keys
    && forall k :: k in orig ==> m[k].id == orig[k].id && m[k].actionType == orig[k].actionType
  }

  /** The edits for the action `cur`: its lists are cleared and its input
      becomes the first marker, or the previous action; the action filed
      under the previous action's id gains `cur`'s id as an output (a
      `KeyError` when there is none); the action of the loop's last
      statement gets the last marker as an output. */
  function Relink(actions: map<string, Action>, cur: string, prev: Option<string>, isLast: bool)
    : (r: (map<string, Action>, Option<Error>))
    requires cur in actions
    requires prev.Some? ==> prev.value in actions
    ensures SameActions(actions, r.0)
    ensures r.1.Some? <==> prev.Some? && actions[prev.value].id !in actions
    ensures forall k :: k in actions && k != cur && (prev.None? || k != actions[prev.value].id) ==>
      r.0[k] == actions[k]
  {
    var a := actions[cur];
    var input := if prev.None? then First else Ref(actions[prev.value].id);
    var m1 := actions[cur := a.(inputs := [input], outputs := [])];
    if prev.Some? && actions[prev.value].id !in m1 then (m1, Some(Fault("KeyError")))
    else
      var m2 :=
        if prev.None? then m1
        else
          var pid := actions[prev.value].id;
          m1[pid := m1[pid].(outputs := m1[pid].outputs + [Ref(a.id)])];
      var m3 := if isLast then m2[cur := m2[cur].(outputs := m2[cur].outputs + [Last])] else m2;
      (m3, None)
  }

  /** The cache and the error, if any, when the walk stops. */
  datatype Recovered = Recovered(actions: map<string, Action>, error: Option<Error>)

  /** The walk over the loop from statement `i`; `prev` is the key of the
      previous statement's action. */
  function RecoverLoop(actions: map<string, Action>, loop: seq<Stmt>, i: nat,
                       found: set<string>, prev: Option<string>): (r: Recovered)
    requires i <= |loop|
    requires prev.Some? ==> prev.value in actions
    ensures SameActions(actions, r.actions)
    decreases |loop| - i
  {
    if i == |loop| then Recovered(actions, None)
    else match CheckCall(actions, found, loop[i])
      case Err(e) => Recovered(actions, Some(e))
      case Ok(id) =>
        var (m, err) := Relink(actions, id, prev, i == |loop| - 1);
        if err.Some? then Recovered(m, err)
        else RecoverLoop(m, loop, i + 1, found + {id}, Some(id))
  }

  /** `get_logic_from_source` on an already parsed script. */
  function GetLogicFromSource(tree: Module, actions: map<string, Action>): (r: Recovered)
    ensures MainLoopBody(tree).Err? ==> r == Recovered(actions, Some(MainLoopBody(tree).error))
    ensures SameActions(actions, r.actions)
  {
    match MainLoopBody(tree)
    case Err(e) => Recovered(actions, Some(e))
    case Ok(loop) => RecoverLoop(actions, loop, 0, {}, None)
  }

  // ---------------------------------------------------------------------
  // What a successful recovery means

  /** Every statement of the loop names an existing action whose type
      matches the call, and no action is named twice. */
  ghost predicate Recoverable(actions: map<string, Action>, loop: seq<Stmt>)
  {
    && (forall i :: 0 <= i < |loop| ==> ParseCall(loop[i]).Ok? && Matches(actions, ParseCall(loop[i]).value))
    && Distinct(IdsOf(loop))
  }

  /** Consecutive entries of `ids` are linked in `m`: the later one's only
      input is the earlier one, the earlier one's only output the later
      one, for the pairs below position `i`. */
  ghost predicate PairsLinked(m: map<string, Action>, ids: seq<string>, i: nat)
    requires i <= |ids|
    requires forall j :: 0 <= j < |ids| ==> ids[j] in m
  {
    forall j, j' {:trigger ids[j], ids[j']} :: 0 <= j < j' < i && j' == j + 1 ==>
      m[ids[j']].inputs == [Ref(ids[j])] && m[ids[j]].outputs == [Ref(ids[j'])]
  }

  /** The cache after the first `i` statements of a loop of `n`, named by
      `ids`, have been relinked: the first has the first marker as input,
      consecutive ones are linked, the current one has no output yet except
      the last marker when it ends the loop, and every other action is
      untouched. */
  ghost predicate LinkedUpTo(orig: map<string, Action>, m: map<string, Action>, ids: seq<string>, i: nat, n: nat)
    requires i <= |ids|
  {
    && SameActions(orig, m)
    && (forall j :: 0 <= j < |ids| ==> ids[j] in orig)
    && (forall k :: k in orig && k !in ids[..i] ==> m[k] == orig[k])
    && (i >= 1 ==> m[ids[0]].inputs == [First])
    && PairsLinked(m, ids, i)
    && (i >= 1 ==> m[ids[i - 1]].outputs == if i == n then [Last] else [])
  }

  /** When the previous action is filed under its own id and is not the
      current one, relinking rewrites exactly those two actions. */
  lemma RelinkEffect(m: map<string, Action>, cur: string, prev: Option<string>, isLast: bool)
    requires cur in m
    requires prev.Some? ==> prev.value in m && m[prev.value].id == prev.value && prev.value != cur
    ensures var r := Relink(m, cur, prev, isLast);
      && r.1.None?
      && (forall k :: k in m && k != cur && (prev.None? || k != prev.value) ==> r.0[k] == m[k])
      && r.0[cur] == m[cur].(inputs := [if prev.None? then First else Ref(prev.value)],
                             outputs := if isLast then [Last] else [])
      && (prev.Some? ==> r.0[prev.value] == m[prev.value].(outputs := m[prev.value].outputs + [Ref(m[cur].id)]))
  {
  }

  /** The facts about the two rewritten actions that the steps below use. */
  lemma RelinkFacts(orig: map<string, Action>, m: map<string, Action>, ids: seq<string>, i: nat, n: nat)
    requires Consistent(orig) && Distinct(ids) && i < |ids| <= n
    requires LinkedUpTo(orig, m, ids, i, n)
    ensures ids[i] in m && (i > 0 ==> ids[i - 1] in m)
    ensures m[ids[i]] == orig[ids[i]] && m[ids[i]].id == ids[i]
    ensures i > 0 ==> m[ids[i - 1]].id == ids[i - 1] && ids[i - 1] != ids[i]
    ensures var r := Relink(m, ids[i], if i == 0 then None else Some(ids[i - 1]), i == n - 1);
      && r.1.None?
      && (forall k :: k in m && k != ids[i] && (i == 0 || k != ids[i - 1]) ==> r.0[k] == m[k])
      && r.0[ids[i]].inputs == [if i == 0 then First else Ref(ids[i - 1])]
      && r.0[ids[i]].outputs == (if i == n - 1 then [Last] else [])
      && (i > 0 ==> r.0[ids[i - 1]] == m[ids[i - 1]].(outputs := [Ref(ids[i])]))
  {
    assert ids[i] in orig;
    assert ids[i] !in ids[..i];
    if i > 0 {
      assert ids[i - 1] in orig;
      assert m[ids[i - 1]].id == ids[i - 1];
    }
    RelinkEffect(m, ids[i], if i == 0 then None else Some(ids[i - 1]), i == n - 1);
  }

  /** Relinking leaves the actions outside the prefix untouched. */
  lemma RelinkKeepsOthers(orig: map<string, Action>, m: map<string, Action>, ids: seq<string>, i: nat, n: nat)
    requires Consistent(orig) && Distinct(ids) && i < |ids| <= n
    requires LinkedUpTo(orig, m, ids, i, n)
    ensures ids[i] in m && (i > 0 ==> ids[i - 1] in m)
    ensures var r := Relink(m, ids[i], if i == 0 then None else Some(ids[i - 1]), i == n - 1).0;
      forall k :: k in orig && k !in ids[..i + 1] ==> r[k] == orig[k]
  {
    RelinkFacts(orig, m, ids, i, n);
    assert ids[..i + 1] == ids[..i] + [ids[i]];
    assert i > 0 ==> ids[..i + 1][i - 1] == ids[i - 1];
  }

  /** Relinking links the new pair and keeps the pairs before it. */
  lemma RelinkPairs(orig: map<string, Action>, m: map<string, Action>, ids: seq<string>, i: nat, n: nat)
    requires Consistent(orig) && Distinct(ids) && i < |ids| <= n
    requires LinkedUpTo(orig, m, ids, i, n)
    ensures ids[i] in m && (i > 0 ==> ids[i - 1] in m)
    ensures var r := Relink(m, ids[i], if i == 0 then None else Some(ids[i - 1]), i == n - 1).0;
      (forall j :: 0 <= j < |ids| ==> ids[j] in r) && PairsLinked(r, ids, i + 1)
  {
    RelinkFacts(orig, m, ids, i, n);
    var r := Relink(m, ids[i], if i == 0 then None else Some(ids[i - 1]), i == n - 1).0;
    forall j, j' | 0 <= j < j' < i + 1 && j' == j + 1
      ensures r[ids[j']].inputs == [Ref(ids[j])] && r[ids[j]].outputs == [Ref(ids[j'])]
    {
      if j' < i {
        assert ids[j'] != ids[i] && ids[j] != ids[i];
        if j' < i - 1 {
          assert ids[j'] != ids[i - 1] && ids[j] != ids[i - 1];
        } else {
          assert ids[j] != ids[i - 1];
        }
      }
    }
  }

  /** Relinking the action of statement `i` of a loop of `n` extends the
      linked prefix by one. */
  lemma RelinkStep(orig: map<string, Action>, m: map<string, Action>, ids: seq<string>, i: nat, n: nat)
    requires Consistent(orig) && Distinct(ids) && i < |ids| <= n
    requires LinkedUpTo(orig, m, ids, i, n)
    ensures ids[i] in m && (i > 0 ==> ids[i - 1] in m)
    ensures var r := Relink(m, ids[i], if i == 0 then None else Some(ids[i - 1]), i == n - 1);
      r.1.None? && LinkedUpTo(orig, r.0, ids, i + 1, n)
  {
    RelinkFacts(orig, m, ids, i, n);
    RelinkKeepsOthers(orig, m, ids, i, n);
    RelinkPairs(orig, m, ids, i, n);
    RelinkEnds(orig, m, ids, i, n);
  }

  /** Relinking keeps the first marker on the first action and gives the
      current one the last marker exactly when it ends the loop. */
  lemma RelinkEnds(orig: map<string, Action>, m: map<string, Action>, ids: seq<string>, i: nat, n: nat)
    requires Consistent(orig) && Distinct(ids) && i < |ids| <= n
    requires LinkedUpTo(orig, m, ids, i, n)
    ensures ids[i] in m && (i > 0 ==> ids[i - 1] in m)
    ensures var r := Relink(m, ids[i], if i == 0 then None else Some(ids[i - 1]), i == n - 1).0;
      && ids[0] in r && r[ids[0]].inputs == [First]
      && ids[i] in r && r[ids[i]].outputs == (if i + 1 == n then [Last] else [])
  {
    RelinkFacts(orig, m, ids, i, n);
    if i > 0 {
      assert ids[0] != ids[i];
      if i > 1 {
        assert ids[0] != ids[i - 1];
      }
    }
  }

  lemma ElemsPrefix(ids: seq<string>, i: nat)
    requires i < |ids|
    ensures Elems(ids[..i + 1]) == Elems(ids[..i]) + {ids[i]}
  {
    assert ids[..i + 1] == ids[..i] + [ids[i]];
  }

  lemma NotFoundYet(ids: seq<string>, i: nat)
    requires Distinct(ids) && i < |ids|
    ensures ids[i] !in Elems(ids[..i])
  {
    assert forall j :: 0 <= j < i ==> ids[..i][j] == ids[j];
  }

  /** On a recoverable loop statement `i` passes its checks. */
  lemma CheckAt(orig: map<string, Action>, m: map<string, Action>, loop: seq<Stmt>, i: nat)
    requires SameActions(orig, m) && Recoverable(orig, loop) && i < |loop|
    ensures CheckCall(m, Elems(IdsOf(loop)[..i]), loop[i]) == Ok(IdsOf(loop)[i])
  {
    NotFoundYet(IdsOf(loop), i);
    assert Matches(m, ParseCall(loop[i]).value) by {
      assert Matches(orig, ParseCall(loop[i]).value);
    }
  }

  /** A statement that passes its checks and relinks without a fault hands
      the walk on to the next one. */
  lemma RecoverLoopStep(m: map<string, Action>, loop: seq<Stmt>, i: nat, found: set<string>,
                        prev: Option<string>, id: string)
    requires i < |loop| && (prev.Some? ==> prev.value in m)
    requires CheckCall(m, found, loop[i]) == Ok(id)
    requires Relink(m, id, prev, i == |loop| - 1).1.None?
    ensures RecoverLoop(m, loop, i, found, prev)
         == RecoverLoop(Relink(m, id, prev, i == |loop| - 1).0, loop, i + 1, found + {id}, Some(id))
  {
  }

  /** On a recoverable loop the walk from statement `i` succeeds and links
      every action named by the loop. */
  lemma {:induction false} RecoverLoopLinks(orig: map<string, Action>, m: map<string, Action>,
                                            loop: seq<Stmt>, i: nat)
    requires Consistent(orig) && Recoverable(orig, loop) && i <= |loop|
    requires LinkedUpTo(orig, m, IdsOf(loop), i, |loop|)
    ensures i > 0 ==> IdsOf(loop)[i - 1] in m
    ensures var r := RecoverLoop(m, loop, i, Elems(IdsOf(loop)[..i]),
                                 if i == 0 then None else Some(IdsOf(loop)[i - 1]));
      r.error.None? && LinkedUpTo(orig, r.actions, IdsOf(loop), |loop|, |loop|)
    decreases |loop| - i
  {
    var ids := IdsOf(loop);
    if i > 0 {
      assert ids[i - 1] in orig;
    }
    if i < |loop| {
      var prev: Option<string> := if i == 0 then None else Some(ids[i - 1]);
      CheckAt(orig, m, loop, i);
      RelinkStep(orig, m, ids, i, |loop|);
      RecoverLoopStep(m, loop, i, Elems(ids[..i]), prev, ids[i]);
      ElemsPrefix(ids, i);
      RecoverLoopLinks(orig, Relink(m, ids[i], prev, i == |loop| - 1).0, loop, i + 1);
    }
  }

  /** Every statement from `i` on names a matching action not in `found`,
      each a different one. */
  ghost predicate SoundFrom(orig: map<string, Action>, loop: seq<Stmt>, i: nat, found: set<string>)
  {
    && (forall j :: i <= j < |loop| ==>
          ParseCall(loop[j]).Ok? && Matches(orig, ParseCall(loop[j]).value) && IdOf(loop[j]) !in found)
    && (forall j, k :: i <= j < k < |loop| ==> IdOf(loop[j]) != IdOf(loop[k]))
  }

  /** The walk from statement `i` succeeds only when every later statement
      names a matching action not met before, each a different one. */
  lemma {:induction false} RecoverLoopSound(orig: map<string, Action>, m: map<string, Action>,
                                            loop: seq<Stmt>, i: nat, found: set<string>, prev: Option<string>)
    requires SameActions(orig, m) && i <= |loop|
    requires prev.Some? ==> prev.value in m
    requires RecoverLoop(m, loop, i, found, prev).error.None?
    ensures SoundFrom(orig, loop, i, found)
    decreases |loop| - i
  {
    if i < |loop| {
      var c := CheckCall(m, found, loop[i]);
      assert c.Ok?;
      var id := c.value;
      CheckCallOk(orig, m, found, loop[i]);
      var (m', err) := Relink(m, id, prev, i == |loop| - 1);
      assert err.None?;
      RecoverLoopStep(m, loop, i, found, prev, id);
      RecoverLoopSound(orig, m', loop, i + 1, found + {id}, Some(id));
      SoundEarlier(orig, loop, i, found, id);
    }
  }

  /** A statement naming a fresh matching action extends soundness one
      statement back. */
  lemma SoundEarlier(orig: map<string, Action>, loop: seq<Stmt>, i: nat, found: set<string>, id: string)
    requires i < |loop| && ParseCall(loop[i]).Ok? && Matches(orig, ParseCall(loop[i]).value)
    requires IdOf(loop[i]) == id && id !in found
    requires SoundFrom(orig, loop, i + 1, found + {id})
    ensures SoundFrom(orig, loop, i, found)
  {
    assert forall k :: i < k < |loop| ==> IdOf(loop[k]) != IdOf(loop[i]);
  }

  /** A statement that passes its checks against relinked actions passes
      them against the original ones. */
  lemma CheckCallOk(orig: map<string, Action>, m: map<string, Action>, found: set<string>, s: Stmt)
    requires SameActions(orig, m) && CheckCall(m, found, s).Ok?
    ensures ParseCall(s).Ok? && Matches(orig, ParseCall(s).value)
    ensures IdOf(s) !in found && CheckCall(m, found, s).value == IdOf(s)
  {
    CheckCallSame(orig, m, found, s);
  }

  /** Recovery succeeds exactly when the script has a main loop and the
      loop is recoverable against the cache. */
  lemma RecoverSucceedsIff(tree: Module, actions: map<string, Action>)
    requires Consistent(actions)
    ensures GetLogicFromSource(tree, actions).error.None? <==>
      MainLoopBody(tree).Ok? && Recoverable(actions, MainLoopBody(tree).value)
  {
    if MainLoopBody(tree).Ok? && Recoverable(actions, MainLoopBody(tree).value) {
      RecoverRelinks(tree, actions);
    }
    if GetLogicFromSource(tree, actions).error.None? {
      RecoverOnlyIfRecoverable(tree, actions);
    }
  }

  /** A recovery without error had a main loop that is recoverable. */
  lemma RecoverOnlyIfRecoverable(tree: Module, actions: map<string, Action>)
    requires GetLogicFromSource(tree, actions).error.None?
    ensures MainLoopBody(tree).Ok? && Recoverable(actions, MainLoopBody(tree).value)
  {
    var loop := MainLoopBody(tree).value;
    RecoverLoopSound(actions, actions, loop, 0, {}, None);
    assert forall j :: 0 <= j < |loop| ==> IdsOf(loop)[j] == IdOf(loop[j]);
  }

  /** Every action named by `ids` is linked to its neighbours in `ids`, with
      the first and last markers at the ends, and every other action is as
      in `orig`. */
  ghost predicate FullyLinked(orig: map<string, Action>, m: map<string, Action>, ids: seq<string>)
  {
    && SameActions(orig, m)
    && (forall j :: 0 <= j < |ids| ==> ids[j] in orig)
    && (forall k :: k in orig && k !in ids ==> m[k] == orig[k])
    && (|ids| >= 1 ==> m[ids[0]].inputs == [First] && m[ids[|ids| - 1]].outputs == [Last])
    && PairsLinked(m, ids, |ids|)
  }

  /** After a successful recovery of n statements the action of statement
      0 has the first marker as input, the action of statement i > 0 has
      the previous one's, each action's single output is the next one's or,
      for the last statement, the last marker; actions the loop does not
      name are unchanged. */
  lemma RecoverRelinks(tree: Module, actions: map<string, Action>)
    requires Consistent(actions)
    requires MainLoopBody(tree).Ok? && Recoverable(actions, MainLoopBody(tree).value)
    ensures GetLogicFromSource(tree, actions).error.None?
    ensures FullyLinked(actions, GetLogicFromSource(tree, actions).actions, IdsOf(MainLoopBody(tree).value))
  {
    var loop := MainLoopBody(tree).value;
    var ids := IdsOf(loop);
    assert ids[..0] == [];
    assert Elems([]) == {};
    RecoverLoopLinks(actions, actions, loop, 0);
    LinkedUpToAll(actions, GetLogicFromSource(tree, actions).actions, ids);
  }

  /** A prefix that covers the whole loop is the fully linked cache. */
  lemma LinkedUpToAll(orig: map<string, Action>, m: map<string, Action>, ids: seq<string>)
    requires LinkedUpTo(orig, m, ids, |ids|, |ids|)
    ensures FullyLinked(orig, m, ids)
  {
    assert ids[..|ids|] == ids;
  }

  /** The checks read only the ids and the types of the actions, which
      relinking never changes. */
  lemma CheckCallSame(orig: map<string, Action>, m: map<string, Action>, found: set<string>, s: Stmt)
    requires SameActions(orig, m)
    ensures CheckCall(m, found, s) == CheckCall(orig, found, s)
  {
    if ParseCall(s).Ok? && IdOf(s) in orig {
      assert m[IdOf(s)].actionType == orig[IdOf(s)].actionType;
    }
  }

  /** The walk stops at the first statement that fails its checks, with
      that statement's error, after relinking the statements before it. */
  /** Statement `bad` is the first of the loop to fail its checks: the
      ones before it parse, match and name different actions. */
  ghost predicate FailsAt(orig: map<string, Action>, loop: seq<Stmt>, bad: nat)
  {
    && bad < |loop|
    && Distinct(IdsOf(loop)[..bad])
    && (forall j :: 0 <= j < bad ==> ParseCall(loop[j]).Ok? && Matches(orig, ParseCall(loop[j]).value))
    && CheckCall(orig, Elems(IdsOf(loop)[..bad]), loop[bad]).Err?
  }

  /** The walk reaching the failing statement stops there with its error. */
  lemma StopAt(orig: map<string, Action>, m: map<string, Action>, loop: seq<Stmt>, bad: nat)
    requires Consistent(orig) && FailsAt(orig, loop, bad)
    requires LinkedUpTo(orig, m, IdsOf(loop)[..bad], bad, |loop|)
    ensures bad > 0 ==> IdsOf(loop)[bad - 1] in m
    ensures var r := RecoverLoop(m, loop, bad, Elems(IdsOf(loop)[..bad]),
                                 if bad == 0 then None else Some(IdsOf(loop)[bad - 1]));
      && r.error == Some(CheckCall(orig, Elems(IdsOf(loop)[..bad]), loop[bad]).error)
      && r.actions == m
  {
    var ids := IdsOf(loop);
    var pre := ids[..bad];
    if bad > 0 {
      assert pre[bad - 1] == ids[bad - 1];
      assert pre[bad - 1] in orig;
    }
    CheckCallSame(orig, m, Elems(pre), loop[bad]);
  }

  /** Recovery of a script reports the first loop statement that fails its
      checks, with that statement's error, and leaves the actions of the
      statements before it relinked as far as the walk got. */
  lemma RecoverFirstFailure(tree: Module, actions: map<string, Action>, bad: nat)
    requires Consistent(actions) && MainLoopBody(tree).Ok? && FailsAt(actions, MainLoopBody(tree).value, bad)
    ensures var loop := MainLoopBody(tree).value;
      var r := GetLogicFromSource(tree, actions);
      && r.error == Some(CheckCall(actions, Elems(IdsOf(loop)[..bad]), loop[bad]).error)
      && LinkedUpTo(actions, r.actions, IdsOf(loop)[..bad], bad, |loop|)
  {
    var loop := MainLoopBody(tree).value;
    var m := WalkToFailure(actions, loop, bad);
    StopAt(actions, m, loop, bad);
    assert Prev(IdsOf(loop), bad) == if bad == 0 then None else Some(IdsOf(loop)[bad - 1]);
  }

  /** The previous statement's id, if any, as the walk carries it. */
  function Prev(ids: seq<string>, i: nat): (r: Option<string>)
    requires i <= |ids|
    ensures r.Some? <==> i > 0
    ensures r.Some? ==> r.value == ids[i - 1]
  {
    if i == 0 then None else Some(ids[i - 1])
  }

  /** The walk over a loop failing at `bad` has passed its first `i`
      statements: the cache `m` has them relinked, and going on from
      statement `i` with `m` ends where the walk from the start ends. */
  ghost predicate WalkedTo(orig: map<string, Action>, m: map<string, Action>, loop: seq<Stmt>, bad: nat, i: nat)
  {
    && i <= bad < |loop|
    && LinkedUpTo(orig, m, IdsOf(loop)[..bad], i, |loop|)
    && (i > 0 ==> IdsOf(loop)[i - 1] in m)
    && RecoverLoop(orig, loop, 0, {}, None) == RecoverLoop(m, loop, i, Elems(IdsOf(loop)[..i]), Prev(IdsOf(loop), i))
  }

  /** A statement before the failing one passes its checks and is relinked. */
  lemma PassBefore(orig: map<string, Action>, m: map<string, Action>, loop: seq<Stmt>, i: nat, bad: nat)
    returns (m': map<string, Action>)
    requires Consistent(orig) && i < bad && FailsAt(orig, loop, bad)
    requires WalkedTo(orig, m, loop, bad, i)
    ensures WalkedTo(orig, m', loop, bad, i + 1)
  {
    var ids := IdsOf(loop);
    PassBeforeCheck(orig, m, loop, i, bad);
    RelinkInPrefix(orig, m, ids, bad, i);
    PassBeforeRecover(m, loop, i);
    m' := Relink(m, ids[i], Prev(ids, i), i == |loop| - 1).0;
  }

  /** Relinking entry `i` of a list whose first `bad` entries are distinct
      extends the relinked prefix by that entry. */
  lemma RelinkInPrefix(orig: map<string, Action>, m: map<string, Action>, ids: seq<string>, bad: nat, i: nat)
    ensures (&& Consistent(orig) && i < bad <= |ids| && Distinct(ids[..bad])
             && LinkedUpTo(orig, m, ids[..bad], i, |ids|)) ==>
      && ids[i] in m && (i > 0 ==> ids[i - 1] in m)
      && Relink(m, ids[i], Prev(ids, i), i == |ids| - 1).1.None?
      && LinkedUpTo(orig, Relink(m, ids[i], Prev(ids, i), i == |ids| - 1).0, ids[..bad], i + 1, |ids|)
  {
    if && Consistent(orig) && i < bad <= |ids| && Distinct(ids[..bad])
       && LinkedUpTo(orig, m, ids[..bad], i, |ids|) {
      var pre := ids[..bad];
      assert pre[i] == ids[i];
      assert i > 0 ==> pre[i - 1] == ids[i - 1];
      assert Prev(ids, i) == if i == 0 then None else Some(pre[i - 1]);
      RelinkStep(orig, m, pre, i, |ids|);
    }
  }

  /** Passing statement `i` continues the walk from statement `i + 1`. */
  lemma PassBeforeRecover(m: map<string, Action>, loop: seq<Stmt>, i: nat)
    requires i < |loop| && (i > 0 ==> IdsOf(loop)[i - 1] in m)
    requires CheckCall(m, Elems(IdsOf(loop)[..i]), loop[i]) == Ok(IdsOf(loop)[i])
    requires Relink(m, IdsOf(loop)[i], Prev(IdsOf(loop), i), i == |loop| - 1).1.None?
    ensures RecoverLoop(m, loop, i, Elems(IdsOf(loop)[..i]), Prev(IdsOf(loop), i))
         == RecoverLoop(Relink(m, IdsOf(loop)[i], Prev(IdsOf(loop), i), i == |loop| - 1).0,
                        loop, i + 1, Elems(IdsOf(loop)[..i + 1]), Prev(IdsOf(loop), i + 1))
  {
    var ids := IdsOf(loop);
    RecoverLoopStep(m, loop, i, Elems(ids[..i]), Prev(ids, i), ids[i]);
    ElemsPrefix(ids, i);
  }

  /** A statement before the failing one passes the checks with its own id,
      which the walk has not met before. */
  lemma PassBeforeCheck(orig: map<string, Action>, m: map<string, Action>, loop: seq<Stmt>, i: nat, bad: nat)
    requires i < bad && FailsAt(orig, loop, bad) && SameActions(orig, m)
    ensures CheckCall(m, Elems(IdsOf(loop)[..i]), loop[i]) == Ok(IdsOf(loop)[i])
  {
    var ids := IdsOf(loop);
    UnseenBefore(ids, bad, i);
    assert ParseCall(loop[i]).Ok? && Matches(orig, ParseCall(loop[i]).value);
    CheckCallSame(orig, m, Elems(ids[..i]), loop[i]);
  }

  /** In a list whose first `bad` entries are distinct, entry `i < bad` is
      not among the ones before it. */
  lemma UnseenBefore(ids: seq<string>, bad: nat, i: nat)
    requires i < bad <= |ids| && Distinct(ids[..bad])
    ensures ids[i] !in Elems(ids[..i])
  {
    NotFoundYet(ids[..bad], i);
    assert ids[..bad][..i] == ids[..i];
  }

  /** The walk passes every statement before the failing one, relinking
      their actions as it goes. */
  lemma WalkToFailure(orig: map<string, Action>, loop: seq<Stmt>, bad: nat) returns (m: map<string, Action>)
    requires Consistent(orig) && FailsAt(orig, loop, bad)
    ensures WalkedTo(orig, m, loop, bad, bad)
  {
    WalkStart(orig, loop, bad);
    var i := 0;
    m := orig;
    while i < bad
      invariant WalkedTo(orig, m, loop, bad, i)
    {
      m := PassBefore(orig, m, loop, i, bad);
      i := i + 1;
    }
  }

  /** Before the first statement the walk has passed nothing. */
  lemma WalkStart(orig: map<string, Action>, loop: seq<Stmt>, bad: nat)
    requires Consistent(orig) && FailsAt(orig, loop, bad)
    ensures WalkedTo(orig, orig, loop, bad, 0)
  {
    var ids := IdsOf(loop);
    var pre := ids[..bad];
    forall j | 0 <= j < |pre| ensures pre[j] in orig {
      assert pre[j] == IdOf(loop[j]);
    }
    assert LinkedUpTo(orig, orig, pre, 0, |loop|);
    assert ids[..0] == [];
    assert Elems(ids[..0]) == {};
  }
}
