/** Emitting the action chain into a script and recovering it again. */
module RoundTrip {
  import opened Base
  import opened Ast
  import opened Graph
  import Names
  import opened Emitter
  import opened Recoverer

  /** The object part of an action's type has no space, so the emitter's
      variable name is the plain case conversion the recoverer expects. */
  predicate PlainObject(act: Action)
  {
    match Names.SplitPair(act.actionType, '/')
    case Some((o, _)) => ' ' !in o
    case None => true
  }

  /** The actions cache holds a chain the emitter can write and the
      recoverer can read back. */
  ghost predicate ChainReady(ac: ActionsCache, chain: seq<string>)
  {
    && ac.first.Some? && ac.last.Some?
    && IsChain(ac.actions, chain, ac.first.value, ac.last.value)
    && Consistent(ac.actions)
    && forall i :: 0 <= i < |chain| ==> PlainObject(ac.actions[chain[i]])
  }

  /** The statement emitted for an action is read back as that action. */
  lemma ReadBackCall(actions: map<string, Action>, id: string)
    requires id in actions && actions[id].id == id && PlainObject(actions[id])
    requires Names.SplitPair(actions[id].actionType, '/').Some?
    ensures ParseCall(CallOf(actions[id])).Ok?
    ensures IdOf(CallOf(actions[id])) == id
    ensures Matches(actions, ParseCall(CallOf(actions[id])).value)
  {
    var (o, m) := Names.SplitPair(actions[id].actionType, '/').value;
    ParseActionCall(FixObjectName(o), m, id);
    FixObjectNameNoSpace(o);
  }

  /** The calls emitted for a chain of distinct, self-keyed actions form a
      recoverable loop that names exactly the chain. */
  lemma CallsRecoverable(actions: map<string, Action>, chain: seq<string>)
    requires Callable(actions, chain) && Distinct(chain)
    requires forall i :: 0 <= i < |chain| ==>
      chain[i] in actions && actions[chain[i]].id == chain[i] && PlainObject(actions[chain[i]])
    ensures IdsOf(Calls(actions, chain)) == chain
    ensures Recoverable(actions, Calls(actions, chain))
  {
    var loop := Calls(actions, chain);
    forall i | 0 <= i < |chain|
      ensures ParseCall(loop[i]).Ok? && Matches(actions, ParseCall(loop[i]).value) && IdOf(loop[i]) == chain[i]
    {
      assert loop[i] == CallOf(actions[chain[i]]);
      ReadBackCall(actions, chain[i]);
    }
    assert IdsOf(loop) == chain;
  }

  /** Emitting a well-formed chain into a loop that holds nothing but the
      placeholder, and recovering from the result, succeeds and relinks
      the chain's actions in chain order: the first has the first marker
      as input, each links to its neighbours, the last has the last marker
      as output, and all other actions are untouched. */
  lemma EmitThenRecover(tree: Module, ac: ActionsCache, chain: seq<string>)
    requires LoopLocation(tree).Ok? && DropPass(LoopBodyAt(tree, LoopLocation(tree).value)) == []
    requires ChainReady(ac, chain)
    ensures AddLogicToLoop(tree, ac).Ok?
    ensures var r := GetLogicFromSource(AddLogicToLoop(tree, ac).value, ac.actions);
      r.error.None? && FullyLinked(ac.actions, r.actions, chain)
  {
    AddLogicToLoopChain(tree, ac, chain);
    var t := AddLogicToLoop(tree, ac).value;
    assert MainLoopBody(t) == Ok(Calls(ac.actions, chain));
    CallsRecoverable(ac.actions, chain);
    RecoverRelinks(t, ac.actions);
  }

  /** The recovered links are the chain's own: relinking a chain's actions
      along the chain gives every action but the last the output it already
      had first, as its only output. */
  lemma ChainLinksKept(actions: map<string, Action>, m: map<string, Action>, chain: seq<string>,
                       first: string, last: string)
    requires FullyLinked(actions, m, chain) && IsChain(actions, chain, first, last)
    ensures forall i, j {:trigger chain[i], chain[j]} :: 0 <= i < j < |chain| && j == i + 1 ==>
      && LinksTo(actions[chain[i]], chain[j])
      && chain[i] in m && m[chain[i]].outputs == [actions[chain[i]].outputs[0]]
  {
    forall i, j {:trigger chain[i], chain[j]} | 0 <= i < j < |chain| && j == i + 1
      ensures LinksTo(actions[chain[i]], chain[j])
      ensures chain[i] in m && m[chain[i]].outputs == [actions[chain[i]].outputs[0]]
    {
      assert LinksTo(actions[chain[i]], chain[j]);
      assert m[chain[i]].outputs == [Ref(chain[j])];
    }
  }

  /** The script skeleton's loop holds only the placeholder, so emitting a
      chain into it and recovering gives back the chain's links. */
  lemma EmptyScriptRoundTrip(ac: ActionsCache, chain: seq<string>)
    requires ChainReady(ac, chain)
    ensures AddLogicToLoop(EmptyScriptTree(), ac).Ok?
    ensures var r := GetLogicFromSource(AddLogicToLoop(EmptyScriptTree(), ac).value, ac.actions);
      r.error.None? && FullyLinked(ac.actions, r.actions, chain)
  {
    var t := EmptyScriptTree();
    assert LoopBodyAt(t, LoopLocation(t).value) == [Pass];
    EmitThenRecover(t, ac, chain);
  }
}
