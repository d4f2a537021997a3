/** The program graph: actions linked by their first input and output, and
    the scene's object instances. */
module Graph {
  import opened Base

  /** A link endpoint: another action's id, or one of the two sentinels. */
  datatype ActionIO = First | Last | Ref(id: string)

  /** `actionType` is `"<object-id>/<method-name>"`. */
  datatype Action = Action(id: string, actionType: string, inputs: seq<ActionIO>, outputs: seq<ActionIO>)

  /** What `get_actions_cache` yields for a project: actions by id, and the
      ids of the actions marked first and last, when there are such. */
  datatype ActionsCache = ActionsCache(actions: map<string, Action>, first: Option<string>, last: Option<string>)

  /** Every action is filed under its own id. */
  predicate Consistent(actions: map<string, Action>)
  {
    forall k :: k in actions ==> actions[k].id == k
  }

  datatype SceneObject = SceneObject(id: string, objType: string)

  datatype Scene = Scene(objects: seq<SceneObject>)

  predicate Distinct<T(==)>(s: seq<T>)
  {
    forall i, j :: 0 <= i < j < |s| ==> s[i] != s[j]
  }

  /** A duplicate-free sequence drawn from a set is no longer than the set. */
  lemma {:induction false} DistinctBound<T>(s: seq<T>, keys: set<T>)
    requires Distinct(s)
    requires forall i :: 0 <= i < |s| ==> s[i] in keys
    ensures |s| <= |keys|
  {
    if |s| > 0 {
      var x := s[|s| - 1];
      var t := s[..|s| - 1];
      assert forall i :: 0 <= i < |t| ==> t[i] != x;
      DistinctBound(t, keys - {x});
    }
  }
}
