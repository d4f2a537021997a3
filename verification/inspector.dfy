/** The object-type inspector: the class definition of an object type's
    source, its base and description, and its catalog of actions. */
module Inspector {
  import opened Base
  import opened Ast

  // ---------------------------------------------------------------------
  // object_cls_def

  /** Number of class definitions among the top-level statements. */
  function ClassCount(body: seq<Stmt>): (r: nat)
    ensures r == 0 <==> forall i :: 0 <= i < |body| ==> !body[i].ClassDef?
    ensures r <= |body|
  {
    if |body| == 0 then 0
    else (if body[0].ClassDef? then 1 else 0) + ClassCount(body[1..])
  }

  /** Index of the first top-level class definition. */
  function FirstClass(body: seq<Stmt>): (r: Option<nat>)
    ensures r.None? <==> forall i :: 0 <= i < |body| ==> !body[i].ClassDef?
    ensures r.Some? ==> r.value < |body| && body[r.value].ClassDef?
    ensures r.Some? ==> forall j :: 0 <= j < r.value ==> !body[j].ClassDef?
  {
    if |body| == 0 then None
    else if body[0].ClassDef? then Some(0)
    else match FirstClass(body[1..])
      case None => None
      case Some(i) => Some(i + 1)
  }

  /** `object_cls_def` as the source has it: the scan stops at the first
      class definition, so a second one is never reported. */
  function ObjectClsDefAsWritten(tree: Module): (r: Result<Stmt>)
    ensures r.Err? <==> ClassCount(tree.body) == 0
    ensures r.Err? ==> r.error == GenerateSourceError("No class definition!")
    ensures r.Ok? ==> exists i :: (0 <= i < |tree.body| && tree.body[i] == r.value && r.value.ClassDef?
      && forall j :: 0 <= j < i ==> !tree.body[j].ClassDef?)
  {
    match FirstClass(tree.body)
    case Some(i) => Ok(tree.body[i])
    case None => Err(GenerateSourceError("No class definition!"))
  }

  /** The "Multiple class definition!" error of the source can never be
      raised: a source with two classes yields the first one, where the
      intended version refuses it. */
  lemma TwoClassesAcceptedAsWritten(tree: Module, i: nat, j: nat)
    requires i < j < |tree.body| && tree.body[i].ClassDef? && tree.body[j].ClassDef?
    requires forall k :: 0 <= k < i ==> !tree.body[k].ClassDef?
    ensures ObjectClsDefAsWritten(tree) == Ok(tree.body[i])
    ensures ObjectClsDef(tree) == Err(GenerateSourceError("Multiple class definition!"))
  {
    TwoClassesCount(tree.body, i, j);
  }

  /** `object_cls_def` as intended: exactly one class definition, reported
      as missing when there is none and as repeated when there are more. */
  function ObjectClsDef(tree: Module): (r: Result<Stmt>)
    ensures ClassCount(tree.body) == 0 ==> r == Err(GenerateSourceError("No class definition!"))
    ensures ClassCount(tree.body) >= 2 ==> r == Err(GenerateSourceError("Multiple class definition!"))
    ensures r.Ok? <==> ClassCount(tree.body) == 1
    ensures r.Ok? ==> r.value.ClassDef? && r.value in tree.body
  {
    var n := ClassCount(tree.body);
    if n == 0 then Err(GenerateSourceError("No class definition!"))
    else if n >= 2 then Err(GenerateSourceError("Multiple class definition!"))
    else
      var i := FirstClass(tree.body).value;
      Ok(tree.body[i])
  }

  /** On sources with at most one class the two versions agree. */
  lemma ObjectClsDefAgrees(tree: Module)
    requires ClassCount(tree.body) <= 1
    ensures ObjectClsDef(tree) == ObjectClsDefAsWritten(tree)
  {
    if ClassCount(tree.body) == 1 {
      assert FirstClass(tree.body).Some?;
    }
  }

  /** The one class of a source with one class is its only class definition. */
  lemma {:induction false} SingleClassUnique(body: seq<Stmt>, i: nat, j: nat)
    requires ClassCount(body) == 1 && i < |body| && j < |body|
    requires body[i].ClassDef? && body[j].ClassDef?
    ensures i == j
  {
    if i != j {
      var lo := if i < j then i else j;
      var hi := if i < j then j else i;
      TwoClassesCount(body, lo, hi);
    }
  }

  lemma {:induction false} TwoClassesCount(body: seq<Stmt>, i: nat, j: nat)
    requires i < j < |body| && body[i].ClassDef? && body[j].ClassDef?
    ensures ClassCount(body) >= 2
  {
    if i == 0 {
      assert body[1..][j - 1].ClassDef?;
      assert ClassCount(body[1..]) != 0;
    } else {
      TwoClassesCount(body[1..], i - 1, j - 1);
    }
  }

  // ---------------------------------------------------------------------
  // object_type_info

  datatype ObjectType = ObjectType(name: string, base: Option<string>, description: Option<string>)

  /** `__DESCRIPTION__ = ...` */
  predicate IsDescription(s: Stmt)
  {
    s.Assign? && |s.targets| == 1 && s.targets[0] == Name("__DESCRIPTION__")
  }

  /** Index of the last statement that satisfies `p`. */
  function LastWhere(body: seq<Stmt>, p: Stmt -> bool): (r: Option<nat>)
    ensures r.None? <==> forall j :: 0 <= j < |body| ==> !p(body[j])
    ensures r.Some? ==> r.value < |body| && p(body[r.value])
    ensures r.Some? ==> forall j :: r.value < j < |body| ==> !p(body[j])
  {
    if |body| == 0 then None
    else if p(body[|body| - 1]) then Some(|body| - 1)
    else LastWhere(body[..|body| - 1], p)
  }

  /** The last match in a list is the tail's last match, shifted, when the
      tail has one, and otherwise the head, if it matches. */
  lemma {:induction false} LastWhereTail(body: seq<Stmt>, p: Stmt -> bool)
    requires |body| > 0
    ensures LastWhere(body, p) ==
      match LastWhere(body[1..], p)
      case Some(i) => Some(i + 1)
      case None => if p(body[0]) then Some(0) else None
  {
    var l := LastWhere(body[1..], p);
    if l.Some? {
      LastWhereTailSome(body, p, l.value);
    } else {
      LastWhereTailNone(body, p);
    }
  }

  lemma LastWhereTailSome(body: seq<Stmt>, p: Stmt -> bool, i: nat)
    requires |body| > 0 && LastWhere(body[1..], p) == Some(i)
    ensures LastWhere(body, p) == Some(i + 1)
  {
    assert body[i + 1] == body[1..][i];
    forall j | i + 1 < j < |body| ensures !p(body[j]) {
      assert body[j] == body[1..][j - 1];
    }
    LastWhereUnique(body, p, Some(i + 1));
  }

  lemma LastWhereTailNone(body: seq<Stmt>, p: Stmt -> bool)
    requires |body| > 0 && LastWhere(body[1..], p).None?
    ensures LastWhere(body, p) == if p(body[0]) then Some(0) else None
  {
    forall j | 1 <= j < |body| ensures !p(body[j]) {
      assert body[j] == body[1..][j - 1];
    }
    LastWhereUnique(body, p, if p(body[0]) then Some(0) else None);
  }

  /** The last match is the only index that is a match with none after it. */
  lemma LastWhereUnique(body: seq<Stmt>, p: Stmt -> bool, k: Option<nat>)
    requires k.None? ==> forall j :: 0 <= j < |body| ==> !p(body[j])
    requires k.Some? ==> k.value < |body| && p(body[k.value])
    requires k.Some? ==> forall j :: k.value < j < |body| ==> !p(body[j])
    ensures LastWhere(body, p) == k
  {
  }

  /** The scan of the class body for the description: each description
      assignment replaces the one before, and its value is read through
      `.s`, which only a string literal has. */
  function Description(body: seq<Stmt>, cur: Option<string>): (r: Result<Option<string>>)
    ensures r.Ok? <==> forall j :: 0 <= j < |body| && IsDescription(body[j]) ==> body[j].value.Str?
    ensures r.Err? ==> r.error == Fault("AttributeError")
  {
    if |body| == 0 then Ok(cur)
    else if IsDescription(body[0]) then
      if body[0].value.Str? then Description(body[1..], Some(body[0].value.s))
      else Err(Fault("AttributeError"))
    else Description(body[1..], cur)
  }

  /** The scan yields the string of the last description assignment, or
      what it started with when there is none. */
  lemma {:induction false} DescriptionIsLast(body: seq<Stmt>, cur: Option<string>)
    requires Description(body, cur).Ok?
    ensures Description(body, cur).value ==
      match LastWhere(body, IsDescription)
      case None => cur
      case Some(i) => Some(body[i].value.s)
  {
    if |body| > 0 {
      var next := if IsDescription(body[0]) then Some(body[0].value.s) else cur;
      DescriptionIsLast(body[1..], next);
      LastWhereTail(body, IsDescription);
    }
  }

  /** A class whose bases `object_type_info` can read: at most one, and
      that one a plain name, since its `.id` is read. */
  predicate ReadableBases(cls: Stmt)
    requires cls.ClassDef?
  {
    |cls.bases| <= 1 && (|cls.bases| == 1 ==> cls.bases[0].Name?)
  }

  /** `object_type_info`: the name of the first class of the source (as
      `object_cls_def` finds it), its single base, if any, read through
      `.id`, and the description. */
  function ObjectTypeInfo(tree: Module): (r: Result<ObjectType>)
    ensures ObjectClsDefAsWritten(tree).Err? ==> r == Err(ObjectClsDefAsWritten(tree).error)
    ensures r.Ok? <==>
      && ObjectClsDefAsWritten(tree).Ok?
      && ReadableBases(ObjectClsDefAsWritten(tree).value)
      && forall j :: 0 <= j < |ObjectClsDefAsWritten(tree).value.body| ==>
           (IsDescription(ObjectClsDefAsWritten(tree).value.body[j]) ==>
              ObjectClsDefAsWritten(tree).value.body[j].value.Str?)
    ensures ObjectClsDefAsWritten(tree).Ok? && |ObjectClsDefAsWritten(tree).value.bases| > 1 ==>
      r == Err(GenerateSourceError("Only one base class is supported!"))
    ensures ObjectClsDefAsWritten(tree).Ok? && |ObjectClsDefAsWritten(tree).value.bases| <= 1 && r.Err? ==>
      r.error == Fault("AttributeError")
    ensures r.Ok? ==>
      var cls := ObjectClsDefAsWritten(tree).value;
      && r.value.name == cls.name
      && (|cls.bases| == 0 ==> r.value.base.None?)
      && (|cls.bases| == 1 ==> r.value.base == Some(cls.bases[0].id))
      && r.value.description == Description(cls.body, None).value
  {
    var cls :- ObjectClsDefAsWritten(tree);
    if |cls.bases| > 1 then Err(GenerateSourceError("Only one base class is supported!"))
    else if |cls.bases| == 1 && !cls.bases[0].Name? then Err(Fault("AttributeError"))
    else
      var desc :- Description(cls.body, None);
      Ok(ObjectType(cls.name, if |cls.bases| == 1 then Some(cls.bases[0].id) else None, desc))
  }

  // ---------------------------------------------------------------------
  // get_object_actions

  /** A metadata field holds whatever `.value` of the keyword's value is:
      the constant of `True`/`False`/`None`, or the inner expression of an
      attribute or subscript. */
  datatype MetaVal = Flag(c: ConstVal) | Node(e: Expr)

  /** The capability flags; `None` is a flag left at its default. */
  datatype ActionMeta = ActionMeta(free: Option<MetaVal>, blocking: Option<MetaVal>,
                                   composite: Option<MetaVal>, blackbox: Option<MetaVal>)

  const NoMeta := ActionMeta(None, None, None, None)

  datatype ActionArg = ActionArg(name: string, argType: string)

  datatype ObjectAction = ObjectAction(name: string, meta: ActionMeta, args: seq<ActionArg>)

  /** `e.value`, for the expressions that have such an attribute. */
  function ValueAttr(e: Expr): Option<MetaVal>
  {
    match e
    case Constant(c) => Some(Flag(c))
    case Attribute(v, _) => Some(Node(v))
    case Subscript(v, _) => Some(Node(v))
    case _ => None
  }

  predicate KnownFlag(name: string)
  {
    name == "free" || name == "blocking" || name == "composite" || name == "blackbox"
  }

  /** Setting one flag. */
  function SetFlag(meta: ActionMeta, name: string, v: MetaVal): (r: ActionMeta)
    requires KnownFlag(name)
    ensures FlagOf(r, name) == Some(v)
    ensures forall o :: KnownFlag(o) && o != name ==> FlagOf(r, o) == FlagOf(meta, o)
  {
    match name
    case "free" => meta.(free := Some(v))
    case "blocking" => meta.(blocking := Some(v))
    case "composite" => meta.(composite := Some(v))
    case _ => meta.(blackbox := Some(v))
  }

  /** The flag a metadata record holds under a name. */
  function FlagOf(meta: ActionMeta, name: string): Option<MetaVal>
    requires KnownFlag(name)
  {
    match name
    case "free" => meta.free
    case "blocking" => meta.blocking
    case "composite" => meta.composite
    case _ => meta.blackbox
  }

  function ArgText(arg: Option<string>): string
  {
    match arg
    case Some(a) => a
    case None => "None"
  }

  /** `setattr(meta, kw.arg, kw.value.value)` for each keyword in turn: a
      value without `.value`, or an unknown flag, is reported as an unknown
      attribute; a `**` keyword has no name, which `setattr` refuses. */
  function ApplyKeywords(meta: ActionMeta, kws: seq<Keyword>): (r: Result<ActionMeta>)
    ensures r.Ok? <==> forall i :: 0 <= i < |kws| ==>
      ValueAttr(kws[i].value).Some? && kws[i].arg.Some? && KnownFlag(kws[i].arg.value)
    decreases |kws|
  {
    if |kws| == 0 then Ok(meta)
    else
      var kw := kws[0];
      match ValueAttr(kw.value)
      case None => Err(GenerateSourceError("Unknown __action__ attribute " + ArgText(kw.arg) + "."))
      case Some(v) =>
        match kw.arg
        case None => Err(Fault("TypeError"))
        case Some(a) =>
          if !KnownFlag(a) then Err(GenerateSourceError("Unknown __action__ attribute " + a + "."))
          else ApplyKeywords(SetFlag(meta, a, v), kws[1..])
  }

  /** A keyword `setattr` accepts: a known flag with a readable value. */
  predicate GoodKeyword(kw: Keyword)
  {
    ValueAttr(kw.value).Some? && kw.arg.Some? && KnownFlag(kw.arg.value)
  }

  /** What a bad keyword raises: `setattr` with no name is a `TypeError`;
      everything else is an unknown attribute. */
  function KeywordError(kw: Keyword): Error
  {
    if ValueAttr(kw.value).Some? && kw.arg.None? then Fault("TypeError")
    else GenerateSourceError("Unknown __action__ attribute " + ArgText(kw.arg) + ".")
  }

  /** The keywords are applied in order, so the first bad one is reported. */
  lemma {:induction false} ApplyKeywordsError(meta: ActionMeta, kws: seq<Keyword>, i: nat)
    requires i < |kws| && !GoodKeyword(kws[i])
    requires forall j :: 0 <= j < i ==> GoodKeyword(kws[j])
    ensures ApplyKeywords(meta, kws) == Err(KeywordError(kws[i]))
    decreases i
  {
    if i > 0 {
      assert GoodKeyword(kws[0]);
      ApplyKeywordsError(SetFlag(meta, kws[0].arg.value, ValueAttr(kws[0].value).value), kws[1..], i - 1);
    }
  }

  /** One keyword of a successful application sets its flag and the rest
      are applied on top. */
  lemma ApplyKeywordsStep(meta: ActionMeta, kws: seq<Keyword>)
    requires ApplyKeywords(meta, kws).Ok? && |kws| > 0
    ensures ValueAttr(kws[0].value).Some? && kws[0].arg.Some? && KnownFlag(kws[0].arg.value)
    ensures ApplyKeywords(meta, kws)
         == ApplyKeywords(SetFlag(meta, kws[0].arg.value, ValueAttr(kws[0].value).value), kws[1..])
  {
  }

  /** A flag no keyword names keeps its value. */
  lemma {:induction false} ApplyKeywordsKeeps(meta: ActionMeta, kws: seq<Keyword>, name: string)
    requires ApplyKeywords(meta, kws).Ok? && KnownFlag(name)
    requires forall i :: 0 <= i < |kws| ==> kws[i].arg != Some(name)
    ensures FlagOf(ApplyKeywords(meta, kws).value, name) == FlagOf(meta, name)
    decreases |kws|
  {
    if |kws| > 0 {
      ApplyKeywordsStep(meta, kws);
      var m1 := SetFlag(meta, kws[0].arg.value, ValueAttr(kws[0].value).value);
      forall j | 0 <= j < |kws[1..]| ensures kws[1..][j].arg != Some(name) {
        assert kws[1..][j] == kws[j + 1];
      }
      ApplyKeywordsKeeps(m1, kws[1..], name);
      assert FlagOf(m1, name) == FlagOf(meta, name);
    }
  }

  /** Each flag ends up with the value of the last keyword naming it. */
  lemma {:induction false} ApplyKeywordsLastWins(meta: ActionMeta, kws: seq<Keyword>, name: string, i: nat)
    requires ApplyKeywords(meta, kws).Ok? && KnownFlag(name)
    requires i < |kws| && kws[i].arg == Some(name)
    requires forall j :: i < j < |kws| ==> kws[j].arg != Some(name)
    ensures FlagOf(ApplyKeywords(meta, kws).value, name) == ValueAttr(kws[i].value)
    decreases |kws|
  {
    ApplyKeywordsStep(meta, kws);
    var m1 := SetFlag(meta, kws[0].arg.value, ValueAttr(kws[0].value).value);
    forall j | i <= j < |kws[1..]| ensures kws[1..][j].arg != Some(name) {
      assert kws[1..][j] == kws[j + 1];
    }
    if i == 0 {
      ApplyKeywordsKeeps(m1, kws[1..], name);
    } else {
      assert kws[1..][i - 1] == kws[i];
      ApplyKeywordsLastWins(m1, kws[1..], name, i - 1);
    }
  }

  /** `<method>.__action__ = ...` */
  predicate IsMetaAssign(s: Stmt)
  {
    s.Assign? && |s.targets| == 1 && s.targets[0].Attribute? && s.targets[0].attr == "__action__"
  }

  /** A metadata assignment the first scan accepts: its value is a call
      whose keywords are known flags, and its target's object is a name. */
  predicate MetaOk(s: Stmt)
  {
    IsMetaAssign(s) ==>
      && s.value.Call?
      && ApplyKeywords(NoMeta, s.value.keywords).Ok?
      && s.targets[0].value.Name?
  }

  /** Metadata assignments for the method `name`. */
  function MetaOf(name: string): Stmt -> bool
  {
    s => IsMetaAssign(s) && s.targets[0].value == Name(name)
  }

  /** The first scan of the class body: each metadata assignment's call
      keywords build a record, filed under the method name read through
      `.id` of the target's object. */
  function MetaTable(body: seq<Stmt>, table: map<string, ActionMeta>): (r: Result<map<string, ActionMeta>>)
    ensures r.Ok? <==> forall i :: 0 <= i < |body| ==> MetaOk(body[i])
  {
    if |body| == 0 then Ok(table)
    else
      var s := body[0];
      if !IsMetaAssign(s) then MetaTable(body[1..], table)
      else if !s.value.Call? then Err(Fault("AttributeError"))
      else
        var meta :- ApplyKeywords(NoMeta, s.value.keywords);
        var target := s.targets[0].value;
        if !target.Name? then Err(Fault("AttributeError"))
        else MetaTable(body[1..], table[target.id := meta])
  }

  /** The table holds, for each method, the record of its last metadata
      assignment; a method without one keeps what the table started with. */
  lemma {:induction false} MetaTableLastWins(body: seq<Stmt>, table: map<string, ActionMeta>, name: string)
    requires MetaTable(body, table).Ok?
    ensures var r := MetaTable(body, table).value;
      match LastWhere(body, MetaOf(name))
      case Some(i) => name in r && r[name] == ApplyKeywords(NoMeta, body[i].value.keywords).value
      case None => (name in r <==> name in table) && (name in table ==> r[name] == table[name])
  {
    if |body| > 0 {
      var s := body[0];
      LastWhereTail(body, MetaOf(name));
      var t := if IsMetaAssign(s) then table[s.targets[0].value.id := ApplyKeywords(NoMeta, s.value.keywords).value] else table;
      assert MetaTable(body, table) == MetaTable(body[1..], t);
      MetaTableLastWins(body[1..], t, name);
      match LastWhere(body[1..], MetaOf(name))
      case Some(i) =>
        assert body[i + 1] == body[1..][i];
      case None =>
    }
  }

  /** `for decorator in ...: if decorator.id == "action": break`: the
      decorators are read through `.id` up to the first `action`. */
  function HasActionDecorator(decs: seq<Expr>): (r: Result<bool>)
    ensures r == Ok(true) <==>
      exists i :: 0 <= i < |decs| && decs[i] == Name("action") && forall j :: 0 <= j < i ==> decs[j].Name?
    ensures r == Ok(false) <==> forall j :: 0 <= j < |decs| ==> decs[j].Name? && decs[j].id != "action"
    ensures r.Err? ==> r.error == Fault("AttributeError")
  {
    if |decs| == 0 then Ok(false)
    else if !decs[0].Name? then Err(Fault("AttributeError"))
    else if decs[0].id == "action" then Ok(true)
    else
      var r := HasActionDecorator(decs[1..]);
      assert r == Ok(true) ==> exists i :: (0 <= i < |decs| && decs[i] == Name("action")
        && forall j :: 0 <= j < i ==> decs[j].Name?) by {
        if r == Ok(true) {
          var i :| 0 <= i < |decs[1..]| && decs[1..][i] == Name("action")
            && forall j :: 0 <= j < i ==> decs[1..][j].Name?;
          assert decs[i + 1] == Name("action");
          assert forall j :: 1 <= j < i + 1 ==> decs[j] == decs[1..][j - 1];
        }
      }
      assert (exists i :: 0 <= i < |decs| && decs[i] == Name("action") && forall j :: 0 <= j < i ==> decs[j].Name?)
        ==> r == Ok(true) by {
        if exists i :: 0 <= i < |decs| && decs[i] == Name("action") && forall j :: 0 <= j < i ==> decs[j].Name? {
          var i :| 0 <= i < |decs| && decs[i] == Name("action") && forall j :: 0 <= j < i ==> decs[j].Name?;
          assert i > 0;
          assert decs[1..][i - 1] == Name("action");
          assert forall j :: 0 <= j < i - 1 ==> decs[1..][j] == decs[j + 1];
        }
      }
      r
  }

  /** The arguments other than `self`, in order. */
  function NonSelf(args: seq<Arg>): (r: seq<Arg>)
    ensures forall a :: a in r <==> a in args && a.arg != "self"
    ensures |r| <= |args|
  {
    if |args| == 0 then []
    else (if args[0].arg == "self" then [] else [args[0]]) + NonSelf(args[1..])
  }

  /** The parameters of an action method: every one but `self` needs an
      annotation, whose type name is read through `.id`. */
  function ActionArgs(args: seq<Arg>, meth: string): (r: Result<seq<ActionArg>>)
  {
    Annotated(NonSelf(args), meth)
  }

  /** The annotations of the parameters, in order; the first parameter
      without one, or with one that is not a plain name, stops the scan. */
  function Annotated(ps: seq<Arg>, meth: string): (r: Result<seq<ActionArg>>)
    ensures r.Ok? <==> FirstBadArg(ps).None?
    ensures r.Ok? ==> |r.value| == |ps|
    ensures r.Ok? ==> forall i :: 0 <= i < |ps| ==> r.value[i] == ActionArg(ps[i].arg, ps[i].annotation.value.id)
    ensures r.Err? ==> r.error == BadArgError(ps[FirstBadArg(ps).value], meth)
  {
    if |ps| == 0 then Ok([])
    else
      var a := ps[0];
      if a.annotation.None? then
        Err(GenerateSourceError("Argument " + a.arg + " of method " + meth + " not annotated."))
      else if !a.annotation.value.Name? then Err(Fault("AttributeError"))
      else
        var rest :- Annotated(ps[1..], meth);
        Ok([ActionArg(a.arg, a.annotation.value.id)] + rest)
  }

  /** A parameter annotated by a plain name. */
  predicate WellAnnotated(a: Arg)
  {
    a.annotation.Some? && a.annotation.value.Name?
  }

  /** Index of the first parameter that is not annotated by a plain name. */
  function FirstBadArg(ps: seq<Arg>): (r: Option<nat>)
    ensures r.None? <==> forall i :: 0 <= i < |ps| ==> WellAnnotated(ps[i])
    ensures r.Some? ==> r.value < |ps| && !WellAnnotated(ps[r.value])
    ensures r.Some? ==> forall i :: 0 <= i < r.value ==> WellAnnotated(ps[i])
  {
    if |ps| == 0 then None
    else if !WellAnnotated(ps[0]) then Some(0)
    else match FirstBadArg(ps[1..])
      case None => None
      case Some(i) => Some(i + 1)
  }

  /** How the scan reports a parameter without a plain-name annotation. */
  function BadArgError(a: Arg, meth: string): Error
  {
    if a.annotation.None? then GenerateSourceError("Argument " + a.arg + " of method " + meth + " not annotated.")
    else Fault("AttributeError")
  }

  /** The second scan, for one method: a method without the decorator must
      have no metadata; one with it must have metadata and annotated
      parameters, and becomes an action. */
  function MethodAction(s: Stmt, table: map<string, ActionMeta>): (r: Result<seq<ObjectAction>>)
    requires s.FunctionDef?
    ensures HasActionDecorator(s.decorators) == Ok(false) && s.name in table ==>
      r == Err(GenerateSourceError("Method " + s.name + " has metadata, but no @action decorator."))
    ensures HasActionDecorator(s.decorators) == Ok(false) && s.name !in table ==> r == Ok([])
    ensures HasActionDecorator(s.decorators) == Ok(true) && s.name !in table ==>
      r == Err(GenerateSourceError("Method " + s.name + " has @action decorator, but no metadata."))
    ensures HasActionDecorator(s.decorators).Err? ==> r == Err(HasActionDecorator(s.decorators).error)
    ensures HasActionDecorator(s.decorators) == Ok(true) && s.name in table ==>
      r == match ActionArgs(s.args, s.name)
           case Ok(args) => Ok([ObjectAction(s.name, table[s.name], args)])
           case Err(e) => Err(e)
  {
    var marked :- HasActionDecorator(s.decorators);
    if !marked then
      if s.name in table then Err(GenerateSourceError("Method " + s.name + " has metadata, but no @action decorator."))
      else Ok([])
    else if s.name !in table then Err(GenerateSourceError("Method " + s.name + " has @action decorator, but no metadata."))
    else
      var args :- ActionArgs(s.args, s.name);
      Ok([ObjectAction(s.name, table[s.name], args)])
  }

  /** A method the second scan accepts: its decorators can be read, it
      has metadata exactly when it is an action, and an action's
      parameters are annotated. */
  predicate MethodOk(s: Stmt, table: map<string, ActionMeta>)
  {
    s.FunctionDef? ==>
      && HasActionDecorator(s.decorators).Ok?
      && (HasActionDecorator(s.decorators).value <==> s.name in table)
      && (HasActionDecorator(s.decorators).value ==> ActionArgs(s.args, s.name).Ok?)
  }

  /** The names of the methods marked as actions, in declaration order. */
  function ActionMethods(body: seq<Stmt>): seq<string>
  {
    if |body| == 0 then []
    else
      HeadMethods(body[0]) + ActionMethods(body[1..])
  }

  /** The second scan of the class body, over its methods in order. */
  function CollectActions(body: seq<Stmt>, table: map<string, ActionMeta>): (r: Result<seq<ObjectAction>>)
    ensures r.Ok? <==> forall i :: 0 <= i < |body| ==> MethodOk(body[i], table)
    ensures r.Ok? ==> |r.value| == |ActionMethods(body)|
    ensures r.Ok? ==> forall i :: 0 <= i < |r.value| ==>
      && r.value[i].name == ActionMethods(body)[i]
      && r.value[i].name in table
      && r.value[i].meta == table[r.value[i].name]
  {
    if |body| == 0 then Ok([])
    else
      var head :- if body[0].FunctionDef? then MethodAction(body[0], table) else Ok([]);
      var rest :- CollectActions(body[1..], table);
      CollectLift(body, table, head, rest);
      Ok(head + rest)
  }

  /** The actions `acts` are those of the methods `names`, in order, each
      with its entry of the metadata table. */
  ghost predicate Listed(acts: seq<ObjectAction>, names: seq<string>, table: map<string, ActionMeta>)
  {
    && |acts| == |names|
    && forall i :: 0 <= i < |acts| ==>
         && acts[i].name == names[i]
         && acts[i].name in table
         && acts[i].meta == table[acts[i].name]
  }

  /** The names a single statement contributes to `ActionMethods`. */
  function HeadMethods(s: Stmt): seq<string>
  {
    if s.FunctionDef? && HasActionDecorator(s.decorators) == Ok(true) then [s.name] else []
  }

  /** A method's actions followed by the rest of the body's are the body's. */
  lemma CollectLift(body: seq<Stmt>, table: map<string, ActionMeta>, head: seq<ObjectAction>, rest: seq<ObjectAction>)
    requires |body| > 0
    requires (if body[0].FunctionDef? then MethodAction(body[0], table) else Ok([])) == Ok(head)
    requires Listed(rest, ActionMethods(body[1..]), table)
    ensures Listed(head + rest, ActionMethods(body), table)
  {
    HeadListed(body[0], table, head);
    ListedAppend(head, HeadMethods(body[0]), rest, ActionMethods(body[1..]), table);
  }

  /** One statement's actions are listed under the names it contributes. */
  lemma HeadListed(s: Stmt, table: map<string, ActionMeta>, head: seq<ObjectAction>)
    requires (if s.FunctionDef? then MethodAction(s, table) else Ok([])) == Ok(head)
    ensures Listed(head, HeadMethods(s), table)
  {
  }

  lemma ListedAppend(a: seq<ObjectAction>, an: seq<string>, b: seq<ObjectAction>, bn: seq<string>,
                     table: map<string, ActionMeta>)
    requires Listed(a, an, table) && Listed(b, bn, table)
    ensures Listed(a + b, an + bn, table)
  {
    forall i | |a| <= i < |a| + |b|
      ensures (a + b)[i] == b[i - |a|] && (an + bn)[i] == bn[i - |a|]
    {
    }
  }

  /** `get_object_actions`: the actions of the first class of the source,
      in declaration order, each with the metadata recorded for it. */
  function GetObjectActions(tree: Module): (r: Result<seq<ObjectAction>>)
    ensures ObjectClsDefAsWritten(tree).Err? ==> r == Err(ObjectClsDefAsWritten(tree).error)
    ensures r.Ok? <==>
      && ObjectClsDefAsWritten(tree).Ok?
      && MetaTable(ObjectClsDefAsWritten(tree).value.body, map[]).Ok?
      && forall i :: 0 <= i < |ObjectClsDefAsWritten(tree).value.body| ==>
           MethodOk(ObjectClsDefAsWritten(tree).value.body[i], MetaTable(ObjectClsDefAsWritten(tree).value.body, map[]).value)
    ensures r.Ok? ==> |r.value| == |ActionMethods(ObjectClsDefAsWritten(tree).value.body)|
    ensures r.Ok? ==> forall i :: 0 <= i < |r.value| ==>
      r.value[i].name == ActionMethods(ObjectClsDefAsWritten(tree).value.body)[i]
  {
    var cls :- ObjectClsDefAsWritten(tree);
    var table :- MetaTable(cls.body, map[]);
    CollectActions(cls.body, table)
  }

  /** Each action carries the flags of the last metadata assignment made
      for its method in the class body. */
  lemma ActionMetaFromSource(tree: Module, k: nat)
    requires GetObjectActions(tree).Ok? && k < |GetObjectActions(tree).value|
    ensures var body := ObjectClsDefAsWritten(tree).value.body;
      var a := GetObjectActions(tree).value[k];
      && LastWhere(body, MetaOf(a.name)).Some?
      && a.meta == ApplyKeywords(NoMeta, body[LastWhere(body, MetaOf(a.name)).value].value.keywords).value
  {
    var body := ObjectClsDefAsWritten(tree).value.body;
    MetaTableLastWins(body, map[], GetObjectActions(tree).value[k].name);
  }

  // The robot object type shipped with the system, from its source at
  // arcor2/object_types/robot.py; the plain `import time` is left out.

  const RobotDoc := ExprStmt(Str("Abstract class representing robot and its basic capabilities (motion)"))

  const RobotGetPose := FunctionDef("get_pose", [SelfArg, Arg("end_effector", Some(Name("str")))],
                                    [Raise(Some(Call(Name("NotImplementedError"), [], [])))], [])

  const RobotMoveToParams := [Arg("target", Some(Name("ActionPoint"))), Arg("end_effector", Some(Name("str"))),
                              Arg("speed", Some(Name("int")))]

  const RobotMoveToDef := FunctionDef("move_to", [SelfArg] + RobotMoveToParams,
                                      [ExprStmt(Call(Attribute(Name("time"), "sleep"), [Num(1)], [])), Return(None)],
                                      [Name("action")])

  const RobotMetaAssign := Assign([Attribute(Name("move_to"), "__action__")],
                                  Call(Name("ActionMetadata"), [], [Keyword(Some("free"), Constant(TrueVal)),
                                                                    Keyword(Some("blocking"), Constant(TrueVal))]))

  const RobotBody := [RobotDoc, RobotGetPose, RobotMoveToDef, RobotMetaAssign]

  const RobotClass := ClassDef("Robot", [Name("Generic")], RobotBody)

  const RobotSource := Module([
    ImportFrom("arcor2.object_types.generic", ["Generic"]),
    ImportFrom("arcor2.action", ["action"]),
    ImportFrom("arcor2.data", ["ActionMetadata", "ActionPoint", "Pose"]),
    RobotClass])

  const RobotMeta := ActionMeta(Some(Flag(TrueVal)), Some(Flag(TrueVal)), None, None)

  const RobotMoveTo := ObjectAction("move_to", RobotMeta,
    [ActionArg("target", "ActionPoint"), ActionArg("end_effector", "str"), ActionArg("speed", "int")])

  lemma RobotClassFound()
    ensures ObjectClsDef(RobotSource) == Ok(RobotClass)
    ensures ObjectClsDefAsWritten(RobotSource) == Ok(RobotClass)
  {
    var b := RobotSource.body;
    assert b[3..][1..] == [];
    assert ClassCount(b[3..]) == 1;
    assert b[2..][1..] == b[3..];
    assert ClassCount(b[2..]) == 1;
    assert b[1..][1..] == b[2..];
    assert ClassCount(b[1..]) == 1;
    assert ClassCount(b) == 1;
    assert FirstClass(b[3..]) == Some(0);
    assert FirstClass(b[2..]) == Some(1);
    assert FirstClass(b[1..]) == Some(2);
    ObjectClsDefAgrees(RobotSource);
  }

  lemma RobotMetaTable()
    ensures MetaTable(RobotBody, map[]) == Ok(map["move_to" := RobotMeta])
  {
    var kws := RobotMetaAssign.value.keywords;
    var half := SetFlag(NoMeta, "free", Flag(TrueVal));
    assert kws[1..][1..] == [];
    assert ApplyKeywords(SetFlag(half, "blocking", Flag(TrueVal)), kws[1..][1..]) == Ok(RobotMeta);
    assert ApplyKeywords(half, kws[1..]) == Ok(RobotMeta);
    assert ApplyKeywords(NoMeta, kws) == Ok(RobotMeta);
    var b := RobotBody;
    var t := map["move_to" := RobotMeta];
    assert b[3..][1..] == [];
    assert MetaTable(b[3..][1..], t) == Ok(t);
    assert MetaTable(b[3..], map[]) == Ok(t);
    assert b[2..][1..] == b[3..];
    assert MetaTable(b[2..], map[]) == Ok(t);
    assert b[1..][1..] == b[2..];
    assert MetaTable(b[1..], map[]) == Ok(t);
  }

  /** One step of the annotation scan over a well-annotated parameter. */
  lemma AnnotatedStep(ps: seq<Arg>, meth: string, rest: seq<ActionArg>)
    requires |ps| > 0 && WellAnnotated(ps[0]) && Annotated(ps[1..], meth) == Ok(rest)
    ensures Annotated(ps, meth) == Ok([ActionArg(ps[0].arg, ps[0].annotation.value.id)] + rest)
  {
  }

  /** One step of dropping `self`. */
  lemma NonSelfStep(args: seq<Arg>)
    requires |args| > 0
    ensures NonSelf(args) == (if args[0].arg == "self" then [] else [args[0]]) + NonSelf(args[1..])
  {
  }

  /** `self` followed by three other parameters leaves those three. */
  lemma NonSelfAfterSelf(s: Arg, p0: Arg, p1: Arg, p2: Arg)
    requires s.arg == "self" && p0.arg != "self" && p1.arg != "self" && p2.arg != "self"
    ensures NonSelf([s, p0, p1, p2]) == [p0, p1, p2]
  {
    var args := [s, p0, p1, p2];
    assert args[1..] == [p0, p1, p2] && args[1..][1..] == [p1, p2];
    assert args[1..][1..][1..] == [p2] && args[1..][1..][1..][1..] == [];
    NonSelfStep([p2]);
    assert [p2] + [] == [p2];
    NonSelfStep([p1, p2]);
    assert [p1] + [p2] == [p1, p2];
    NonSelfStep([p0, p1, p2]);
    assert [p0] + [p1, p2] == [p0, p1, p2];
    NonSelfStep(args);
    assert [] + [p0, p1, p2] == [p0, p1, p2];
  }

  lemma RobotNonSelf()
    ensures NonSelf(RobotMoveToDef.args) == RobotMoveToParams
  {
    var ps := RobotMoveToParams;
    NonSelfAfterSelf(SelfArg, ps[0], ps[1], ps[2]);
    assert RobotMoveToDef.args == [SelfArg, ps[0], ps[1], ps[2]];
    assert ps == [ps[0], ps[1], ps[2]];
  }

  /** Three well-annotated parameters give three action arguments. */
  lemma AnnotatedThree(p0: Arg, p1: Arg, p2: Arg, meth: string)
    requires WellAnnotated(p0) && WellAnnotated(p1) && WellAnnotated(p2)
    ensures Annotated([p0, p1, p2], meth) == Ok([ActionArg(p0.arg, p0.annotation.value.id),
      ActionArg(p1.arg, p1.annotation.value.id), ActionArg(p2.arg, p2.annotation.value.id)])
  {
    var ps := [p0, p1, p2];
    var a1, a2 := ActionArg(p1.arg, p1.annotation.value.id), ActionArg(p2.arg, p2.annotation.value.id);
    assert ps[1..] == [p1, p2] && ps[1..][1..] == [p2] && ps[1..][1..][1..] == [];
    AnnotatedStep([p2], meth, []);
    assert [a2] + [] == [a2];
    AnnotatedStep([p1, p2], meth, [a2]);
    assert [a1] + [a2] == [a1, a2];
    AnnotatedStep(ps, meth, [a1, a2]);
    var a0 := ActionArg(p0.arg, p0.annotation.value.id);
    assert [a0] + [a1, a2] == [a0, a1, a2];
  }

  lemma RobotMoveToArgs()
    ensures ActionArgs(RobotMoveToDef.args, "move_to") == Ok(RobotMoveTo.args)
  {
    RobotNonSelf();
    var ps := RobotMoveToParams;
    AnnotatedThree(ps[0], ps[1], ps[2], "move_to");
    assert ps == [ps[0], ps[1], ps[2]];
  }

  lemma RobotMethods(table: map<string, ActionMeta>)
    requires table == map["move_to" := RobotMeta]
    ensures MethodAction(RobotMoveToDef, table) == Ok([RobotMoveTo])
    ensures MethodAction(RobotGetPose, table) == Ok([])
  {
    RobotMoveToArgs();
    assert HasActionDecorator(RobotMoveToDef.decorators) == Ok(true);
    assert HasActionDecorator(RobotGetPose.decorators) == Ok(false);
  }

  /** One step of the method scan. */
  lemma CollectStep(body: seq<Stmt>, table: map<string, ActionMeta>, head: seq<ObjectAction>, rest: seq<ObjectAction>)
    requires |body| > 0
    requires (if body[0].FunctionDef? then MethodAction(body[0], table) else Ok([])) == Ok(head)
    requires CollectActions(body[1..], table) == Ok(rest)
    ensures CollectActions(body, table) == Ok(head + rest)
  {
  }

  lemma RobotActions()
    ensures CollectActions(RobotBody, map["move_to" := RobotMeta]) == Ok([RobotMoveTo])
  {
    var b := RobotBody;
    var table := map["move_to" := RobotMeta];
    RobotMethods(table);
    assert b[3..][1..] == [];
    assert b[3..][0] == RobotMetaAssign;
    CollectStep(b[3..], table, [], []);
    assert b[2..][1..] == b[3..];
    assert b[2..][0] == RobotMoveToDef;
    CollectStep(b[2..], table, [RobotMoveTo], []);
    assert [RobotMoveTo] + [] == [RobotMoveTo];
    assert b[1..][1..] == b[2..];
    assert b[1..][0] == RobotGetPose;
    CollectStep(b[1..], table, [], [RobotMoveTo]);
    assert [] + [RobotMoveTo] == [RobotMoveTo];
    CollectStep(b, table, [], [RobotMoveTo]);
  }

  /** The robot is a `Generic` without a description. */
  lemma RobotTypeInfo()
    ensures ObjectTypeInfo(RobotSource) == Ok(ObjectType("Robot", Some("Generic"), None))
  {
    RobotClassFound();
    var b := RobotBody;
    assert b[3..][1..] == [];
    assert Description(b[3..], None) == Ok(None);
    assert b[2..][1..] == b[3..];
    assert Description(b[2..], None) == Ok(None);
    assert b[1..][1..] == b[2..];
    assert Description(b[1..], None) == Ok(None);
    assert Description(b, None) == Ok(None);
  }

  /** The robot has one action, `move_to`, which is free and blocking and
      takes a target action point, an end effector name and a speed. */
  lemma RobotActionCatalog()
    ensures GetObjectActions(RobotSource) == Ok([
      ObjectAction("move_to", ActionMeta(Some(Flag(TrueVal)), Some(Flag(TrueVal)), None, None),
                   [ActionArg("target", "ActionPoint"), ActionArg("end_effector", "str"), ActionArg("speed", "int")])])
  {
    RobotClassFound();
    RobotMetaTable();
    RobotActions();
  }
}
