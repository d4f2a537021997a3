# arcor2 action-graph ⇄ script compiler, modelled in Dafny

arcor2 turns a project into a Python script and reads a script back into a
project. A project is a graph of actions. Each action has an id, a type
`"<object-id>/<method>"` and a single input/output link, and the chain runs
from a FIRST action to a LAST action. The script is a small module:

- imports for the object types;
- a `main` function that creates `res = Resources()` and binds one variable
  per scene object;
- a `while True:` loop holding one call `obj.method(**res.<action id>)` per
  action in chain order;
- the `if __name__ == '__main__': main()` guard.

This project models that compiler over an abstract syntax tree rather than
over Python text, and proves properties about it. Every operation is a
pure function, and the ones that can fail return a `Result`.

| module | file | what it models |
|---|---|---|
| `Base` | base.dfy | `Option`/`Result` and the exceptions that escape: `GenerateSourceException`, `SourceException`, `ImportClsException`, uncaught Python built-ins (`Fault`), and a loop that never ends (`Diverges`) |
| `Ast` | ast.dfy | the slice of Python's syntax tree the compiler builds and inspects, its pre-order traversal (`NodeVisitor` order) and paths into it |
| `Graph` | graph.dfy | actions, their links, the actions cache a project yields, scene objects |
| `Names` | names.dfy | `camel_case_to_snake_case`, `snake_case_to_camel_case` and the `'module/Cls'` format check of `import_cls` |
| `TreeUtils` | tree_utils.dfy | `find_function`, `find_class_def`, `add_import`, `append_method_call`, `get_name`, `get_name_attr`, `find_asserts`, `find_raises` |
| `Emitter` | emitter.dfy | `fix_object_name`, `main_loop_body`, `empty_script_tree`, `add_logic_to_loop`, `object_instance_from_res`, `add_cls_inst`, `add_method_call_in_main` |
| `Recoverer` | recoverer.dfy | `get_logic_from_source`: validating the loop body and relinking the actions |
| `RoundTrip` | roundtrip.dfy | emitting a chain and recovering it from the emitted loop |
| `Inspector` | inspector.dfy | `object_cls_def`, `object_type_info`, `get_object_actions`, with the `Robot` object type as a worked example |
| `Program` | program.dfy | `program_src` as a whole, from the empty script to the finished tree, and the tree built by `derived_resources_class` |

`get_actions_cache` and `convert_cc` are imported by `generate_source.py`,
but the files that define them are not part of this model.
- The actions cache (actions by id, plus the first and last ids) is an
  input to the emitter and the recoverer.
- `convert_cc` is taken to be `camel_case_to_snake_case`.

## Model

| member | source | states |
|---|---|---|
| Names.CamelToSnake | arcor2/helpers.py:56-59 | the snake-case form has no ASCII upper-case letter |
| Names.CamelToSnakeOnlyInsertsUnderscores | arcor2/helpers.py:58-59 | deleting every '_' from the result gives the lower-cased input with its '_' deleted: both substitutions only insert underscores |
| Names.CamelToSnakeNoUpperUnchanged | arcor2/helpers.py:16-17 | an input without upper-case letters comes back unchanged, since both patterns need `[A-Z]` |
| Names.CamelToSnakeNoSpace | arcor2/helpers.py:56-59 | the conversion introduces no space |
| Names.SnakeToCamelSpec | arcor2/helpers.py:62-65 | the camel-case form has no '_', equals the input without '_' up to case, and is shorter by the number of '_' |
| Names.SnakeToCamelNoUnderscore | arcor2/helpers.py:64-65 | an input without '_' maps to its lower-case form |
| Names.SnakeToCamelFirstSegment | arcor2/helpers.py:64-65 | the part before the first '_' is lower-cased in place |
| Names.SplitPair | arcor2/helpers.py:39 | splitting at a separator gives exactly two parts iff the separator occurs once; the parts rejoin to the input and hold no separator |
| Names.ImportClsFormat | arcor2/helpers.py:38-41 | `'module/Cls'` is accepted iff it holds exactly one '/', the two parts rejoin to the input, and any other string fails with "Invalid format." |
| Names.SplitOnJoin | arcor2/helpers.py:64 | `split` has one more part than separators, its parts hold no separator, and joining them gives the input back |
| TreeUtils.FindFunction | src/python/arcor2/source/utils.py:60-79 | the result is a function definition of that name found in the tree; "Function … not found." exactly when there is none |
| TreeUtils.FindFunctionLastWins | src/python/arcor2/source/utils.py:65-71 | the visitor keeps going after a match, so of two functions with one name the later one is returned |
| TreeUtils.FindClassDef | src/python/arcor2/source/utils.py:82-101 | the result is a class definition of that name found in the tree; "Class definition … not found." exactly when there is none |
| TreeUtils.FindInComplete | src/python/arcor2/source/utils.py:60-79 | the search finds something iff some reachable definition of that kind has that name |
| TreeUtils.AddImport | src/python/arcor2/source/utils.py:117-152 | afterwards some `from module import` exists, and every one of them lists the class |
| TreeUtils.AddImportPresent | src/python/arcor2/source/utils.py:123-129 | a tree whose imports of the module all list the class is unchanged |
| TreeUtils.AddImportAppends | src/python/arcor2/source/utils.py:123-134 | with an import of the module present, the traversal keeps its length and order: each import of the module gains the class if missing, nothing else changes |
| TreeUtils.AddImportInserts | src/python/arcor2/source/utils.py:151-152 | without an import of the module, `from module import cls` is inserted first and the rest is kept |
| TreeUtils.AddImportIdempotent | src/python/arcor2/source/utils.py:117-152 | adding the same import twice gives the tree that adding it once gives |
| TreeUtils.AppendMethodCall | src/python/arcor2/source/utils.py:155-164 | the body gains exactly one statement at its end, `instance.method(args, kwargs)`, and its prefix is unchanged |
| TreeUtils.CollectIsFilteredWalk | src/python/arcor2/source/utils.py:46-57 | the collecting visitor yields exactly the nodes of one kind in traversal order |
| TreeUtils.FindAsserts | src/python/arcor2/source/utils.py:46-57 | every `assert` of the tree, in traversal order, and nothing else |
| TreeUtils.FindRaises | src/python/arcor2/source/utils.py:182-193 | every `raise` of the tree, in traversal order, and nothing else |
| Emitter.FixObjectName | generate_source.py:147-149 | the variable name has no space and is as long as the snake-case id |
| Emitter.FixObjectNameNoSpace | generate_source.py:147-149 | for an id without spaces the variable name is the snake-case id |
| Emitter.FindFunctionPath | generate_source.py:358-378 | the path leads to a function of that name; "Function … not found." exactly when there is none |
| Emitter.FirstWhile | generate_source.py:318-320 | the first `while` of a body, or none when it has none |
| Emitter.LoopLocation | generate_source.py:314-322 | the loop found is the first `while` in the body of the `main` that `find_function` returns; a tree without `main` fails with "Function main not found."; a `main` without a `while` fails with "Main loop not found.", and only then |
| Emitter.MainLoopBody | generate_source.py:314-322 | the body returned is that of the first `while` of the `main` that `find_function` returns; a tree without `main` fails with "Function main not found."; a `main` without a `while` fails with "Main loop not found.", and only then |
| Emitter.WithLoopBodyFound | generate_source.py:314-322 | after the loop body is replaced, the same loop is found again and holds the new body |
| Emitter.EmptyScriptTree | generate_source.py:325-355 | the empty script's loop is the first statement of `main` and holds only `pass` |
| Emitter.AddLogicToLoop | generate_source.py:240-275 | errors from finding the loop propagate; no FIRST action gives "'start' action not found.", no LAST action gives "'end' action not found."; on success the old body, without its `pass`, is a strict prefix of the new one |
| Emitter.AddLogicToLoopChain | generate_source.py:252-275 | for a chain from FIRST to LAST along `outputs[0]`, the new loop body is the old one without `pass` followed by exactly one call per chained action, in chain order, and nothing else in the tree changes |
| Emitter.EmitLinked | generate_source.py:254-275 | the walk from the first action of a linked chain appends one call per action, ending with the last one |
| Emitter.Calls | generate_source.py:262-270 | one call statement per chained action, in chain order: the i-th statement is the call for the i-th action |
| Emitter.CallOf | generate_source.py:262-270 | the call for an action whose type is `obj/method` is `fix_object_name(obj).method(**res.<action id>)`, with no positional arguments |
| Emitter.LastAssignIndex | generate_source.py:283-286 | the index of the last `Assign`/`AnnAssign` of a body, or none when it has none |
| Emitter.ObjectInstanceFromRes | generate_source.py:278-311 | the binding goes right after the last assignment of `main`; it fails exactly when `main` has no assignment, and "Function main not found." without `main` |
| Emitter.AddClsInst | generate_source.py:497-508 | a class not imported anywhere gives "Class '…' not imported!"; success leaves the tree unchanged or inserts the instance first in `main` |
| Emitter.CheckMainBodySpec | generate_source.py:456-472 | scanning `main` fails at the first assignment binding the name to another class, with "Name '…' already used for instance of '…'!"; otherwise it reports whether the name is bound |
| Emitter.CheckMainBodyOk | generate_source.py:460-468 | with no clashing assignment, the scan succeeds and reports whether some assignment binds the name |
| Emitter.CheckMainBodyClash | generate_source.py:460-466 | the scan stops at the first assignment binding the name to another class, with its error |
| Emitter.AddMethodCallInMainAsWritten | generate_source.py:535-546 | as written, the call fails when `main` has no `Assign` and also when its last `Assign` is its first statement; when it succeeds it agrees with the intended version |
| Emitter.AddMethodCallInMain | generate_source.py:518-554 | the call goes right after the last `Assign` of `main`; it fails exactly when `main` has no `Assign` |
| Emitter.AddMethodCallInMainAgrees | generate_source.py:545-546 | when the last `Assign` is not the first statement, the code as written and the intended version agree |
| Emitter.FirstAssignRefusedAsWritten | generate_source.py:545-546 | a `main` whose only assignment is its first statement is refused as written but accepted as intended |
| Recoverer.ParseCall | generate_source.py:189-200 | a statement that is not an expression gives "Unexpected content."; a call without `func.value.id`, `func.attr` or `keywords[0].value.attr` gives "Script has unexpected content."; otherwise those three parts are read |
| Recoverer.ParseActionCall | generate_source.py:193-197 | an emitted call reads back as its object, method and action id |
| Recoverer.CheckCall | generate_source.py:202-219 | the checks in source order: a repeated id gives "Duplicate action: …", an unknown id gives "Unknown action …", a type not splitting in two raises, and an object or method differing from the type gives the mismatch error; success iff none applies |
| Recoverer.Relink | generate_source.py:221-237 | relinking keeps the set of actions and their ids and types; only the current action and the action its predecessor's id names change; it fails only when that id is not in the cache |
| Recoverer.RelinkEffect | generate_source.py:221-237 | the current action's inputs become FIRST or the predecessor, its outputs become LAST or nothing, and the predecessor gains an output to the current action |
| Recoverer.GetLogicFromSource | generate_source.py:174-237 | failing to find the loop is reported and changes nothing; the actions keep their ids and types |
| Recoverer.RecoverSucceedsIff | generate_source.py:187-219 | recovery succeeds iff the loop is found and every statement is a well-formed call to a distinct known action whose type matches |
| Recoverer.RecoverRelinks | generate_source.py:221-237 | after success, action 0 has input FIRST, action i has input i-1, action i-1 has output i, the last action has output LAST, and actions not in the loop are unchanged |
| Recoverer.RecoverFirstFailure | generate_source.py:187-237 | a loop that fails at statement k reports that statement's error, and the actions before k are already relinked |
| RoundTrip.ReadBackCall | generate_source.py:214-217 | the call emitted for an action reads back as that action's id and matches its type |
| RoundTrip.CallsRecoverable | generate_source.py:187-219 | the emitted calls of a duplicate-free chain read back as the chain and pass every check |
| RoundTrip.EmitThenRecover | generate_source.py:174-275 | emitting a chain into an empty loop and recovering from the result succeeds, and relinks the actions along the chain |
| RoundTrip.ChainLinksKept | generate_source.py:221-237 | after that recovery each chained action's single output is the successor it had in the project |
| RoundTrip.EmptyScriptRoundTrip | generate_source.py:240-355 | the same round trip starting from the empty script |
| Inspector.ObjectClsDefAsWritten | generate_source.py:127-144 | as written: the first top-level class, and "No class definition!" only when there is none |
| Inspector.TwoClassesAcceptedAsWritten | generate_source.py:133-142 | a module with two classes is accepted as written, and refused with "Multiple class definition!" by the intended version |
| Inspector.ObjectClsDef | generate_source.py:127-144 | as intended: the one class of the module; "No class definition!" without one, "Multiple class definition!" with more |
| Inspector.ObjectClsDefAgrees | generate_source.py:127-144 | the two versions agree on modules with at most one class |
| Inspector.Description | generate_source.py:118-122 | reading the description raises unless every `__DESCRIPTION__` is assigned a string |
| Inspector.DescriptionIsLast | generate_source.py:118-122 | the description is the value of the last `__DESCRIPTION__` assignment |
| Inspector.ObjectTypeInfo | generate_source.py:106-124 | works on the first class, as `object_cls_def` returns it; its errors propagate; more than one base gives "Only one base class is supported!", and a base that is not a plain name or a `__DESCRIPTION__` that is not a string raises `AttributeError`; it succeeds exactly when none of these applies, with the class name, the base when there is one, and the last description |
| Inspector.SetFlag | generate_source.py:53-55 | setting a known metadata flag changes that flag only |
| Inspector.ApplyKeywords | generate_source.py:53-57 | the metadata keywords are accepted iff each names a known flag and carries a value |
| Inspector.ApplyKeywordsError | generate_source.py:53-57 | the keywords are applied in order and the first bad one is reported: an unknown flag or a value without `.value` gives "Unknown __action__ attribute ….", a `**` keyword raises `TypeError` |
| Inspector.ApplyKeywordsLastWins | generate_source.py:53-55 | a flag repeated in the keywords takes the last value given |
| Inspector.ApplyKeywordsKeeps | generate_source.py:53-55 | a flag not named in the keywords keeps its value |
| Inspector.MetaTable | generate_source.py:37-58 | the metadata table builds iff every `__action__` assignment is well formed |
| Inspector.MetaTableLastWins | generate_source.py:37-58 | a method's metadata is that of its last `__action__` assignment, and methods without one keep the table's entry |
| Inspector.HasActionDecorator | generate_source.py:67-69 | a method is an action iff `@action` comes before any decorator that is not a plain name; a non-name decorator before it raises |
| Inspector.NonSelf | generate_source.py:80-83 | the arguments without `self`, in order |
| Inspector.Annotated | generate_source.py:85-88 | the argument list is read iff every argument is annotated, as name and type in order; otherwise "Argument … of method … not annotated." for the first bad one |
| Inspector.MethodAction | generate_source.py:64-90 | metadata without `@action` and `@action` without metadata are refused with their messages; a method with neither is skipped; an action carries its metadata and annotated arguments |
| Inspector.CollectActions | generate_source.py:62-92 | the catalog builds iff every method passes; it lists the action methods in declaration order with their metadata |
| Inspector.GetObjectActions | generate_source.py:30-92 | works on the first class, as `object_cls_def` returns it; its errors propagate; success iff the metadata table builds and every method passes; the catalog lists the action methods in declaration order |
| Inspector.ActionMetaFromSource | generate_source.py:53-58 | each catalogued action's metadata is that of its last `__action__` assignment in the first class of the source |
| Inspector.RobotTypeInfo | arcor2/object_types/robot.py:8-11 | the `Robot` type is named `Robot` with base `Generic` |
| Inspector.RobotActionCatalog | arcor2/object_types/robot.py:17-26 | `Robot` has one action, `move_to`, with `free` and `blocking` set and arguments `target: ActionPoint`, `end_effector: str`, `speed: int` |
| Program.ProgramImportsListed | generate_source.py:155-165 | the imports of the generated script list `Resources` from `resources` and each scene object's type from its module |
| Program.AddImportToScript | generate_source.py:381-430 | on a generated script, adding an import only touches the leading imports |
| Program.ProgramStart | generate_source.py:154-156 | the empty script plus the resources import and instance is `from resources import Resources` followed by a `main` starting with `res = Resources()` |
| Program.AddClsInstToScript | generate_source.py:474-508 | on a generated script with an empty `main`, the instance becomes the first statement of `main` |
| Program.AddClsInstInScript | generate_source.py:450-508 | on a generated script: a name bound to another class is refused at the first such binding, a name bound to the same class leaves the script unchanged, and otherwise the instance goes first in `main` |
| Program.InstanceInScript | generate_source.py:278-311 | on a generated script, an object binding goes after the last instance |
| Program.BindObjectsInScript | generate_source.py:160-167 | binding the scene's objects adds their imports and one binding per object, in scene order |
| Program.ProgramSkeleton | generate_source.py:154-167 | before the logic is added, the script is the imports, then `main` holding the resources instance, the object bindings and `while True: pass`, then the entry guard |
| Program.ProgramTreeIsSkeleton | generate_source.py:152-169 | the generated tree is the logic added to that skeleton |
| Program.ProgramTreeMissingEnds | generate_source.py:244-250 | without a FIRST action generation fails with "'start' action not found.", and without a LAST action with "'end' action not found." |
| Program.ProgramTreeChain | generate_source.py:152-171 | for a chain from FIRST to LAST, the generated script is the imports, then `main` with the instances and a loop holding exactly the chain's calls, then the entry guard |
| Program.ProgramLogicRecovered | generate_source.py:174-237 | reading the logic back from that generated script succeeds and relinks the actions along the chain |
| Program.EmptyScriptShape | generate_source.py:325-355 | the empty script is a `main` holding only `while True: pass`, then the entry guard |
| Program.AssignedParamsRead | generate_source.py:603-607 | the parameter assignments of `__init__` read back as the parameter list |
| Program.PropertyNamesRead | generate_source.py:620-662 | the property methods read back as the parameter list |
| Program.DerivedResourcesClassReadBack | generate_source.py:588-664 | the derived class module is `from arcor2.resources import ResourcesBase` plus class `Resources(ResourcesBase)`; its `__init__` calls `super(Resources, self).__init__('<project id>')`, then assigns each parameter in order; one property per parameter follows, returning the field `__init__` assigned |

## Left out

- Text handling is outside the model: `parse`, `parse_def`, `unparse`, `autopep8`, `tree_to_str`, `tree_to_script`, `make_executable` and `dump`. These are foreign parsers, pretty-printers and file I/O. Every property is stated on trees.
- Dynamic imports are left out: the `try_to_import` branch of `add_import`, the module and class lookup of `import_cls`, and the default `try_to_import=True` with which `derived_resources_class` calls `add_import`. They depend on which Python modules are installed.
- `get_actions_cache` and `convert_cc` are defined in files that are not part of this model. The cache is an input. `convert_cc` is assumed to be `camel_case_to_snake_case`.
- `check_object_type` only calls `object_type_info` and `get_object_actions`, which are modelled.
- Emitter.AddClsInst: the `kwargs` and `kwargs2parse` arguments of `add_cls_inst` are not modelled. Both callers pass none, so the instance is built with no keyword arguments.
- Emitter.AddMethodCallInMain: the `kwargs` argument is dropped, and the call is built without keyword arguments, as the code does.
- The tree omits what the compiler never reads or builds: `orelse` branches, return annotations, `ctx` fields, `asname` of imported names, the `level` of imports, and type comments.
- Names.CamelToSnake: case conversion covers ASCII letters only; Python's Unicode-aware `lower`/`title` are not modelled.
- Inspector.SetFlag: metadata flags are limited to `free`, `blocking`, `composite` and `blackbox`. `setattr` on a metadata object accepting exactly these is an assumption, because `ActionMetadata` is not part of this model.
- Emitter.EmitLinked: the walk along `outputs[0]` carries fuel equal to the number of actions. Running out stands for a cyclic chain, on which the Python loop never ends (`Diverges`). A dangling `outputs[0]` raises `KeyError` as in the code. An `outputs[0]` that is the FIRST or LAST marker rather than an action id is also modelled as `KeyError`. That assumes the marker's `default` is not a key of the actions cache; `ActionIO` and `ActionIOEnum` are not part of this model.
- Recoverer.RecoverRelinks: the relinking lemmas assume every action is filed under its own id. The code looks up the previous action by its `id` field.
- RoundTrip.EmitThenRecover: the round trip needs the object part of each action type to contain no space. `fix_object_name` replaces spaces with '_', but the recoverer compares against plain `convert_cc`, so such an action does not read back.
- RoundTrip.ChainLinksKept: the recovered output of each chained action equals its first output in the project. Outputs beyond the first, which the emitter never follows, are dropped by recovery.
- The `Robot` fixture leaves out `import time`, the return annotations of its methods, its comments (the `# type: ignore` among them) and the line breaks around its docstring. The method bodies, `raise NotImplementedError()` and `time.sleep(1); return`, are modelled.
- `arcor2/nodes/manager.py`, `helpers.server`, `aiologger_formatter`, the parameter plugins, `arcor2/data/utils.py` and its tests are left out. They are concurrency, I/O, logging, schema generation and floating point, none of them part of the compiler.

## Findings

| source | as written | input that shows it | evidently intended | confidence | as-written member | corrected member |
|---|---|---|---|---|---|---|
| generate_source.py:133-142 | the loop `break`s at the first class, so the `else` raising "Multiple class definition!" is never reached and the first class is returned | a module with two top-level classes, say `class A: pass` followed by `class B: pass` | a module with more than one class is refused with "Multiple class definition!" | high, not executed | Inspector.TwoClassesAcceptedAsWritten | Inspector.ObjectClsDef |
| generate_source.py:545-546 | `if not last_assign_idx` treats index 0 like "no assignment" and raises | a `main` whose only statement is `r = R()` | the call is inserted after an assignment at index 0 too | high, not executed | Emitter.FirstAssignRefusedAsWritten | Emitter.AddMethodCallInMain |

`object_type_info` and `get_object_actions` call `object_cls_def`, so `Inspector.ObjectTypeInfo` and `Inspector.GetObjectActions` are built on the code as written and use the first class of a module with several. `Inspector.ObjectClsDefAgrees` shows that this makes no difference on modules with at most one class.
