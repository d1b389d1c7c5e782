# Op-type dispatch registry of the model converters

The converters drive their graph passes through a small registry, in
`snpe-1.21.0/lib/python/converters/translation.py`:

- A `Translation` bundles the behaviours for one op type. It is a dictionary from method name to callable, with `index_method`, `has_indexed_method` and `apply_method`.
- A `TranslationBank` maps op-type strings to translations. Several op types may share one translation object.
  - `register` binds op types to a translation.
  - `apply_specific` dispatches one method to one op type.
  - `apply_partial` and `apply_total` dispatch a method to every node of a graph, in traversal order. `apply_partial` skips nodes whose translation lacks the method. `apply_total` insists that every node has it.

The project has two modules.

- `Dispatch` (`dispatch.dfy`) holds the value-level model:
  - Op types and method names (strings), behaviour tokens, graph nodes and the arguments a behaviour receives.
  - The record of one invocation (`Call`) and the errors.
  - Reference definitions of what each bank operation computes. These are `SpecificTrace`, `PartialFrom`, `TotalFrom` and `RegisterSpec`.
  - An independent description of "the nodes that define `m`, in order" (`Qualifying`), and the lemmas that state what the registry promises.
- `Translations` (`translation.dfy`) holds the two classes, with the same fields as the source.
  - `Translation.indexedMethods` is a `map` that `IndexMethod` reassigns.
  - `TranslationBank.translations` maps op types to `Translation` references, so aliasing is real: one object under several keys.
  - The `for` loops of `register`, `apply_partial` and `apply_total` are `while` loops. Their invariants prove them equal to the reference definitions.

Invoking a behaviour is modelled in two parts:

- **The invocation record.** Each invocation is a `Call`: the behaviour token, the method name and the arguments. The dispatch methods return the records in an out-parameter `calls`, in order.
- **The outcome.** What the behaviour does is given by a parameter `run: Call -> Outcome`. It either returns a value or raises an exception. A raised exception propagates out of every dispatch as `BehaviourFailed`.

`apply_partial` and `apply_total` discard what the behaviours return. `apply_specific` and `apply_method` return it.

In the source, every error is a `KeyError` with a different message. The model tells them apart by constructor:

- `LookupError`: `apply_method` on an unindexed name.
- `UnregisteredOp`: `__get_translation` on an unbound op type.
- `MissingMethod`: `apply_specific` when the translation lacks the method.
- `DuplicateRegistration`: `register` on an op type that is already bound.

`register` checks each op type against the bindings made so far in the same call (`translation.py:50-53`). So `register(t, "A", "A")` binds the first `"A"` and then fails on the second. `RegisterSucceeds` therefore asks for the op types of one call to be pairwise distinct, as well as unbound.

## Model

| member | source | states |
|---|---|---|
| Translations.Translation.constructor | snpe-1.21.0/lib/python/converters/translation.py:10-11 | a new translation indexes no method |
| Translations.Translation.ApplyMethod | snpe-1.21.0/lib/python/converters/translation.py:13-14 | an unindexed name fails with a lookup error and invokes nothing; otherwise exactly one invocation, of the behaviour indexed under the name, with the given arguments, and the caller gets that behaviour's value or its exception |
| Translations.Translation.IndexMethod | snpe-1.21.0/lib/python/converters/translation.py:16-17 | afterwards `HasIndexedMethod(name)` holds and `name` is bound to the new behaviour, silently replacing any earlier one; every other name keeps exactly its binding |
| Translations.IndexThenApply | snpe-1.21.0/lib/python/converters/translation.py:13-17 | applying a name just indexed invokes the behaviour just indexed, whatever was bound before |
| Translations.Translation.HasIndexedMethod | snpe-1.21.0/lib/python/converters/translation.py:19-20 | true exactly when the name is indexed; it reads only the translation and has no precondition, so it changes no state and is defined for every name |
| Translations.TranslationBank.constructor | snpe-1.21.0/lib/python/converters/translation.py:23-26 | a new bank binds no op type |
| Translations.TranslationBank.GetTranslation | snpe-1.21.0/lib/python/converters/translation.py:28-31 | succeeds exactly when the op type is bound, and then yields the very object bound to it; otherwise fails with an unregistered-op error naming the op type |
| Translations.TranslationBank.ApplySpecific | snpe-1.21.0/lib/python/converters/translation.py:33-37 | an unbound op type gives an unregistered-op error, and a translation without the method gives a missing-method error; both invoke nothing; otherwise exactly one invocation, of the bound behaviour, whose result is returned |
| Translations.RegisterThenApply | snpe-1.21.0/lib/python/converters/translation.py:33-53 | after registering a translation for a fresh op type, `apply_specific` on that op type invokes the translation's behaviour for the method, once, with the given arguments |
| Translations.TranslationBank.ApplyPartial | snpe-1.21.0/lib/python/converters/translation.py:39-43 | its result and call log are those of the reference traversal `PartialFrom` on the bank's table, from the first node |
| Translations.TranslationBank.ApplyTotal | snpe-1.21.0/lib/python/converters/translation.py:45-47 | its result and call log are those of the reference traversal `TotalFrom` (each node through `apply_specific`), from the first node |
| Translations.TranslationBank.Register | snpe-1.21.0/lib/python/converters/translation.py:49-53 | its result and the bindings it leaves are those of `RegisterSpec` applied to the bindings before the call |
| Dispatch.QualifyingCalls | snpe-1.21.0/lib/python/converters/translation.py:39-43 | the qualifying invocations are exactly one per node whose translation defines the method: each is that node's behaviour applied to that node, they go in strictly increasing node order, and every defining node has one |
| Dispatch.PartialPrefix | snpe-1.21.0/lib/python/converters/translation.py:39-43 | over a stretch of registered nodes whose invoked behaviours return, `apply_partial` invokes exactly the qualifying nodes, in order, and then carries on as from the end of the stretch |
| Dispatch.PartialSucceeds | snpe-1.21.0/lib/python/converters/translation.py:39-43 | `apply_partial` succeeds if and only if every node is registered and every invoked behaviour returns; its log is then exactly the qualifying invocations, so a node whose translation lacks the method gets no call and raises no error |
| Dispatch.PartialFailsUnregistered | snpe-1.21.0/lib/python/converters/translation.py:39-43 | at the first unregistered node, `apply_partial` fails with an unregistered-op error naming that node's op type, having invoked exactly the qualifying nodes before it |
| Dispatch.PartialFailsInBehaviour | snpe-1.21.0/lib/python/converters/translation.py:39-43 | when the first failure is a behaviour raising, `apply_partial` propagates its exception, and that invocation is the last in the log after the qualifying nodes before it |
| Dispatch.TotalPrefix | snpe-1.21.0/lib/python/converters/translation.py:45-47 | over a stretch of nodes that all define the method and whose behaviours return, `apply_total` makes one invocation per node, in order, then carries on as from the end |
| Dispatch.TotalSucceeds | snpe-1.21.0/lib/python/converters/translation.py:45-47 | `apply_total` succeeds if and only if every node is registered, defines the method and its behaviour returns; it then makes exactly one invocation per node, in graph order |
| Dispatch.TotalFailsAt | snpe-1.21.0/lib/python/converters/translation.py:45-47 | at the first bad node, `apply_total` fails with an unregistered-op, missing-method or propagated error, as the node dictates; it has invoked every earlier node once, in order, that node only if its behaviour was invoked, and nothing after it |
| Dispatch.QualifyingAll | snpe-1.21.0/lib/python/converters/translation.py:45-47 | when every node defines the method, the qualifying invocations are one per node, in order |
| Dispatch.RegisterSucceeds | snpe-1.21.0/lib/python/converters/translation.py:49-53 | `register` succeeds if and only if every op type of the call is unbound and no op type repeats within the call |
| Dispatch.RegisterStopsAt | snpe-1.21.0/lib/python/converters/translation.py:49-53 | if `k` is the first position that clashes, `register` fails with a duplicate error naming that op type; if no position clashes, it succeeds. Earlier bindings all stay intact, the op types before `k` are bound to the same translation, and nothing else is bound. With no op types at all, this means success and an unchanged bank |
| Dispatch.RegisterBoundFails | snpe-1.21.0/lib/python/converters/translation.py:50-53 | registering an op type that is already bound fails with a duplicate error naming an op type of the call, and the existing binding is left intact |
| Dispatch.ConvReluScenario | snpe-1.21.0/lib/python/converters/translation.py:39-47 | with one translation defining "lower" shared by Conv and DepthwiseConv, and one for Relu without it, on the graph Conv, Relu, Conv: `apply_partial` lowers the two Conv nodes, in order, and never calls for Relu; `apply_total` fails with a missing-method error at Relu after lowering the first Conv only |
| Translations.BuildConvReluBank | snpe-1.21.0/lib/python/converters/translation.py:49-53 | registering one translation under two op types makes both keys refer to the same object |
| Translations.ConvReluBank | snpe-1.21.0/lib/python/converters/translation.py:39-47 | the same scenario run through the classes, on a bank built by `IndexMethod` and `Register`, gives the same results and call logs |

## Left out

- The image preprocessing script `snpe-1.21.0/models/inception_v3/scripts/create_inceptionv3_raws.py`. It is file I/O, image decoding, float arithmetic and argument parsing, and the registry does not use it.
- What behaviours do to nodes and graphs. A behaviour is an opaque token, and its outcome is given by `run`. That outcome depends only on the invocation record. The model therefore does not capture behaviours that mutate the bank, the graph or each other, or that call back into the registry.
- What a behaviour returns and what it raises. Each is stood in for by an `int`, because the registry passes them on without inspecting them.
- The graph argument that `apply_partial` and `apply_total` pass to every behaviour. It is the same for every call of one traversal, so the invocation record leaves it out.
- Node identity. The graph is a sequence of nodes visited in order, standing for `graph.list_nodes()`, which is read once before the loop. A node is known by its op type and its position. How `list_nodes` and `node.op.type` work is not part of this model.
- Variadic argument forwarding. The trailing `*args` is one opaque value (`Extra`) passed through unchanged.
- Exception message text, and the fact that all four errors are `KeyError`. Only which error occurs, and what it names, is modelled.
- `__get_translation`'s name mangling. It is the bank function `GetTranslation`.
