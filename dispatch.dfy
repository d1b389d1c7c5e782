/**
 * Value-level model of the op-type dispatch registry of the model converters:
 * the data that flows through a dispatch (op types, method names, behaviour
 * tokens, graph nodes, the log of invocations), the errors it can raise, and
 * reference definitions of what `register`, `apply_specific`, `apply_partial`
 * and `apply_total` compute, with the properties the registry promises proved
 * about them. The classes in module Translations are proved equal to these.
 */
module Dispatch {

  type OpType = string
  type MethodName = string

  /** An opaque token standing for one registered callable. */
  datatype Behaviour = Behaviour(id: nat)

  /** A graph node; only its op type is visible to the registry. */
  datatype Node = Node(opType: OpType)

  /** The trailing `*args` of a dispatch call, passed through unchanged. */
  datatype Extra = Extra(id: nat)

  /** The arguments a behaviour receives: either whatever the caller of
      `apply_specific`/`apply_method` passed, or the node (with its position
      in the traversal) followed by the pass-through arguments. */
  datatype Args = Direct(extra: Extra) | OnNode(index: nat, node: Node, extra: Extra)

  /** One invocation of a behaviour, as recorded in the call log. */
  datatype Call = Call(behaviour: Behaviour, methodName: MethodName, args: Args)

  /** What an invoked behaviour did: returned a value or raised an exception. */
  datatype Outcome = Returned(value: int) | Raised(exception: int)

  datatype Error =
    | LookupError(methodName: MethodName)                       // apply_method on an unindexed name
    | UnregisteredOp(opType: OpType)                            // no translation for the op type
    | MissingMethod(opType: OpType, methodName: MethodName)     // translation lacks the method
    | DuplicateRegistration(opType: OpType)                     // op type registered twice
    | BehaviourFailed(exception: int)                           // the invoked behaviour raised

  datatype Result<T> = Ok(value: T) | Err(error: Error)

  /** The outcome of a dispatch together with the invocations it made, in order. */
  datatype Trace<T> = Trace(result: Result<T>, calls: seq<Call>)

  /** The outcome of `register` together with the bindings it leaves. */
  datatype Registration<T> = Registration(result: Result<()>, bindings: map<OpType, T>)

  /** A translation's indexed methods, and the bank seen through its translations. */
  type Methods = map<MethodName, Behaviour>
  type Table = map<OpType, Methods>

  /** The result a caller sees from invoking a behaviour: its value, or its
      exception propagated. */
  function Invoke(c: Call, run: Call -> Outcome): Result<int>
  {
    match run(c)
    case Returned(v) => Ok(v)
    case Raised(e) => Err(BehaviourFailed(e))
  }

  /** Appends later invocations to those already made. */
  function Then<T>(calls: seq<Call>, t: Trace<T>): Trace<T>
  {
    Trace(t.result, calls + t.calls)
  }

  /** Appending in two steps is appending once. */
  lemma ThenThen<T>(a: seq<Call>, b: seq<Call>, t: Trace<T>)
    ensures Then(a, Then(b, t)) == Then(a + b, t)
  {
    assert a + (b + t.calls) == (a + b) + t.calls;
  }

  // ---------------------------------------------------------------------
  // apply_specific
  // ---------------------------------------------------------------------

  /** Reference definition of `apply_specific(op, m, *args)`: strict lookup of
      the op type, then of the method, then one invocation. */
  function SpecificTrace(table: Table, op: OpType, m: MethodName, args: Args, run: Call -> Outcome): Trace<int>
  {
    if op !in table then Trace(Err(UnregisteredOp(op)), [])
    else if m !in table[op] then Trace(Err(MissingMethod(op, m)), [])
    else
      var c := Call(table[op][m], m, args);
      Trace(Invoke(c, run), [c])
  }

  // ---------------------------------------------------------------------
  // Per-node vocabulary for the graph traversals
  // ---------------------------------------------------------------------

  predicate Registered(table: Table, n: Node)
  {
    n.opType in table
  }

  /** The node's op type is registered and its translation indexes `m`. */
  predicate Defines(table: Table, n: Node, m: MethodName)
  {
    n.opType in table && m in table[n.opType]
  }

  /** The invocation a traversal makes for node `j`. */
  function NodeCall(table: Table, m: MethodName, g: seq<Node>, extra: Extra, j: nat): Call
    requires j < |g| && Defines(table, g[j], m)
  {
    Call(table[g[j].opType][m], m, OnNode(j, g[j], extra))
  }

  /** Node `j` lets `apply_partial` carry on: it is registered, and if it
      defines `m` the behaviour returns normally. */
  predicate PartialClear(table: Table, m: MethodName, g: seq<Node>, extra: Extra, run: Call -> Outcome, j: nat)
    requires j < |g|
  {
    Registered(table, g[j]) && (Defines(table, g[j], m) ==> run(NodeCall(table, m, g, extra, j)).Returned?)
  }

  /** Node `j` lets `apply_total` carry on: it defines `m` and the behaviour
      returns normally. */
  predicate TotalClear(table: Table, m: MethodName, g: seq<Node>, extra: Extra, run: Call -> Outcome, j: nat)
    requires j < |g|
  {
    Defines(table, g[j], m) && run(NodeCall(table, m, g, extra, j)).Returned?
  }

  /** Independent reference for "the nodes whose translation defines `m`, in
      graph order": the invocations for those nodes among `g[lo..hi]`. */
  function Qualifying(table: Table, m: MethodName, g: seq<Node>, extra: Extra, lo: nat, hi: nat): seq<Call>
    requires lo <= hi <= |g|
    decreases hi - lo
  {
    if lo == hi then []
    else if Defines(table, g[lo], m) then [NodeCall(table, m, g, extra, lo)] + Qualifying(table, m, g, extra, lo + 1, hi)
    else Qualifying(table, m, g, extra, lo + 1, hi)
  }

  /** `c` is the invocation for some node of `g[lo..hi]` that defines `m`. */
  ghost predicate CallFor(table: Table, m: MethodName, g: seq<Node>, extra: Extra, lo: nat, hi: nat, c: Call)
    requires lo <= hi <= |g|
  {
    c.args.OnNode? && lo <= c.args.index < hi
    && Defines(table, g[c.args.index], m)
    && c == NodeCall(table, m, g, extra, c.args.index)
  }

  /** Every invocation in `calls` is the one for some node of `g[lo..hi]`
      that defines `m`. */
  ghost predicate ForDefiningNodes(table: Table, m: MethodName, g: seq<Node>, extra: Extra, lo: nat, hi: nat, calls: seq<Call>)
    requires lo <= hi <= |g|
  {
    forall k :: 0 <= k < |calls| ==> CallFor(table, m, g, extra, lo, hi, calls[k])
  }

  /** The invocations in `calls` are for strictly increasing node positions. */
  ghost predicate InGraphOrder(calls: seq<Call>)
  {
    forall k, l :: 0 <= k < l < |calls| && calls[k].args.OnNode? && calls[l].args.OnNode?
      ==> calls[k].args.index < calls[l].args.index
  }

  /** Every node of `g[lo..hi]` that defines `m` has an invocation in `calls`. */
  ghost predicate CoversDefiningNodes(table: Table, m: MethodName, g: seq<Node>, lo: nat, hi: nat, calls: seq<Call>)
    requires lo <= hi <= |g|
  {
    forall j :: lo <= j < hi && Defines(table, g[j], m) ==>
      exists k :: 0 <= k < |calls| && calls[k].args.OnNode? && calls[k].args.index == j
  }

  /** `calls` is one invocation for each node of `g[lo..hi]`, in graph order. */
  ghost predicate EveryNodeOnce(table: Table, m: MethodName, g: seq<Node>, extra: Extra, lo: nat, hi: nat, calls: seq<Call>)
    requires lo <= hi <= |g|
  {
    |calls| == hi - lo
    && forall n :: 0 <= n < |calls| ==>
         Defines(table, g[lo + n], m) && calls[n] == NodeCall(table, m, g, extra, lo + n)
  }

  /** `Qualifying` holds exactly the invocations for the nodes of `g[lo..hi]`
      that define `m`, each once, in graph order. */
  lemma QualifyingCalls(table: Table, m: MethodName, g: seq<Node>, extra: Extra, lo: nat, hi: nat)
    requires lo <= hi <= |g|
    ensures ForDefiningNodes(table, m, g, extra, lo, hi, Qualifying(table, m, g, extra, lo, hi))
    ensures InGraphOrder(Qualifying(table, m, g, extra, lo, hi))
    ensures CoversDefiningNodes(table, m, g, lo, hi, Qualifying(table, m, g, extra, lo, hi))
  {
    var q := Qualifying(table, m, g, extra, lo, hi);
    forall k | 0 <= k < |q| ensures CallFor(table, m, g, extra, lo, hi, q[k]) {
      QualifyingAt(table, m, g, extra, lo, hi, k);
    }
    forall k, l | 0 <= k < l < |q| && q[k].args.OnNode? && q[l].args.OnNode?
      ensures q[k].args.index < q[l].args.index
    {
      QualifyingOrderAt(table, m, g, extra, lo, hi, k, l);
    }
    forall j | lo <= j < hi && Defines(table, g[j], m)
      ensures exists k :: 0 <= k < |q| && q[k].args.OnNode? && q[k].args.index == j
    {
      var k := QualifyingHas(table, m, g, extra, lo, hi, j);
    }
  }

  /** Helper: the first element of `Qualifying` and how the rest relates to
      the tail. */
  lemma QualifyingUnfold(table: Table, m: MethodName, g: seq<Node>, extra: Extra, lo: nat, hi: nat)
    requires lo < hi <= |g|
    ensures Defines(table, g[lo], m) ==>
      Qualifying(table, m, g, extra, lo, hi) == [NodeCall(table, m, g, extra, lo)] + Qualifying(table, m, g, extra, lo + 1, hi)
    ensures !Defines(table, g[lo], m) ==>
      Qualifying(table, m, g, extra, lo, hi) == Qualifying(table, m, g, extra, lo + 1, hi)
  {
  }

  /** Helper: the `k`-th element of `Qualifying` is for a defining node. */
  lemma {:induction false} QualifyingAt(table: Table, m: MethodName, g: seq<Node>, extra: Extra, lo: nat, hi: nat, k: nat)
    requires lo <= hi <= |g| && k < |Qualifying(table, m, g, extra, lo, hi)|
    ensures CallFor(table, m, g, extra, lo, hi, Qualifying(table, m, g, extra, lo, hi)[k])
    decreases hi - lo
  {
    QualifyingUnfold(table, m, g, extra, lo, hi);
    var q, rest := Qualifying(table, m, g, extra, lo, hi), Qualifying(table, m, g, extra, lo + 1, hi);
    if Defines(table, g[lo], m) {
      if 0 < k {
        assert q[k] == rest[k - 1];
        QualifyingAt(table, m, g, extra, lo + 1, hi, k - 1);
      }
    } else {
      QualifyingAt(table, m, g, extra, lo + 1, hi, k);
    }
  }

  /** Helper: the `k`-th element of `Qualifying` is for a node of `g[lo..hi]`. */
  lemma {:induction false} QualifyingIndexAt(table: Table, m: MethodName, g: seq<Node>, extra: Extra, lo: nat, hi: nat, k: nat)
    requires lo <= hi <= |g| && k < |Qualifying(table, m, g, extra, lo, hi)|
    ensures Qualifying(table, m, g, extra, lo, hi)[k].args.OnNode?
    ensures lo <= Qualifying(table, m, g, extra, lo, hi)[k].args.index < hi
    decreases hi - lo
  {
    QualifyingUnfold(table, m, g, extra, lo, hi);
    var q, rest := Qualifying(table, m, g, extra, lo, hi), Qualifying(table, m, g, extra, lo + 1, hi);
    if Defines(table, g[lo], m) {
      if 0 < k {
        assert q[k] == rest[k - 1];
        QualifyingIndexAt(table, m, g, extra, lo + 1, hi, k - 1);
      }
    } else {
      QualifyingIndexAt(table, m, g, extra, lo + 1, hi, k);
    }
  }

  /** Helper: later elements of `Qualifying` are for later nodes. */
  lemma {:induction false} QualifyingOrderAt(table: Table, m: MethodName, g: seq<Node>, extra: Extra, lo: nat, hi: nat, k: nat, l: nat)
    requires lo <= hi <= |g| && k < l < |Qualifying(table, m, g, extra, lo, hi)|
    ensures Qualifying(table, m, g, extra, lo, hi)[k].args.OnNode?
    ensures Qualifying(table, m, g, extra, lo, hi)[l].args.OnNode?
    ensures Qualifying(table, m, g, extra, lo, hi)[k].args.index < Qualifying(table, m, g, extra, lo, hi)[l].args.index
    decreases hi - lo
  {
    QualifyingUnfold(table, m, g, extra, lo, hi);
    var q, rest := Qualifying(table, m, g, extra, lo, hi), Qualifying(table, m, g, extra, lo + 1, hi);
    if Defines(table, g[lo], m) {
      assert q[l] == rest[l - 1];
      if k == 0 {
        assert q[0] == NodeCall(table, m, g, extra, lo);
        QualifyingIndexAt(table, m, g, extra, lo + 1, hi, l - 1);
      } else {
        assert q[k] == rest[k - 1];
        QualifyingOrderAt(table, m, g, extra, lo + 1, hi, k - 1, l - 1);
      }
    } else {
      assert q[k] == rest[k] && q[l] == rest[l];
      QualifyingOrderAt(table, m, g, extra, lo + 1, hi, k, l);
    }
  }

  /** Helper: a defining node has its invocation in `Qualifying`, at the
      returned position. */
  lemma {:induction false} QualifyingHas(table: Table, m: MethodName, g: seq<Node>, extra: Extra, lo: nat, hi: nat, j: nat) returns (k: nat)
    requires lo <= j < hi <= |g| && Defines(table, g[j], m)
    ensures k < |Qualifying(table, m, g, extra, lo, hi)|
    ensures Qualifying(table, m, g, extra, lo, hi)[k].args.OnNode?
    ensures Qualifying(table, m, g, extra, lo, hi)[k].args.index == j
    decreases hi - lo
  {
    QualifyingUnfold(table, m, g, extra, lo, hi);
    var q, rest := Qualifying(table, m, g, extra, lo, hi), Qualifying(table, m, g, extra, lo + 1, hi);
    if j == lo {
      k := 0;
    } else {
      var k' := QualifyingHas(table, m, g, extra, lo + 1, hi, j);
      k := if Defines(table, g[lo], m) then k' + 1 else k';
      assert q[k] == rest[k'];
    }
  }

  /** When every node of `g[lo..hi]` defines `m`, `Qualifying` is one
      invocation per node, in order. */
  lemma {:induction false} QualifyingAll(table: Table, m: MethodName, g: seq<Node>, extra: Extra, lo: nat, hi: nat)
    requires lo <= hi <= |g|
    requires forall j :: lo <= j < hi ==> Defines(table, g[j], m)
    ensures EveryNodeOnce(table, m, g, extra, lo, hi, Qualifying(table, m, g, extra, lo, hi))
    decreases hi - lo
  {
    if lo < hi {
      QualifyingAll(table, m, g, extra, lo + 1, hi);
    }
  }

  // ---------------------------------------------------------------------
  // apply_partial
  // ---------------------------------------------------------------------

  /** Reference definition of `apply_partial(m, graph, *args)` from node `i` on:
      an unregistered node aborts, a node whose translation lacks `m` is
      skipped, any other node gets one invocation of its behaviour for `m`,
      whose exception (if any) aborts. */
  function PartialFrom(table: Table, m: MethodName, g: seq<Node>, extra: Extra, run: Call -> Outcome, i: nat): Trace<()>
    requires i <= |g|
    decreases |g| - i
  {
    if i == |g| then Trace(Ok(()), [])
    else if !Registered(table, g[i]) then Trace(Err(UnregisteredOp(g[i].opType)), [])
    else if !Defines(table, g[i], m) then PartialFrom(table, m, g, extra, run, i + 1)
    else
      var c := NodeCall(table, m, g, extra, i);
      match Invoke(c, run)
      case Err(e) => Trace(Err(e), [c])
      case Ok(_) => Then([c], PartialFrom(table, m, g, extra, run, i + 1))
  }

  /** One step of `apply_partial`, at node `i`. */
  lemma PartialStep(table: Table, m: MethodName, g: seq<Node>, extra: Extra, run: Call -> Outcome, i: nat)
    requires i < |g|
    ensures PartialClear(table, m, g, extra, run, i) ==>
      PartialFrom(table, m, g, extra, run, i)
      == Then(Qualifying(table, m, g, extra, i, i + 1), PartialFrom(table, m, g, extra, run, i + 1))
    ensures !Registered(table, g[i]) ==>
      PartialFrom(table, m, g, extra, run, i) == Trace(Err(UnregisteredOp(g[i].opType)), [])
    ensures Defines(table, g[i], m) && run(NodeCall(table, m, g, extra, i)).Raised? ==>
      PartialFrom(table, m, g, extra, run, i)
      == Trace(Err(BehaviourFailed(run(NodeCall(table, m, g, extra, i)).exception)), [NodeCall(table, m, g, extra, i)])
  {
    assert Qualifying(table, m, g, extra, i + 1, i + 1) == [];
  }

  /** Helper: a node that lets `apply_partial` carry on adds its
      qualifying invocation, if any. */
  lemma PartialStepClear(table: Table, m: MethodName, g: seq<Node>, extra: Extra, run: Call -> Outcome, i: nat)
    requires i < |g| && PartialClear(table, m, g, extra, run, i)
    ensures PartialFrom(table, m, g, extra, run, i)
         == Then(Qualifying(table, m, g, extra, i, i + 1), PartialFrom(table, m, g, extra, run, i + 1))
  {
    PartialStep(table, m, g, extra, run, i);
  }

  /** `Qualifying` over `g[lo..hi]` splits at any `mid`. */
  lemma {:induction false} QualifyingSplit(table: Table, m: MethodName, g: seq<Node>, extra: Extra, lo: nat, mid: nat, hi: nat)
    requires lo <= mid <= hi <= |g|
    ensures Qualifying(table, m, g, extra, lo, hi)
         == Qualifying(table, m, g, extra, lo, mid) + Qualifying(table, m, g, extra, mid, hi)
    decreases mid - lo
  {
    if lo < mid {
      QualifyingSplit(table, m, g, extra, lo + 1, mid, hi);
      var head := if Defines(table, g[lo], m) then [NodeCall(table, m, g, extra, lo)] else [];
      assert head + (Qualifying(table, m, g, extra, lo + 1, mid) + Qualifying(table, m, g, extra, mid, hi))
          == (head + Qualifying(table, m, g, extra, lo + 1, mid)) + Qualifying(table, m, g, extra, mid, hi);
    }
  }

  /** Over a stretch of nodes that let the traversal carry on, `apply_partial`
      invokes exactly the qualifying nodes, in order, and then goes on as from
      the end of the stretch. */
  lemma {:induction false} PartialPrefix(table: Table, m: MethodName, g: seq<Node>, extra: Extra, run: Call -> Outcome, i: nat, k: nat)
    requires i <= k <= |g|
    requires forall j :: i <= j < k ==> PartialClear(table, m, g, extra, run, j)
    ensures PartialFrom(table, m, g, extra, run, i)
         == Then(Qualifying(table, m, g, extra, i, k), PartialFrom(table, m, g, extra, run, k))
    decreases k - i
  {
    if i < k {
      PartialPrefix(table, m, g, extra, run, i + 1, k);
      PartialStepClear(table, m, g, extra, run, i);
      QualifyingSplit(table, m, g, extra, i, i + 1, k);
      ThenThen(Qualifying(table, m, g, extra, i, i + 1), Qualifying(table, m, g, extra, i + 1, k),
               PartialFrom(table, m, g, extra, run, k));
    }
  }

  /** `apply_partial` succeeds exactly when every node is registered and every
      invoked behaviour returns; it then invokes exactly the nodes whose
      translation defines `m`, in graph order, and nothing else. */
  lemma {:induction false} PartialSucceeds(table: Table, m: MethodName, g: seq<Node>, extra: Extra, run: Call -> Outcome, i: nat)
    requires i <= |g|
    ensures PartialFrom(table, m, g, extra, run, i).result.Ok?
        <==> forall j :: i <= j < |g| ==> PartialClear(table, m, g, extra, run, j)
    ensures PartialFrom(table, m, g, extra, run, i).result.Ok?
        ==> PartialFrom(table, m, g, extra, run, i).calls == Qualifying(table, m, g, extra, i, |g|)
    decreases |g| - i
  {
    if i < |g| {
      PartialSucceeds(table, m, g, extra, run, i + 1);
      PartialStep(table, m, g, extra, run, i);
      if PartialClear(table, m, g, extra, run, i) {
        QualifyingSplit(table, m, g, extra, i, i + 1, |g|);
        assert (forall j :: i <= j < |g| ==> PartialClear(table, m, g, extra, run, j))
           <==> (forall j :: i + 1 <= j < |g| ==> PartialClear(table, m, g, extra, run, j));
      }
    }
  }

  /** `apply_partial` fails with an unregistered-op error at the first node
      whose op type is unbound, having invoked only the qualifying nodes
      before it. */
  lemma PartialFailsUnregistered(table: Table, m: MethodName, g: seq<Node>, extra: Extra, run: Call -> Outcome, k: nat)
    requires k < |g| && !Registered(table, g[k])
    requires forall j :: 0 <= j < k ==> PartialClear(table, m, g, extra, run, j)
    ensures PartialFrom(table, m, g, extra, run, 0)
         == Trace(Err(UnregisteredOp(g[k].opType)), Qualifying(table, m, g, extra, 0, k))
  {
    PartialPrefix(table, m, g, extra, run, 0, k);
    PartialStep(table, m, g, extra, run, k);
  }

  /** `apply_partial` propagates the exception of the first invoked behaviour
      that raises; that invocation is the last one made. */
  lemma PartialFailsInBehaviour(table: Table, m: MethodName, g: seq<Node>, extra: Extra, run: Call -> Outcome, k: nat)
    requires k < |g| && Defines(table, g[k], m) && run(NodeCall(table, m, g, extra, k)).Raised?
    requires forall j :: 0 <= j < k ==> PartialClear(table, m, g, extra, run, j)
    ensures PartialFrom(table, m, g, extra, run, 0)
         == Trace(Err(BehaviourFailed(run(NodeCall(table, m, g, extra, k)).exception)),
                  Qualifying(table, m, g, extra, 0, k) + [NodeCall(table, m, g, extra, k)])
  {
    PartialPrefix(table, m, g, extra, run, 0, k);
    PartialStep(table, m, g, extra, run, k);
  }

  // ---------------------------------------------------------------------
  // apply_total
  // ---------------------------------------------------------------------

  /** Reference definition of `apply_total(m, graph, *args)` from node `i` on:
      each node is handed to `apply_specific` with the node as argument, and
      the first failure aborts the traversal. */
  function TotalFrom(table: Table, m: MethodName, g: seq<Node>, extra: Extra, run: Call -> Outcome, i: nat): Trace<()>
    requires i <= |g|
    decreases |g| - i
  {
    if i == |g| then Trace(Ok(()), [])
    else
      var s := SpecificTrace(table, g[i].opType, m, OnNode(i, g[i], extra), run);
      if s.result.Err? then Trace(Err(s.result.error), s.calls)
      else Then(s.calls, TotalFrom(table, m, g, extra, run, i + 1))
  }

  /** One step of `apply_total`, at node `i`. */
  lemma TotalStep(table: Table, m: MethodName, g: seq<Node>, extra: Extra, run: Call -> Outcome, i: nat)
    requires i < |g|
    ensures TotalClear(table, m, g, extra, run, i) ==>
      TotalFrom(table, m, g, extra, run, i)
      == Then([NodeCall(table, m, g, extra, i)], TotalFrom(table, m, g, extra, run, i + 1))
    ensures !Registered(table, g[i]) ==>
      TotalFrom(table, m, g, extra, run, i) == Trace(Err(UnregisteredOp(g[i].opType)), [])
    ensures Registered(table, g[i]) && !Defines(table, g[i], m) ==>
      TotalFrom(table, m, g, extra, run, i) == Trace(Err(MissingMethod(g[i].opType, m)), [])
    ensures Defines(table, g[i], m) && run(NodeCall(table, m, g, extra, i)).Raised? ==>
      TotalFrom(table, m, g, extra, run, i)
      == Trace(Err(BehaviourFailed(run(NodeCall(table, m, g, extra, i)).exception)), [NodeCall(table, m, g, extra, i)])
  {
  }

  /** Over a stretch of nodes that all define `m` and whose behaviours
      return, `apply_total` invokes every node once, in order. */
  lemma {:induction false} TotalPrefix(table: Table, m: MethodName, g: seq<Node>, extra: Extra, run: Call -> Outcome, i: nat, k: nat)
    requires i <= k <= |g|
    requires forall j :: i <= j < k ==> TotalClear(table, m, g, extra, run, j)
    ensures TotalFrom(table, m, g, extra, run, i)
         == Then(Qualifying(table, m, g, extra, i, k), TotalFrom(table, m, g, extra, run, k))
    decreases k - i
  {
    if i < k {
      TotalPrefix(table, m, g, extra, run, i + 1, k);
      assert TotalClear(table, m, g, extra, run, i);
      TotalStep(table, m, g, extra, run, i);
      QualifyingUnfold(table, m, g, extra, i, k);
      ThenThen([NodeCall(table, m, g, extra, i)], Qualifying(table, m, g, extra, i + 1, k),
               TotalFrom(table, m, g, extra, run, k));
    }
  }

  /** `apply_total` succeeds exactly when every node's op type is registered
      and defines `m` (and no behaviour raises); it then makes one invocation
      per node, in graph order. */
  lemma {:induction false} TotalSucceeds(table: Table, m: MethodName, g: seq<Node>, extra: Extra, run: Call -> Outcome, i: nat)
    requires i <= |g|
    ensures TotalFrom(table, m, g, extra, run, i).result.Ok?
        <==> forall j :: i <= j < |g| ==> TotalClear(table, m, g, extra, run, j)
    ensures TotalFrom(table, m, g, extra, run, i).result.Ok?
        ==> EveryNodeOnce(table, m, g, extra, i, |g|, TotalFrom(table, m, g, extra, run, i).calls)
    decreases |g| - i
  {
    if i < |g| {
      TotalSucceeds(table, m, g, extra, run, i + 1);
      TotalStep(table, m, g, extra, run, i);
      assert (forall j :: i <= j < |g| ==> TotalClear(table, m, g, extra, run, j))
         <==> TotalClear(table, m, g, extra, run, i) && (forall j :: i + 1 <= j < |g| ==> TotalClear(table, m, g, extra, run, j));
    }
    if forall j :: i <= j < |g| ==> TotalClear(table, m, g, extra, run, j) {
      TotalPrefix(table, m, g, extra, run, i, |g|);
      forall j | i <= j < |g| ensures Defines(table, g[j], m) {
        assert TotalClear(table, m, g, extra, run, j);
      }
      QualifyingAll(table, m, g, extra, i, |g|);
    }
  }

  /** `apply_total` fails at the first node that is unregistered, lacks `m`,
      or whose behaviour raises, with the matching error; it has then invoked
      `m` on every node before it, in order, and on that node only if its
      behaviour was invoked and raised. */
  lemma TotalFailsAt(table: Table, m: MethodName, g: seq<Node>, extra: Extra, run: Call -> Outcome, k: nat)
    requires k < |g| && !TotalClear(table, m, g, extra, run, k)
    requires forall j :: 0 <= j < k ==> TotalClear(table, m, g, extra, run, j)
    ensures TotalFrom(table, m, g, extra, run, 0).result
         == Err(if !Registered(table, g[k]) then UnregisteredOp(g[k].opType)
                else if !Defines(table, g[k], m) then MissingMethod(g[k].opType, m)
                else BehaviourFailed(run(NodeCall(table, m, g, extra, k)).exception))
    ensures !Defines(table, g[k], m)
        ==> EveryNodeOnce(table, m, g, extra, 0, k, TotalFrom(table, m, g, extra, run, 0).calls)
    ensures Defines(table, g[k], m)
        ==> EveryNodeOnce(table, m, g, extra, 0, k + 1, TotalFrom(table, m, g, extra, run, 0).calls)
  {
    TotalPrefix(table, m, g, extra, run, 0, k);
    TotalStep(table, m, g, extra, run, k);
    forall j | 0 <= j < k ensures Defines(table, g[j], m) {
      assert TotalClear(table, m, g, extra, run, j);
    }
    QualifyingAll(table, m, g, extra, 0, k);
  }

  // ---------------------------------------------------------------------
  // register
  // ---------------------------------------------------------------------

  /** Reference definition of `register(t, *ops)` on bindings `b`: op types are
      bound one at a time, and the first one already bound (possibly by an
      earlier op type of the same call) aborts, keeping what was bound so far. */
  function RegisterSpec<T>(b: map<OpType, T>, t: T, ops: seq<OpType>): Registration<T>
    decreases |ops|
  {
    if ops == [] then Registration(Ok(()), b)
    else if ops[0] in b then Registration(Err(DuplicateRegistration(ops[0])), b)
    else RegisterSpec(b[ops[0] := t], t, ops[1..])
  }

  /** The first `k` op types of the call are unbound in `b` and pairwise distinct. */
  ghost predicate FreshUpTo<T>(b: map<OpType, T>, ops: seq<OpType>, k: nat)
    requires k <= |ops|
  {
    forall j :: 0 <= j < k ==> ops[j] !in b && ops[j] !in ops[..j]
  }

  /** `register` succeeds exactly when every op type of the call is unbound
      and none is repeated within the call. */
  lemma {:induction false} RegisterSucceeds<T>(b: map<OpType, T>, t: T, ops: seq<OpType>)
    ensures RegisterSpec(b, t, ops).result.Ok? <==> FreshUpTo(b, ops, |ops|)
    decreases |ops|
  {
    if ops != [] {
      var b' := b[ops[0] := t];
      RegisterSucceeds(b', t, ops[1..]);
      if ops[0] !in b {
        FreshShift(b, t, ops, |ops|);
      }
    }
  }

  /** `b'` is `b` with exactly `ops[..k]` added, each bound to `t`. */
  ghost predicate BoundUpTo<T>(b: map<OpType, T>, t: T, ops: seq<OpType>, k: nat, b': map<OpType, T>)
    requires k <= |ops|
  {
    && (forall op :: op in b ==> op in b' && b'[op] == b[op])
    && (forall j :: 0 <= j < k ==> ops[j] in b' && b'[ops[j]] == t)
    && (forall op :: op in b' ==> op in b || op in ops[..k])
  }

  /** If `k` is the position of the first clash (or the end of the call), the
      result of `register` is decided: it fails with a duplicate error naming
      `ops[k]` (or succeeds), prior bindings are all intact, `ops[..k]` are
      bound to `t`, and nothing else is bound. */
  lemma {:induction false} RegisterStopsAt<T>(b: map<OpType, T>, t: T, ops: seq<OpType>, k: nat)
    requires k <= |ops| && FreshUpTo(b, ops, k)
    requires k == |ops| || ops[k] in b || ops[k] in ops[..k]
    ensures RegisterSpec(b, t, ops).result
         == if k == |ops| then Ok(()) else Err(DuplicateRegistration(ops[k]))
    ensures BoundUpTo(b, t, ops, k, RegisterSpec(b, t, ops).bindings)
    decreases |ops|
  {
    if k == 0 {
      assert ops[..0] == [];
    } else {
      var b' := b[ops[0] := t];
      FreshShift(b, t, ops, k);
      if k < |ops| {
        assert ops[k] in ops[..k] <==> ops[k] == ops[0] || ops[k] in ops[1..k];
        assert ops[1..][k - 1] == ops[k] && ops[1..][..k - 1] == ops[1..k];
      }
      RegisterStopsAt(b', t, ops[1..], k - 1);
      var reg := RegisterSpec(b', t, ops[1..]);
      forall j | 0 <= j < k ensures ops[j] in reg.bindings && reg.bindings[ops[j]] == t {
        if j > 0 { assert ops[1..][j - 1] == ops[j]; }
      }
      forall op | op in reg.bindings ensures op in b || op in ops[..k] {
        if op !in b' {
          assert op in ops[1..][..k - 1];
          assert ops[1..][..k - 1] == ops[1..k];
        }
      }
    }
  }

  /** Registering an op type that is already bound fails, and that binding
      is left intact. */
  lemma {:induction false} RegisterBoundFails<T>(b: map<OpType, T>, t: T, ops: seq<OpType>, op: OpType)
    requires op in b && op in ops
    ensures RegisterSpec(b, t, ops).result.Err?
    ensures RegisterSpec(b, t, ops).result.error.DuplicateRegistration?
    ensures RegisterSpec(b, t, ops).result.error.opType in ops
    ensures op in RegisterSpec(b, t, ops).bindings && RegisterSpec(b, t, ops).bindings[op] == b[op]
    decreases |ops|
  {
    if ops[0] !in b {
      assert op in ops[1..];
      RegisterBoundFails(b[ops[0] := t], t, ops[1..], op);
      assert forall o :: o in ops[1..] ==> o in ops;
    }
  }

  /** Helper: freshness of the first `k` op types survives binding the first. */
  lemma FreshShift<T>(b: map<OpType, T>, t: T, ops: seq<OpType>, k: nat)
    requires 0 < k <= |ops| && ops[0] !in b
    ensures FreshUpTo(b, ops, k) <==> FreshUpTo(b[ops[0] := t], ops[1..], k - 1)
  {
    var b', ops' := b[ops[0] := t], ops[1..];
    forall j | 0 <= j < k - 1
      ensures ops'[..j] == ops[1..j + 1] && ops[..j + 1] == [ops[0]] + ops[1..j + 1]
    {
    }
    if FreshUpTo(b', ops', k - 1) {
      forall j | 0 <= j < k ensures ops[j] !in b && ops[j] !in ops[..j] {
        if j > 0 {
          assert ops'[j - 1] == ops[j];
        }
      }
    }
  }

  // ---------------------------------------------------------------------
  // A worked scenario
  // ---------------------------------------------------------------------

  /** The bank of the scenario below: one translation, indexing "lower", is
      shared by "Conv" and "DepthwiseConv"; the one for "Relu" indexes nothing. */
  function ConvReluTable(lower: Behaviour): Table
  {
    map["Conv" := map["lower" := lower], "DepthwiseConv" := map["lower" := lower], "Relu" := map[]]
  }

  /** The graph of the scenario below: Conv, Relu, Conv. */
  function ConvReluGraph(): seq<Node>
  {
    [Node("Conv"), Node("Relu"), Node("Conv")]
  }

  /** On the graph Conv, Relu, Conv, `apply_partial` lowers the two Conv
      nodes, in order, and leaves Relu alone; `apply_total` fails with a
      missing-method error at Relu after lowering the first Conv node only. */
  lemma ConvReluScenario(lower: Behaviour, extra: Extra, run: Call -> Outcome)
    requires forall c :: run(c).Returned?
    ensures PartialFrom(ConvReluTable(lower), "lower", ConvReluGraph(), extra, run, 0)
         == Trace(Ok(()), [Call(lower, "lower", OnNode(0, Node("Conv"), extra)), Call(lower, "lower", OnNode(2, Node("Conv"), extra))])
    ensures TotalFrom(ConvReluTable(lower), "lower", ConvReluGraph(), extra, run, 0)
         == Trace(Err(MissingMethod("Relu", "lower")), [Call(lower, "lower", OnNode(0, Node("Conv"), extra))])
  {
    var table, g := ConvReluTable(lower), ConvReluGraph();
    var c2 := Call(lower, "lower", OnNode(2, Node("Conv"), extra));
    assert PartialFrom(table, "lower", g, extra, run, 2) == Trace(Ok(()), [c2]);
    assert PartialFrom(table, "lower", g, extra, run, 1) == PartialFrom(table, "lower", g, extra, run, 2);
  }
}
