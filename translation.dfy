/**
 * The two classes of the converters' translation registry.
 *
 * A `Translation` is the bundle of behaviours for one op type, indexed by
 * method name. A `TranslationBank` maps op types to translations (several op
 * types may share one translation object) and dispatches a named method to
 * one op type, or to the nodes of a graph in traversal order.
 *
 * Invoking a behaviour is modelled by the call it makes (a `Call` record,
 * returned in the call log `calls`) and by what it does, given by the
 * parameter `run`.
 */
module Translations {
  import opened Dispatch

  class Translation {
    var indexedMethods: Methods

    constructor ()
      ensures indexedMethods == map[]
    {
      indexedMethods := map[];
    }

    /** `apply_method(name, *args)`: invokes the behaviour indexed under
        `name`, or fails with a lookup error (invoking nothing). */
    method ApplyMethod(name: MethodName, args: Args, run: Call -> Outcome) returns (r: Result<int>, calls: seq<Call>)
      ensures name !in indexedMethods ==> r == Err(LookupError(name)) && calls == []
      ensures name in indexedMethods ==>
        calls == [Call(indexedMethods[name], name, args)] && r == Invoke(calls[0], run)
    {
      if name !in indexedMethods {
        return Err(LookupError(name)), [];
      }
      var c := Call(indexedMethods[name], name, args);
      r, calls := Invoke(c, run), [c];
    }

    /** `index_method(name, method)`: binds `name` to `b`, silently replacing
        any earlier behaviour for `name`; every other name keeps its binding. */
    method IndexMethod(name: MethodName, b: Behaviour)
      modifies this
      ensures HasIndexedMethod(name) && indexedMethods[name] == b
      ensures forall n :: n != name ==> (n in indexedMethods <==> n in old(indexedMethods))
      ensures forall n :: n != name && n in indexedMethods ==> indexedMethods[n] == old(indexedMethods)[n]
      ensures indexedMethods == old(indexedMethods)[name := b]
    {
      indexedMethods := indexedMethods[name := b];
    }

    /** `has_indexed_method(name)`: a total, state-free query. */
    predicate HasIndexedMethod(name: MethodName)
      reads this
      ensures HasIndexedMethod(name) <==> name in indexedMethods
    {
      name in indexedMethods
    }
  }

  class TranslationBank {
    // op type -> translation; the same translation may sit under several keys
    var translations: map<OpType, Translation>

    constructor ()
      ensures translations == map[]
    {
      translations := map[];
    }

    /** The bank seen through its translations: op type -> indexed methods. */
    ghost function Table(): Table
      reads this, translations.Values
    {
      map op | op in translations :: translations[op].indexedMethods
    }

    /** `__get_translation(op)`: the very object bound to `op`, or an
        unregistered-op error. */
    function GetTranslation(op: OpType): (r: Result<Translation>)
      reads this
      ensures r.Ok? <==> op in translations
      ensures r.Ok? ==> r.value == translations[op]
      ensures r.Err? ==> r.error == UnregisteredOp(op)
    {
      if op !in translations then Err(UnregisteredOp(op)) else Ok(translations[op])
    }

    /** `apply_specific(op, m, *args)`: fails with an unregistered-op error if
        `op` is unbound, with a missing-method error if its translation lacks
        `m`, and otherwise invokes the behaviour bound to `m` exactly once and
        returns its result. */
    method ApplySpecific(op: OpType, m: MethodName, args: Args, run: Call -> Outcome) returns (r: Result<int>, calls: seq<Call>)
      ensures Trace(r, calls) == SpecificTrace(Table(), op, m, args, run)
      ensures op !in translations ==> r == Err(UnregisteredOp(op)) && calls == []
      ensures op in translations && m !in translations[op].indexedMethods
        ==> r == Err(MissingMethod(op, m)) && calls == []
      ensures op in translations && m in translations[op].indexedMethods
        ==> calls == [Call(translations[op].indexedMethods[m], m, args)] && r == Invoke(calls[0], run)
    {
      var t := GetTranslation(op);
      if t.Err? {
        return Err(t.error), [];
      }
      var translation := t.value;
      if !translation.HasIndexedMethod(m) {
        return Err(MissingMethod(op, m)), [];
      }
      r, calls := translation.ApplyMethod(m, args, run);
    }

    /** `apply_partial(m, graph, *args)`: visits the nodes in order, fails at
        an unregistered op type, skips nodes whose translation lacks `m`, and
        invokes `m` with the node on every other node. */
    method ApplyPartial(m: MethodName, graph: seq<Node>, extra: Extra, run: Call -> Outcome) returns (r: Result<()>, calls: seq<Call>)
      ensures Trace(r, calls) == PartialFrom(Table(), m, graph, extra, run, 0)
    {
      ghost var table := Table();
      calls := [];
      var i := 0;
      while i < |graph|
        invariant i <= |graph|
        invariant PartialFrom(table, m, graph, extra, run, 0)
               == Then(calls, PartialFrom(table, m, graph, extra, run, i))
      {
        var node := graph[i];
        var t := GetTranslation(node.opType);
        if t.Err? {
          return Err(t.error), calls;
        }
        var translation := t.value;
        if translation.HasIndexedMethod(m) {
          var res, cs := translation.ApplyMethod(m, OnNode(i, node, extra), run);
          assert cs == [NodeCall(table, m, graph, extra, i)];
          ThenThen(calls, cs, PartialFrom(table, m, graph, extra, run, i + 1));
          calls := calls + cs;
          if res.Err? {
            return Err(res.error), calls;
          }
        }
        i := i + 1;
      }
      r := Ok(());
    }

    /** `apply_total(m, graph, *args)`: hands every node, in order, to
        `ApplySpecific`, stopping at the first failure. */
    method ApplyTotal(m: MethodName, graph: seq<Node>, extra: Extra, run: Call -> Outcome) returns (r: Result<()>, calls: seq<Call>)
      ensures Trace(r, calls) == TotalFrom(Table(), m, graph, extra, run, 0)
    {
      ghost var table := Table();
      calls := [];
      var i := 0;
      while i < |graph|
        invariant i <= |graph|
        invariant TotalFrom(table, m, graph, extra, run, 0)
               == Then(calls, TotalFrom(table, m, graph, extra, run, i))
      {
        var node := graph[i];
        var res, cs := ApplySpecific(node.opType, m, OnNode(i, node, extra), run);
        ThenThen(calls, cs, TotalFrom(table, m, graph, extra, run, i + 1));
        calls := calls + cs;
        if res.Err? {
          return Err(res.error), calls;
        }
        i := i + 1;
      }
      r := Ok(());
    }

    /** `register(t, *ops)`: binds the op types one at a time to the same
        object `t`; the first one already bound fails with a duplicate error,
        leaving the op types before it bound and those after it unbound. */
    method Register(t: Translation, ops: seq<OpType>) returns (r: Result<()>)
      modifies this
      ensures Registration(r, translations) == RegisterSpec(old(translations), t, ops)
    {
      var i := 0;
      while i < |ops|
        invariant i <= |ops|
        invariant RegisterSpec(old(translations), t, ops) == RegisterSpec(translations, t, ops[i..])
      {
        var op := ops[i];
        assert ops[i..][0] == op && ops[i..][1..] == ops[i + 1..];
        if op in translations {
          return Err(DuplicateRegistration(op));
        }
        translations := translations[op := t];
        i := i + 1;
      }
      assert ops[i..] == [];
      r := Ok(());
    }
  }

  /** `index_method(name, b)` then `apply_method(name, ...)` on the same
      translation invokes `b`, whatever `name` was bound to before. */
  method IndexThenApply(t: Translation, name: MethodName, b: Behaviour, args: Args, run: Call -> Outcome)
    returns (r: Result<int>, calls: seq<Call>)
    modifies t
    ensures t.indexedMethods == old(t.indexedMethods)[name := b]
    ensures calls == [Call(b, name, args)] && r == Invoke(calls[0], run)
  {
    t.IndexMethod(name, b);
    r, calls := t.ApplyMethod(name, args, run);
  }

  /** After `register(t, op)` succeeds, `apply_specific(op, m, ...)` invokes
      exactly the behaviour `t` binds to `m`, once, with the given arguments. */
  method RegisterThenApply(bank: TranslationBank, t: Translation, op: OpType, m: MethodName, args: Args, run: Call -> Outcome)
    returns (reg: Result<()>, r: Result<int>, calls: seq<Call>)
    requires op !in bank.translations && m in t.indexedMethods
    modifies bank
    ensures reg == Ok(()) && bank.translations == old(bank.translations)[op := t]
    ensures calls == [Call(t.indexedMethods[m], m, args)] && r == Invoke(calls[0], run)
  {
    reg := bank.Register(t, [op]);
    r, calls := bank.ApplySpecific(op, m, args, run);
  }

  /** Builds the bank of `ConvReluScenario` through the classes: one
      translation registered under two op types is one shared object. */
  method BuildConvReluBank(lower: Behaviour) returns (bank: TranslationBank, b1: Translation, b2: Translation)
    ensures fresh(bank) && fresh(b1) && fresh(b2) && b1 != b2
    ensures bank.translations == map["Conv" := b1, "DepthwiseConv" := b1, "Relu" := b2]
    ensures b1.indexedMethods == map["lower" := lower] && b2.indexedMethods == map[]
  {
    b1 := new Translation();
    b1.IndexMethod("lower", lower);
    b2 := new Translation();
    bank := new TranslationBank();
    var r := bank.Register(b1, ["Conv", "DepthwiseConv"]);
    assert bank.translations == map["Conv" := b1, "DepthwiseConv" := b1];
    r := bank.Register(b2, ["Relu"]);
  }

  /** Helper: the bank built by `BuildConvReluBank`, seen through its
      translations, is the table of `ConvReluScenario`. */
  lemma ConvReluBankTable(lower: Behaviour, bank: TranslationBank, b1: Translation, b2: Translation)
    requires bank.translations == map["Conv" := b1, "DepthwiseConv" := b1, "Relu" := b2]
    requires b1.indexedMethods == map["lower" := lower] && b2.indexedMethods == map[]
    ensures bank.Table() == ConvReluTable(lower)
  {
    assert bank.Table().Keys == ConvReluTable(lower).Keys;
  }

  /** The scenario driven through the classes: the dispatches of a bank
      built by `register` behave as `ConvReluScenario` says. */
  method ConvReluBank(extra: Extra, run: Call -> Outcome) returns (p: Result<()>, pcalls: seq<Call>, t: Result<()>, tcalls: seq<Call>)
    requires forall c :: run(c).Returned?
    ensures p == Ok(()) && pcalls == [Call(Behaviour(1), "lower", OnNode(0, Node("Conv"), extra)),
                                      Call(Behaviour(1), "lower", OnNode(2, Node("Conv"), extra))]
    ensures t == Err(MissingMethod("Relu", "lower")) && tcalls == [Call(Behaviour(1), "lower", OnNode(0, Node("Conv"), extra))]
  {
    var bank, b1, b2 := BuildConvReluBank(Behaviour(1));
    ConvReluBankTable(Behaviour(1), bank, b1, b2);
    ConvReluScenario(Behaviour(1), extra, run);
    p, pcalls := bank.ApplyPartial("lower", ConvReluGraph(), extra, run);
    t, tcalls := bank.ApplyTotal("lower", ConvReluGraph(), extra, run);
  }
}
