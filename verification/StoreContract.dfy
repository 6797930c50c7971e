/**
 What an audit store is handed by the core: a pure function that builds the next
 line on the integrity block of the last one, and accessors for the parts of a
 line that a store looks at. Stores know nothing else about the chain, and their
 protocols are proved for every such core.
 */
module StoreContract {
  import opened Json

  datatype Core = Core(
    accepts: Value -> bool,              // events the sink passes on
    build: (Value, Value) -> Value,      // previous integrity (or null), event -> line
    integrity: Value -> Value,           // line.auditIntegrity
    previousHash: Value -> Value,        // line.auditIntegrity.previousHash ?? null
    eventHash: Value -> Value)           // line.auditIntegrity.eventHash

  /** `readLastIntegrity` over the lines written so far. */
  ghost function Head(core: Core, chain: seq<Value>): Value {
    if chain == [] then Null else core.integrity(chain[|chain| - 1])
  }

  /** The hash the next line must point back to. */
  ghost function HeadHash(core: Core, chain: seq<Value>): Value {
    if chain == [] then Null else core.eventHash(chain[|chain| - 1])
  }

  /** The line a writer builds when it finds `chain` in the store. */
  ghost function Line(core: Core, chain: seq<Value>, event: Value): Value {
    core.build(Head(core, chain), event)
  }

  ghost predicate IsLineAt(core: Core, chain: seq<Value>, i: nat, event: Value)
    requires i < |chain|
  {
    chain[i] == Line(core, chain[..i], event)
  }

  /** `chain` is what one undisturbed writer leaves for `events`. */
  ghost predicate IsChainOf(core: Core, events: seq<Value>, chain: seq<Value>) {
    && |chain| == |events|
    && (forall i :: 0 <= i < |events| ==> core.accepts(events[i]))
    && forall i {:trigger IsLineAt(core, chain, i, events[i])} :: 0 <= i < |chain| ==>
       IsLineAt(core, chain, i, events[i])
  }

  lemma {:induction false} EmptyChain(core: Core)
    ensures IsChainOf(core, [], [])
  {
  }

  lemma {:induction false} ChainAppend(core: Core, events: seq<Value>, chain: seq<Value>, event: Value)
    requires IsChainOf(core, events, chain) && core.accepts(event)
    ensures IsChainOf(core, events + [event], chain + [Line(core, chain, event)])
  {
    var chain', events' := chain + [Line(core, chain, event)], events + [event];
    forall i | 0 <= i < |chain'| ensures IsLineAt(core, chain', i, events'[i]) {
      if i < |chain| {
        assert IsLineAt(core, chain, i, events[i]);
        assert chain'[..i] == chain[..i];
      } else {
        assert chain'[..i] == chain;
      }
    }
  }
}
