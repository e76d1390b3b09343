// The CurrencyPolicyUpdater processor as its tests in
// currency/currency_policy_updater_process_test.go fix it: a network-level
// operation authorized by the suffrage (validator) keys, which rewrites the
// policy of an existing currency design; and the operation-processor
// registry that binds a fresh processor to a state pool.

module CurrencyPolicyUpdaterProcess {
  import opened Primitives
  import opened StateStore

  datatype CurrencyPolicyUpdaterFact = CurrencyPolicyUpdaterFact(
    hash: seq<byte>,
    token: seq<byte>,
    currency: CurrencyID,
    policy: CurrencyPolicy)

  /** The signed operation: the fact and its signature entries. */
  datatype CurrencyPolicyUpdater = CurrencyPolicyUpdater(
    fact: CurrencyPolicyUpdaterFact,
    signs: seq<FactSign>,
    memo: string)

  datatype ProcessError =
    | EmptyPublickeys                                  // no suffrage key configured
    | NotEnoughSuffrageSigns(signed: nat, threshold: nat)
    | UnknownCurrency(currency: CurrencyID)            // no design stored for the currency
    | NotCurrencyDesign(key: string)                   // the stored state is not a design
    | NoProcessor                                      // no processor registered for the operation
    | ProcessorAlreadySet

  // =====================================================================
  // The suffrage threshold

  /** A quorum over `total` suffrage keys: `threshold` of them must sign. */
  datatype Threshold = Threshold(total: nat, threshold: nat, percent: nat)

  /** The smallest number of keys that is at least `percent` percent of
      `total`. */
  function Quorum(total: nat, percent: nat): (q: nat)
    ensures q * 100 >= total * percent
    ensures q > 0 ==> (q - 1) * 100 < total * percent
  {
    (total * percent + 99) / 100
  }

  function NewThreshold(total: nat, percent: nat): (t: Threshold)
    ensures t.total == total && t.percent == percent
    ensures t.threshold == Quorum(total, percent)
  {
    Threshold(total, Quorum(total, percent), percent)
  }

  /** A 100% quorum needs every suffrage key; no quorum of at most 100%
      needs more keys than there are. */
  lemma QuorumBounds(total: nat, percent: nat)
    ensures Quorum(total, 100) == total
    ensures percent <= 100 ==> Quorum(total, percent) <= total
  {
  }

  // =====================================================================
  // Counting suffrage signatures

  /** The number of signature entries whose signer is a suffrage key. */
  function SuffrageSigned(signs: seq<FactSign>, pubs: seq<Publickey>): nat
  {
    if signs == [] then 0
    else (if signs[0].signer in pubs then 1 else 0) + SuffrageSigned(signs[1..], pubs)
  }

  /** At most one count per entry, and one for every entry exactly when
      every signer is a suffrage key. */
  lemma {:induction false} SuffrageSignedSpec(signs: seq<FactSign>, pubs: seq<Publickey>)
    ensures SuffrageSigned(signs, pubs) <= |signs|
    ensures SuffrageSigned(signs, pubs) == |signs| <==> forall f :: f in signs ==> f.signer in pubs
  {
    if signs != [] {
      SuffrageSignedSpec(signs[1..], pubs);
      assert signs == [signs[0]] + signs[1..];
    }
  }

  /** For each signature entry, a search of the suffrage keys for its
      signer; the entries found are counted. */
  method CountSuffrageSigns(signs: seq<FactSign>, pubs: seq<Publickey>) returns (signed: nat)
    ensures signed == SuffrageSigned(signs, pubs)
  {
    signed := 0;
    for i := 0 to |signs|
      invariant signed + SuffrageSigned(signs[i..], pubs) == SuffrageSigned(signs, pubs)
    {
      assert signs[i..][1..] == signs[i + 1..];
      var j := 0;
      while j < |pubs|
        invariant 0 <= j <= |pubs|
        invariant signs[i].signer !in pubs[..j]
      {
        if signs[i].signer == pubs[j] {
          signed := signed + 1;
          break;
        }
        assert pubs[..j + 1] == pubs[..j] + [pubs[j]];
        j := j + 1;
      }
      assert j == |pubs| ==> pubs[..j] == pubs;
    }
  }

  // =====================================================================
  // What the processor decides and writes

  /** The processor's verdict and, on success, the one state it writes:
      the stored design with its policy replaced by the fact's. */
  function PolicyUpdate(pubs: seq<Publickey>, thr: Threshold, op: CurrencyPolicyUpdater,
                        states: map<string, Value>): (r: Result<State, ProcessError>)
    ensures |pubs| < 1 ==> r == Failure(EmptyPublickeys)
    ensures r.Failure? ==> r.error.EmptyPublickeys? || r.error.NotEnoughSuffrageSigns?
                           || r.error.UnknownCurrency? || r.error.NotCurrencyDesign?
    ensures r.Failure? && r.error.NotEnoughSuffrageSigns? ==>
      r.error.threshold == thr.threshold && r.error.signed < thr.threshold && r.error.signed <= |op.signs|
    ensures r.Failure? && r.error.UnknownCurrency? ==>
      r.error.currency == op.fact.currency && StateKeyCurrencyDesign(op.fact.currency) !in states
    ensures r.Success? ==> r.value.key == StateKeyCurrencyDesign(op.fact.currency)
                           && r.value.key in states && r.value.value.Some?
  {
    SuffrageSignedSpec(op.signs, pubs);
    if |pubs| < 1 then Failure(EmptyPublickeys)
    else if SuffrageSigned(op.signs, pubs) < thr.threshold then
      Failure(NotEnoughSuffrageSigns(SuffrageSigned(op.signs, pubs), thr.threshold))
    else
      var key := StateKeyCurrencyDesign(op.fact.currency);
      if key !in states then Failure(UnknownCurrency(op.fact.currency))
      else match states[key]
        case DesignValue(de) => Success(SetStateCurrencyDesignValue(State(key, Some(states[key])), de.(policy := op.fact.policy)))
        case _ => Failure(NotCurrencyDesign(key))
  }

  /** A processor configured without suffrage keys fails every operation
      with "empty publickeys", never with a threshold error. */
  lemma EmptyPublickeysFails(thr: Threshold, op: CurrencyPolicyUpdater, states: map<string, Value>)
    ensures PolicyUpdate([], thr, op, states) == Failure(EmptyPublickeys)
  {
  }

  /** Fewer signature entries than the threshold can never be enough: with
      three suffrage keys and a 100% threshold, two signers fail with "not
      enough suffrage signs". */
  lemma TooFewSignsFail(pubs: seq<Publickey>, thr: Threshold, op: CurrencyPolicyUpdater, states: map<string, Value>)
    requires |pubs| >= 1 && |op.signs| < thr.threshold
    ensures PolicyUpdate(pubs, thr, op, states).Failure?
    ensures PolicyUpdate(pubs, thr, op, states).error.NotEnoughSuffrageSigns?
  {
    SuffrageSignedSpec(op.signs, pubs);
  }

  /** Under a 100% threshold, signing with fewer than all suffrage keys
      fails with "not enough suffrage signs". */
  lemma PartialSuffrageFails(pubs: seq<Publickey>, op: CurrencyPolicyUpdater, states: map<string, Value>)
    requires |pubs| >= 1 && |op.signs| < |pubs|
    ensures PolicyUpdate(pubs, NewThreshold(|pubs|, 100), op, states).Failure?
    ensures PolicyUpdate(pubs, NewThreshold(|pubs|, 100), op, states).error.NotEnoughSuffrageSigns?
  {
    QuorumBounds(|pubs|, 100);
    TooFewSignsFail(pubs, NewThreshold(|pubs|, 100), op, states);
  }

  /** The update succeeds iff a suffrage key is configured, enough of the
      entries are suffrage signatures and a design is stored for the
      currency. */
  lemma PolicyUpdateSuccessIff(pubs: seq<Publickey>, thr: Threshold, op: CurrencyPolicyUpdater, states: map<string, Value>)
    ensures PolicyUpdate(pubs, thr, op, states).Success? <==>
      && |pubs| >= 1
      && SuffrageSigned(op.signs, pubs) >= thr.threshold
      && StateKeyCurrencyDesign(op.fact.currency) in states
      && states[StateKeyCurrencyDesign(op.fact.currency)].DesignValue?
  {
  }

  /** A successful update writes the design of the fact's currency under
      its own key, with the fact's policy and with the total supply and the
      genesis account unchanged. */
  lemma PolicyUpdateKeepsAmount(pubs: seq<Publickey>, thr: Threshold, op: CurrencyPolicyUpdater, states: map<string, Value>)
    requires PolicyUpdate(pubs, thr, op, states).Success?
    ensures var key := StateKeyCurrencyDesign(op.fact.currency);
      var st := PolicyUpdate(pubs, thr, op, states).value;
      && key in states && states[key].DesignValue?
      && st.key == key && st.value.Some? && st.value.value.DesignValue?
      && st.value.value.design.amount == states[key].design.amount
      && st.value.value.design.genesisAccount == states[key].design.genesisAccount
      && st.value.value.design.policy == op.fact.policy
  {
  }

  /** Under a 100% threshold, an operation with at least as many entries as
      there are suffrage keys, every one signed by a suffrage key, updates
      an existing design. */
  lemma AllSuffrageSignersPass(pubs: seq<Publickey>, op: CurrencyPolicyUpdater, states: map<string, Value>)
    requires |pubs| >= 1 && |op.signs| >= |pubs|
    requires forall f :: f in op.signs ==> f.signer in pubs
    requires StateKeyCurrencyDesign(op.fact.currency) in states
    requires states[StateKeyCurrencyDesign(op.fact.currency)].DesignValue?
    ensures PolicyUpdate(pubs, NewThreshold(|pubs|, 100), op, states).Success?
  {
    QuorumBounds(|pubs|, 100);
    SuffrageSignedSpec(op.signs, pubs);
  }

  // =====================================================================
  // The processor and the registry

  /** The processor built for each operation from the suffrage keys and the
      threshold it was configured with. */
  class CurrencyPolicyUpdaterProcessor {
    const pubs: seq<Publickey>
    const threshold: Threshold

    constructor (pubs: seq<Publickey>, threshold: Threshold)
      ensures this.pubs == pubs && this.threshold == threshold
    {
      this.pubs := pubs;
      this.threshold := threshold;
    }

    /** Checks the configuration and the suffrage signatures, reads the
        currency's design and writes it back with the new policy, in one
        setState under the fact hash. A failure writes nothing. */
    method Process(pool: StatePool, op: CurrencyPolicyUpdater) returns (r: Outcome<ProcessError>)
      modifies pool
      ensures var u := PolicyUpdate(pubs, threshold, op, old(pool.states));
        && (u.Failure? ==> r == Fail(u.error) && pool.states == old(pool.states) && pool.updates == old(pool.updates))
        && (u.Success? ==>
              && r == Pass
              && pool.updates == old(pool.updates) + [Update(op.fact.hash, [u.value])]
              && pool.states == Apply(old(pool.states), [u.value]))
    {
      if |pubs| < 1 {
        return Fail(EmptyPublickeys);
      }
      var signed := CountSuffrageSigns(op.signs, pubs);
      if signed < threshold.threshold {
        return Fail(NotEnoughSuffrageSigns(signed, threshold.threshold));
      }
      var key := StateKeyCurrencyDesign(op.fact.currency);
      var st, found := pool.GetState(key);
      if !found {
        return Fail(UnknownCurrency(op.fact.currency));
      }
      match st.value.value
      case DesignValue(de) =>
        var nst := SetStateCurrencyDesignValue(st, de.(policy := op.fact.policy));
        pool.SetState(op.fact.hash, [nst]);
        return Pass;
      case _ =>
        return Fail(NotCurrencyDesign(key));
    }
  }

  /** The kinds of operation a processor can be registered for. */
  datatype OperationKind = CurrencyPolicyUpdaterKind

  /** What SetProcessor registers: how to build the processor of a kind. */
  datatype ProcessorSetting = PolicyUpdaterSetting(pubs: seq<Publickey>, threshold: Threshold)

  function KindOf(op: CurrencyPolicyUpdater): OperationKind
  {
    CurrencyPolicyUpdaterKind
  }

  /** The operation processor: a registry of processors per operation kind,
      bound to the state pool they run against. */
  class OperationProcessor {
    var processors: map<OperationKind, ProcessorSetting>
    const pool: StatePool?

    constructor (pool: StatePool?)
      ensures processors == map[] && this.pool == pool
    {
      processors := map[];
      this.pool := pool;
    }

    /** Registers the processor of a kind; a kind is registered once. */
    method SetProcessor(kind: OperationKind, setting: ProcessorSetting) returns (r: Outcome<ProcessError>)
      modifies this`processors
      ensures kind in old(processors) ==> r == Fail(ProcessorAlreadySet) && processors == old(processors)
      ensures kind !in old(processors) ==> r == Pass && processors == old(processors)[kind := setting]
    {
      if kind in processors {
        return Fail(ProcessorAlreadySet);
      }
      processors := processors[kind := setting];
      return Pass;
    }

    /** A fresh operation processor with the same registry, bound to `pool`. */
    method New(pool: StatePool) returns (opr: OperationProcessor)
      ensures fresh(opr) && opr.processors == processors && opr.pool == pool
    {
      opr := new OperationProcessor(pool);
      opr.processors := processors;
    }

    /** Builds the registered processor for the operation's kind and runs it
        against the bound pool. */
    method Process(op: CurrencyPolicyUpdater) returns (r: Outcome<ProcessError>)
      requires pool != null
      modifies pool
      ensures KindOf(op) !in processors ==>
        r == Fail(NoProcessor) && pool.states == old(pool.states) && pool.updates == old(pool.updates)
      ensures KindOf(op) in processors ==>
        var s := processors[KindOf(op)];
        var u := PolicyUpdate(s.pubs, s.threshold, op, old(pool.states));
        && (u.Failure? ==> r == Fail(u.error) && pool.states == old(pool.states) && pool.updates == old(pool.updates))
        && (u.Success? ==>
              && r == Pass
              && pool.updates == old(pool.updates) + [Update(op.fact.hash, [u.value])]
              && pool.states == Apply(old(pool.states), [u.value]))
    {
      var kind := KindOf(op);
      if kind !in processors {
        return Fail(NoProcessor);
      }
      var setting := processors[kind];
      var p := new CurrencyPolicyUpdaterProcessor(setting.pubs, setting.threshold);
      r := p.Process(pool, op);
    }
  }
}
