// currency/genesis_currencies_process.go: GenesisCurrencies.Process, the
// bootstrap operation that creates the genesis account, its balance in every
// currency and every currency design, all in one setState batch.

module GenesisCurrenciesProcess {
  import opened Primitives
  import opened StateStore

  /** The genesis fact: its hash, the genesis account's keys and the
      designs of the currencies to create. */
  datatype GenesisCurrenciesFact = GenesisCurrenciesFact(
    hash: seq<byte>,
    token: seq<byte>,
    keys: AccountKeys,
    cs: seq<CurrencyDesign>)

  datatype ProcessError =
    | AddressError                // the address could not be derived from the keys
    | AlreadyExists(key: string)  // a state that must not exist does
    | AccountError                // the account could not be built from the keys

  // =====================================================================
  // What Process decides and writes, as functions of the store

  /** The key of the first per-currency state that already exists: for
      each currency in order, its design, then the genesis balance. */
  function FirstExisting(states: map<string, Value>, addr: Address, cs: seq<CurrencyDesign>): Option<string>
  {
    if cs == [] then None
    else if StateKeyCurrencyDesign(cs[0].Currency()) in states then Some(StateKeyCurrencyDesign(cs[0].Currency()))
    else if StateKeyBalance(addr, cs[0].Currency()) in states then Some(StateKeyBalance(addr, cs[0].Currency()))
    else FirstExisting(states, addr, cs[1..])
  }

  /** The verdict of Process, check by check in the source's order.
      `address` and `account` are the outcomes of deriving the address
      from the fact's keys and of building the account from them. */
  function GenesisCheck(states: map<string, Value>, address: Option<Address>, account: Option<Account>,
                        cs: seq<CurrencyDesign>): (r: Outcome<ProcessError>)
    ensures address.None? ==> r == Fail(AddressError)
    ensures r.Fail? && r.error.AlreadyExists? ==> r.error.key in states
    ensures r.Pass? ==> address.Some? && account.Some? && StateKeyAccount(address.value) !in states
  {
    match address
    case None => Fail(AddressError)
    case Some(addr) =>
      FirstExistingSpec(states, addr, cs);
      if StateKeyAccount(addr) in states then Fail(AlreadyExists(StateKeyAccount(addr)))
      else match FirstExisting(states, addr, cs)
        case Some(k) => Fail(AlreadyExists(k))
        case None => if account.None? then Fail(AccountError) else Pass
  }

  /** The balance state and the design state written for one currency. */
  function CurrencyStatesOf(addr: Address, c: CurrencyDesign): seq<State>
  {
    [ SetStateBalanceValue(State(StateKeyBalance(addr, c.Currency()), None), Amount(c.amount.big, c.Currency())),
      SetStateCurrencyDesignValue(State(StateKeyCurrencyDesign(c.Currency()), None), c) ]
  }

  function CurrencyStates(addr: Address, cs: seq<CurrencyDesign>): seq<State>
  {
    if cs == [] then [] else CurrencyStates(addr, cs[..|cs| - 1]) + CurrencyStatesOf(addr, cs[|cs| - 1])
  }

  /** The batch Process writes: the account, then per currency its balance
      and its design. */
  function GenesisStates(addr: Address, ac: Account, cs: seq<CurrencyDesign>): (r: seq<State>)
    ensures |r| == 1 + 2 * |cs|
    ensures r[0] == State(StateKeyAccount(addr), Some(AccountValue(ac)))
  {
    CurrencyStatesShape(addr, cs);
    [SetStateAccountValue(State(StateKeyAccount(addr), None), ac)] + CurrencyStates(addr, cs)
  }

  /** The keys Process reads, in order, when every check passes. */
  function CurrencyReads(addr: Address, cs: seq<CurrencyDesign>): seq<string>
  {
    if cs == [] then []
    else
      var c := cs[|cs| - 1];
      CurrencyReads(addr, cs[..|cs| - 1]) + [StateKeyCurrencyDesign(c.Currency()), StateKeyBalance(addr, c.Currency())]
  }

  // =====================================================================
  // Properties

  lemma {:induction false} FirstExistingSpec(states: map<string, Value>, addr: Address, cs: seq<CurrencyDesign>)
    ensures FirstExisting(states, addr, cs).None? <==>
      forall c :: c in cs ==>
        StateKeyCurrencyDesign(c.Currency()) !in states && StateKeyBalance(addr, c.Currency()) !in states
    ensures FirstExisting(states, addr, cs).Some? ==> FirstExisting(states, addr, cs).value in states
  {
    if cs != [] {
      FirstExistingSpec(states, addr, cs[1..]);
      assert cs == [cs[0]] + cs[1..];
    }
  }

  /** Process succeeds iff the address and the account can be built and
      none of the states it creates exists yet: the genesis account, and
      for every currency its design and the genesis balance. */
  lemma GenesisCheckPassIff(states: map<string, Value>, address: Option<Address>, account: Option<Account>,
                            cs: seq<CurrencyDesign>)
    ensures GenesisCheck(states, address, account, cs).Pass? <==>
      && address.Some? && account.Some?
      && StateKeyAccount(address.value) !in states
      && forall c :: c in cs ==>
        StateKeyCurrencyDesign(c.Currency()) !in states && StateKeyBalance(address.value, c.Currency()) !in states
  {
    if address.Some? {
      FirstExistingSpec(states, address.value, cs);
    }
  }

  /** A state already present for the genesis account, or for any listed
      currency's design or genesis balance, fails Process as AlreadyExists
      with the key of a state that exists. */
  lemma GenesisCheckAlreadyExists(states: map<string, Value>, addr: Address, account: Option<Account>,
                                  cs: seq<CurrencyDesign>, i: nat)
    requires i < |cs|
    requires StateKeyAccount(addr) in states
      || StateKeyCurrencyDesign(cs[i].Currency()) in states
      || StateKeyBalance(addr, cs[i].Currency()) in states
    ensures GenesisCheck(states, Some(addr), account, cs).Fail?
    ensures GenesisCheck(states, Some(addr), account, cs).error.AlreadyExists?
    ensures GenesisCheck(states, Some(addr), account, cs).error.key in states
  {
    FirstExistingSpec(states, addr, cs);
    assert cs[i] in cs;
  }

  lemma {:induction false} CurrencyStatesShape(addr: Address, cs: seq<CurrencyDesign>)
    ensures |CurrencyStates(addr, cs)| == 2 * |cs|
    ensures forall i :: 0 <= i < |cs| ==>
      CurrencyStates(addr, cs)[2 * i] == State(StateKeyBalance(addr, cs[i].Currency()), Some(BalanceValue(cs[i].amount)))
    ensures forall i :: 0 <= i < |cs| ==>
      CurrencyStates(addr, cs)[2 * i + 1] == State(StateKeyCurrencyDesign(cs[i].Currency()), Some(DesignValue(cs[i])))
  {
    if cs != [] {
      var n := |cs|;
      CurrencyStatesShape(addr, cs[..n - 1]);
      forall i | 0 <= i < n - 1
        ensures cs[..n - 1][i] == cs[i]
      {
      }
    }
  }

  /** The batch has 1 + 2|cs| states: first the genesis account, then for
      each currency, in the fact's order, its genesis balance holding the
      currency's whole supply and its design. */
  lemma GenesisStatesShape(addr: Address, ac: Account, cs: seq<CurrencyDesign>)
    ensures |GenesisStates(addr, ac, cs)| == 1 + 2 * |cs|
    ensures GenesisStates(addr, ac, cs)[0] == State(StateKeyAccount(addr), Some(AccountValue(ac)))
    ensures forall i :: 0 <= i < |cs| ==>
      GenesisStates(addr, ac, cs)[1 + 2 * i] == State(StateKeyBalance(addr, cs[i].Currency()), Some(BalanceValue(cs[i].amount)))
    ensures forall i :: 0 <= i < |cs| ==>
      GenesisStates(addr, ac, cs)[2 + 2 * i] == State(StateKeyCurrencyDesign(cs[i].Currency()), Some(DesignValue(cs[i])))
  {
    CurrencyStatesShape(addr, cs);
  }

  /** After the batch is laid over the store, the genesis account is stored
      under its account key. */
  lemma GenesisStoreAccount(states: map<string, Value>, addr: Address, ac: Account, cs: seq<CurrencyDesign>)
    ensures StateKeyAccount(addr) in Apply(states, GenesisStates(addr, ac, cs))
    ensures Apply(states, GenesisStates(addr, ac, cs))[StateKeyAccount(addr)] == AccountValue(ac)
  {
    var b := GenesisStates(addr, ac, cs);
    GenesisStatesShape(addr, ac, cs);
    forall j | 0 < j < |b|
      ensures b[j].key != b[0].key
    {
      var q := (j - 1) / 2;
      StateKeysDisjoint(addr, addr, cs[q].Currency(), cs[q].Currency());
    }
    ApplyLastWrite(states, b, 0);
  }

  /** After the batch is laid over the store, the genesis account holds the
      whole supply of each currency as its balance; when a currency is listed
      more than once, its last listing decides. Currency ids carry no colon. */
  lemma GenesisStoreBalance(states: map<string, Value>, addr: Address, ac: Account, cs: seq<CurrencyDesign>, i: nat)
    requires i < |cs|
    requires forall j :: 0 <= j < |cs| ==> ':' !in cs[j].Currency()
    requires forall j :: i < j < |cs| ==> cs[j].Currency() != cs[i].Currency()
    ensures StateKeyBalance(addr, cs[i].Currency()) in Apply(states, GenesisStates(addr, ac, cs))
    ensures Apply(states, GenesisStates(addr, ac, cs))[StateKeyBalance(addr, cs[i].Currency())]
            == BalanceValue(cs[i].amount)
  {
    var b := GenesisStates(addr, ac, cs);
    var cid := cs[i].Currency();
    GenesisStatesShape(addr, ac, cs);
    forall j | 1 + 2 * i < j < |b|
      ensures b[j].key != b[1 + 2 * i].key
    {
      var q := (j - 1) / 2;
      if j == 1 + 2 * q {
        StateKeyBalanceInjective(addr, addr, cs[q].Currency(), cid);
      } else {
        StateKeysDisjoint(addr, addr, cid, cs[q].Currency());
      }
    }
    ApplyLastWrite(states, b, 1 + 2 * i);
  }

  /** After the batch is laid over the store, each currency's design is
      stored under its design key; when a currency is listed more than once,
      its last listing decides. */
  lemma GenesisStoreDesign(states: map<string, Value>, addr: Address, ac: Account, cs: seq<CurrencyDesign>, i: nat)
    requires i < |cs|
    requires forall j :: i < j < |cs| ==> cs[j].Currency() != cs[i].Currency()
    ensures StateKeyCurrencyDesign(cs[i].Currency()) in Apply(states, GenesisStates(addr, ac, cs))
    ensures Apply(states, GenesisStates(addr, ac, cs))[StateKeyCurrencyDesign(cs[i].Currency())]
            == DesignValue(cs[i])
  {
    var b := GenesisStates(addr, ac, cs);
    var cid := cs[i].Currency();
    GenesisStatesShape(addr, ac, cs);
    forall j | 2 + 2 * i < j < |b|
      ensures b[j].key != b[2 + 2 * i].key
    {
      var q := (j - 1) / 2;
      if j == 2 + 2 * q {
        StateKeyCurrencyDesignInjective(cs[q].Currency(), cid);
      } else {
        StateKeysDisjoint(addr, addr, cs[q].Currency(), cid);
      }
    }
    ApplyLastWrite(states, b, 2 + 2 * i);
  }

  // =====================================================================
  // GenesisCurrencies.Process

  /** The loop over the currencies that reads each design and genesis
      balance, stopping at the first that exists, and keeps the blank states
      it was handed per currency. */
  method CheckCurrencies(pool: StatePool, addr: Address, cs: seq<CurrencyDesign>)
    returns (existing: Option<string>, sts: map<CurrencyID, State>, gas: map<CurrencyID, State>)
    modifies pool`readKeys
    ensures existing == FirstExisting(pool.states, addr, cs)
    ensures existing.None? ==> pool.readKeys == old(pool.readKeys) + CurrencyReads(addr, cs)
    ensures forall j :: 0 <= j < |cs| && existing.None? ==> cs[j].Currency() in sts && cs[j].Currency() in gas
    ensures forall cid :: cid in sts ==> sts[cid] == State(StateKeyCurrencyDesign(cid), None)
    ensures forall cid :: cid in gas ==> gas[cid] == State(StateKeyBalance(addr, cid), None)
  {
    gas := map[];
    sts := map[];
    for i := 0 to |cs|
      invariant FirstExisting(pool.states, addr, cs) == FirstExisting(pool.states, addr, cs[i..])
      invariant pool.readKeys == old(pool.readKeys) + CurrencyReads(addr, cs[..i])
      invariant forall j :: 0 <= j < i ==> cs[j].Currency() in sts && cs[j].Currency() in gas
      invariant forall cid :: cid in sts ==> sts[cid] == State(StateKeyCurrencyDesign(cid), None)
      invariant forall cid :: cid in gas ==> gas[cid] == State(StateKeyBalance(addr, cid), None)
    {
      assert cs[i..][1..] == cs[i + 1..];
      assert cs[..i + 1][..i] == cs[..i];
      var c := cs[i];
      var st, dfound := pool.GetState(StateKeyCurrencyDesign(c.Currency()));
      if dfound {
        return Some(StateKeyCurrencyDesign(c.Currency())), sts, gas;
      }
      sts := sts[c.Currency() := st];
      var bst, bfound := pool.GetState(StateKeyBalance(addr, c.Currency()));
      if bfound {
        return Some(StateKeyBalance(addr, c.Currency())), sts, gas;
      }
      gas := gas[c.Currency() := bst];
    }
    assert cs[..|cs|] == cs;
    existing := None;
  }

  /** The loop that appends, per currency, the balance state set to the
      currency's supply and the design state. */
  method BuildStates(ns: State, ac: Account, addr: Address, cs: seq<CurrencyDesign>,
                     sts: map<CurrencyID, State>, gas: map<CurrencyID, State>)
    returns (batch: seq<State>)
    requires ns == State(StateKeyAccount(addr), None)
    requires forall j :: 0 <= j < |cs| ==> cs[j].Currency() in sts && cs[j].Currency() in gas
    requires forall cid :: cid in sts ==> sts[cid] == State(StateKeyCurrencyDesign(cid), None)
    requires forall cid :: cid in gas ==> gas[cid] == State(StateKeyBalance(addr, cid), None)
    ensures batch == GenesisStates(addr, ac, cs)
  {
    batch := [SetStateAccountValue(ns, ac)];
    for i := 0 to |cs|
      invariant batch == GenesisStates(addr, ac, cs[..i])
    {
      assert cs[..i + 1][..i] == cs[..i];
      var c := cs[i];
      var am := Amount(c.amount.big, c.Currency());
      var gst := SetStateBalanceValue(gas[c.Currency()], am);
      var dst := SetStateCurrencyDesignValue(sts[c.Currency()], c);
      batch := batch + [gst, dst];
    }
    assert cs[..|cs|] == cs;
  }

  /** GenesisCurrencies.Process: reads every state that must not exist,
      stopping at the first failure, and only then builds the batch and
      hands it to setState under the fact hash. A failure writes nothing. */
  method Process(pool: StatePool, fact: GenesisCurrenciesFact, address: Option<Address>, account: Option<Account>)
    returns (r: Outcome<ProcessError>)
    modifies pool
    ensures r == GenesisCheck(old(pool.states), address, account, fact.cs)
    ensures r.Fail? ==> pool.states == old(pool.states) && pool.updates == old(pool.updates)
    ensures r.Pass? ==>
      var batch := GenesisStates(address.value, account.value, fact.cs);
      && pool.updates == old(pool.updates) + [Update(fact.hash, batch)]
      && pool.states == Apply(old(pool.states), batch)
      && pool.readKeys == old(pool.readKeys) + [StateKeyAccount(address.value)] + CurrencyReads(address.value, fact.cs)
    ensures address.None? ==> pool.readKeys == old(pool.readKeys)
  {
    if address.None? {
      return Fail(AddressError);
    }
    var newAddress := address.value;

    var ns, found := pool.GetState(StateKeyAccount(newAddress));
    if found {
      return Fail(AlreadyExists(StateKeyAccount(newAddress)));
    }

    var existing, sts, gas := CheckCurrencies(pool, newAddress, fact.cs);
    if existing.Some? {
      return Fail(AlreadyExists(existing.value));
    }

    if account.None? {
      return Fail(AccountError);
    }
    var batch := BuildStates(ns, account.value, newAddress, fact.cs, sts, gas);

    pool.SetState(fact.hash, batch);
    return Pass;
  }
}
