// The state values the currency operations write, the string keys they are
// stored under, and the state pool the processors read and write through
// (getState / setState).

module StateStore {
  import opened Primitives
  import opened CurrencyKeys

  type Address = string
  type CurrencyID = string

  /** An amount of one currency; `big` is an arbitrary-precision integer. */
  datatype Amount = Amount(big: int, currency: CurrencyID)

  /** The fee rule of a currency. */
  datatype Feeer = NilFeeer | FixedFeeer(receiver: Address, fee: int)

  datatype CurrencyPolicy = CurrencyPolicy(newAccountMinBalance: int, feeer: Feeer)

  /** A currency: its total supply, the account that received it at genesis
      and its policy. */
  datatype CurrencyDesign = CurrencyDesign(amount: Amount, genesisAccount: Address, policy: CurrencyPolicy)
  {
    function Currency(): CurrencyID
    {
      amount.currency
    }
  }

  /** A snapshot of a key set as an account stores it. */
  datatype AccountKeys = AccountKeys(h: seq<byte>, keys: seq<Key>, threshold: Uint)

  datatype Account = Account(address: Address, keys: AccountKeys)

  /** The logical value a state carries. */
  datatype Value =
    | AccountValue(account: Account)
    | BalanceValue(balance: Amount)
    | DesignValue(design: CurrencyDesign)

  /** A state: its key and its value; `None` is the blank state the pool
      hands out for a key that holds nothing yet. */
  datatype State = State(key: string, value: Option<Value>)

  /** One setState call: the states written under one transaction hash. */
  datatype Update = Update(txHash: seq<byte>, states: seq<State>)

  // =====================================================================
  // State keys

  function StateKeyAccount(a: Address): (k: string)
    ensures |k| >= 8 && k[..8] == "account:"
  {
    "account:" + a
  }

  function StateKeyBalance(a: Address, cid: CurrencyID): (k: string)
    ensures |k| >= 8 && k[..8] == "balance:"
  {
    "balance:" + a + ":" + cid
  }

  function StateKeyCurrencyDesign(cid: CurrencyID): (k: string)
    ensures |k| >= 16 && k[..16] == "currency-design:"
  {
    "currency-design:" + cid
  }

  /** The three kinds of key never collide. */
  lemma StateKeysDisjoint(a: Address, b: Address, cid: CurrencyID, did: CurrencyID)
    ensures StateKeyAccount(a) != StateKeyBalance(b, cid)
    ensures StateKeyAccount(a) != StateKeyCurrencyDesign(did)
    ensures StateKeyBalance(b, cid) != StateKeyCurrencyDesign(did)
  {
    var ka, kb, kd := StateKeyAccount(a), StateKeyBalance(b, cid), StateKeyCurrencyDesign(did);
    assert ka[0] != kb[0] && ka[0] != kd[0];
    assert kb[0] != kd[0];
  }

  lemma StateKeyAccountInjective(a: Address, b: Address)
    ensures StateKeyAccount(a) == StateKeyAccount(b) <==> a == b
  {
  }

  lemma StateKeyCurrencyDesignInjective(c: CurrencyID, d: CurrencyID)
    ensures StateKeyCurrencyDesign(c) == StateKeyCurrencyDesign(d) <==> c == d
  {
  }

  /** Where the shorter currency of two equally long balance keys starts,
      the colon before it faces a character of the longer currency. */
  lemma BalanceKeySeparator(a: Address, b: Address, c: CurrencyID, d: CurrencyID)
    requires |c| < |d| && |StateKeyBalance(a, c)| == |StateKeyBalance(b, d)|
    ensures StateKeyBalance(a, c)[8 + |a|] == ':'
    ensures StateKeyBalance(b, d)[8 + |a|] == d[|d| - |c| - 1]
  {
  }

  /** Balance keys of currencies without a colon determine both the address
      and the currency, whatever the address holds: the key splits at its
      last colon. */
  lemma StateKeyBalanceInjective(a: Address, b: Address, c: CurrencyID, d: CurrencyID)
    requires ':' !in c && ':' !in d
    ensures StateKeyBalance(a, c) == StateKeyBalance(b, d) <==> a == b && c == d
  {
    var ka, kb := StateKeyBalance(a, c), StateKeyBalance(b, d);
    if ka == kb {
      if |c| < |d| {
        BalanceKeySeparator(a, b, c, d);
        assert false;
      } else if |d| < |c| {
        BalanceKeySeparator(b, a, d, c);
        assert false;
      }
      assert a == ka[8..8 + |a|] && b == kb[8..8 + |b|];
      assert c == ka[9 + |a|..] && d == kb[9 + |b|..];
    }
  }

  // =====================================================================
  // Building new states from existing ones

  function SetStateAccountValue(st: State, ac: Account): (r: State)
    ensures r.key == st.key && r.value == Some(AccountValue(ac))
  {
    st.(value := Some(AccountValue(ac)))
  }

  function SetStateBalanceValue(st: State, am: Amount): (r: State)
    ensures r.key == st.key && r.value == Some(BalanceValue(am))
  {
    st.(value := Some(BalanceValue(am)))
  }

  function SetStateCurrencyDesignValue(st: State, de: CurrencyDesign): (r: State)
    ensures r.key == st.key && r.value == Some(DesignValue(de))
  {
    st.(value := Some(DesignValue(de)))
  }

  /** The states of a batch laid over a store: a later state of the batch
      wins over an earlier one with the same key. */
  function Apply(states: map<string, Value>, batch: seq<State>): (r: map<string, Value>)
    ensures forall k :: k in r <==> k in states || exists i :: 0 <= i < |batch| && batch[i].key == k && batch[i].value.Some?
  {
    if batch == [] then states
    else
      var last := batch[|batch| - 1];
      var prev := Apply(states, batch[..|batch| - 1]);
      assert forall i :: 0 <= i < |batch| - 1 ==> batch[..|batch| - 1][i] == batch[i];
      match last.value
      case Some(v) => prev[last.key := v]
      case None => prev
  }

  /** After a batch is laid over a store, a key holds the value of the
      batch's last state for it. */
  lemma {:induction false} ApplyLastWrite(states: map<string, Value>, batch: seq<State>, i: nat)
    requires i < |batch| && batch[i].value.Some?
    requires forall j :: i < j < |batch| ==> batch[j].key != batch[i].key
    ensures batch[i].key in Apply(states, batch)
    ensures Apply(states, batch)[batch[i].key] == batch[i].value.value
  {
    var n := |batch|;
    if i < n - 1 {
      var prefix := batch[..n - 1];
      assert prefix[i] == batch[i];
      assert forall j :: i < j < |prefix| ==> prefix[j] == batch[j];
      ApplyLastWrite(states, prefix, i);
    }
  }

  // =====================================================================
  // The state pool

  /** The state pool of one block: the states as the processors see them
      and the log of setState calls. A getState of a key the pool has no
      state for hands out a blank state for that key. */
  class StatePool {
    var states: map<string, Value>
    var updates: seq<Update>
    /** Every key read through GetState, in order. */
    ghost var readKeys: seq<string>

    constructor (states: map<string, Value>)
      ensures this.states == states && updates == [] && readKeys == []
    {
      this.states := states;
      updates := [];
      readKeys := [];
    }

    method GetState(key: string) returns (st: State, found: bool)
      modifies this`readKeys
      ensures found <==> key in states
      ensures st == State(key, if found then Some(states[key]) else None)
      ensures readKeys == old(readKeys) + [key]
    {
      readKeys := readKeys + [key];
      if key in states {
        return State(key, Some(states[key])), true;
      }
      return State(key, None), false;
    }

    /** setState: records the batch under its transaction hash and makes its
        states visible to later reads. */
    method SetState(txHash: seq<byte>, batch: seq<State>)
      modifies this`states, this`updates
      ensures updates == old(updates) + [Update(txHash, batch)]
      ensures states == Apply(old(states), batch)
    {
      updates := updates + [Update(txHash, batch)];
      states := Apply(states, batch);
    }
  }
}
