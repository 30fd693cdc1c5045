/** The liquidity check of canExec against the fees that exec later charges. */
module Liquidity {
  import opened Evm
  import opened GelatoTypes
  import opened GelatoState
  import opened SysAdmin
  import opened Providers
  import opened Core
  import opened Reachability
  import opened Invariants
  import opened Guarantees
  import Bytes
  import ModuleSet

  // ----- the intended formulas, without wrap-around -----

  /** What an execution of this cost takes from a provider at a share in percent. */
  function WithShare(cost: nat, share: nat): nat {
    cost + Mul(cost, share) / 100
  }

  function FullCost(gasLimit: uint256, gasPrice: uint256): nat {
    Mul(55_000 + gasLimit, gasPrice)
  }

  /** The largest amount an execution with this gas limit may cost. */
  function Threshold(p: Params, gasLimit: uint256, gasPrice: uint256): nat {
    WithShare(FullCost(gasLimit, gasPrice), p.totalSuccessShare)
  }

  /** No intermediate result of minExecProviderFunds exceeds a word. */
  predicate FitsWord(p: Params, gasLimit: uint256, gasPrice: uint256) {
    var cost := FullCost(gasLimit, gasPrice);
    cost < MODULUS && Mul(cost, p.totalSuccessShare) < MODULUS && WithShare(cost, p.totalSuccessShare) < MODULUS
  }

  /** What the executor and the administrator get together. */
  function Fees(p: Params, cost: nat): nat {
    WithShare(cost, p.executorSuccessShare) + Mul(cost, p.sysAdminSuccessShare) / 100
  }

  // ----- arithmetic -----

  lemma MulMonotone(a: nat, b: nat, c: nat)
    requires a <= b
    ensures Mul(a, c) <= Mul(b, c) && Mul(c, a) <= Mul(c, b)
  {
    MulIsProduct(a, c);
    MulIsProduct(b, c);
    MulIsProduct(c, a);
    MulIsProduct(c, b);
    Bytes.Monotone(a, b, c);
    assert c * a == a * c && c * b == b * c;
  }

  lemma MulStrict(a: nat, b: nat, c: nat)
    requires a < b
    ensures Mul(a, c) + c <= Mul(b, c) && Mul(c, a) + c <= Mul(c, b)
  {
    MulMonotone(a + 1, b, c);
    MulIsProduct(a, c);
    MulIsProduct(a + 1, c);
    MulIsProduct(c, a);
    MulIsProduct(c, a + 1);
    assert (a + 1) * c == a * c + c && c * (a + 1) == c * a + c;
  }

  lemma MulDistributes(c: nat, a: nat, b: nat)
    ensures Mul(c, a + b) == Mul(c, a) + Mul(c, b)
  {
    MulIsProduct(c, a);
    MulIsProduct(c, b);
    MulIsProduct(c, a + b);
    assert c * (a + b) == c * a + c * b;
  }

  lemma WithShareMonotone(a: nat, b: nat, share: nat)
    requires a <= b
    ensures WithShare(a, share) <= WithShare(b, share)
    ensures a < b ==> WithShare(a, share) < WithShare(b, share)
  {
    hide Mul;
    MulMonotone(a, b, share);
  }

  /** Rounding the two shares down separately loses at most one wei against rounding
      their sum. */
  lemma SplitShares(cost: nat, e: nat, a: nat)
    ensures Mul(cost, e) / 100 + Mul(cost, a) / 100 <= Mul(cost, e + a) / 100 <= Mul(cost, e) / 100 + Mul(cost, a) / 100 + 1
  {
    hide Mul;
    MulDistributes(cost, e, a);
  }

  // ----- the computed threshold -----

  function ComputedCost(gasLimit: uint256, gasPrice: uint256): uint256 {
    Wrap(Mul(Wrap(EXEC_TX_OVERHEAD + gasLimit), gasPrice))
  }

  lemma WrapDrops(n: nat)
    requires n >= MODULUS
    ensures Wrap(n) + MODULUS <= n
  {
  }

  lemma WrappedCost(gasLimit: uint256, gasPrice: uint256)
    ensures var cost := FullCost(gasLimit, gasPrice);
            ComputedCost(gasLimit, gasPrice) <= cost && (ComputedCost(gasLimit, gasPrice) == cost <==> cost < MODULUS)
  {
    hide Mul;
    var gas := EXEC_TX_OVERHEAD + gasLimit;
    MulMonotone(Wrap(gas), gas, gasPrice);
    if FullCost(gasLimit, gasPrice) < MODULUS && gas >= MODULUS {
      if gasPrice > 0 {
        MulMonotone(1, gasPrice, gas);
        MulIsProduct(gas, 1);
      } else {
        MulIsProduct(gas, 0);
      }
    }
  }

  lemma WrappedShare(cost: uint256, share: uint256)
    ensures var t := Wrap(cost + Wrap(Mul(cost, share)) / 100);
            && t <= WithShare(cost, share)
            && (t == WithShare(cost, share) <==> Mul(cost, share) < MODULUS && WithShare(cost, share) < MODULUS)
  {
    hide Mul;
    if Mul(cost, share) >= MODULUS {
      WrapDrops(Mul(cost, share));
    }
  }

  /** The threshold canExec compares with is never too high, and it is the intended one
      exactly when none of its unchecked operations overflows. */
  lemma ComputedThreshold(p: Params, gasLimit: uint256, gasPrice: uint256)
    ensures MinExecProviderFunds(p, gasLimit, gasPrice) <= Threshold(p, gasLimit, gasPrice)
    ensures MinExecProviderFunds(p, gasLimit, gasPrice) == Threshold(p, gasLimit, gasPrice) <==> FitsWord(p, gasLimit, gasPrice)
  {
    hide Mul;
    var computed := ComputedCost(gasLimit, gasPrice);
    WrappedCost(gasLimit, gasPrice);
    WrappedShare(computed, p.totalSuccessShare);
    WithShareMonotone(computed, FullCost(gasLimit, gasPrice), p.totalSuccessShare);
  }

  /** Whatever overflows, it is the intended formula with every operation taken modulo 2^256. */
  lemma ThresholdModulo(p: Params, gasLimit: uint256, gasPrice: uint256)
    ensures var cost := Mul((55_000 + gasLimit) % MODULUS, gasPrice) % MODULUS;
            MinExecProviderFunds(p, gasLimit, gasPrice) == (cost + Mul(cost, p.totalSuccessShare) % MODULUS / 100) % MODULUS
  {
    hide Mul;
  }

  /** Overflow can make the check worthless: for a self-provider that asks for almost all
      gas there is, no funds at all count as enough. */
  lemma OverflowDefeatsTheCheck(p: Params)
    ensures var gasLimit: uint256 := MODULUS - EXEC_TX_OVERHEAD;
            MinExecProviderFunds(p, gasLimit, 1) == 0 && Threshold(p, gasLimit, 1) >= MODULUS
  {
    MulIsProduct(MODULUS, 1);
    MulIsProduct(0, 1);
    MulIsProduct(0, p.totalSuccessShare);
  }

  /** The threshold grows with the gas limit, with the gas price, and with the share as
      soon as the cost is at least 100 wei. */
  lemma ThresholdGrows(p: Params, q: Params, gasLimit: uint256, gasPrice: uint256, moreGas: uint256, morePrice: uint256)
    requires gasLimit < moreGas && gasPrice < morePrice && p.totalSuccessShare < q.totalSuccessShare
    ensures gasPrice > 0 ==> Threshold(p, gasLimit, gasPrice) < Threshold(p, moreGas, gasPrice)
    ensures Threshold(p, gasLimit, gasPrice) < Threshold(p, gasLimit, morePrice)
    ensures FullCost(gasLimit, gasPrice) >= 100 ==> Threshold(p, gasLimit, gasPrice) < Threshold(q, gasLimit, gasPrice)
  {
    hide Mul;
    var gas, cost := EXEC_TX_OVERHEAD + gasLimit, FullCost(gasLimit, gasPrice);
    MulStrict(gas, EXEC_TX_OVERHEAD + moreGas, gasPrice);
    WithShareMonotone(cost, FullCost(moreGas, gasPrice), p.totalSuccessShare);
    MulStrict(gasPrice, morePrice, gas);
    WithShareMonotone(cost, FullCost(gasLimit, morePrice), p.totalSuccessShare);
    MulStrict(p.totalSuccessShare, q.totalSuccessShare, cost);
  }

  // ----- fees against the threshold -----

  lemma FeesMonotone(p: Params, a: nat, b: nat)
    requires a <= b
    ensures Fees(p, a) <= Fees(p, b) && a <= Fees(p, a)
  {
    hide Mul;
    WithShareMonotone(a, b, p.executorSuccessShare);
    MulMonotone(a, b, p.sysAdminSuccessShare);
  }

  lemma FeesAgainstTotal(p: Params, cost: nat)
    requires p.totalSuccessShare == p.executorSuccessShare + p.sysAdminSuccessShare
    ensures Fees(p, cost) <= WithShare(cost, p.totalSuccessShare) <= Fees(p, cost) + 1
  {
    hide Mul;
    SplitShares(cost, p.executorSuccessShare, p.sysAdminSuccessShare);
  }

  /** For all amounts of gas up to the limit the two fees together stay within the threshold
      exactly if they do at the limit; with a total share that is the sum of the two they
      always do, and at the limit they miss it by at most one wei. */
  lemma FeesWithinThreshold(p: Params, gasLimit: uint256, gasPrice: uint256)
    ensures (forall gas: nat :: gas <= EXEC_TX_OVERHEAD + gasLimit ==> Fees(p, Mul(gas, gasPrice)) <= Threshold(p, gasLimit, gasPrice)) <==>
            Fees(p, FullCost(gasLimit, gasPrice)) <= Threshold(p, gasLimit, gasPrice)
    ensures p.totalSuccessShare == p.executorSuccessShare + p.sysAdminSuccessShare ==>
            Fees(p, FullCost(gasLimit, gasPrice)) <= Threshold(p, gasLimit, gasPrice) <= Fees(p, FullCost(gasLimit, gasPrice)) + 1
  {
    hide Mul, WithShare, Fees;
    var top: nat, full := EXEC_TX_OVERHEAD + gasLimit, FullCost(gasLimit, gasPrice);
    assert full == Mul(top, gasPrice);
    forall gas: nat | gas <= EXEC_TX_OVERHEAD + gasLimit ensures Fees(p, Mul(gas, gasPrice)) <= Fees(p, full) {
      MulMonotone(gas, EXEC_TX_OVERHEAD + gasLimit, gasPrice);
      FeesMonotone(p, Mul(gas, gasPrice), full);
    }
    if p.totalSuccessShare == p.executorSuccessShare + p.sysAdminSuccessShare {
      FeesAgainstTotal(p, full);
    }
  }

  /** The fee functions charge the intended fees exactly when neither a checked product nor
      the unchecked sum overflows. */
  lemma FeesAreExact(p: Params, gas: uint256, gasPrice: uint256)
    ensures var cost := Mul(gas, gasPrice);
            && (ExecutorSuccessFee(p, gas, gasPrice) == Ok(WithShare(cost, p.executorSuccessShare)) <==>
                  cost < MODULUS && Mul(cost, p.executorSuccessShare) < MODULUS && WithShare(cost, p.executorSuccessShare) < MODULUS)
            && (SysAdminSuccessFee(p, gas, gasPrice) == Ok(Mul(cost, p.sysAdminSuccessShare) / 100) <==>
                  cost < MODULUS && Mul(cost, p.sysAdminSuccessShare) < MODULUS)
  {
    hide Mul;
  }

  /** The unchecked sum inside the executor's fee does overflow: at 10537 gas used and a share of
      one percent there is a gas price at which the executor is paid almost nothing for a cost
      that almost fills a word. */
  lemma ExecutorFeeWraps(p: Params, gasLimit: uint256)
    requires p.executorSuccessShare == 1 && gasLimit >= 10537
    ensures var gas, gasPrice := CappedGasUsed(10537, gasLimit), (MODULUS - 1) / 65537;
            Mul(gas, gasPrice) == MODULUS - 1 && ExecutorSuccessFee(p, gas, gasPrice) == Ok((MODULUS - 1) / 100 - 1)
  {
    MulIsProduct(65537, (MODULUS - 1) / 65537);
    MulIsProduct(MODULUS - 1, 1);
    hide Mul;
  }

  /** The setters' sum of the two shares is the true one exactly if that fits a word; shares of
      2^256 - 1 and 1 percent add up to 0. */
  lemma TotalShareIsExact(s: State, sender: Address, percentage: uint256)
    requires SetExecutorSuccessShare(s, sender, percentage).Ok?
    ensures var p := SetExecutorSuccessShare(s, sender, percentage).value.params;
            p.totalSuccessShare == percentage + s.params.sysAdminSuccessShare <==> percentage + s.params.sysAdminSuccessShare < MODULUS
    ensures percentage == MODULUS - 1 && s.params.sysAdminSuccessShare == 1 ==>
              SetExecutorSuccessShare(s, sender, percentage).value.params.totalSuccessShare == 0
  {
  }

  // ----- who can pay -----

  const MAX_GAS: Gas := 0xFFFF_FFFF_FFFF_FFFF

  /** The most gas an execution is ever charged for. */
  function WorstGas(gasLimit: uint256): nat {
    Min(MAX_GAS, gasLimit) + EXEC_TX_OVERHEAD
  }

  /** At the most gas that can be charged no product overflows, and the two fees together do
      not exceed what canExec asks for. */
  predicate Affordable(p: Params, gasLimit: uint256, gasPrice: uint256) {
    var cost := Mul(WorstGas(gasLimit), gasPrice);
    && Mul(cost, p.executorSuccessShare) < MODULUS && Mul(cost, p.sysAdminSuccessShare) < MODULUS
    && Fees(p, cost) <= MinExecProviderFunds(p, gasLimit, gasPrice)
  }

  /** What an execution costs the provider: both fees, or the bare cost for a refund. */
  function Due(p: Params, pay: ExecutorPay, gasUsed: Gas, gasLimit: uint256, gasPrice: uint256): nat {
    var cost := Mul(CappedGasUsed(gasUsed, gasLimit), gasPrice);
    if pay == Reward then Fees(p, cost) else cost
  }

  predicate PaidInFull(t: State, sender: Address, provider: Address, pay: ExecutorPay, gasUsed: Gas, gasLimit: uint256, gasPrice: uint256) {
    var r := ProcessProviderPayables(t, sender, provider, pay, gasUsed, gasLimit, gasPrice);
    r.Ok? && r.value.ProviderFunds(provider) + Due(t.params, pay, gasUsed, gasLimit, gasPrice) == t.ProviderFunds(provider)
  }

  /** A payment is made in full exactly if nothing overflows and the provider has what is due. */
  lemma PaymentInFull(t: State, sender: Address, provider: Address, pay: ExecutorPay, gasUsed: Gas, gasLimit: uint256, gasPrice: uint256)
    ensures var cost := Mul(CappedGasUsed(gasUsed, gasLimit), gasPrice);
            PaidInFull(t, sender, provider, pay, gasUsed, gasLimit, gasPrice) <==>
            && (pay == Reward ==> Mul(cost, t.params.executorSuccessShare) < MODULUS && Mul(cost, t.params.sysAdminSuccessShare) < MODULUS)
            && Due(t.params, pay, gasUsed, gasLimit, gasPrice) <= t.ProviderFunds(provider)
  {
    hide Mul;
  }

  lemma AffordableIsPaid(t: State, sender: Address, provider: Address, pay: ExecutorPay, gasUsed: Gas, gasLimit: uint256, gasPrice: uint256)
    requires Affordable(t.params, gasLimit, gasPrice) && IsProviderLiquid(t, provider, gasLimit, gasPrice)
    ensures PaidInFull(t, sender, provider, pay, gasUsed, gasLimit, gasPrice)
  {
    hide Mul, PaidInFull, MinExecProviderFunds, Fees;
    var worst, cost := Mul(WorstGas(gasLimit), gasPrice), Mul(CappedGasUsed(gasUsed, gasLimit), gasPrice);
    MulMonotone(CappedGasUsed(gasUsed, gasLimit), WorstGas(gasLimit), gasPrice);
    MulMonotone(cost, worst, t.params.executorSuccessShare);
    MulMonotone(cost, worst, t.params.sysAdminSuccessShare);
    FeesMonotone(t.params, cost, worst);
    PaymentInFull(t, sender, provider, pay, gasUsed, gasLimit, gasPrice);
  }

  /** A valid storage in which a provider has exactly the given funds. */
  lemma FundedState(p: Params, provider: Address, funds: uint256) returns (t: State)
    ensures Inv(t) && t.params == p && t.ProviderFunds(provider) == funds
  {
    hide Inv;
    var s := Deployed(p);
    DeployedIsValid(p);
    if funds == 0 {
      t := s;
    } else {
      ProvideFundsKeeps(s, provider, funds);
      var received := Receive(s, funds).value;
      assert received.params == p;
      t := ProvideFunds(received, provider, funds).value;
    }
  }

  /** Passing the liquidity check means being able to pay, in every valid storage, for every
      amount of gas and both kinds of payment, exactly under a condition on parameters, gas
      limit and price that can be checked beforehand. */
  lemma LiquidProvidersPay(p: Params, sender: Address, provider: Address, gasLimit: uint256, gasPrice: uint256)
    ensures (forall t: State, pay: ExecutorPay, gasUsed: Gas ::
               Inv(t) && t.params == p && IsProviderLiquid(t, provider, gasLimit, gasPrice) ==>
                 PaidInFull(t, sender, provider, pay, gasUsed, gasLimit, gasPrice)) <==>
            Affordable(p, gasLimit, gasPrice)
  {
    hide Inv, PaidInFull, Affordable, MinExecProviderFunds;
    if Affordable(p, gasLimit, gasPrice) {
      forall t: State, pay: ExecutorPay, gasUsed: Gas
        | Inv(t) && t.params == p && IsProviderLiquid(t, provider, gasLimit, gasPrice)
        ensures PaidInFull(t, sender, provider, pay, gasUsed, gasLimit, gasPrice)
      {
        AffordableIsPaid(t, sender, provider, pay, gasUsed, gasLimit, gasPrice);
      }
    } else {
      var t := FundedState(p, provider, MinExecProviderFunds(p, gasLimit, gasPrice));
      UnaffordableIsNotPaid(t, sender, provider, gasLimit, gasPrice);
      assert IsProviderLiquid(t, provider, gasLimit, gasPrice);
    }
  }

  lemma UnaffordableIsNotPaid(t: State, sender: Address, provider: Address, gasLimit: uint256, gasPrice: uint256)
    requires !Affordable(t.params, gasLimit, gasPrice) && t.ProviderFunds(provider) == MinExecProviderFunds(t.params, gasLimit, gasPrice)
    ensures !PaidInFull(t, sender, provider, Reward, MAX_GAS, gasLimit, gasPrice)
  {
    hide Mul, PaidInFull, MinExecProviderFunds, Fees;
    PaymentInFull(t, sender, provider, Reward, MAX_GAS, gasLimit, gasPrice);
  }

  /** In particular it holds wherever the threshold fits a word and the total share is the sum
      of the two shares. */
  lemma FittingIsAffordable(p: Params, gasLimit: uint256, gasPrice: uint256)
    requires FitsWord(p, gasLimit, gasPrice) && p.totalSuccessShare == p.executorSuccessShare + p.sysAdminSuccessShare
    ensures Affordable(p, gasLimit, gasPrice)
  {
    hide Mul, MinExecProviderFunds;
    var worst, full := Mul(WorstGas(gasLimit), gasPrice), FullCost(gasLimit, gasPrice);
    MulMonotone(WorstGas(gasLimit), EXEC_TX_OVERHEAD + gasLimit, gasPrice);
    MulMonotone(worst, full, p.totalSuccessShare);
    MulDistributes(worst, p.executorSuccessShare, p.sysAdminSuccessShare);
    FeesMonotone(p, worst, full);
    FeesWithinThreshold(p, gasLimit, gasPrice);
    ComputedThreshold(p, gasLimit, gasPrice);
  }

  /** After a successful proxy call exec is reverted only if the provider's funds dropped or
      the parameters changed during that call, or the gas limit was not affordable. */
  lemma UnderflowNeedsInterference(s: State, sender: Address, r: TaskReceipt, env: ExecEnv, t: State)
    requires env.Plausible() && Exec(s, sender, r, env).Revert? && Priced(env) && HasLimit(r)
    requires sender == s.ExecutorByProvider(r.provider.addr) && env.gasLeft >= s.params.internalGasRequirement
    requires ExecutionWrapper(s, r, AskedGasLimit(s, r), env.oracle.value, env) == Ok(ExecSuccess(t))
    ensures || t.params != s.params
            || t.ProviderFunds(r.provider.addr) < s.ProviderFunds(r.provider.addr)
            || !Affordable(s.params, AskedGasLimit(s, r), env.oracle.value)
  {
    ExecTerms(s, r, env);
    hide OraclePrice, GasLimit, AskedGasLimit;
    var p, gasLimit, gasPrice := r.provider.addr, AskedGasLimit(s, r), env.oracle.value;
    assert IsProviderLiquid(s, p, gasLimit, gasPrice);
    hide ExecutionWrapper, ProcessProviderPayables, Affordable, MinExecProviderFunds, Mul;
    if t.params == s.params && s.ProviderFunds(p) <= t.ProviderFunds(p) && Affordable(s.params, gasLimit, gasPrice) {
      AffordableIsPaid(t, sender, p, Reward, env.gasUsed, gasLimit, gasPrice);
    }
  }

  /** It does happen to a limit that is not affordable: a self-provider without any funds
      passes canExec with a gas limit at which the threshold wraps to zero, and the exec of
      its task, with nobody interfering, is reverted for lack of funds. */
  lemma LiquidButUnpaid(env: ExecEnv)
    requires env.Plausible() && env.oracle == Some(1) && !env.outOfGas && env.payload == PayloadReady(false)
    requires env.proxyCall == Reply([], true)
    ensures var params := Params(9, 0, 0, 0, 0, 0, 0);
            var gasLimit: uint256 := MODULUS - EXEC_TX_OVERHEAD;
            var task := Task([], [], gasLimit, 0);
            var stored := TaskReceipt(1, 2, Provider(2, 7), 0, [Task([], [], gasLimit, NO_CEIL)], 0, 0, 1);
            var s1 := Step(Deployed(params), Tx(2, ProviderAssignsExecutorCall(1)));
            var s2 := Step(s1, Tx(2, AddProviderModulesCall([7])));
            var s3 := Step(s2, Tx(2, SubmitTaskCall(Provider(2, 7), task, 0)));
            && CanExec(s3, Option.None, stored, gasLimit, 1, env.now, env.views) == Ok(OK)
            && Exec(s3, 1, stored, env) == Revert(ProviderFundsUnderflow)
            && !Affordable(params, gasLimit, 1)
  {
    var params := Params(9, 0, 0, 0, 0, 0, 0);
    var gasLimit: uint256 := MODULUS - EXEC_TX_OVERHEAD;
    var task := Task([], [], gasLimit, 0);
    var stored := TaskReceipt(1, 2, Provider(2, 7), 0, [Task([], [], gasLimit, NO_CEIL)], 0, 0, 1);
    var s0 := Deployed(params);
    var s1 := s0.(assign := Assignments(map[2 := 1], map[1 := 1]));
    var s2 := s1.(listings := Listings(map[], map[2 := ModuleSet.Set(map[7 := 1], [7])]));
    var s3 := StoreTaskReceipt(s2, false, 2, Provider(2, 7), 0, [Task([], [], gasLimit, NO_CEIL)], 0, 0, 1);
    FirstAssignment(s0, 2, 1);
    FirstModule(s1, 2, 7);
    LimitIsAccepted(s2, gasLimit);
    hide Step, Exec, CanExec, Affordable, Deployed;
    WrappedToNothing(s3, stored, env, gasLimit);
  }

  lemma FirstModule(s: State, provider: Address, m: Address)
    requires s.listings == Listings(map[], map[]) && provider != ZERO_ADDRESS
    ensures Step(s, Tx(provider, AddProviderModulesCall([m]))) ==
            s.(listings := Listings(map[], map[provider := ModuleSet.Set(map[m := 1], [m])]))
  {
    hide Apply;
    var t := s.(listings := Listings(map[], map[provider := ModuleSet.Set(map[m := 1], [m])]));
    var added := ModuleSet.Add(ModuleSet.EMPTY, m);
    assert added.modules == [m] && added.index == map[m := 1];
    assert AddProviderModule(s, provider, m) == Ok(t);
    var batch := [m];
    assert batch[0] == m && batch[1..] == [];
    assert AddProviderModules(t, provider, []) == Ok(t);
    assert AddProviderModules(s, provider, batch) == Ok(t);
    LocalStep(s, provider, AddProviderModulesCall(batch), t);
  }

  lemma LimitIsAccepted(s: State, gasLimit: uint256)
    requires s.params.internalGasRequirement == 0 && gasLimit > 0
    ensures Step(s, Tx(2, SubmitTaskCall(Provider(2, 7), Task([], [], gasLimit, 0), 0))) ==
            StoreTaskReceipt(s, false, 2, Provider(2, 7), 0, [Task([], [], gasLimit, NO_CEIL)], 0, 0, 1)
  {
    MulIsProduct(0, 2);
    var tasks := [Task([], [], gasLimit, 0)];
    assert tasks[1..] == [];
    ThenNothing(Ok([Task([], [], gasLimit, NO_CEIL)]));
    assert SelfProviderGasDefaults(s.params, tasks) == Ok([Task([], [], gasLimit, NO_CEIL)]);
    hide Apply, SelfProviderGasDefaults, Mul, StoreTaskReceipt;
    LocalStep(s, 2, SubmitTaskCall(Provider(2, 7), Task([], [], gasLimit, 0), 0),
              StoreTaskReceipt(s, false, 2, Provider(2, 7), 0, [Task([], [], gasLimit, NO_CEIL)], 0, 0, 1));
  }

  lemma WrappedToNothing(s: State, r: TaskReceipt, env: ExecEnv, gasLimit: uint256)
    requires env.Plausible() && env.oracle == Some(1) && !env.outOfGas && env.payload == PayloadReady(false)
    requires env.proxyCall == Reply([], true) && gasLimit == MODULUS - EXEC_TX_OVERHEAD
    requires s.params.executorSuccessShare == 0 && s.params.sysAdminSuccessShare == 0
    requires s.params.internalGasRequirement == 0 && s.params.minExecutorStake == 0
    requires r == TaskReceipt(r.id, r.userProxy, r.provider, 0, [Task([], [], gasLimit, NO_CEIL)], 0, r.cycleId, 1)
    requires s.IsLive(r) && r.SelfProvider() && ModuleSet.Contains(s.Modules(r.provider.addr), r.provider.providerModule)
    requires s.ExecutorByProvider(r.provider.addr) == 1 && s.ProviderFunds(r.provider.addr) == 0
    ensures CanExec(s, Option.None, r, gasLimit, 1, env.now, env.views) == Ok(OK)
    ensures Exec(s, 1, r, env) == Revert(ProviderFundsUnderflow)
    ensures !Affordable(s.params, gasLimit, 1)
  {
    OverflowDefeatsTheCheck(s.params);
    hide Mul, MinExecProviderFunds, Affordable;
    NothingIsTooLittle(s.params, gasLimit);
    assert CanExec(s, Option.None, r, gasLimit, 1, env.now, env.views) == Ok(OK);
    hide CanExec, ProcessProviderPayables;
    assert ExecTask(s, r, env) == Ok(DeleteTaskReceipt(s, r.id));
    hide ExecTask;
    assert ExecutionWrapper(s, r, gasLimit, 1, env) == Ok(ExecSuccess(DeleteTaskReceipt(s, r.id)));
    NothingToPayWith(DeleteTaskReceipt(s, r.id), 1, r.provider.addr, env.gasUsed, gasLimit);
    hide ExecutionWrapper, DeleteTaskReceipt;
  }

  lemma NothingIsTooLittle(p: Params, gasLimit: uint256)
    requires gasLimit == MODULUS - EXEC_TX_OVERHEAD
    ensures !Affordable(p, gasLimit, 1)
  {
    OverflowDefeatsTheCheck(p);
    MulIsProduct(WorstGas(gasLimit), 1);
    hide Mul;
  }

  lemma NothingToPayWith(t: State, executor: Address, provider: Address, gasUsed: Gas, gasLimit: uint256)
    requires gasLimit == MODULUS - EXEC_TX_OVERHEAD && t.ProviderFunds(provider) == 0
    requires t.params.executorSuccessShare == 0 && t.params.sysAdminSuccessShare == 0
    ensures ProcessProviderPayables(t, executor, provider, Reward, gasUsed, gasLimit, 1) == Revert(ProviderFundsUnderflow)
  {
    MulIsProduct(CappedGasUsed(gasUsed, gasLimit), 1);
    MulIsProduct(CappedGasUsed(gasUsed, gasLimit), 0);
    hide Mul;
  }

  /** Deployments whose total share is the sum of the two shares keep it that way on every
      run, as long as the sum fits a word. */
  lemma SharesAddUp(params: Params, txs: seq<Tx>)
    requires SharesAgree(params)
    ensures SharesAgree(RunAll(Deployed(params), txs).params)
  {
    hide RunAll;
    DeployedIsValid(params);
    RunAllKeeps(Deployed(params), txs);
  }
}
