/** What GelatoCore guarantees to its users, on every run from deployment: any senders, any
    calls, any behaviour of the contracts that are called in between. */
module Guarantees {
  import opened Evm
  import opened GelatoTypes
  import opened GelatoState
  import opened SysAdmin
  import opened Providers
  import opened Executors
  import opened Core
  import opened Invariants
  import opened Reachability
  import ModuleSet

  /** At first nobody has anything, nothing is listed, and nothing has happened. */
  lemma NothingAtFirst(params: Params, a: Address, h: SpecHash)
    ensures var s := Deployed(params);
            && s.params == params
            && s.money.balance == 0 && s.money.sysAdminFunds == 0 && s.money.forced == 0
            && s.ProviderFunds(a) == 0 && s.ExecutorStake(a) == 0
            && s.ExecutorByProvider(a) == ZERO_ADDRESS && s.ProvidersCount(a) == 0
            && s.GasPriceCeil(a, h) == 0 && s.Modules(a).modules == []
            && s.book.currentTaskReceiptId == 0 && s.book.taskReceiptHash == map[]
            && s.logs == Logs([], [], [], [], [])
  {
  }

  /** The contract's ether is exactly what it owes, plus what was forced in. */
  lemma EtherIsConserved(params: Params, txs: seq<Tx>)
    ensures var m := RunAll(Deployed(params), txs).money;
            m.balance == Sum(m.providerFunds) + Sum(m.executorStake) + m.sysAdminFunds + m.forced
  {
    hide RunAll, Deployed;
    DeployedIsValid(params);
    RunAllKeeps(Deployed(params), txs);
  }

  /** Withdrawals are always covered: a provider asking for any amount is paid that amount
      or all its funds, before its own calls run, and only it can make the payout fail. */
  lemma WithdrawalsAreCovered(s: State, provider: Address, amount: uint256, payout: Reply)
    requires Inv(s) && provider != ZERO_ADDRESS
    ensures var r := Apply(s, Tx(provider, UnprovideFundsCall(amount, payout)));
            var funds := s.ProviderFunds(provider);
            var left: uint256 := if amount <= funds then funds - amount else 0;
            && funds <= s.money.balance
            && (r.Ok? <==> payout.accepted)
            && (r.Ok? ==> r.value == RunAll(
                  s.(money := s.money.(balance := s.money.balance - (funds - left), providerFunds := s.money.providerFunds[provider := left])),
                  payout.nested))
  {
    hide Inv, RunAll, Apply, SendValue;
    Covered(s, provider);
    PayoutApplies(s, Tx(provider, UnprovideFundsCall(amount, payout)));
    UnprovideOwes(s, provider, amount);
    var (t, paid) := UnprovideFunds(s, provider, amount);
    PaysOut(t, paid, payout);
  }

  /** The unchecked additions to stakes and fees never wrap around, so a payment moves
      exactly its amount. */
  lemma PaymentsAreExact(s: State, provider: Address, executor: Address, toExecutor: uint256, toSysAdmin: uint256)
    requires Inv(s) && Pay(s, provider, executor, toExecutor, toSysAdmin).Ok?
    ensures var t := Pay(s, provider, executor, toExecutor, toSysAdmin).value;
            && t.ProviderFunds(provider) == s.ProviderFunds(provider) - toExecutor - toSysAdmin
            && t.ExecutorStake(executor) == s.ExecutorStake(executor) + toExecutor
            && t.money.sysAdminFunds == s.money.sysAdminFunds + toSysAdmin
            && t.money.balance == s.money.balance
  {
    SumUpdate(s.money.providerFunds, provider, 0);
    SumUpdate(s.money.executorStake, executor, 0);
  }

  /** Unstaking is refused as "still assigned" exactly when some provider uses the executor. */
  lemma UnstakeGuardIsExact(params: Params, txs: seq<Tx>, executor: Address)
    requires executor != ZERO_ADDRESS
    ensures var s := RunAll(Deployed(params), txs);
            UnstakeExecutor(s, executor) == Revert(StillAssigned) <==> exists p :: s.ExecutorByProvider(p) == executor
  {
    hide RunAll, Deployed;
    DeployedIsValid(params);
    RunAllKeeps(Deployed(params), txs);
    var s := RunAll(Deployed(params), txs);
    var ps := ProvidersOf(s.assign, executor);
    if s.IsExecutorAssigned(executor) {
      var p :| p in ps;
      assert s.ExecutorByProvider(p) == executor;
    } else {
      assert ps == {};
      forall p ensures s.ExecutorByProvider(p) != executor {
        assert p !in ps;
      }
    }
  }

  /** The check that the new executor is min-staked does not by itself keep the zero
      address out: it does so exactly when the minimum stake is positive. */
  lemma ReassigningToNobody(params: Params, txs: seq<Tx>, sender: Address, provider: Address)
    requires sender != ZERO_ADDRESS
    ensures var s := RunAll(Deployed(params), txs);
            var r := ExecutorAssignsExecutor(s, sender, provider, ZERO_ADDRESS);
            && (r.Ok? <==> s.ExecutorByProvider(provider) == sender && s.params.minExecutorStake == 0)
            && (r.Ok? ==>
                  (r.value.ProvidersCount(ZERO_ADDRESS) == s.ProvidersCount(ZERO_ADDRESS) + 1 <==>
                   s.ProvidersCount(ZERO_ADDRESS) < MODULUS - 1))
  {
    hide RunAll, Deployed;
    DeployedIsValid(params);
    RunAllKeeps(Deployed(params), txs);
  }

  lemma FirstAssignment(s: State, provider: Address, executor: Address)
    requires s.assign == Assignments(map[], map[]) && s.IsExecutorMinStaked(executor)
    requires provider != ZERO_ADDRESS && executor != ZERO_ADDRESS
    ensures Step(s, Tx(provider, ProviderAssignsExecutorCall(executor))) ==
            s.(assign := Assignments(map[provider := executor], map[executor := 1]))
  {
    hide Apply;
    LocalStep(s, provider, ProviderAssignsExecutorCall(executor), s.(assign := Assignments(map[provider := executor], map[executor := 1])));
  }

  lemma HandedOver(s: State)
    requires s.assign == Assignments(map[2 := 1], map[1 := 1]) && s.params.minExecutorStake == 0
    ensures Step(s, Tx(1, ExecutorAssignsExecutorCall(2, ZERO_ADDRESS))) ==
            s.(assign := Assignments(map[2 := ZERO_ADDRESS], map[1 := 0, ZERO_ADDRESS := 1]))
  {
    hide Apply, Step;
    var t := s.(assign := Assignments(map[2 := ZERO_ADDRESS], map[1 := 0, ZERO_ADDRESS := 1]));
    assert Reassign(s.assign, 2, 1, ZERO_ADDRESS, true, true) == t.assign;
    LocalStep(s, 1, ExecutorAssignsExecutorCall(2, ZERO_ADDRESS), t);
  }

  /** It does happen: with minimum stake zero an executor hands its provider to address 0,
      which is then counted as the executor of one provider. */
  lemma HandedToNobody(params: Params)
    requires params.minExecutorStake == 0
    ensures var s1 := Step(Deployed(params), Tx(2, ProviderAssignsExecutorCall(1)));
            var s2 := Step(s1, Tx(1, ExecutorAssignsExecutorCall(2, ZERO_ADDRESS)));
            s1.ExecutorByProvider(2) == 1 && s2.ExecutorByProvider(2) == ZERO_ADDRESS && s2.ProvidersCount(ZERO_ADDRESS) == 1
  {
    hide Apply, Step;
    var s0 := Deployed(params);
    FirstAssignment(s0, 2, 1);
    HandedOver(s0.(assign := Assignments(map[2 := 1], map[1 := 1])));
  }

  /** The zero address is never counted while the minimum stake stays positive. */
  lemma NobodyIsNotCounted(params: Params, txs: seq<Tx>)
    ensures var s := RunAll(Deployed(params), txs);
            AlwaysPositiveMinStake(s) ==> s.ProvidersCount(ZERO_ADDRESS) == 0
  {
    hide RunAll, Deployed;
    DeployedIsValid(params);
    RunAllKeeps(Deployed(params), txs);
  }

  /** While the minimum stake is not above any earlier one, every executor that some provider
      uses has at least the minimum stake. */
  lemma AssignedExecutorsStayStaked(params: Params, txs: seq<Tx>, provider: Address)
    ensures var s := RunAll(Deployed(params), txs);
            LowestSoFar(s) && s.ExecutorByProvider(provider) != ZERO_ADDRESS ==>
              s.IsExecutorMinStaked(s.ExecutorByProvider(provider))
  {
    hide RunAll, Deployed;
    DeployedIsValid(params);
    RunAllKeeps(Deployed(params), txs);
    var s := RunAll(Deployed(params), txs);
    if s.ExecutorByProvider(provider) != ZERO_ADDRESS {
      assert provider in s.assign.executorByProvider;
    }
  }

  /** A raise breaks this: an executor with exactly the old minimum, assigned to a provider,
      stops qualifying. */
  lemma RaisingUnstakes(params: Params)
    requires params.owner != ZERO_ADDRESS && 0 < params.minExecutorStake < MODULUS - 1
    ensures var min := params.minExecutorStake;
            var s1 := Step(Deployed(params), Tx(1, StakeExecutorCall(min)));
            var s2 := Step(s1, Tx(2, ProviderAssignsExecutorCall(1)));
            var s3 := Step(s2, Tx(params.owner, SetMinExecutorStakeCall(min + 1)));
            s3.ExecutorByProvider(2) == 1 && !s3.IsExecutorMinStaked(1) && !LowestSoFar(s3)
  {
    hide Apply, Step;
    var min := params.minExecutorStake;
    var s0 := Deployed(params);
    var s1 := s0.(money := Money(min, map[], map[1 := min], 0, 0));
    var s2 := s1.(assign := Assignments(map[2 := 1], map[1 := 1]));
    var s3 := s2.(params := params.(minExecutorStake := min + 1), logs := Logs([], [], [], [], [(min, min + 1)]));
    LocalStep(s0, 1, StakeExecutorCall(min), s1);
    FirstAssignment(s1, 2, 1);
    assert s2.logs.minStakeSet + [(min, min + 1)] == s3.logs.minStakeSet;
    LocalStep(s2, params.owner, SetMinExecutorStakeCall(min + 1), s3);
    assert s3.logs.minStakeSet[0].1 > s3.logs.minStakeSet[0].0;
  }

  /** Whatever modules were added and removed, in whatever batches, a provider's list holds
      no module twice and holds exactly the modules reported as provided. */
  lemma ModuleListsAreSets(params: Params, txs: seq<Tx>, provider: Address, m: Address, i: nat, j: nat)
    ensures var modules := RunAll(Deployed(params), txs).Modules(provider);
            && (ModuleSet.Contains(modules, m) <==> m in modules.modules)
            && (i < j < |modules.modules| ==> modules.modules[i] != modules.modules[j])
  {
    hide RunAll, Deployed, Solvent, AssignmentsOk, BookOk;
    DeployedIsValid(params);
    RunAllKeeps(Deployed(params), txs);
    var modules := RunAll(Deployed(params), txs).Modules(provider);
    ModuleSet.ContainsIsMembership(modules, m);
    if i < j < |modules.modules| {
      ModuleSet.NoDuplicates(modules, i, j);
    }
  }

  /** Receipt ids are 1, 2, 3, ... in the order of submission, whoever submits. */
  lemma IdsAreConsecutive(params: Params, txs: seq<Tx>, k: nat)
    ensures var s := RunAll(Deployed(params), txs);
            && |s.logs.submitted| == s.book.currentTaskReceiptId
            && (k < |s.logs.submitted| ==> s.logs.submitted[k].id == k + 1)
            && (forall id :: id in s.book.taskReceiptHash ==> s.book.taskReceiptHash[id] in s.logs.submitted)
  {
    hide RunAll, Deployed;
    DeployedIsValid(params);
    RunAllKeeps(Deployed(params), txs);
  }

  /** No receipt is executed twice, not even by calls from inside its own execution, and
      none is both executed and cancelled. */
  lemma ExecutedAtMostOnce(params: Params, txs: seq<Tx>, i: nat, j: nat)
    ensures var l := RunAll(Deployed(params), txs).logs;
            && (i < j < |l.executed| ==> l.executed[i] != l.executed[j])
            && (i < |l.executed| && j < |l.cancelled| ==> l.executed[i] != l.cancelled[j])
            && (i < |l.executed| ==> 1 <= l.executed[i] <= |l.submitted|)
  {
    hide RunAll, Deployed;
    DeployedIsValid(params);
    RunAllKeeps(Deployed(params), txs);
    var l := RunAll(Deployed(params), txs).logs;
    if i < |l.executed| {
      assert l.executed[i] in l.executed;
      if j < |l.cancelled| {
        assert l.cancelled[j] in l.cancelled;
      }
    }
  }

  /** Once cancelled, never executed, whatever happens afterwards. */
  lemma CancelledStaysCancelled(s: State, sender: Address, r: TaskReceipt, txs: seq<Tx>)
    requires Inv(s) && CancelTask(s, sender, r).Ok?
    ensures var u := RunAll(CancelTask(s, sender, r).value, txs);
            r.id in u.logs.cancelled && r.id !in u.logs.executed && r.id !in u.book.taskReceiptHash
  {
    var t := CancelTask(s, sender, r).value;
    assert t.logs.cancelled[|t.logs.cancelled| - 1] == r.id;
    SingleCancelKeeps(s, sender, r);
    hide RunAll, CancelTask, Solvent, AssignmentsOk, ModulesOk;
    RunAllKeeps(t, txs);
    var u := RunAll(t, txs);
    assert t.logs.cancelled <= u.logs.cancelled;
    assert u.logs.cancelled[|t.logs.cancelled| - 1] == r.id;
  }

  lemma SameCharge(t: State, u: State, executor: Address, r: TaskReceipt, env: ExecEnv, gasLimit: uint256, gasPrice: uint256)
    requires var v := ProcessProviderPayables(t, executor, r.provider.addr, Reward, env.gasUsed, gasLimit, gasPrice);
             v.Ok? && Charged(t, v.value, executor, r, env, gasLimit, gasPrice) && u.money == v.value.money
    ensures Charged(t, u, executor, r, env, gasLimit, gasPrice)
  {
    hide ProcessProviderPayables;
  }

  /** From `t` to `u` the provider paid the executor's and the administrator's fee for the
      gas used, capped at the gas limit; the sum in the executor's fee is unchecked. */
  predicate Charged(t: State, u: State, executor: Address, r: TaskReceipt, env: ExecEnv, gasLimit: uint256, gasPrice: uint256) {
    var capped := Min(env.gasUsed, gasLimit) + 55_000;
    var cost := Mul(capped, gasPrice);
    var executorFee, adminFee := Wrap(cost + Mul(cost, t.params.executorSuccessShare) / 100),
                                 Mul(cost, t.params.sysAdminSuccessShare) / 100;
    && u.ProviderFunds(r.provider.addr) == t.ProviderFunds(r.provider.addr) - executorFee - adminFee
    && u.ExecutorStake(executor) == t.ExecutorStake(executor) + executorFee
    && u.money.sysAdminFunds == t.money.sysAdminFunds + adminFee
    && u.money.balance == t.money.balance
  }

  lemma LiveIsNotExecuted(s: State, r: TaskReceipt)
    requires Inv(s) && s.IsLive(r)
    ensures r.id !in s.logs.executed && r.id !in s.logs.cancelled && r.id !in s.logs.dropped
  {
  }

  lemma RewardIsExact(t: State, sender: Address, r: TaskReceipt, env: ExecEnv, gasLimit: uint256, gasPrice: uint256)
    requires Inv(t) && ProcessProviderPayables(t, sender, r.provider.addr, Reward, env.gasUsed, gasLimit, gasPrice).Ok?
    ensures var u := ProcessProviderPayables(t, sender, r.provider.addr, Reward, env.gasUsed, gasLimit, gasPrice).value;
            && Charged(t, u, sender, r, env, gasLimit, gasPrice)
            && u == t.(money := u.money)
  {
    var capped := CappedGasUsed(env.gasUsed, gasLimit);
    var executorFee := ExecutorSuccessFee(t.params, capped, gasPrice).value;
    var adminFee := SysAdminSuccessFee(t.params, capped, gasPrice).value;
    PaymentsAreExact(t, r.provider.addr, sender, executorFee, adminFee);
  }

  /** The oracle's answer is a price. */
  predicate Priced(env: ExecEnv) {
    env.oracle.Some? && env.oracle.value > 0
  }

  /** A self-provider's receipt stands at a task, whose gas limit it is given. */
  predicate HasLimit(r: TaskReceipt) {
    r.userProxy == r.provider.addr ==> r.index < |r.tasks|
  }

  /** The gas limit of the current task for self-providers, the system's for all others. */
  function AskedGasLimit(s: State, r: TaskReceipt): uint256
    requires HasLimit(r)
  {
    if r.userProxy == r.provider.addr then r.tasks[r.index].selfProviderGasLimit else s.params.gelatoMaxGas
  }

  /** Exec goes by the oracle's price and the asked gas limit, and it needs both. */
  lemma ExecTerms(s: State, r: TaskReceipt, env: ExecEnv)
    requires env.Plausible()
    ensures if Priced(env) then OraclePrice(env) == Ok(env.oracle.value) else OraclePrice(env).Revert?
    ensures if HasLimit(r) then GasLimit(s, r) == Ok(AskedGasLimit(s, r)) else GasLimit(s, r) == Revert(InvalidIndex)
  {
  }

  lemma ExecChecks(s: State, sender: Address, r: TaskReceipt, env: ExecEnv)
    requires env.Plausible() && Exec(s, sender, r, env).Ok?
    ensures Priced(env) && OraclePrice(env) == Ok(env.oracle.value)
    ensures HasLimit(r) && GasLimit(s, r) == Ok(AskedGasLimit(s, r))
    ensures sender == s.ExecutorByProvider(r.provider.addr) && env.gasLeft >= s.params.internalGasRequirement
  {
    hide ExecutionWrapper, ProcessProviderPayables;
  }

  /** Why exec reverts before it starts an execution. */
  lemma ExecRefusals(s: State, sender: Address, r: TaskReceipt, env: ExecEnv)
    requires env.Plausible()
    ensures var e, executor := Exec(s, sender, r, env), s.ExecutorByProvider(r.provider.addr);
            && (env.oracle.None? ==> e == Revert(OracleFailed))
            && (env.oracle.Some? && env.oracle.value <= 0 ==> e == Revert(GasPriceZeroOrBelow))
            && (Priced(env) && sender != executor ==> e == Revert(InvalidExecutor))
            && (Priced(env) && sender == executor && !HasLimit(r) ==> e == Revert(InvalidIndex))
            && (Priced(env) && sender == executor && HasLimit(r) && env.gasLeft < s.params.internalGasRequirement ==>
                  e == Revert(InsufficientGas))
  {
    hide ExecutionWrapper, ProcessProviderPayables;
  }

  lemma ExecUndone(s: State, sender: Address, r: TaskReceipt, env: ExecEnv, gasLimit: uint256, gasPrice: uint256)
    requires env.Plausible() && Exec(s, sender, r, env).Ok?
    requires OraclePrice(env) == Ok(gasPrice) && GasLimit(s, r) == Ok(gasLimit) && ExecutionWrapper(s, r, gasLimit, gasPrice, env).Revert?
    ensures Exec(s, sender, r, env) == AfterRevert(s, sender, r, gasLimit, gasPrice, env)
  {
    hide ExecutionWrapper, AfterRevert, ProcessProviderPayables;
  }

  lemma RefundIsExact(d: State, sender: Address, provider: Address, gasUsed: Gas, gasLimit: uint256, gasPrice: uint256)
    requires Inv(d) && ProcessProviderPayables(d, sender, provider, Refund, gasUsed, gasLimit, gasPrice).Ok?
    ensures var u := ProcessProviderPayables(d, sender, provider, Refund, gasUsed, gasLimit, gasPrice).value;
            var refund := Mul(Min(gasUsed, gasLimit) + 55_000, gasPrice);
            && u == d.(money := u.money)
            && u.ProviderFunds(provider) == d.ProviderFunds(provider) - refund
            && u.ExecutorStake(sender) == d.ExecutorStake(sender) + refund
            && u.money.sysAdminFunds == d.money.sysAdminFunds && u.money.balance == d.money.balance
  {
    hide Inv, Mul;
    PaymentsAreExact(d, provider, sender, SafeMul(CappedGasUsed(gasUsed, gasLimit), gasPrice).value, 0);
  }

  /** What undoes an execution: its frame runs out of gas, canExec reverts, or canExec agrees and
      the payload, the proxy's call or the check behind it reverts. */
  predicate Undone(s: State, r: TaskReceipt, env: ExecEnv, gasLimit: uint256, gasPrice: uint256) {
    var verdict := CanExec(s, Option.None, r, gasLimit, gasPrice, env.now, env.views);
    || env.outOfGas || verdict.Revert?
    || (verdict == Ok(OK) && (|| env.payload.PayloadReverted? || !env.proxyCall.accepted
                              || (env.payload.proxyReturndataCheck && !env.execRevertCheckOk)))
  }

  lemma UndoneIsExact(s: State, r: TaskReceipt, env: ExecEnv, gasLimit: uint256, gasPrice: uint256)
    ensures var w, verdict := ExecutionWrapper(s, r, gasLimit, gasPrice, env), CanExec(s, Option.None, r, gasLimit, gasPrice, env.now, env.views);
            && (w.Revert? <==> Undone(s, r, env, gasLimit, gasPrice))
            && (w.Revert? ==>
                  w.error == if env.outOfGas then OutOfGas
                             else if verdict.Revert? then verdict.error
                             else if env.payload.PayloadReverted? then ExecPayloadReverted
                             else if !env.proxyCall.accepted then ProxyCallReverted
                             else ExecRevertCheckReverted)
            && (w.Ok? && w.value.CanExecFailed? <==> !env.outOfGas && verdict.Ok? && verdict.value != OK)
            && (w.Ok? && w.value.CanExecFailed? ==> w.value.verdict == verdict.value)
  {
    OnlyWithATask(s, r, gasLimit, gasPrice, env);
    hide CanExec, RunAll, StoreTaskReceipt, DeleteTaskReceipt;
  }

  lemma OnlyWithATask(s: State, r: TaskReceipt, gasLimit: uint256, gasPrice: uint256, env: ExecEnv)
    ensures CanExec(s, Option.None, r, gasLimit, gasPrice, env.now, env.views) == Ok(OK) ==> r.HasTask()
  {
    hide ProviderCanExec, CheckConditions, CheckTerms, IsProviderLiquid;
  }

  /** When the fees for an execution are refused, and why. */
  lemma RewardRefusals(t: State, executor: Address, provider: Address, gasUsed: Gas, gasLimit: uint256, gasPrice: uint256)
    ensures var v, cost := ProcessProviderPayables(t, executor, provider, Reward, gasUsed, gasLimit, gasPrice), Mul(Min(gasUsed, gasLimit) + 55_000, gasPrice);
            var share, adminShare := Mul(cost, t.params.executorSuccessShare), Mul(cost, t.params.sysAdminSuccessShare);
            if cost >= MODULUS || share >= MODULUS || adminShare >= MODULUS then v == Revert(MultiplicationOverflow)
            else
              var fees := (cost + share / 100) % MODULUS + adminShare / 100;
              if fees >= MODULUS then v == Revert(AdditionOverflow)
              else if t.ProviderFunds(provider) < fees then v == Revert(ProviderFundsUnderflow)
              else v.Ok?
  {
    hide Mul, ExecutorSuccessFee, SysAdminSuccessFee, Pay;
    FeesSeparately(t.params, CappedGasUsed(gasUsed, gasLimit), gasPrice);
    var cost := Mul(Min(gasUsed, gasLimit) + 55_000, gasPrice);
    var share, adminShare := Mul(cost, t.params.executorSuccessShare), Mul(cost, t.params.sysAdminSuccessShare);
    if cost < MODULUS && share < MODULUS && adminShare < MODULUS {
      PaymentRefusals(t, provider, executor, (cost + share / 100) % MODULUS, adminShare / 100);
    }
  }

  lemma FeesSeparately(p: Params, gas: uint256, gasPrice: uint256)
    ensures var cost := Mul(gas, gasPrice);
            var share, adminShare := Mul(cost, p.executorSuccessShare), Mul(cost, p.sysAdminSuccessShare);
            && ExecutorSuccessFee(p, gas, gasPrice) ==
               (if cost >= MODULUS || share >= MODULUS then Revert(MultiplicationOverflow) else Ok((cost + share / 100) % MODULUS))
            && SysAdminSuccessFee(p, gas, gasPrice) ==
               (if cost >= MODULUS || adminShare >= MODULUS then Revert(MultiplicationOverflow) else Ok(adminShare / 100))
  {
    hide Mul;
  }

  lemma PaymentRefusals(t: State, provider: Address, executor: Address, toExecutor: uint256, toSysAdmin: uint256)
    ensures var v := Pay(t, provider, executor, toExecutor, toSysAdmin);
            if toExecutor + toSysAdmin >= MODULUS then v == Revert(AdditionOverflow)
            else if t.ProviderFunds(provider) < toExecutor + toSysAdmin then v == Revert(ProviderFundsUnderflow)
            else v.Ok?
  {
    hide Wrap;
  }

  /** The fees can be charged. */
  predicate FeesAreThere(t: State, provider: Address, gasUsed: Gas, gasLimit: uint256, gasPrice: uint256) {
    var cost := Mul(Min(gasUsed, gasLimit) + 55_000, gasPrice);
    var share, adminShare := Mul(cost, t.params.executorSuccessShare), Mul(cost, t.params.sysAdminSuccessShare);
    && cost < MODULUS && share < MODULUS && adminShare < MODULUS
    && (cost + share / 100) % MODULUS + adminShare / 100 <= t.ProviderFunds(provider)
  }

  /** When a refund is refused, and why. */
  lemma RefundRefusals(t: State, executor: Address, provider: Address, gasUsed: Gas, gasLimit: uint256, gasPrice: uint256)
    ensures var v, cost := ProcessProviderPayables(t, executor, provider, Refund, gasUsed, gasLimit, gasPrice), Mul(Min(gasUsed, gasLimit) + 55_000, gasPrice);
            if cost >= MODULUS then v == Revert(MultiplicationOverflow)
            else if t.ProviderFunds(provider) < cost then v == Revert(ProviderFundsUnderflow)
            else v.Ok?
  {
    hide Mul;
  }

  /** A reverted execution costs nothing below the gas limit. From the gas limit on whatever is
      stored under the id is dropped and the provider refunds exactly the capped gas, no share
      added. */
  lemma RevertIsRefunded(s: State, sender: Address, r: TaskReceipt, env: ExecEnv)
    requires Inv(s) && env.Plausible() && Exec(s, sender, r, env).Ok?
    ensures Priced(env) && HasLimit(r)
    ensures var gasPrice, gasLimit := env.oracle.value, AskedGasLimit(s, r);
            var u := Exec(s, sender, r, env).value;
            var refund := Mul(Min(env.gasUsed, gasLimit) + 55_000, gasPrice);
            Undone(s, r, env, gasLimit, gasPrice) ==>
              if env.startGas < gasLimit then u == s
              else
                && u == s.(money := u.money, book := u.book, logs := u.logs)
                && u.book == Book(s.book.currentTaskReceiptId, s.book.taskReceiptHash - {r.id})
                && u.logs == s.logs.(dropped := s.logs.dropped + (if r.id in s.book.taskReceiptHash then [r.id] else []))
                && u.ProviderFunds(r.provider.addr) == s.ProviderFunds(r.provider.addr) - refund
                && u.ExecutorStake(sender) == s.ExecutorStake(sender) + refund
                && u.money.sysAdminFunds == s.money.sysAdminFunds && u.money.balance == s.money.balance
  {
    hide Inv, Evolves, Exec, ExecutionWrapper, Undone, ProcessProviderPayables, Mul, GasLimit, OraclePrice;
    ExecChecks(s, sender, r, env);
    var gasPrice, gasLimit := env.oracle.value, AskedGasLimit(s, r);
    UndoneIsExact(s, r, env, gasLimit, gasPrice);
    if ExecutionWrapper(s, r, gasLimit, gasPrice, env).Revert? {
      ExecUndone(s, sender, r, env, gasLimit, gasPrice);
      if env.startGas >= gasLimit {
        DroppingKeeps(s, r.id);
        RefundIsExact(DropTaskReceipt(s, r.id), sender, r.provider.addr, env.gasUsed, gasLimit, gasPrice);
      }
    }
  }

  /** canExec answers OK exactly when all of its requirements hold. */
  lemma CanExecIsExact(s: State, caller: Option<Address>, r: TaskReceipt, gasLimit: uint256, gasPrice: uint256, now: uint256, views: Views)
    ensures CanExec(s, caller, r, gasLimit, gasPrice, now, views) == Ok(OK) <==>
            && s.IsExecutorMinStaked(s.ExecutorByProvider(r.provider.addr))
            && IsProviderLiquid(s, r.provider.addr, gasLimit, gasPrice)
            && r.HasTask() && s.IsLive(r) && (r.expiryDate == 0 || now < r.expiryDate)
            && ModuleSet.Contains(s.Modules(r.provider.addr), r.provider.providerModule)
            && (if r.SelfProvider() then gasPrice <= r.CurrentTask().selfProviderGasPriceCeil
                else && gasPrice <= s.GasPriceCeil(r.provider.addr, HashTaskSpec(CastTaskToSpec(r.CurrentTask())))
                     && views.isProvided == Answered(true))
            && (forall i :: 0 <= i < |r.CurrentTask().conditions| ==> views.conditionOk(i) == Answered(true))
            && (forall i :: 0 <= i < |r.CurrentTask().actions| && r.CurrentTask().actions[i].termsOkCheck ==> views.termsOk(i) == Answered(true))
            && (caller == Option.None || caller == Some(s.ExecutorByProvider(r.provider.addr)))
  {
    if r.HasTask() {
      ConditionsAreAllChecked(r.CurrentTask(), views, 0);
      TermsAreAllChecked(r.CurrentTask(), views, 0);
    }
  }

  lemma {:induction false} ConditionsAreAllChecked(task: Task, views: Views, i: nat)
    ensures CheckConditions(task, views, i) == Ok(OK) <==>
            forall j :: i <= j < |task.conditions| ==> views.conditionOk(j) == Answered(true)
    decreases |task.conditions| - i
  {
    if i < |task.conditions| {
      ConditionsAreAllChecked(task, views, i + 1);
    }
  }

  lemma {:induction false} TermsAreAllChecked(task: Task, views: Views, i: nat)
    ensures CheckTerms(task, views, i) == Ok(OK) <==>
            forall j :: i <= j < |task.actions| && task.actions[j].termsOkCheck ==> views.termsOk(j) == Answered(true)
    decreases |task.actions| - i
  {
    if i < |task.actions| {
      TermsAreAllChecked(task, views, i + 1);
    }
  }
}
