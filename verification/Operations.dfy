/** What single calls do, exactly: when they go through, what they write, and what they
    leave alone. */
module Operations {
  import opened Evm
  import opened GelatoTypes
  import opened GelatoState
  import opened SysAdmin
  import opened Providers
  import opened Executors
  import opened Core
  import opened Invariants
  import opened Reachability
  import opened Batches

  // ----- stakes and payouts -----

  lemma NobodySends(s: State, call: Call)
    ensures Apply(s, Tx(ZERO_ADDRESS, call)) == Revert(NoSuchSender)
  {
  }

  /** The storage with `value` more ether in it, and nothing booked yet. */
  function WithEther(s: State, value: uint256): State
    requires s.money.balance + value < MODULUS
  {
    s.(money := s.money.(balance := s.money.balance + value))
  }

  lemma StakeArrives(s: State, sender: Address, value: uint256)
    ensures ApplyLocal(s, sender, StakeExecutorCall(value)) ==
            if s.money.balance + value >= MODULUS then Revert(MoreEtherThanExists)
            else StakeExecutor(WithEther(s, value), sender, value)
  {
    hide StakeExecutor;
  }

  lemma StakeIsBooked(t: State, sender: Address, value: uint256)
    requires t.ExecutorStake(sender) + value < MODULUS
    ensures var stake := t.ExecutorStake(sender) + value;
            StakeExecutor(t, sender, value) ==
            if stake < t.params.minExecutorStake then Revert(BelowMinStake)
            else Ok(t.(money := t.money.(executorStake := t.money.executorStake[sender := stake])))
  {
    hide Wrap;
  }

  /** Staking goes through exactly when the ether fits and the whole stake reaches the minimum,
      and adds the value to that stake and the balance alone. */
  lemma StakingIsExact(s: State, sender: Address, value: uint256)
    requires Inv(s) && sender != ZERO_ADDRESS
    ensures var r, balance, stake := Apply(s, Tx(sender, StakeExecutorCall(value))), s.money.balance + value, s.ExecutorStake(sender) + value;
            if balance >= MODULUS then r == Revert(MoreEtherThanExists)
            else
              && stake < MODULUS
              && r == if stake < s.params.minExecutorStake then Revert(BelowMinStake)
                      else Ok(s.(money := s.money.(balance := balance, executorStake := s.money.executorStake[sender := stake])))
  {
    hide Inv, Apply, ApplyLocal, StakeExecutor;
    ApplyIsLocal(s, Tx(sender, StakeExecutorCall(value)));
    Covered(s, sender);
    StakeArrives(s, sender, value);
    if s.money.balance + value < MODULUS {
      StakeIsBooked(WithEther(s, value), sender, value);
    }
  }

  lemma ForcedArrives(s: State, sender: Address, value: uint256)
    ensures ApplyLocal(s, sender, ForcedEtherCall(value)) == ForceEther(s, value)
  {
    hide ForceEther;
  }

  lemma EtherIsForced(s: State, value: uint256)
    ensures ForceEther(s, value) ==
            if s.money.balance + value >= MODULUS then Revert(MoreEtherThanExists)
            else Ok(s.(money := s.money.(balance := s.money.balance + value, forced := s.money.forced + value)))
  {
  }

  /** Forced ether raises the balance and is nobody's. */
  lemma ForcingIsExact(s: State, sender: Address, value: uint256)
    requires sender != ZERO_ADDRESS
    ensures Apply(s, Tx(sender, ForcedEtherCall(value))) ==
            if s.money.balance + value >= MODULUS then Revert(MoreEtherThanExists)
            else Ok(s.(money := s.money.(balance := s.money.balance + value, forced := s.money.forced + value)))
  {
    hide Apply, ApplyLocal, ForceEther;
    ApplyIsLocal(s, Tx(sender, ForcedEtherCall(value)));
    ForcedArrives(s, sender, value);
    EtherIsForced(s, value);
  }

  lemma FundsArrive(s: State, sender: Address, provider: Address, value: uint256)
    ensures ApplyLocal(s, sender, ProvideFundsCall(provider, value)) ==
            if s.money.balance + value >= MODULUS then Revert(MoreEtherThanExists)
            else ProvideFunds(WithEther(s, value), provider, value)
  {
    hide ProvideFunds;
  }

  lemma FundsAreBooked(t: State, provider: Address, value: uint256)
    requires t.ProviderFunds(provider) + value < MODULUS
    ensures ProvideFunds(t, provider, value) ==
            if value == 0 then Revert(ZeroValue)
            else Ok(t.(money := t.money.(providerFunds := t.money.providerFunds[provider := t.ProviderFunds(provider) + value])))
  {
  }

  /** Funding a provider goes through exactly for a positive value that fits. */
  lemma FundingIsExact(s: State, sender: Address, provider: Address, value: uint256)
    requires Inv(s) && sender != ZERO_ADDRESS
    ensures var r, balance, funds := Apply(s, Tx(sender, ProvideFundsCall(provider, value))), s.money.balance + value, s.ProviderFunds(provider) + value;
            if balance >= MODULUS then r == Revert(MoreEtherThanExists)
            else
              && funds < MODULUS
              && r == if value == 0 then Revert(ZeroValue)
                      else Ok(s.(money := s.money.(balance := balance, providerFunds := s.money.providerFunds[provider := funds])))
  {
    hide Inv, Apply, ApplyLocal, ProvideFunds;
    ApplyIsLocal(s, Tx(sender, ProvideFundsCall(provider, value)));
    Covered(s, provider);
    FundsArrive(s, sender, provider, value);
    if s.money.balance + value < MODULUS {
      FundsAreBooked(WithEther(s, value), provider, value);
    }
  }

  /** Unstaking goes through exactly for an executor with a stake and without providers that
      accepts the payout. The recipient's own calls start from a storage in which the whole
      stake, which the balance always covers, is gone, and nothing else has changed. */
  lemma UnstakingIsExact(s: State, sender: Address, payout: Reply)
    requires Inv(s) && sender != ZERO_ADDRESS
    ensures var r := Apply(s, Tx(sender, UnstakeExecutorCall(payout)));
            var stake := s.ExecutorStake(sender);
            && stake <= s.money.balance
            && (r.Ok? <==> s.ProvidersCount(sender) == 0 && stake > 0 && payout.accepted)
            && (r.Revert? ==> r.error == if s.ProvidersCount(sender) != 0 then StillAssigned
                                         else if stake == 0 then AlreadyUnstaked else UnableToSendValue)
            && (r.Ok? ==> r.value == RunAll(
                  s.(money := s.money.(balance := s.money.balance - stake, executorStake := s.money.executorStake[sender := 0])),
                  payout.nested))
  {
    hide Inv, RunAll, Apply, SendValue;
    Covered(s, sender);
    PayoutApplies(s, Tx(sender, UnstakeExecutorCall(payout)));
    if UnstakeExecutor(s, sender).Ok? {
      UnstakeOwes(s, sender);
      var (t, paid) := UnstakeExecutor(s, sender).value;
      PaysOut(t, paid, payout);
    }
  }

  /** Withdrawing excess stake pays the amount asked for, or all there is above the minimum. */
  lemma ExcessIsExact(s: State, sender: Address, amount: uint256, payout: Reply)
    requires Inv(s) && sender != ZERO_ADDRESS
    ensures var r := Apply(s, Tx(sender, WithdrawExcessExecutorStakeCall(amount, payout)));
            var min, stake := s.params.minExecutorStake, s.ExecutorStake(sender);
            && stake <= s.money.balance
            && (r.Ok? <==> stake >= min && payout.accepted)
            && (r.Revert? ==> r.error == if stake < min then NotMinStaked else UnableToSendValue)
            && (r.Ok? ==>
                  var left: uint256 := if amount <= stake - min then stake - amount else min;
                  r.value == RunAll(
                    s.(money := s.money.(balance := s.money.balance - (stake - left), executorStake := s.money.executorStake[sender := left])),
                    payout.nested))
  {
    hide Inv, RunAll, Apply, SendValue, WithdrawExcessExecutorStake;
    Covered(s, sender);
    PayoutApplies(s, Tx(sender, WithdrawExcessExecutorStakeCall(amount, payout)));
    ExcessIsBooked(s, sender, amount);
    if WithdrawExcessExecutorStake(s, sender, amount).Ok? {
      WithdrawExcessOwes(s, sender, amount);
      var (t, paid) := WithdrawExcessExecutorStake(s, sender, amount).value;
      PaysOut(t, paid, payout);
    }
  }

  lemma ExcessIsBooked(s: State, sender: Address, amount: uint256)
    ensures var min, stake := s.params.minExecutorStake, s.ExecutorStake(sender);
            WithdrawExcessExecutorStake(s, sender, amount) ==
            if stake < min then Revert(NotMinStaked)
            else
              var left: uint256 := if amount <= stake - min then stake - amount else min;
              Ok((s.(money := s.money.(executorStake := s.money.executorStake[sender := left])), stake - left))
  {
  }

  /** Only the owner draws the administrator's fees, and never more than there are. */
  lemma AdminWithdrawalIsExact(s: State, sender: Address, amount: uint256, payout: Reply)
    requires Inv(s) && sender != ZERO_ADDRESS
    ensures var r := Apply(s, Tx(sender, WithdrawSysAdminFundsCall(amount, payout)));
            && s.money.sysAdminFunds <= s.money.balance
            && (r.Ok? <==> sender == s.params.owner && payout.accepted)
            && (r.Revert? ==> r.error == if sender != s.params.owner then CallerIsNotTheOwner else UnableToSendValue)
            && (r.Ok? ==>
                  var left: uint256 := if amount <= s.money.sysAdminFunds then s.money.sysAdminFunds - amount else 0;
                  r.value == RunAll(
                    s.(money := s.money.(balance := s.money.balance - (s.money.sysAdminFunds - left), sysAdminFunds := left)),
                    payout.nested))
  {
    hide Inv, RunAll, Apply, SendValue;
    Covered(s, sender);
    PayoutApplies(s, Tx(sender, WithdrawSysAdminFundsCall(amount, payout)));
    if WithdrawSysAdminFunds(s, sender, amount).Ok? {
      SysAdminOwes(s, sender, amount);
      var (t, paid) := WithdrawSysAdminFunds(s, sender, amount).value;
      PaysOut(t, paid, payout);
    }
  }

  // ----- settings -----

  /** Each setter works for the owner only and writes its own parameter only; a share also
      makes the total the wrapped sum of both, and a new minimum stake is logged with the old. */
  lemma SettingIsExact(s: State, sender: Address, call: Call)
    requires IsSetting(call) && sender != ZERO_ADDRESS
    ensures var r, p := Apply(s, Tx(sender, call)), s.params;
            && (r.Ok? <==> sender == p.owner)
            && (r.Revert? ==> r.error == CallerIsNotTheOwner)
            && (r.Ok? ==>
                  && r.value == s.(params := r.value.params, logs := s.logs.(minStakeSet := r.value.logs.minStakeSet))
                  && r.value.params == Params(
                       p.owner,
                       if call.SetGelatoMaxGasCall? then call.param else p.gelatoMaxGas,
                       if call.SetInternalGasRequirementCall? then call.param else p.internalGasRequirement,
                       if call.SetMinExecutorStakeCall? then call.param else p.minExecutorStake,
                       if call.SetExecutorSuccessShareCall? then call.param else p.executorSuccessShare,
                       if call.SetSysAdminSuccessShareCall? then call.param else p.sysAdminSuccessShare,
                       r.value.params.totalSuccessShare)
                  && (if call.SetExecutorSuccessShareCall? || call.SetSysAdminSuccessShareCall? then SharesAgree(r.value.params)
                      else r.value.params.totalSuccessShare == p.totalSuccessShare)
                  && r.value.logs.minStakeSet ==
                     s.logs.minStakeSet + if call.SetMinExecutorStakeCall? then [(p.minExecutorStake, call.param)] else [])
  {
  }

  // ----- assignment -----

  /** `t` is `s` with one provider moved from one executor to another: the counters of the two
      follow, and nothing else has changed. */
  ghost predicate OneMoved(s: State, t: State, provider: Address, from: Address, to: Address) {
    && t == s.(assign := t.assign)
    && (forall p :: t.ExecutorByProvider(p) == if p == provider then to else s.ExecutorByProvider(p))
    && (forall e :: e != ZERO_ADDRESS ==>
          t.ProvidersCount(e) == s.ProvidersCount(e) + (if e == to then 1 else 0) - (if e == from then 1 else 0))
  }

  lemma MovingOne(s: State, t: State, provider: Address, from: Address, to: Address)
    requires Inv(s) && Inv(t) && t == s.(assign := t.assign) && from != to && from == s.ExecutorByProvider(provider)
    requires t.assign.executorByProvider == s.assign.executorByProvider[provider := to]
    ensures OneMoved(s, t, provider, from, to)
  {
    hide Inv;
    forall e | e != ZERO_ADDRESS
      ensures t.ProvidersCount(e) == s.ProvidersCount(e) + (if e == to then 1 else 0) - (if e == from then 1 else 0)
    {
      ReassignedProviders(s.assign, t.assign, provider, from, to, e);
      CountOf(s, e);
      CountOf(t, e);
    }
  }

  /** A provider moves from its executor to another min-staked one, or to none. */
  lemma AssigningIsExact(s: State, sender: Address, newExecutor: Address)
    requires Inv(s) && sender != ZERO_ADDRESS
    ensures var r, current := Apply(s, Tx(sender, ProviderAssignsExecutorCall(newExecutor))), s.ExecutorByProvider(sender);
            if current == newExecutor then r == Revert(AlreadyAssigned)
            else if newExecutor != ZERO_ADDRESS && s.ExecutorStake(newExecutor) < s.params.minExecutorStake then r == Revert(ExecutorNotMinStaked)
            else r.Ok? && OneMoved(s, r.value, sender, current, newExecutor)
  {
    ApplyIsLocal(s, Tx(sender, ProviderAssignsExecutorCall(newExecutor)));
    hide Inv, Apply, OneMoved;
    var r := ProviderAssignsExecutor(s, sender, newExecutor);
    if r.Ok? {
      ProviderAssignsKeeps(s, sender, newExecutor);
      MovingOne(s, r.value, sender, s.ExecutorByProvider(sender), newExecutor);
    }
  }

  /** An executor hands one of its providers to another, min-staked one. */
  lemma HandingOverIsExact(s: State, sender: Address, provider: Address, newExecutor: Address)
    requires Inv(s) && sender != ZERO_ADDRESS
    ensures var r := Apply(s, Tx(sender, ExecutorAssignsExecutorCall(provider, newExecutor)));
            if s.ExecutorByProvider(provider) != sender then r == Revert(SenderIsNotAssignedExecutor)
            else if sender == newExecutor then r == Revert(AlreadyAssigned)
            else if s.ExecutorStake(newExecutor) < s.params.minExecutorStake then r == Revert(ExecutorNotMinStaked)
            else r.Ok? && OneMoved(s, r.value, provider, sender, newExecutor)
  {
    ApplyIsLocal(s, Tx(sender, ExecutorAssignsExecutorCall(provider, newExecutor)));
    hide Inv, Apply, OneMoved;
    var r := ExecutorAssignsExecutor(s, sender, provider, newExecutor);
    if r.Ok? {
      ExecutorAssignsKeeps(s, sender, provider, newExecutor);
      MovingOne(s, r.value, provider, sender, newExecutor);
    }
  }

  lemma CountOf(s: State, e: Address)
    requires Inv(s) && e != ZERO_ADDRESS
    ensures s.ProvidersCount(e) == |ProvidersOf(s.assign, e)|
  {
  }

  // ----- submission -----

  /** The gas fields of a self-provider's tasks: zero becomes the system's gas limit or no
      price ceiling; a limit that was set must be twice the internal requirement. */
  lemma {:induction false} GasDefaultsAreExact(p: Params, tasks: seq<Task>)
    ensures var r := SelfProviderGasDefaults(p, tasks);
            && (r.Ok? <==> forall i :: 0 <= i < |tasks| ==>
                  tasks[i].selfProviderGasLimit == 0
                  || (2 * p.internalGasRequirement < MODULUS && tasks[i].selfProviderGasLimit >= 2 * p.internalGasRequirement))
            && (r.Revert? ==> r.error == if 2 * p.internalGasRequirement >= MODULUS then MultiplicationOverflow else SelfProviderGasLimitTooLow)
            && (r.Ok? ==> |r.value| == |tasks| && forall i :: 0 <= i < |tasks| ==>
                  && r.value[i].conditions == tasks[i].conditions && r.value[i].actions == tasks[i].actions
                  && r.value[i].selfProviderGasLimit == (if tasks[i].selfProviderGasLimit == 0 then p.gelatoMaxGas else tasks[i].selfProviderGasLimit)
                  && r.value[i].selfProviderGasPriceCeil == (if tasks[i].selfProviderGasPriceCeil == 0 then MODULUS - 1 else tasks[i].selfProviderGasPriceCeil))
  {
    MulIsProduct(p.internalGasRequirement, 2);
    if tasks != [] {
      GasDefaultsAreExact(p, tasks[1..]);
      assert forall i :: 0 < i < |tasks| ==> tasks[i] == tasks[1..][i - 1];
      var limit, rest := GasLimitOrDefault(p, tasks[0].selfProviderGasLimit), SelfProviderGasDefaults(p, tasks[1..]);
      if limit.Ok? && rest.Ok? {
        assert forall i :: 0 < i < |tasks| ==> SelfProviderGasDefaults(p, tasks).value[i] == rest.value[i - 1];
      }
    }
  }

  lemma DefaultsKeepLength(p: Params, sender: Address, provider: Provider, tasks: seq<Task>)
    ensures var r := Defaulted(p, sender, provider, tasks); r.Ok? ==> |r.value| == |tasks|
  {
    hide SelfProviderGasDefaults;
    GasDefaultsAreExact(p, tasks);
  }

  function Budget(call: Call): uint256 {
    match call
    case SubmitTaskCall(_, _, _) => 1
    case SubmitTaskCycleCall(_, tasks, _, cycles) => Wrap(cycles * |tasks|)
    case SubmitTaskChainCall(_, _, _, submits) => submits
    case _ => 0
  }

  function SubmittedTasks(call: Call): seq<Task>
    requires call.SubmitTaskCall? || call.SubmitTaskCycleCall? || call.SubmitTaskChainCall?
  {
    if call.SubmitTaskCall? then [call.task] else call.tasks
  }

  lemma StoringIsExact(s: State, newCycle: bool, userProxy: Address, provider: Provider, tasks: seq<Task>,
                       expiryDate: uint256, submissionsLeft: uint256)
    requires Inv(s)
    ensures var t := StoreTaskReceipt(s, newCycle, userProxy, provider, 0, tasks, expiryDate, 0, submissionsLeft);
            var id := s.book.currentTaskReceiptId + 1;
            var receipt := TaskReceipt(id, userProxy, provider, 0, tasks, expiryDate, if newCycle then id else 0, submissionsLeft);
            && t == s.(book := Book(id, s.book.taskReceiptHash[id := receipt]), logs := s.logs.(submitted := s.logs.submitted + [receipt]))
            && forall earlier :: s.IsLive(earlier) ==> t.IsLive(earlier)
  {
    ValidParts(s);
    hide Inv;
  }

  /** The tasks are ready to be stored: as they are, or for a self-provider with their gas
      fields defaulted. */
  ghost predicate DefaultedTo(p: Params, selfProvider: bool, tasks: seq<Task>, stored: seq<Task>) {
    && |stored| == |tasks|
    && forall i :: 0 <= i < |tasks| ==>
         stored[i] == if !selfProvider then tasks[i]
                      else tasks[i].(
                        selfProviderGasLimit := if tasks[i].selfProviderGasLimit == 0 then p.gelatoMaxGas else tasks[i].selfProviderGasLimit,
                        selfProviderGasPriceCeil := if tasks[i].selfProviderGasPriceCeil == 0 then MODULUS - 1 else tasks[i].selfProviderGasPriceCeil)
  }

  /** Each gas limit a self-provider set covers twice the internal requirement. */
  ghost predicate LimitsSuffice(p: Params, tasks: seq<Task>) {
    forall i :: 0 <= i < |tasks| ==>
      tasks[i].selfProviderGasLimit == 0
      || (2 * p.internalGasRequirement < MODULUS && tasks[i].selfProviderGasLimit >= 2 * p.internalGasRequirement)
  }

  lemma DefaultsAreExact(p: Params, sender: Address, provider: Provider, tasks: seq<Task>)
    ensures var r := Defaulted(p, sender, provider, tasks);
            && (r.Ok? <==> sender == provider.addr ==> LimitsSuffice(p, tasks))
            && (r.Ok? ==> DefaultedTo(p, sender == provider.addr, tasks, r.value))
            && (r.Revert? ==> r.error == if 2 * p.internalGasRequirement >= MODULUS then MultiplicationOverflow else SelfProviderGasLimitTooLow)
  {
    hide SelfProviderGasDefaults;
    GasDefaultsAreExact(p, tasks);
  }

  /** A submission stores one new receipt under the next id, owned by the sender, at its
      first task; a single task belongs to no cycle, the others start their own. Nothing
      already stored changes. */
  lemma SubmittingIsExact(s: State, sender: Address, call: Call)
    requires Inv(s) && sender != ZERO_ADDRESS && IsSubmitting(call)
    ensures var r, tasks := Apply(s, Tx(sender, call)), SubmittedTasks(call);
            var short := call.SubmitTaskChainCall? && call.submits != 0 && call.submits < |call.tasks|;
            && (r.Ok? <==> !short && (sender == call.gelatoProvider.addr ==> LimitsSuffice(s.params, tasks)))
            && (r.Revert? ==> r.error == if short then LessRequestedSubmitsThanTasks
                                         else if 2 * s.params.internalGasRequirement >= MODULUS then MultiplicationOverflow
                                         else SelfProviderGasLimitTooLow)
            && (r.Ok? ==>
                  var id, l := s.book.currentTaskReceiptId + 1, r.value.logs.submitted;
                  && |l| == id
                  && var stored := l[id - 1].tasks;
                  var receipt := TaskReceipt(id, sender, call.gelatoProvider, 0, stored, call.expiryDate,
                                             if call.SubmitTaskCall? then 0 else id, Budget(call));
                  && DefaultedTo(s.params, sender == call.gelatoProvider.addr, tasks, stored)
                  && r.value == s.(book := Book(id, s.book.taskReceiptHash[id := receipt]), logs := s.logs.(submitted := s.logs.submitted + [receipt]))
                  && forall earlier :: s.IsLive(earlier) ==> r.value.IsLive(earlier))
  {
    ApplyIsLocal(s, Tx(sender, call));
    ValidParts(s);
    hide Inv, Apply, SelfProviderGasDefaults, StoreTaskReceipt, Wrap, LimitsSuffice, DefaultedTo;
    DefaultsAreExact(s.params, sender, call.gelatoProvider, SubmittedTasks(call));
    SubmittingStores(s, sender, call);
    var r := Defaulted(s.params, sender, call.gelatoProvider, SubmittedTasks(call));
    hide Defaulted, ApplyLocal;
    if r.Ok? {
      StoringIsExact(s, !call.SubmitTaskCall?, sender, call.gelatoProvider, r.value, call.expiryDate, Budget(call));
    }
  }

  lemma SubmittingStores(s: State, sender: Address, call: Call)
    requires IsSubmitting(call)
    ensures ApplyLocal(s, sender, call) ==
            if call.SubmitTaskChainCall? && call.submits != 0 && call.submits < |call.tasks| then Revert(LessRequestedSubmitsThanTasks)
            else
              var tasks :- Defaulted(s.params, sender, call.gelatoProvider, SubmittedTasks(call));
              Ok(StoreTaskReceipt(s, !call.SubmitTaskCall?, sender, call.gelatoProvider, 0, tasks, call.expiryDate, 0, Budget(call)))
  {
    hide Defaulted, StoreTaskReceipt, Wrap;
  }

  // ----- cancellation -----

  predicate Party(sender: Address, r: TaskReceipt) {
    sender == r.userProxy || sender == r.provider.addr
  }

  /** `t` is `s` after the receipts with these ids were cancelled in this order. */
  ghost predicate Cancelled(s: State, t: State, ids: seq<nat>) {
    && t == s.(book := t.book, logs := s.logs.(cancelled := s.logs.cancelled + ids))
    && t.book.currentTaskReceiptId == s.book.currentTaskReceiptId
    && (forall id :: id in t.book.taskReceiptHash <==> id in s.book.taskReceiptHash && id !in ids)
    && (forall id :: id in t.book.taskReceiptHash ==> t.book.taskReceiptHash[id] == s.book.taskReceiptHash[id])
  }

  /** Cancelling is for the user proxy and the provider of a stored receipt. */
  lemma CancellingIsExact(s: State, sender: Address, r: TaskReceipt)
    requires sender != ZERO_ADDRESS
    ensures var e := Apply(s, Tx(sender, CancelTaskCall(r)));
            if sender != r.userProxy && sender != r.provider.addr then e == Revert(CancelSender)
            else if !s.IsLive(r) then e == Revert(InvalidTaskReceiptHash)
            else e.Ok? && Cancelled(s, e.value, [r.id])
  {
    ApplyIsLocal(s, Tx(sender, CancelTaskCall(r)));
    hide Apply;
  }

  function Ids(receipts: seq<TaskReceipt>): seq<nat> {
    seq(|receipts|, i requires 0 <= i < |receipts| => receipts[i].id)
  }

  /** A batch of cancellations goes through exactly if each of them may be cancelled and none is
      listed twice; all of them are then cancelled, in order. */
  lemma {:induction false} CancelsAreExact(s: State, sender: Address, receipts: seq<TaskReceipt>)
    ensures var e := MultiCancelTasks(s, sender, receipts);
            && (e.Ok? <==> Distinct(Ids(receipts)) && forall r :: r in receipts ==> Party(sender, r) && s.IsLive(r))
            && (e.Ok? ==> Cancelled(s, e.value, Ids(receipts)))
    decreases |receipts|
  {
    if receipts == [] {
      assert s.logs.cancelled + [] == s.logs.cancelled;
    } else {
      var first, rest := receipts[0], receipts[1..];
      assert Ids(receipts) == [first.id] + Ids(rest) && Ids(receipts)[1..] == Ids(rest);
      DistinctTail(Ids(receipts));
      assert first in receipts && forall r :: r in receipts <==> r == first || r in rest;
      assert CancelTask(s, sender, first).Ok? <==> Party(sender, first) && s.IsLive(first);
      assert MultiCancelTasks(s, sender, receipts) == var t :- CancelTask(s, sender, first); MultiCancelTasks(t, sender, rest);
      hide Distinct, Ids;
      if CancelTask(s, sender, first).Ok? {
        var t := CancelTask(s, sender, first).value;
        assert Cancelled(s, t, [first.id]);
        hide CancelTask;
        CancelsAreExact(t, sender, rest);
        OthersStay(s, t, first, rest);
        if MultiCancelTasks(t, sender, rest).Ok? {
          CancelledTwice(s, t, MultiCancelTasks(t, sender, rest).value, [first.id], Ids(rest));
        }
      }
    }
  }

  lemma CancelledTwice(s: State, t: State, u: State, ids: seq<nat>, more: seq<nat>)
    requires Cancelled(s, t, ids) && Cancelled(t, u, more)
    ensures Cancelled(s, u, ids + more)
  {
    assert (s.logs.cancelled + ids) + more == s.logs.cancelled + (ids + more);
  }

  lemma OthersStay(s: State, t: State, first: TaskReceipt, rest: seq<TaskReceipt>)
    requires Cancelled(s, t, [first.id]) && s.IsLive(first)
    ensures (forall r :: r in rest ==> t.IsLive(r)) <==> first.id !in Ids(rest) && forall r :: r in rest ==> s.IsLive(r)
  {
    forall r | r in rest ensures t.IsLive(r) <==> s.IsLive(r) && r.id != first.id {}
    if first.id in Ids(rest) {
      var k :| 0 <= k < |rest| && Ids(rest)[k] == first.id;
      assert !t.IsLive(rest[k]) && rest[k] in rest;
    } else {
      forall r | r in rest ensures r.id != first.id {
        var k :| 0 <= k < |rest| && rest[k] == r;
        assert Ids(rest)[k] == r.id;
      }
    }
  }

  lemma BatchCancelIsExact(s: State, sender: Address, receipts: seq<TaskReceipt>)
    requires sender != ZERO_ADDRESS
    ensures var e := Apply(s, Tx(sender, MultiCancelTasksCall(receipts)));
            && (e.Ok? <==> Distinct(Ids(receipts)) && forall r :: r in receipts ==> Party(sender, r) && s.IsLive(r))
            && (e.Ok? ==> Cancelled(s, e.value, Ids(receipts)))
  {
    ApplyIsLocal(s, Tx(sender, MultiCancelTasksCall(receipts)));
    hide Apply, Distinct, Cancelled, Ids;
    CancelsAreExact(s, sender, receipts);
  }
}
