/** canExec's answers one by one: each of them is given exactly in the case it names, and only
    after everything asked before it was fine. */
module Verdicts {
  import opened Evm
  import opened GelatoTypes
  import opened GelatoState
  import opened Providers
  import opened Core
  import ModuleSet

  /** The arguments of one canExec call. */
  datatype Question = Question(caller: Option<Address>, r: TaskReceipt, gasLimit: uint256, gasPrice: uint256, now: uint256, views: Views) {
    predicate SelfProvided() {
      r.userProxy == r.provider.addr
    }

    predicate HasTask() {
      r.index < |r.tasks|
    }

    function Task(): Task
      requires HasTask()
    {
      r.tasks[r.index]
    }
  }

  function Asked(s: State, q: Question): Outcome<Verdict> {
    CanExec(s, q.caller, q.r, q.gasLimit, q.gasPrice, q.now, q.views)
  }

  // ----- what is asked, in this order -----

  predicate Staked(s: State, q: Question) {
    s.ExecutorStake(s.ExecutorByProvider(q.r.provider.addr)) >= s.params.minExecutorStake
  }

  /** The executor has its stake and the provider the funds for the whole gas limit. */
  predicate Backed(s: State, q: Question) {
    Staked(s, q) && s.ProviderFunds(q.r.provider.addr) >= MinExecProviderFunds(s.params, q.gasLimit, q.gasPrice)
  }

  /** The price is within the ceiling of the task itself, or of the spec that covers it. */
  predicate Affordable(s: State, q: Question)
    requires q.HasTask()
  {
    q.gasPrice <= if q.SelfProvided() then q.Task().selfProviderGasPriceCeil
                  else s.GasPriceCeil(q.r.provider.addr, HashTaskSpec(CastTaskToSpec(q.Task())))
  }

  predicate Listed(s: State, q: Question) {
    ModuleSet.Contains(s.Modules(q.r.provider.addr), q.r.provider.providerModule)
  }

  /** The provider's terms are met: backing, price and module. Self-providers need no word from
      the module. */
  predicate Provided(s: State, q: Question) {
    && Backed(s, q) && q.HasTask() && Affordable(s, q) && Listed(s, q)
    && (q.SelfProvided() || q.views.isProvided == Answered(true))
  }

  predicate Stored(s: State, q: Question) {
    q.r.id in s.book.taskReceiptHash && s.book.taskReceiptHash[q.r.id] == q.r
  }

  predicate Expired(q: Question) {
    q.r.expiryDate != 0 && q.r.expiryDate <= q.now
  }

  /** Provided, stored and not expired: what remains are the task's own conditions. */
  predicate Open(s: State, q: Question) {
    Provided(s, q) && Stored(s, q) && !Expired(q)
  }

  /** The first condition that does not answer OK. */
  predicate FirstUnmet(task: Task, views: Views, i: nat) {
    && i < |task.conditions| && views.conditionOk(i) != Answered(true)
    && forall j :: 0 <= j < i ==> views.conditionOk(j) == Answered(true)
  }

  predicate AllMet(task: Task, views: Views) {
    forall j :: 0 <= j < |task.conditions| ==> views.conditionOk(j) == Answered(true)
  }

  /** The first action whose terms are to be checked and are not OK. */
  predicate FirstRefused(task: Task, views: Views, i: nat) {
    && i < |task.actions| && task.actions[i].termsOkCheck && views.termsOk(i) != Answered(true)
    && forall j :: 0 <= j < i && task.actions[j].termsOkCheck ==> views.termsOk(j) == Answered(true)
  }

  predicate AllAccepted(task: Task, views: Views) {
    forall j :: 0 <= j < |task.actions| && task.actions[j].termsOkCheck ==> views.termsOk(j) == Answered(true)
  }

  predicate Due(s: State, q: Question) {
    Open(s, q) && AllMet(q.Task(), q.views)
  }

  // ----- the two loops -----

  lemma {:induction false} ConditionsAnswer(task: Task, views: Views, i: nat, k: nat)
    requires forall j :: 0 <= j < i && j < |task.conditions| ==> views.conditionOk(j) == Answered(true)
    ensures var c := CheckConditions(task, views, i);
            && (c == Ok(OK) <==> AllMet(task, views))
            && (c == Ok(ConditionNotOk(k)) <==> FirstUnmet(task, views, k) && views.conditionOk(k) == Answered(false))
            && (c == Ok(ConditionReverted(k)) <==> FirstUnmet(task, views, k) && views.conditionOk(k) == Failed)
            && (c.Revert? <==> exists j: nat :: FirstUnmet(task, views, j) && views.conditionOk(j) == Aborts)
            && (c.Revert? ==> c == Revert(ViewAborted))
            && (c.Ok? ==> c.value == OK || c.value.ConditionNotOk? || c.value.ConditionReverted?)
    decreases |task.conditions| - i
  {
    if i < |task.conditions| {
      if views.conditionOk(i) == Answered(true) {
        ConditionsAnswer(task, views, i + 1, k);
      } else {
        assert FirstUnmet(task, views, i);
      }
    }
  }

  lemma {:induction false} TermsAnswer(task: Task, views: Views, i: nat, k: nat)
    requires forall j :: 0 <= j < i && j < |task.actions| && task.actions[j].termsOkCheck ==> views.termsOk(j) == Answered(true)
    ensures var c := CheckTerms(task, views, i);
            && (c == Ok(OK) <==> AllAccepted(task, views))
            && (c == Ok(ActionTermsNotOk(k)) <==> FirstRefused(task, views, k) && views.termsOk(k) == Answered(false))
            && (c == Ok(ActionTermsReverted(k)) <==> FirstRefused(task, views, k) && views.termsOk(k) == Failed)
            && (c.Revert? <==> exists j: nat :: FirstRefused(task, views, j) && views.termsOk(j) == Aborts)
            && (c.Revert? ==> c == Revert(ViewAborted))
            && (c.Ok? ==> c.value == OK || c.value.ActionTermsNotOk? || c.value.ActionTermsReverted?)
    decreases |task.actions| - i
  {
    if i < |task.actions| {
      if !task.actions[i].termsOkCheck || views.termsOk(i) == Answered(true) {
        TermsAnswer(task, views, i + 1, k);
      } else {
        assert FirstRefused(task, views, i);
      }
    }
  }

  // ----- the answers -----

  /** Executor and provider come first, before the task is even looked up. */
  lemma BackingVerdicts(s: State, q: Question)
    ensures Asked(s, q) == Ok(ExecutorNotMinStakedVerdict) <==> !Staked(s, q)
    ensures Asked(s, q) == Ok(ProviderIlliquidity) <==> Staked(s, q) && !Backed(s, q)
    ensures Asked(s, q) == Revert(InvalidIndex) <==> Backed(s, q) && !q.HasTask()
  {
    hide MinExecProviderFunds, CheckConditions, CheckTerms, HashTaskSpec, CastTaskToSpec;
    Loops(q);
  }

  /** Then the price and the module. */
  lemma ProviderVerdicts(s: State, q: Question)
    ensures Asked(s, q) == Ok(SelfProviderGasPriceCeil) <==> Backed(s, q) && q.HasTask() && !Affordable(s, q) && q.SelfProvided()
    ensures Asked(s, q) == Ok(TaskSpecGasPriceCeilOrNotProvided) <==> Backed(s, q) && q.HasTask() && !Affordable(s, q) && !q.SelfProvided()
    ensures Asked(s, q) == Ok(InvalidProviderModule) <==> Backed(s, q) && q.HasTask() && Affordable(s, q) && !Listed(s, q)
    ensures Asked(s, q) == Ok(ModuleChecksFailed) <==>
            && Backed(s, q) && q.HasTask() && Affordable(s, q) && Listed(s, q)
            && !q.SelfProvided() && (q.views.isProvided == Failed || q.views.isProvided == Answered(false))
  {
    hide MinExecProviderFunds, CheckConditions, CheckTerms, HashTaskSpec, CastTaskToSpec, ModuleSet.Contains;
    Loops(q);
  }

  /** Then the receipt. */
  lemma ReceiptVerdicts(s: State, q: Question)
    ensures Asked(s, q) == Ok(InvalidTaskReceiptHashVerdict) <==> Provided(s, q) && !Stored(s, q)
    ensures Asked(s, q) == Ok(TaskReceiptExpired) <==> Provided(s, q) && Stored(s, q) && Expired(q)
  {
    hide MinExecProviderFunds, CheckConditions, CheckTerms, HashTaskSpec, CastTaskToSpec, ModuleSet.Contains;
    Loops(q);
  }

  /** Then the conditions, of which the first unmet one is reported, and the actions' terms
      likewise. */
  lemma TaskVerdicts(s: State, q: Question, i: nat)
    ensures Asked(s, q) == Ok(ConditionNotOk(i)) <==> Open(s, q) && FirstUnmet(q.Task(), q.views, i) && q.views.conditionOk(i) == Answered(false)
    ensures Asked(s, q) == Ok(ConditionReverted(i)) <==> Open(s, q) && FirstUnmet(q.Task(), q.views, i) && q.views.conditionOk(i) == Failed
    ensures Asked(s, q) == Ok(ActionTermsNotOk(i)) <==> Due(s, q) && FirstRefused(q.Task(), q.views, i) && q.views.termsOk(i) == Answered(false)
    ensures Asked(s, q) == Ok(ActionTermsReverted(i)) <==> Due(s, q) && FirstRefused(q.Task(), q.views, i) && q.views.termsOk(i) == Failed
  {
    hide MinExecProviderFunds, CheckConditions, CheckTerms, HashTaskSpec, CastTaskToSpec, ModuleSet.Contains, FirstUnmet, FirstRefused, AllMet, AllAccepted;
    if q.HasTask() {
      ConditionsAnswer(q.Task(), q.views, 0, i);
      TermsAnswer(q.Task(), q.views, 0, i);
    }
  }

  /** Last comes who is asking; GelatoCore itself may. */
  lemma CallerVerdicts(s: State, q: Question)
    ensures var mayExec := q.caller == Option.None || q.caller == Some(s.ExecutorByProvider(q.r.provider.addr));
            var fine := Due(s, q) && AllAccepted(q.Task(), q.views);
            && (Asked(s, q) == Ok(InvalidExecutorVerdict) <==> fine && !mayExec)
            && (Asked(s, q) == Ok(OK) <==> fine && mayExec)
  {
    hide MinExecProviderFunds, CheckConditions, CheckTerms, HashTaskSpec, CastTaskToSpec, ModuleSet.Contains, AllMet, AllAccepted;
    Loops(q);
  }

  /** Without an answer it ends exactly when there is no task, or the module, or the first
      condition or action that is not OK, aborts the call. */
  lemma NoVerdict(s: State, q: Question)
    ensures Asked(s, q).Revert? <==>
            && Backed(s, q)
            && (|| !q.HasTask()
                || (Affordable(s, q) && Listed(s, q) && !q.SelfProvided() && q.views.isProvided == Aborts)
                || (Open(s, q) && exists i: nat :: FirstUnmet(q.Task(), q.views, i) && q.views.conditionOk(i) == Aborts)
                || (Due(s, q) && exists i: nat :: FirstRefused(q.Task(), q.views, i) && q.views.termsOk(i) == Aborts))
    ensures Asked(s, q).Revert? ==> Asked(s, q).error == if q.HasTask() then ViewAborted else InvalidIndex
  {
    hide MinExecProviderFunds, CheckConditions, CheckTerms, HashTaskSpec, CastTaskToSpec, ModuleSet.Contains, FirstUnmet, FirstRefused, AllMet, AllAccepted;
    if q.HasTask() {
      ConditionsAnswer(q.Task(), q.views, 0, 0);
      TermsAnswer(q.Task(), q.views, 0, 0);
    }
  }

  /** The loops speak of conditions and terms only. */
  lemma Loops(q: Question)
    ensures q.HasTask() ==>
              var c, t := CheckConditions(q.Task(), q.views, 0), CheckTerms(q.Task(), q.views, 0);
              && (c == Ok(OK) <==> AllMet(q.Task(), q.views))
              && (c.Revert? ==> c == Revert(ViewAborted))
              && (c.Ok? ==> c.value == OK || c.value.ConditionNotOk? || c.value.ConditionReverted?)
              && (t == Ok(OK) <==> AllAccepted(q.Task(), q.views))
              && (t.Revert? ==> t == Revert(ViewAborted))
              && (t.Ok? ==> t.value == OK || t.value.ActionTermsNotOk? || t.value.ActionTermsReverted?)
  {
    if q.HasTask() {
      ConditionsAnswer(q.Task(), q.views, 0, 0);
      TermsAnswer(q.Task(), q.views, 0, 0);
    }
  }
}
