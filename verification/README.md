# Gelato: a verified model

Gelato lets users submit tasks (conditions plus actions) that executors run for them and
providers pay for. This project models the contracts that carry the money and the tasks, and
the scripts that talk to them, and proves what their users rely on.

## What is modelled

**The contracts.** `GelatoCoreContract.dfy` is GelatoCore with the contracts it inherits from
(GelatoSysAdmin, GelatoProviders, GelatoExecutors) as one class whose methods update its
fields in place, with the loops of the source, and roll back where the EVM does. Each method is
proved equal to a function from storage to storage (`SysAdmin`, `Providers`, `Executors`,
`Core`), and the guarantees are proved about every run of those functions: `Invariants` and
`Reachability` (what every transaction keeps), `Guarantees`, `Custody`, `TaskCycles` and `Rounds`
(what users get on every run), `MinimumStake` (what depends on the history of the minimum
stake), `Deposits` (who can take whose money), `Removal` and `Retry` (how a receipt leaves the
table, and when an execution succeeds), `Liquidity` (the liquidity check against the fees),
`Verdicts` (when canExec gives which answer), `Operations`, `Batches` and `BatchCalls` (what
single and batch calls do, exactly, and why they are refused). `ActionPipeline`, `TokenFlow`,
`Settlement` and `MultiSend` model the contracts that run several actions in one call.

**The scripts.** `TaskReceiptCodec` (the validating classes and the two converters),
`NestedArrays`, `DeployOnce`, `SubmissionLogs` and `ParsedLogs` model JavaScript code over the
values of `JavaScript.dfy`.

## How it is modelled

- A call out of GelatoCore hands control to code that may call back. So a payout and the call
  of the user proxy carry the transactions they trigger (`Core.Reply`), which run on the storage
  as it is at that moment, nested to any depth. All guarantees hold for all of them.
- A transaction that reverts leaves the storage as it was before it (`Core.Step`), and exec
  catches a reverted wrapper, with everything it did undone, as the source does.
- Words are 256 bits wide. Unchecked operations wrap (`Evm.Wrap`), SafeMath reverts. Where an
  unchecked operation cannot wrap in reachable states that is proved; where it can, the exact
  condition is given, with a counterexample (`Liquidity.OverflowDefeatsTheCheck`,
  `Liquidity.ExecutorFeeWraps`, `Liquidity.TotalShareIsExact`, `Rounds.EndlessByOverflow`) except
  for the counter of the zero address, which would take 2^256 calls.
- Products of fees and costs are written `Evm.Mul`, which `Evm.MulIsProduct` proves to be `*`.
- Ether can also reach the contract without its code running; that is a step of its own
  (`Core.ForceEther`).
- Keccak is injective: the hash of a receipt or of a task spec is the hashed structure itself.
- What the source takes from outside is a parameter: the oracle's answer, gas readings, block
  time, the answers of conditions, actions and modules (which may also abort the frame that asks,
  past its catch clauses), whether an external call succeeds, and
  whether the wrapper's frame ran out of gas.
- The module sets of the providers are storage structs inside a mapping and therefore values.
- `hide` statements only keep the solver from unfolding definitions a proof does not need.

## What turned out differently from the comments and tests

- GelatoProviders.sol says that its stake check also keeps the zero address out. It does so
  exactly when the minimum stake is positive (`Guarantees.ReassigningToNobody`).
- Assigned executors are sure to be min-staked only while the minimum stake is at its lowest so
  far (`MinimumStake.StakedExactlyAtTheLowest`).
- A provider that passes the liquidity check of canExec can pay exactly if gas limit, price and
  shares are affordable (`Liquidity.LiquidProvidersPay`); a self-provider can choose a gas limit
  that is not (`Liquidity.LiquidButUnpaid`).
- After a reverted wrapper exec deletes by id alone, so an executor can drop a receipt of
  another provider by passing in a different receipt with its id (`Removal.DroppedByAnother`).
- The liquidity threshold, the budget of a cycle and the fee handler are exact only under
  conditions stated in `Liquidity.ComputedThreshold`, `Rounds.CycleBudget` and
  `TokenFlow.FeeIsCeiling`.
- multiUnprovide takes back what multiProvide gave exactly when no two specs of the batch have
  the same hash (`Batches.UnprovideUndoesProvide`); the ceilings are then as before exactly when
  there were none under these hashes (`Batches.CeilingsComeBack`).
- MultiSend ignores up to 32 trailing bytes (`MultiSend.TrailingBytes`).
- nestedArraysAreEqual returns from inside its loop at the first nested array, so on receipts
  it compares three fields (`NestedArrays.ReceiptsAgreeOnThreeFields`).
- The positional lookup of receipts is off by the number of submissions before its window
  (`SubmissionLogs.FetchIsShifted`).
- GelatoProvider.js checks the CommonJS `module` instead of its parameter, so any provider
  module is accepted.

## Model

| member | source | states |
|---|---|---|
| `Guarantees.EtherIsConserved` | test/gelato_core/base/gelato_executors/GelatoExecutors.setters.stake.test.js:178-182 | On every run from deployment, whatever reentrant calls payouts and executions make, the contract holds exactly the sum of all provider funds, all executor stakes and the administrator's funds, plus the ether that was forced in without a call. |
| `Invariants.DeployedIsValid` | contracts/gelato_core/GelatoCore.sol:25-34 | The state the constructor leaves satisfies every invariant: solvency, agreeing counters, numbered receipts, duplicate-free module sets. |
| `Reachability.StepKeeps` | contracts/gelato_core/GelatoCore.sol:248-320 | Every transaction of anyone, with all transactions it triggers inside, leads from a valid state to a valid one; receipts used up before stay used up and logs only grow. |
| `Reachability.RunAllKeeps` | contracts/gelato_core/GelatoCore.sol:371-382 | The same for every sequence of transactions, including those a contract sends back while it is being paid or executed. |
| `Reachability.SendValueKeeps` | contracts/external/Address.sol:62-68 | A booked payout is always covered by the balance: it fails exactly when the recipient refuses it, never for lack of ether. |
| `Reachability.ExecTaskKeeps` | contracts/gelato_core/GelatoCore.sol:344-405 | While the user proxy runs, neither its own transactions nor the automatic resubmission can bring the deleted receipt back, and the id is neither cancelled, dropped nor executed in between. |
| `Guarantees.WithdrawalsAreCovered` | contracts/gelato_core/GelatoProviders.sol:137-154 | Withdrawing provider funds succeeds exactly when the recipient accepts; the recipient's own calls start from a storage in which exactly the requested amount, or all there is, has left funds and balance. |
| `Guarantees.PaymentsAreExact` | contracts/gelato_core/GelatoCore.sol:429-444 | The unchecked additions to stake and administrator funds never wrap: provider, executor and administrator change by exactly the two fees and the balance does not. |
| `Deposits.NobodyTakesYourMoney` | contracts/gelato_core/GelatoProviders.sol:137-154 | From any point of any run on, nested calls included: an executor's stake falls only if it withdraws stake itself, a provider's funds only if it withdraws itself or an exec names it as provider, the administrator's fees only by a withdrawal of the administrator. |
| `Guarantees.UnstakeGuardIsExact` | contracts/gelato_core/GelatoExecutors.sol:33-36 | On every run, unstaking is refused as still assigned exactly when some provider is assigned to the executor. |
| `Guarantees.ReassigningToNobody` | contracts/gelato_core/GelatoProviders.sol:193-202 | Contrary to the comment in the source, the stake check keeps the zero address out exactly when the minimum stake is positive; with minimum zero a provider can be handed to address 0, which is then counted. |
| `Guarantees.HandedToNobody` | contracts/gelato_core/GelatoProviders.sol:193-202 | A concrete run in which that happens: address 0 ends as the counted executor of one provider. |
| `Guarantees.NobodyIsNotCounted` | contracts/gelato_core/GelatoProviders.sol:172-175 | The zero address has count 0 in every state in which the minimum stake is positive and always was. |
| `MinimumStake.NobodyCountedExactlyAtZero` | contracts/gelato_core/GelatoProviders.sol:193-202 | For every history of minimum stakes: the zero address is uncounted on every run with that history if and only if all minimums, first and present one included, were positive. |
| `Guarantees.AssignedExecutorsStayStaked` | contracts/gelato_core/GelatoExecutors.sol:47-70 | On every run each assigned executor is min-staked whenever the present minimum stake is not above any earlier one, whatever raises and cuts there were in between. |
| `MinimumStake.StakedExactlyAtTheLowest` | contracts/gelato_core/GelatoSysAdmin.sol:69-72 | For every history of minimum stakes: on every run with that history each assigned executor is min-staked if and only if the last minimum is not above any earlier one. |
| `Guarantees.RaisingUnstakes` | test/gelato_core/core/GelatoCore.canExec.test.js:186-212 | The simplest history for which it fails: raising the minimum by one leaves an assigned executor below it. |
| `Guarantees.ModuleListsAreSets` | contracts/gelato_core/GelatoProviders.sol:350-366 | On every run a provider's module list holds no module twice, and exactly the modules reported as provided. |
| `Guarantees.IdsAreConsecutive` | contracts/gelato_core/GelatoCore.sol:140-163 | On every interleaving of submissions and automatic resubmissions the ids issued are 1, 2, 3, ... without gap or repeat. |
| `Guarantees.ExecutedAtMostOnce` | contracts/gelato_core/GelatoCore.sol:367-371 | No receipt is executed twice, not even by reentering from its own execution, and none is both executed and cancelled. |
| `Guarantees.CancelledStaysCancelled` | contracts/gelato_core/GelatoCore.sol:448-462 | After a cancellation no run whatsoever executes the receipt or stores it again. |
| `Retry.SuccessIsPaidOnce` | contracts/gelato_core/GelatoCore.sol:286-295 | Whenever exec executes a receipt: it was stored, unexpired and sent by the provider's min-staked executor, and the oracle gave a positive price. The storage afterwards is exactly what the proxy's own calls and the resubmission left, with the receipt logged once and the two fees paid by the provider at the oracle's price for 55000 plus the gas used, capped at the task's own limit for self-providers and at the system's for others; the sum inside the executor's fee is unchecked. |
| `Guarantees.RevertIsRefunded` | contracts/gelato_core/GelatoCore.sol:301-319 | If exec comes to an execution that is undone, nothing changes below the gas limit; from the limit on it drops whatever is stored under the id and refunds exactly the capped gas plus 55000 times the oracle's price, without a share for the administrator, and touches nothing else. |
| `Guarantees.ExecRefusals` | contracts/gelato_core/GelatoCore.sol:248-271 | Why exec reverts before it starts an execution: no answer from the oracle, a price that is not positive, a sender other than the provider's executor, a self-provider's index past its tasks, or too little gas, in this order. |
| `Guarantees.UndoneIsExact` | contracts/gelato_core/GelatoCore.sol:323-365 | The wrapper of an execution reverts if and only if its frame runs out of gas, canExec reverts, or canExec agrees and the payload, the proxy's call or the check of its returndata reverts. |
| `Guarantees.RewardRefusals` | contracts/gelato_core/GelatoCore.sol:429-444 | The fees are refused if and only if a product or the sum of the two overflows or the provider has less, each with its own reason. |
| `Guarantees.RefundRefusals` | contracts/gelato_core/GelatoCore.sol:429-444 | A refund is refused if and only if gas times price overflows or the provider has less. |
| `Retry.ExecIsExact` | contracts/gelato_core/GelatoCore.sol:248-320 | An exec call executes and logs a receipt if and only if it is stored and the oracle's price, the executor, the gas, every requirement of canExec, module, proxy and the provider's funds for both fees afterwards are in order. |
| `Retry.ExecOutcomes` | contracts/gelato_core/GelatoCore.sol:286-320 | How every exec ends that gets past its own checks: refused by canExec, or undone below the gas limit, it goes through and changes nothing; undone from the limit on, it goes through if and only if the refund does not overflow and can be paid; else if and only if both fees can be paid in the storage the execution left. |
| `Retry.StaysStored` | contracts/gelato_core/GelatoCore.sol:296-304 | A stored receipt is still stored after any run exactly if that run did not execute, cancel or drop it. |
| `Retry.RefusedMayComeAgain` | test/gelato_core/core/GelatoCore.exec.test.js:1488-1511 | An exec refused by canExec, undone below the gas limit or reverted as a whole changes nothing; after any further run that did not execute, cancel or drop the receipt it is still stored, and a later exec executes it if and only if everything else is in order then. |
| `Guarantees.CanExecIsExact` | contracts/gelato_core/GelatoCore.sol:167-241 | canExec answers OK if and only if stake, liquidity, price ceiling, module, stored hash, expiry, every condition, every demanded terms check and the caller are all in order. |
| `Verdicts.BackingVerdicts` | contracts/gelato_core/GelatoCore.sol:173-182 | ExecutorNotMinStaked is answered if and only if the assigned executor's stake is below the minimum, ProviderIlliquidity if and only if it is not and the funds are below the threshold; the call reverts for an index past the tasks exactly when both are fine. |
| `Verdicts.ProviderVerdicts` | contracts/gelato_core/GelatoProviders.sol:60-126 | The two price answers, InvalidProviderModule and a failed module check, each if and only if everything asked before is fine and the price is above the task's own ceiling or that of its spec, the module is not listed, or the module did not say OK to a receipt of another's proxy. |
| `Verdicts.ReceiptVerdicts` | contracts/gelato_core/GelatoCore.sol:187-191 | InvalidTaskReceiptHash if and only if the provider's terms are met and the receipt is not the one stored under its id; TaskReceiptExpired if and only if it is, and its expiry date is set and not in the future. |
| `Verdicts.TaskVerdicts` | contracts/gelato_core/GelatoCore.sol:194-235 | A condition, or after all conditions an action, is reported as not OK or as reverted at position i if and only if it is the first one that does not answer OK and did answer otherwise, or failed; actions that ask for no check do not count. |
| `Verdicts.CallerVerdicts` | contracts/gelato_core/GelatoCore.sol:237-240 | InvalidExecutor if and only if everything else is in order and the caller is neither GelatoCore itself nor the provider's executor, OK if and only if it is one of them. |
| `Verdicts.NoVerdict` | contracts/gelato_core/GelatoCore.sol:167-241 | canExec reverts without an answer exactly if there is no task at the index, or the module, or the first condition or action that is not OK, aborts the call, once everything before is fine. |
| `Guarantees.ConditionsAreAllChecked` | contracts/gelato_core/GelatoCore.sol:194-211 | The condition loop answers OK if and only if every condition from its start position does. |
| `Guarantees.TermsAreAllChecked` | contracts/gelato_core/GelatoCore.sol:214-235 | The terms loop answers OK if and only if every action that asks for a terms check passes it. |
| `GelatoTypes.SpecCoversTask` | contracts/gelato_core/GelatoProviders.sol:334-389 | A task matches a whitelisted spec if and only if both agree on all condition addresses and on every action apart from calldata and the size of a non-zero value. |
| `Custody.NoReceiptIsLost` | contracts/gelato_core/GelatoCore.sol:167-188 | On every run a receipt is stored if and only if it was submitted and neither executed, nor cancelled, nor dropped with a refund. |
| `Custody.CancelIsExact` | test/gelato_core/core/GelatoCore.CancelTask.test.js:191-215 | On every run cancelling succeeds if and only if the sender is the receipt's user proxy or provider and it was submitted and neither executed, cancelled nor dropped before. |
| `Custody.CyclesNeverStall` | contracts/gelato_core/GelatoCore.sol:385-398 | On every run the latest receipt of a cycle is waiting for execution, was cancelled, was dropped with a refund, or was the last of its budget and executed. |
| `Custody.AllButLastExecuted` | contracts/gelato_core/GelatoCore.sol:367-398 | On every run every receipt of a cycle but its latest was executed. |
| `Custody.EveryTaskEveryRound` | contracts/gelato_core/GelatoCore.sol:92-105 | A cycle submitted at any point of any run, with a positive number of rounds times tasks that fits a word: once its latest receipt is executed, in any later run, all its receipts are, and each task was executed exactly once per round. |
| `Removal.RunAllSpares` | contracts/gelato_core/GelatoCore.sol:448-466 | A run none of whose calls, nested ones included, cancels or executes a receipt with a given id leaves what is stored under that id as it is. |
| `Removal.ExecRemovals` | contracts/gelato_core/GelatoCore.sol:286-319 | An exec removes what is stored under an id only by executing exactly the stored receipt, or by dropping it with a refund from the gas limit on; the sender is the executor of the provider named in the receipt passed in. |
| `Removal.DropIsExact` | contracts/gelato_core/GelatoCore.sol:301-319 | Exec drops what is stored under an id if and only if its own checks pass, the gas limit was reached, the execution was undone and the provider named in the receipt passed in can pay the refund at the oracle's price; whether that receipt is the stored one plays no part. |
| `Removal.DroppedByAnother` | contracts/gelato_core/GelatoCore.sol:309 | A concrete run: the executor of one provider passes in a made-up receipt and thereby drops the stored receipt of another provider. |
| `Rounds.CyclesAreChains` | contracts/gelato_core/GelatoCore.sol:388-397 | On every run the receipts of one cycle form a chain, each the successor of the one before (next task, one submission less, same everything else), and all but the last are gone without having been cancelled or dropped. |
| `Rounds.CyclesRunInOrder` | contracts/libraries/GelatoTaskReceipt.sol:7-13 | The k-th receipt of a cycle of n tasks runs task k modulo n; a budget of m > 0 is never exceeded and is used up exactly by the m-th receipt; budget 0 never ends. |
| `Rounds.RoundByRound` | contracts/libraries/GelatoTaskReceipt.sol:7-13 | On every run the receipts of a cycle of n tasks that run task j number one per full round, and one more if the current round has come past j. |
| `Rounds.CycleBudget` | contracts/gelato_core/GelatoCore.sol:102-104 | The stored budget is rounds times tasks if and only if the unchecked product fits a word. |
| `Rounds.EndlessByOverflow` | contracts/gelato_core/GelatoCore.sol:102-104 | Counterexample where it does not fit: a finite request becomes budget 0, an endless cycle. |
| `Liquidity.ComputedThreshold` | contracts/gelato_core/GelatoProviders.sol:300-308 | The unchecked threshold is never above the intended cost plus share, and equals it if and only if no intermediate result overflows. |
| `Liquidity.ThresholdModulo` | contracts/gelato_core/GelatoProviders.sol:300-308 | Whatever overflows, the threshold is the intended formula with each of its operations taken modulo 2^256. |
| `Liquidity.OverflowDefeatsTheCheck` | contracts/gelato_core/GelatoProviders.sol:306-307 | For a gas limit close to 2^256 the computed threshold is 0 although the intended one exceeds a word. |
| `Liquidity.LiquidButUnpaid` | contracts/gelato_core/GelatoCore.sol:289-295 | What comes of it: a run of three transactions after which a self-provider without funds passes canExec, and the exec of its task, with nobody interfering, is reverted for lack of funds. |
| `Liquidity.ThresholdGrows` | test/gelato_core/base/gelato_providers/GelatoProviders.getters.liquidity.test.js:46-264 | The intended threshold strictly grows with gas and price, and with the total share from a cost of 100 wei on. |
| `Liquidity.FeesWithinThreshold` | contracts/gelato_core/GelatoSysAdmin.sol:116-141 | The two separately rounded fees stay within the intended threshold for all gas amounts up to the limit if and only if they do at the limit; if the total share is the sum of the two they do, and at the limit they miss it by at most one wei. |
| `Liquidity.FeesAreExact` | contracts/gelato_core/GelatoSysAdmin.sol:116-141 | Each fee function returns the intended fee if and only if none of its products nor the unchecked sum exceeds a word. |
| `Liquidity.ExecutorFeeWraps` | contracts/gelato_core/GelatoSysAdmin.sol:116-127 | Where the unchecked sum does overflow: at 10537 gas used and a share of one percent there is a gas price at which the executor is paid a hundredth of the cost. |
| `Liquidity.TotalShareIsExact` | contracts/gelato_core/GelatoSysAdmin.sol:75-83 | The setter's unchecked total of the two shares is the true one if and only if it fits a word; 2^256 - 1 and 1 percent give 0. |
| `Liquidity.LiquidProvidersPay` | contracts/gelato_core/GelatoCore.sol:426-443 | In every valid storage a provider that passes the liquidity check can pay fees and refunds for every amount of gas, if and only if gas limit, price and shares are affordable: at the most gas chargeable no product overflows and the fees do not exceed the computed threshold. |
| `Liquidity.FittingIsAffordable` | contracts/gelato_core/GelatoProviders.sol:300-308 | That is the case wherever the threshold fits a word and the total share is the sum of the two shares. |
| `Liquidity.UnderflowNeedsInterference` | test/gelato_core/core/edge_cases/GelatoCore.maliciousProvider.test.js:190-198 | An exec reverted after a successful proxy call proves that the funds dropped or the parameters changed during that call, or that the gas limit was not affordable. |
| `Liquidity.SharesAddUp` | contracts/gelato_core/GelatoSysAdmin.sol:75-94 | On every run the total share stays the (wrapped) sum of the two shares if it was at deployment. |
| `Operations.StakingIsExact` | contracts/gelato_core/GelatoExecutors.sol:21-30 | Sent with ether that fits, staking succeeds if and only if the whole stake reaches the minimum; it adds the value to that stake and to the balance, without wrapping, and touches nothing else. |
| `Operations.FundingIsExact` | contracts/gelato_core/GelatoProviders.sol:129-134 | Funding any provider succeeds if and only if the value is positive and fits; it adds it to those funds and to the balance, without wrapping, and touches nothing else. |
| `Operations.UnstakingIsExact` | contracts/gelato_core/GelatoExecutors.sol:32-45 | Unstaking succeeds if and only if no provider is counted, there is a stake and the recipient accepts; the recipient's own calls start from a storage in which exactly the whole stake has left stake and balance. |
| `Operations.ExcessIsExact` | contracts/gelato_core/GelatoExecutors.sol:47-70 | Withdrawing excess succeeds if and only if the sender is min-staked and accepts; before the recipient's own calls exactly the request, or everything above the minimum, has left stake and balance. |
| `Operations.AdminWithdrawalIsExact` | contracts/gelato_core/GelatoSysAdmin.sol:96-113 | Only the owner draws administrator funds; before the recipient's own calls exactly the request, or all there is, has left funds and balance. |
| `Operations.SettingIsExact` | contracts/gelato_core/GelatoSysAdmin.sol:57-94 | Each setter works for the owner only and writes its own parameter only; a share makes the total the wrapped sum of both, any other setter leaves the total; a new minimum stake is logged with the old one, and no other log changes. |
| `Operations.AssigningIsExact` | contracts/gelato_core/GelatoProviders.sol:157-178 | A provider's assignment succeeds if and only if it changes something and the new executor is min-staked or nobody, with a reason for each refusal; exactly this provider moves and the counters of all executors follow. |
| `Operations.HandingOverIsExact` | contracts/gelato_core/GelatoProviders.sol:181-205 | An executor's reassignment succeeds if and only if it is the provider's executor and the new one is another, min-staked one, checked in this order; exactly this provider moves and the counters of all executors follow. |
| `Batches.ProvidingSpecsIsExact` | contracts/gelato_core/GelatoProviders.sol:208-215 | A batch of specs succeeds if and only if each spec differs in its ceiling, 2^256 - 1 if it gives none, from the one in force at its turn; afterwards the last spec of each hash decides its ceiling, and no other ceiling changed. |
| `Batches.LastSpecDecides` | test/gelato_core/base/gelato_providers/GelatoProviders.setters.taskSpec.test.js:187-217 | After a batch that goes through, the last spec of each hash has left its own ceiling there, or 2^256 - 1 if it gave none. |
| `Batches.NoCeilNoLimit` | contracts/gelato_core/GelatoProviders.sol:117-124 | After a batch in which the last spec that covers a task gave no ceiling, canExec never refuses that task on account of its price, whatever the price. |
| `BatchCalls.ProvidingIsExact` | contracts/gelato_core/GelatoProviders.sol:208-215 | The same for the call as it is sent: when it goes through, the ceiling each spec leaves, and that other hashes, other providers and all modules keep theirs. |
| `Operations.GasDefaultsAreExact` | contracts/gelato_core/GelatoCore.sol:473-486 | Self-provider defaults succeed if and only if each gas limit is zero or at least twice the internal requirement, whose product may itself overflow; zeros become the system limit and 2^256 - 1, nothing else in the tasks changes. |
| `Operations.SubmittingIsExact` | contracts/gelato_core/GelatoCore.sol:78-126 | Each way of submitting succeeds if and only if a chain asks for no fewer submissions than tasks and a self-provider's gas limits suffice, with a reason for each refusal. It stores exactly one new receipt under the next id, owned by the sender, at its first task, with a self-provider's gas fields of every task defaulted, and with its cycle id and budget; everything stored before stays. |
| `Operations.CancellingIsExact` | contracts/gelato_core/GelatoCore.sol:448-462 | Sending a cancellation goes through if and only if the sender is user proxy or provider and the receipt is stored; it takes out and logs exactly this id. |
| `Operations.BatchCancelIsExact` | contracts/gelato_core/GelatoCore.sol:464-466 | A batch of cancellations goes through if and only if each of them may be cancelled and none is listed twice; exactly these ids are taken out and logged, in order. |
| `Batches.ReassigningABatch` | contracts/gelato_core/GelatoExecutors.sol:73-79 | A batch reassignment succeeds if and only if the sender executes every listed provider, none is listed twice and the new executor is another, staked one; it then moves exactly the listed providers. |
| `BatchCalls.ReassigningIsExact` | contracts/gelato_core/GelatoExecutors.sol:73-79 | The same for the call as it is sent, with the reason of each refusal; nothing but the assignments changes. |
| `Batches.ReassigningCounts` | contracts/gelato_core/GelatoProviders.sol:200-202 | The sender loses and the new executor gains exactly as many providers as are listed. |
| `Batches.UnprovidedCeils` | contracts/gelato_core/GelatoProviders.sol:217-227 | Unproviding specs succeeds if and only if each has a ceiling and no two have the same hash; it clears those ceilings only. |
| `BatchCalls.UnprovidingIsExact` | contracts/gelato_core/GelatoProviders.sol:217-227 | The same for the call as it is sent; nothing but the ceilings changes. |
| `BatchCalls.SettingACeilIsExact` | contracts/gelato_core/GelatoProviders.sol:229-245 | A single ceiling is set if and only if it differs from the present one, and no other changes. |
| `Batches.AddedModules` | contracts/gelato_core/GelatoProviders.sol:248-257 | Adding modules succeeds if and only if none is listed twice or already there; it appends the batch in order and touches no other provider. |
| `BatchCalls.AddingIsExact` | contracts/gelato_core/GelatoProviders.sol:248-257 | The same for the call as it is sent, on every valid storage; nothing but the module lists changes. |
| `Batches.RemovingModulesIsExact` | contracts/gelato_core/GelatoProviders.sol:259-268 | Removing modules succeeds if and only if each is listed and none is named twice; the provider is left with exactly the others, and no other provider is touched. |
| `BatchCalls.RemovingIsExact` | contracts/gelato_core/GelatoProviders.sol:259-268 | The same for the call as it is sent, on every valid storage; nothing but the module lists changes. |
| `Batches.RemovedModules` | contracts/gelato_core/GelatoProviders.sol:259-268 | Removing the modules added last restores the list, order included, although each removal moves the last module around. |
| `Batches.Provided` | contracts/gelato_core/GelatoProviders.sol:271-284 | multiProvide succeeds if and only if the ether fits, the executor is nobody or another, min-staked one, each spec changes the ceiling in force and no module is named twice or listed already; it then adds the value to funds and balance, moves the assignment and its counters, sets the ceilings and appends the modules, and nothing else. |
| `BatchCalls.MultiUnprovidingIsExact` | contracts/gelato_core/GelatoProviders.sol:286-297 | multiUnprovide for any amount, above the funds or zero, and any calls of the recipient while it is paid: it succeeds if and only if the payout is accepted and, in the storage those calls leave, the specs have different hashes with ceilings and the modules are different, listed ones; exactly those are then gone, and each refusal has its reason. |
| `Batches.UnprovideUndoesProvide` | contracts/gelato_core/GelatoProviders.sol:286-297 | multiUnprovide of the same funds, specs and modules succeeds if and only if no two specs of the batch share a hash; it then restores funds, balance and module list and sets the ceilings to zero, the executor staying assigned. |
| `Batches.CeilingsComeBack` | contracts/gelato_core/GelatoProviders.sol:217-227 | It gives back all ceilings as they were if and only if, besides, the provider had no ceiling under any hash of the batch before. |
| `Batches.OlderCeilingExample` | contracts/gelato_core/GelatoProviders.sol:217-227 | Where it had one: a ceiling of 5 raised to 7 by multiProvide ends as 0 after multiUnprovide. |
| `Batches.SameHashExample` | contracts/gelato_core/GelatoProviders.sol:217-227 | A batch with two specs of one hash and ceilings 5 and 7 passes multiProvide and is refused by multiUnprovide. |
| `Invariants.StakeKeeps` | contracts/gelato_core/GelatoExecutors.sol:21-30 | Staking keeps all invariants and raises the stake by exactly the value. |
| `Invariants.ProvideFundsKeeps` | contracts/gelato_core/GelatoProviders.sol:129-134 | Funding with a positive value always succeeds, keeps all invariants and raises the funds by exactly the value. |
| `Invariants.UnprovideOwes` | contracts/gelato_core/GelatoProviders.sol:137-151 | Once a provider withdrawal is booked, the contract owes exactly the amount about to be sent. |
| `Invariants.UnstakeOwes` | contracts/gelato_core/GelatoExecutors.sol:32-43 | The same for unstaking the whole stake; the emptied stake belongs to nobody's executor. |
| `Invariants.WithdrawExcessOwes` | contracts/gelato_core/GelatoExecutors.sol:47-68 | The same for excess stake; the executor remains min-staked. |
| `Invariants.SysAdminOwes` | contracts/gelato_core/GelatoSysAdmin.sol:96-111 | The same for the administrator's funds. |
| `Invariants.PayKeeps` | contracts/gelato_core/GelatoCore.sol:430-443 | Moving fees from provider to executor and administrator keeps solvency and all other invariants. |
| `Invariants.ProviderAssignsKeeps` | contracts/gelato_core/GelatoProviders.sol:157-178 | An assignment by the provider keeps the counters equal to the number of assigned providers. |
| `Invariants.ExecutorAssignsKeeps` | contracts/gelato_core/GelatoProviders.sol:181-205 | So does a reassignment by the executor, even to the zero address. |
| `Invariants.MultiReassignKeeps` | contracts/gelato_core/GelatoExecutors.sol:73-79 | So does a whole batch of reassignments. |
| `Invariants.MultiProvideKeeps` | contracts/gelato_core/GelatoProviders.sol:271-284 | multiProvide keeps all invariants. |
| `Invariants.StoreKeeps` | contracts/gelato_core/GelatoCore.sol:128-163 | Storing a receipt keeps the table consistent with the submission log and never revives an old id. |
| `Invariants.MultiCancelKeeps` | contracts/gelato_core/GelatoCore.sol:464-466 | A batch of cancellations keeps all invariants; every listed id is logged as cancelled and no longer stored. |
| `ModuleSet.ContainsIsMembership` | contracts/libraries/ProviderModuleSet.sol:92-98 | In a valid set the constant-time membership test agrees with the list. |
| `ModuleSet.NoDuplicates` | contracts/libraries/ProviderModuleSet.sol:29-34 | A valid set lists no module twice. |
| `ModuleSet.AddKeeps` | contracts/libraries/ProviderModuleSet.sol:40-53 | Adding keeps the index right and adds exactly that module. |
| `ModuleSet.RemoveKeeps` | contracts/libraries/ProviderModuleSet.sol:59-87 | Swap-and-pop removal keeps the index right and removes exactly that module. |
| `ModuleSet.RemovedInPlace` | contracts/libraries/ProviderModuleSet.sol:63-81 | The last module takes the place of the removed one and all others keep theirs. |
| `GelatoCoreContract.GelatoCore.constructor` | contracts/gelato_core/GelatoCore.sol:25-34 | A new contract is the deployed storage: given parameters, everything else empty. |
| `GelatoCoreContract.GelatoCore.SetGelatoMaxGas` | contracts/gelato_core/GelatoSysAdmin.sol:57-60 | In place: only the owner changes the gas limit, and nothing but it. |
| `GelatoCoreContract.GelatoCore.SetInternalGasRequirement` | contracts/gelato_core/GelatoSysAdmin.sol:63-66 | In place: only the owner changes the requirement, and nothing but it. |
| `GelatoCoreContract.GelatoCore.SetMinExecutorStake` | contracts/gelato_core/GelatoSysAdmin.sol:69-72 | In place: only the owner changes the minimum; old and new value are logged. |
| `GelatoCoreContract.GelatoCore.SetExecutorSuccessShare` | contracts/gelato_core/GelatoSysAdmin.sol:75-83 | In place: only the owner changes the share; the total follows with wrap-around. |
| `GelatoCoreContract.GelatoCore.SetSysAdminSuccessShare` | contracts/gelato_core/GelatoSysAdmin.sol:86-94 | In place: only the owner changes the share; the total follows with wrap-around. |
| `GelatoCoreContract.GelatoCore.WithdrawSysAdminFunds` | contracts/gelato_core/GelatoSysAdmin.sol:96-113 | Books the clamped amount before the recipient runs, as AdminWithdrawalIsExact describes. |
| `GelatoCoreContract.GelatoCore.ProvideFunds` | contracts/gelato_core/GelatoProviders.sol:129-134 | Reverts on zero value or overflow, otherwise leaves the storage ProvideFundsKeeps describes. |
| `GelatoCoreContract.GelatoCore.UnprovideFunds` | contracts/gelato_core/GelatoProviders.sol:137-154 | Books the clamped amount before the recipient runs; agrees with WithdrawalsAreCovered. |
| `GelatoCoreContract.GelatoCore.ProviderAssignsExecutor` | contracts/gelato_core/GelatoProviders.sol:157-178 | Three updates in place amount to the single move AssigningIsExact describes. |
| `GelatoCoreContract.GelatoCore.ExecutorAssignsExecutor` | contracts/gelato_core/GelatoProviders.sol:181-205 | Three updates in place, in the order of the source, amount to one move of the provider with both counters. |
| `GelatoCoreContract.GelatoCore.ComputeTaskSpecHash` | contracts/gelato_core/GelatoProviders.sol:334-347 | The array filled action by action is the one SpecCoversTask characterises. |
| `GelatoCoreContract.GelatoCore.SetTaskSpecGasPriceCeil` | contracts/gelato_core/GelatoProviders.sol:229-245 | Reverts if the ceiling would not change, otherwise writes exactly that entry. |
| `GelatoCoreContract.GelatoCore.ProvideTaskSpecs` | contracts/gelato_core/GelatoProviders.sol:208-215 | The loop leaves what providing the specs one after the other leaves, or reverts at the first redundant one. |
| `GelatoCoreContract.GelatoCore.UnprovideTaskSpecs` | contracts/gelato_core/GelatoProviders.sol:217-227 | The loop clears the ceilings one after the other, or reverts at the first redundant spec. |
| `GelatoCoreContract.GelatoCore.AddProviderModules` | contracts/gelato_core/GelatoProviders.sol:248-257 | The loop adds the modules one after the other, or reverts at the first redundant one. |
| `GelatoCoreContract.GelatoCore.RemoveProviderModules` | contracts/gelato_core/GelatoProviders.sol:259-268 | The loop removes the modules one after the other, or reverts at the first redundant one. |
| `GelatoCoreContract.GelatoCore.MultiProvide` | contracts/gelato_core/GelatoProviders.sol:271-284 | Funding, assignment, specs and modules in this order, skipping absent funds and executor, as Provided describes. |
| `GelatoCoreContract.GelatoCore.MultiUnprovide` | contracts/gelato_core/GelatoProviders.sol:286-297 | Withdrawal with payout first, then specs, then modules, each reverting the whole call. |
| `GelatoCoreContract.GelatoCore.StakeExecutor` | contracts/gelato_core/GelatoExecutors.sol:21-30 | In place, as StakingIsExact describes. |
| `GelatoCoreContract.GelatoCore.UnstakeExecutor` | contracts/gelato_core/GelatoExecutors.sol:32-45 | Clears the stake before the recipient runs, as UnstakingIsExact describes. |
| `GelatoCoreContract.GelatoCore.WithdrawExcessExecutorStake` | contracts/gelato_core/GelatoExecutors.sol:47-70 | Lowers the stake before the recipient runs, as ExcessIsExact describes. |
| `GelatoCoreContract.GelatoCore.MultiReassignProviders` | contracts/gelato_core/GelatoExecutors.sol:73-79 | The loop equals folding the single reassignment over the list. |
| `GelatoCoreContract.GelatoCore.HandleSelfProviderGasDefaults` | contracts/gelato_core/GelatoCore.sol:473-486 | Rewriting the array of tasks in place yields the tasks GasDefaultsAreExact describes. |
| `GelatoCoreContract.GelatoCore.StoreTaskReceipt` | contracts/gelato_core/GelatoCore.sol:128-163 | Takes the next id, stores the receipt under it and logs it. |
| `GelatoCoreContract.GelatoCore.SubmitTask` | contracts/gelato_core/GelatoCore.sol:78-90 | One task, no cycle, budget 1. |
| `GelatoCoreContract.GelatoCore.SubmitTaskCycle` | contracts/gelato_core/GelatoCore.sol:92-105 | A new cycle with the unchecked product as budget. |
| `GelatoCoreContract.GelatoCore.SubmitTaskChain` | contracts/gelato_core/GelatoCore.sol:107-126 | A new cycle with the requested budget, which must be zero or cover every task. |
| `GelatoCoreContract.GelatoCore.CheckConditions` | contracts/gelato_core/GelatoCore.sol:194-211 | The loop with its early returns gives the verdict of the first failing condition. |
| `GelatoCoreContract.GelatoCore.CheckTerms` | contracts/gelato_core/GelatoCore.sol:214-235 | The loop with continue and early returns gives the verdict of the first failing terms check. |
| `GelatoCoreContract.GelatoCore.CanExec` | contracts/gelato_core/GelatoCore.sol:167-241 | The sequence of early returns gives the verdict CanExecIsExact characterises, or reverts on an index past the tasks. |
| `GelatoCoreContract.GelatoCore.ProcessProviderPayables` | contracts/gelato_core/GelatoCore.sol:407-445 | Charges the provider for capped gas: both fees on success, the bare cost on a refund, a revert if its funds do not suffice. |
| `GelatoCoreContract.GelatoCore.ExecTask` | contracts/gelato_core/GelatoCore.sol:344-405 | Deletes the receipt, lets the proxy run, then resubmits unless it was the last submission; any failure reverts. |
| `GelatoCoreContract.GelatoCore.ExecutionWrapper` | contracts/gelato_core/GelatoCore.sol:323-342 | Success only after an OK of canExec; a failed canExec leaves the storage as it was. |
| `GelatoCoreContract.GelatoCore.Exec` | contracts/gelato_core/GelatoCore.sol:248-320 | The try/catch around the wrapper: reward, no effect, or refund after rolling back, in the cases Retry.ExecIsExact, SuccessIsPaidOnce and RevertIsRefunded describe. |
| `GelatoCoreContract.GelatoCore.DropTaskReceipt` | contracts/gelato_core/GelatoCore.sol:309 | Deletes the entry in place, whatever receipt it is, and notes it if there was one. |
| `GelatoCoreContract.GelatoCore.CancelTask` | contracts/gelato_core/GelatoCore.sol:448-462 | Succeeds for user proxy or provider and the stored receipt only, deletes it and logs it. |
| `GelatoCoreContract.GelatoCore.MultiCancelTasks` | contracts/gelato_core/GelatoCore.sol:464-466 | The loop cancels one after the other, or reverts at the first that cannot be cancelled. |
| `GelatoCoreContract.GelatoCore.SendValue` | contracts/external/Address.sol:62-68 | Lowers the balance, lets the recipient run, and reverts if it refuses. |
| `GelatoCoreContract.GelatoCore.Transact` | test/gelato_core/core/edge_cases/GelatoCore.maliciousProvider.test.js:190-198 | A transaction either leaves what its call leaves or, if it reverts anywhere, exactly the storage before it. |
| `GelatoCoreContract.GelatoCore.RunAll` | contracts/gelato_core/GelatoCore.sol:370-371 | Running transactions one after the other on the object equals the run function all guarantees are about. |
| `GelatoCoreContract.GelatoCore.Process` | test/gelato_core/base/gelato_executors/GelatoExecutors.setters.stake.test.js:280-286 | Whatever is sent to a valid contract, it stays valid and its balance equals the sum of its three kinds of debt and the ether forced in. |
| `ActionPipeline.ExecActionsAndPipeData` | contracts/gelato_actions/GelatoActionPipeline.sol:27-83 | The loop with its data buffer sends exactly the calls of the pipeline function, or reverts where it does; outside a delegatecall it always reverts. |
| `ActionPipeline.EveryInGetsTheLastOut` | contracts/gelato_actions/GelatoActionPipeline.sol:39-58 | Every action is called once, in order; an in-flow action receives exactly what the last out-flow action before it returned, or nothing if there is none. |
| `ActionPipeline.RunsAreExact` | contracts/gelato_actions/GelatoActionPipeline.sol:27-83 | For any calls made so far that are those of the first actions and were fine: if these are all actions the run goes through with exactly these calls; otherwise it is refused at the next action for the zero address, or because its call, with its own target, value, data and inflow, reverts or returns nothing to pass on. |
| `ActionPipeline.IsValid` | contracts/gelato_actions/GelatoActionPipeline.sol:85-129 | The loop with its breaks reports what the check function reports, indices and types included. |
| `ActionPipeline.IsValidIsExact` | contracts/gelato_actions/GelatoActionPipeline.sol:85-129 | isValid accepts if and only if every in-flow action expects the type of the last output before it (zero if none) and every output is taken in before the next output or the end. |
| `ActionPipeline.ReportIsExact` | contracts/gelato_actions/GelatoActionPipeline.sol:85-129 | All five results are decided at the first position where something goes wrong: position and type of the last out-flow action and, where the types differ, position and type of the in-flow action; a type nobody answers for reverts the call. |
| `ActionPipeline.ValidListsPipe` | contracts/gelato_actions/GelatoActionPipeline.sol:97-128 | In a run of an accepted list no action is handed data of another type than it expects, and every output reaches some action. |
| `TokenFlow.PairReadsBack` | contracts/gelato_actions/transfer/ActionERC20TransferFrom.sol:78-102 | Token and amount survive ABI encoding and decoding. |
| `TokenFlow.ArgumentsReadBack` | contracts/gelato_actions/transfer/ActionERC20TransferFrom.sol:72-121 | Without an inflow an action works on exactly the arguments encoded in its data; with one, token and amount come from the inflow and the parties still from the data. |
| `Settlement.MovementOfData` | contracts/gelato_actions/provider/ActionFeeHandler.sol:67-96 | For each of the three actions and any calldata and inflow: token, payer, payee and amount of the movement, and whether it is pulled by transferFrom, in terms of the encoded arguments; a fee handler moves the rounded-up share to its own provider. |
| `Settlement.EtherIsNeverPulled` | contracts/gelato_actions/provider/ActionFeeHandler.sol:74-81 | A run in which a fee handler or a transferFrom would pull ether from another account cannot be settled. |
| `TokenFlow.FeeIsCeiling` | contracts/gelato_actions/provider/ActionFeeHandler.sol:67-83 | The fee is the share rounded up, at most the amount, and fee and remainder make up the amount; the action refuses if and only if amount times rate is zero or overflows. |
| `TokenFlow.FeeRefusals` | contracts/gelato_actions/provider/ActionFeeHandler.sol:73-82 | An overflowing product and a product of zero are refused by different checks. |
| `TokenFlow.ZeroRateAlwaysReverts` | contracts/gelato_actions/provider/ActionFeeHandler.sol:220-226 | A handler with rate zero, which the factory creates, never lets an action through. |
| `TokenFlow.FlowsAreValid` | test/gelato_actions/GelatoActionPipeline.test.js:169-193 | Out, InAndOut, ..., In over one data type passes isValid. |
| `TokenFlow.AmountsAreLinked` | contracts/gelato_actions/provider/ActionFeeHandler.sol:117-131 | Each action of a flow works on the token and amount its predecessor passed on, whatever its own data encodes. |
| `TokenFlow.TransfersMoveTheHeadAmount` | test/gelato_actions/GelatoActionPipeline.test.js:214-281 | A flow of transfers of any length moves the head's token and amount at every step. |
| `TokenFlow.FeesAndRestAddUp` | test/gelato_actions/ActionFeeHandler.test.js:285-294 | Along any number of fee handlers, the fees taken and the amount still in flight add up to the head's amount. |
| `TokenFlow.SettlingConserves` | contracts/gelato_actions/provider/ActionFeeHandler.sol:74-82 | Settling movements neither creates nor destroys tokens, and charges their common payer exactly the total. |
| `Settlement.SettlingIsExact` | contracts/gelato_actions/transfer/ActionERC20TransferFrom.sol:54-68 | Any list of movements is settled if and only if each can be made after those before it; afterwards every account holds, in every token, what it held, plus all it was sent, minus all it paid. |
| `TokenFlow.PayerPaysTheHeadAmount` | test/gelato_actions/ActionFeeHandler.test.js:285-294 | Fee handlers in front of a transfer: the payer pays exactly the head's amount, fees included. |
| `Settlement.EverybodyGetsTheirPart` | test/gelato_actions/ActionFeeHandler.test.js:285-294 | Fee handlers in front of a transfer, one payer: each handler moves the rounded-up share of what is in flight to its own provider and the transfer moves the rest; every payee named once gains exactly its part, the payer loses exactly the head's amount, and nobody else's balance changes. |
| `MultiSend.EncodeBatch` | buidler/tasks/dapps/gnosis/task.balanceTrade.js:138-158 | The scan of the safe's modules decides whether the packed batch starts with the call that enables GelatoCore. |
| `MultiSend.MultiSend` | contracts/external/Multisend.sol:28-59 | The assembly loop over memory words makes exactly the calls of the unpacking function, or reverts where it does. |
| `MultiSend.ReadsBack` | contracts/external/Multisend.sol:37-49 | The words and shifts read at a packed entry give back operation, address, value and data. |
| `MultiSend.BatchesAreUnderstood` | test/gelato_actions/Multisend.test.js:200-213 | For every list of in-range calls, sending its packed form performs exactly that list in order, or reverts where a call fails, whatever lies behind it in memory. |
| `MultiSend.EveryCallIsMade` | contracts/external/Multisend.sol:34-57 | A packed batch goes through if and only if all operations are 0 or 1 and all calls succeed; it then makes one call per entry, in order, to its target with its data, with its value for operation 0 and as a delegatecall without a value for 1. |
| `MultiSend.PackedLayout` | buidler/tasks/dapps/gnosis/task.balanceTrade.js:304-326 | An entry is packed as one byte of operation, 20 of address, 32 of value, 32 of length and the data. |
| `MultiSend.WhatAnEntryDoes` | contracts/external/Multisend.sol:34-57 | For any bytes in memory, what the loop does at any position: out of gas past the limit, a revert for an unknown operation or a failing call, else exactly the call spelled by the next 85 bytes and as many of data as they say, and on behind it. |
| `MultiSend.PrefixIsHarmless` | buidler/tasks/dapps/gnosis/task.balanceTrade.js:335-353 | A call packed in front changes nothing about how the rest is read. |
| `MultiSend.BatchesAreUnique` | buidler/tasks/dapps/gnosis/task.balanceTrade.js:304-326 | Two lists of calls have the same packed bytes if and only if they are the same list. |
| `MultiSend.TrailingBytes` | contracts/external/Multisend.sol:34-57 | Because the loop compares an offset that includes the length word, trailing bytes are ignored if and only if there are at most 32. |
| `MultiSend.DelegatecallValuesAreDropped` | contracts/external/Multisend.sol:51-53 | Two packed batches do the same, however their calls go, if and only if both contain an unknown operation, or neither does and they agree call by call up to the values of delegatecalls. |
| `TaskReceiptCodec.NewAction` | src/classes/gelato/Action.js:6-45 | The guarded constructor throws or builds exactly as the acceptance condition and defaults of ParsesAction say. |
| `TaskReceiptCodec.NewTaskReceipt` | src/classes/gelato/TaskReceipt.js:4-31 | The constructor with its loop over tasks throws at the first fault or fills in the defaults. |
| `TaskReceiptCodec.BuiltActionsAreFixed` | src/classes/gelato/Action.js:39-44 | An action was built by the constructor if and only if building it again from its own members gives it back. |
| `TaskReceiptCodec.ActionsAreChecked` | src/classes/gelato/Action.js:6-45 | Which arguments build an action and for which of the six reasons all others throw, each as an if and only if, and what is filled in for missing data, flow, value and flag. |
| `TaskReceiptCodec.ReceiptsAreChecked` | src/classes/gelato/TaskReceipt.js:4-31 | The same for receipts: the reason for each refusal in the order of the checks, and every member of what is built. |
| `TaskReceiptCodec.TaskPartsAreChecked` | src/classes/gelato/Task.js:4-17 | The same for tasks, with missing conditions and gas fields filled in, and for providers. |
| `TaskReceiptCodec.ConvertTaskReceiptObjToArray` | src/helpers/gelato/convertTaskReceiptObjToArray.js:30-89 | The nested loops produce the nested array, member by member and task by task. |
| `TaskReceiptCodec.ConvertTaskReceiptArrayToObj` | src/helpers/gelato/convertTaskReceiptArrayToObj.js:69-134 | The nested loops build what the parsing function builds, or throw what it throws. |
| `TaskReceiptCodec.ReceiptsReadBack` | src/helpers/gelato/convertTaskReceiptObjToArray.js:30-89 | For every receipt built by the constructors from constructor-built parts, printing to an array and reading back gives the same receipt. |
| `TaskReceiptCodec.ParsesAction` | src/helpers/gelato/convertTaskReceiptArrayToObj.js:120-134 | An action array is accepted if and only if address, operation, delegatecall value, data flow and flag are in order; printed again it has its gaps filled in. |
| `TaskReceiptCodec.ReadingNormalises` | src/helpers/gelato/convertTaskReceiptArrayToObj.js:69-134 | A receipt array is read if and only if an explicit condition on its shape holds; printed again it is the array with its gaps filled in, and the object is constructor-built. |
| `TaskReceiptCodec.MembersByPosition` | src/helpers/gelato/convertTaskReceiptArrayToObj.js:59-84 | Each member of a read receipt comes from its own position of the array, with its own default. |
| `TaskReceiptCodec.PartsByPosition` | src/helpers/gelato/convertTaskReceiptArrayToObj.js:86-134 | So do the members of each condition, each action and each task, the tasks' parts in their order. |
| `TaskReceiptCodec.NormalisingIsIdempotent` | src/classes/gelato/TaskReceipt.js:22-30 | Filling in the gaps a second time changes nothing. |
| `TaskReceiptCodec.FixedPointsArePrinted` | src/helpers/gelato/convertTaskReceiptObjToArray.js:33-42 | The arrays left unchanged are exactly the printed receipts. |
| `NestedArrays.NestedArraysAreEqual` | src/helpers/nestedArrays/nestedArraysAreEqual.js:1-14 | The loop with its early return into the first nested array terminates and computes the comparison function. |
| `NestedArrays.DecidedByFirstNested` | src/helpers/nestedArrays/nestedArraysAreEqual.js:6-13 | Arrays compare equal if and only if lengths agree, everything before the first nested array prints the same, and that nested array compares equal. |
| `NestedArrays.ExactOnFlatArrays` | src/helpers/nestedArrays/nestedArraysAreEqual.js:11-13 | On flat arrays it is equality of all elements as strings. |
| `NestedArrays.FirstPositionDecides` | src/helpers/nestedArrays/nestedArraysAreEqual.js:6-13 | For arrays and strings of equal length, the first position that is an array on the left or prints differently decides the answer: by comparing what stands there, by a throw on undefined or null, or by a no; without one it is a yes. |
| `NestedArrays.ShallowComparison` | src/helpers/nestedArrays/nestedArraysAreEqual.js:1-5 | Equal primitives and any two values without a length compare equal; otherwise undefined, null and values of different length do not. |
| `NestedArrays.StringsAreCompared` | src/helpers/nestedArrays/nestedArraysAreEqual.js:6-13 | Two strings compare equal if and only if they are the same. |
| `NestedArrays.EqualTreesCompareEqual` | src/helpers/nestedArrays/nestedArraysAreEqual.js:6-13 | Equal trees compare equal if and only if no undefined or null stands before the first nested array at any level, where the comparison throws. |
| `NestedArrays.ReceiptsAgreeOnThreeFields` | src/helpers/gelato/convertTaskReceiptObjToArray.js:33-42 | On receipt arrays it decides id, user proxy and provider and nothing else. |
| `NestedArrays.TasksAreIgnored` | test/gelato_core/core/task_cycles/cycle.test.js:308-320 | Receipts that differ in index, tasks, expiry, cycle and budget compare equal. |
| `DeployOnce.DeployActions` | buidler/tasks/deploy/task.setupGelato.gnosisSafe.js:41-84 | Every distinct name is deployed once, in order of first occurrence; there is one address per position, and two positions share an address if and only if they share the name, given that deployments have distinct addresses. |
| `DeployOnce.DeployedOnce` | buidler/tasks/deploy/task.setupGelato.gnosisSafe.js:45-72 | No name is deployed twice. |
| `DeployOnce.DeployedInOrder` | buidler/tasks/deploy/task.setupGelato.gnosisSafe.js:45-72 | The deployments are made in the order in which the names are first listed. |
| `SubmissionLogs.BuildFilter` | buidler/tasks/events/task.getLogs.js:61-81 | Exactly which block arguments are refused and for which of the two reasons, and the window that results otherwise, with zero counting as an absent end. |
| `SubmissionLogs.WindowIsContiguous` | buidler/tasks/events/task.getLogs.js:75-83 | The answer is the contiguous stretch of events between those before the window and those up to its end. |
| `SubmissionLogs.FetchIsShifted` | buidler/tasks/gelato/core/task_receipts/iTask.fetchTaskReceipt.js:57-82 | Positional lookup returns the receipt whose id is larger by the number of submissions before the window. |
| `SubmissionLogs.FetchIsExact` | buidler/tasks/gelato/core/task_receipts/iTask.fetchTaskReceipt.js:57-82 | It answers if and only if the number is at least 1 and at most the number of events in the window, with the receipt at that place counted from the first event in the window, and throws otherwise. |
| `SubmissionLogs.PositionIsSearch` | buidler/tasks/gelato/core/task_receipts/iTask.fetchTaskReceipt.js:73-79 | It agrees with search by id for all ids if and only if nothing was submitted before the window, or nothing in it. |
| `SubmissionLogs.FetchFindsTheReceipt` | buidler/tasks/gelato/core/task_receipts/iTask.fetchTaskReceipt.js:57-82 | On every run of GelatoCore, a window from the first submission to the requested one yields the requested receipt. |
| `ParsedLogs.RewriteInPlace` | buidler/tasks/events/task.getParsedLogs.js:123-151 | Overwriting the array slot by slot equals mapping the rewrite over the logs it held, or throws where that throws. |
| `ParsedLogs.GetParsedLogs` | buidler/tasks/events/task.getParsedLogs.js:96-180 | In all three modes the filter stages and the rewriting loop equal one order-preserving filter by the conjunction followed by one map; with --log an empty result is an error. |
| `ParsedLogs.AnswersAreExact` | buidler/tasks/events/task.getParsedLogs.js:85-180 | It throws if and only if there are no logs, or a value to be compared as a string is missing in some log, or one to be printed is missing in a log that passes, or, with --log, no log passes. Otherwise there is one slot per log that has the filter key and the filter value, as a string or loosely, in order: with --property exactly that property with the log's value, with --values the same keys with the same values, both as strings with --stringify, and without either the log as it was. |
| `ParsedLogs.CheckedPathsCanBeRead` | src/helpers/nestedObjects/checkNestedObj.js:1-5 | The path check succeeds if and only if the path of own properties exists, and then getNestedObj returns the value there. |
| `ParsedLogs.CheckingThrows` | src/helpers/nestedObjects/checkNestedObj.js:1-5 | The check throws if and only if the path comes upon null before its end. |

## Left out

- Core.StoreTaskReceipt: the id counter is an unbounded number; its wrap-around after 2^256 submissions is not modelled.
- Core.SubmitTaskCycle: the budget wraps as in the source, but the length of the task list is only bounded by gas, which is not modelled.
- TokenFlow.Transfer: tokens are plain balances; allowances, fees on transfer and reentrant tokens are not modelled.
- SubmissionLogs.BuildFilter: that a node may refuse a filter with both a block hash and a start block is not modelled.
- TaskReceiptCodec.MakeTaskReceipt: which strings and byte arrays ethers accepts as numbers is a parameter; only big numbers are known to be returned unchanged.
- Batches.UnprovideUndoesProvide: stated for a recipient that makes no calls of its own while it is being paid; with such calls the two calls are not adjacent.
- NestedArrays.Compare: two values compared are taken to be built separately, so the shortcut for the very same array object is not taken; where it would be, the result is true. Plain objects with a property named length are not compared element by element.
- ParsedLogs.Property: properties inherited from a prototype, and those of strings and arrays, are not modelled.
- canSubmitTask, isTaskProvided and the other views that only advise callers before a submission.
- Transfer of ownership, the oracle address and its request data; the owner is fixed and the oracle's answer is a parameter.
- Direct calls of executionWrapper by anyone but GelatoCore, which its first line refuses.
- Event arguments other than those named in `GelatoState.Logs`, and the views that read single fields.
- GelatoUserProxy and its factory, the gas price oracle, provider modules, conditions and the actions that trade on Kyber, Uniswap and the Gnosis exchange: contracts GelatoCore only calls.
- The FeeHandlerFactory's bookkeeping of handlers and whitelisted tokens, and the termsOk checks of single actions.
- Gas metering: the gas charged is an input bounded by the gas the transaction started with.
- JavaScript numbers that are not integers, and NaN.
- The option checks of event-getparsedlogs, its console output, and the --stringify flag of the receipt lookup.
- The part of the setup script behind its deployment loop, which only fills in constants.
- Command-line parameters, network configuration, signing, address books and log output.
