/** The storage of GelatoCore, grouped by concern, with the event logs the proofs read. */
module GelatoState {
  import opened Evm
  import opened GelatoTypes
  import ModuleSet

  /** `forced` is the part of the balance that reached the contract without running its code,
      before deployment or from a contract that destroyed itself. */
  datatype Money = Money(
    balance: uint256,
    providerFunds: map<Address, uint256>,
    executorStake: map<Address, uint256>,
    sysAdminFunds: uint256,
    forced: nat)

  datatype Assignments = Assignments(
    executorByProvider: map<Address, Address>,
    executorProvidersCount: map<Address, uint256>)

  datatype Listings = Listings(
    taskSpecGasPriceCeil: map<(Address, SpecHash), uint256>,
    providerModules: map<Address, ModuleSet.Set>)

  datatype Params = Params(
    owner: Address,
    gelatoMaxGas: uint256,
    internalGasRequirement: uint256,
    minExecutorStake: uint256,
    executorSuccessShare: uint256,
    sysAdminSuccessShare: uint256,
    totalSuccessShare: uint256)

  /** `taskReceiptHash` keeps, per id, the receipt whose hash is stored there. */
  datatype Book = Book(
    currentTaskReceiptId: nat,
    taskReceiptHash: map<nat, TaskReceipt>)

  /** What happened so far: LogTaskSubmitted, the ids of LogExecSuccess and of
      LogTaskCancelled, the ids whose stored receipt a refunded exec deleted, and the
      (old, new) pairs of LogMinExecutorStakeSet. */
  datatype Logs = Logs(
    submitted: seq<TaskReceipt>,
    executed: seq<nat>,
    cancelled: seq<nat>,
    dropped: seq<nat>,
    minStakeSet: seq<(uint256, uint256)>)

  datatype State = State(
    money: Money,
    assign: Assignments,
    listings: Listings,
    params: Params,
    book: Book,
    logs: Logs)
  {
    function ProviderFunds(p: Address): uint256 {
      Get(money.providerFunds, p)
    }

    function ExecutorStake(e: Address): uint256 {
      Get(money.executorStake, e)
    }

    function ExecutorByProvider(p: Address): Address {
      if p in assign.executorByProvider then assign.executorByProvider[p] else ZERO_ADDRESS
    }

    function ProvidersCount(e: Address): uint256 {
      Get(assign.executorProvidersCount, e)
    }

    function GasPriceCeil(p: Address, h: SpecHash): uint256 {
      Get(listings.taskSpecGasPriceCeil, (p, h))
    }

    function Modules(p: Address): ModuleSet.Set {
      if p in listings.providerModules then listings.providerModules[p] else ModuleSet.EMPTY
    }

    predicate IsExecutorMinStaked(e: Address) {
      ExecutorStake(e) >= params.minExecutorStake
    }

    predicate IsExecutorAssigned(e: Address) {
      ProvidersCount(e) != 0
    }

    /** The stored hash equals the hash of `r`. */
    predicate IsLive(r: TaskReceipt) {
      r.id in book.taskReceiptHash && book.taskReceiptHash[r.id] == r
    }
  }

  /** What the constructor leaves behind. */
  function Deployed(params: Params): State {
    State(
      Money(0, map[], map[], 0, 0),
      Assignments(map[], map[]),
      Listings(map[], map[]),
      params,
      Book(0, map[]),
      Logs([], [], [], [], []))
  }
}
