/** The parts of the Ethereum machine the contracts rely on: 256-bit words that wrap
    around, SafeMath's checked operations, transactions that succeed or revert, and
    storage mappings whose unwritten entries read as zero. */
module Evm {

  /** 2^256: unchecked Solidity 0.6 arithmetic is modulo this number. */
  const MODULUS: nat := 0x1_0000000000000000_0000000000000000_0000000000000000_0000000000000000

  type uint256 = n: nat | n < MODULUS

  /** 2^160: an address is 20 bytes long. */
  const ADDRESS_SPACE: nat := 0x1_0000000000_0000000000_0000000000_0000000000

  type Address = a: nat | a < ADDRESS_SPACE

  const ZERO_ADDRESS: Address := 0

  /** Gas amounts of one block fit in 64 bits. */
  type Gas = g: nat | g < 0x1_0000000000000000

  datatype Option<+T> = None | Some(value: T)

  /** Unchecked arithmetic: what `+`, `*` and `-` compute in Solidity 0.6. */
  function Wrap(n: nat): (w: uint256)
    ensures n < MODULUS ==> w == n
    ensures w <= n
  {
    n % MODULUS
  }

  /** 2^256 more makes no difference. */
  lemma WrapsAround(n: nat)
    ensures Wrap(n + MODULUS) == Wrap(n)
  {
  }

  function WrapSub(a: uint256, b: uint256): (w: uint256)
    ensures b <= a ==> w == a - b
  {
    (a + MODULUS - b) % MODULUS
  }

  function Min(a: nat, b: nat): (m: nat)
    ensures m <= a && m <= b && (m == a || m == b)
  {
    if a < b then a else b
  }

  /** Why a transaction, or a call inside one, was reverted. Each constructor stands
      for one `require` message of the contracts. */
  datatype Error =
    | NoSuchSender
    | MoreEtherThanExists
    | InsufficientBalance
    | UnableToSendValue
    | AdditionOverflow
    | MultiplicationOverflow
    | SubtractionOverflow
    | InvalidIndex
    | OutOfGas
    | CallerIsNotTheOwner
    | ZeroValue
    | AlreadyAssigned
    | ExecutorNotMinStaked
    | SenderIsNotAssignedExecutor
    | AlreadyWhitelistedWithGasPriceCeil
    | RedundantTaskSpec
    | RedundantModule
    | BelowMinStake
    | StillAssigned
    | AlreadyUnstaked
    | NotMinStaked
    | LessRequestedSubmitsThanTasks
    | SelfProviderGasLimitTooLow
    | CancelSender
    | InvalidTaskReceiptHash
    | OracleFailed
    | ViewAborted
    | GasPriceZeroOrBelow
    | InvalidExecutor
    | InsufficientGas
    | ExecPayloadReverted
    | ProxyCallReverted
    | ExecRevertCheckReverted
    | ProviderFundsUnderflow
    | DataFlowTypeError
    | DelegatecallOnly
    | NoZeroAddress
    | ActionReverted
    | MultisendReverted
    | AbiDecodingFailed

  datatype Outcome<+T> = Ok(value: T) | Revert(error: Error) {
    predicate IsFailure() {
      Revert?
    }

    function PropagateFailure<U>(): Outcome<U>
      requires Revert?
    {
      Revert(error)
    }

    function Extract(): T
      requires Ok?
    {
      value
    }
  }

  function SafeAdd(a: uint256, b: uint256): (r: Outcome<uint256>)
    ensures r.Ok? <==> a + b < MODULUS
    ensures r.Ok? ==> r.value == a + b
  {
    if a + b < MODULUS then Ok(a + b) else Revert(AdditionOverflow)
  }

  /** `a * b`. Written as repeated addition it is a plain symbol to the solver, which would
      otherwise search through nonlinear arithmetic wherever a fee is computed. */
  function Mul(a: nat, b: nat): nat {
    if a == 0 then 0 else Mul(a - 1, b) + b
  }

  lemma {:induction false} MulIsProduct(a: nat, b: nat)
    ensures Mul(a, b) == a * b
  {
    if a > 0 {
      MulIsProduct(a - 1, b);
      assert a * b == (a - 1) * b + b;
    }
  }

  function SafeMul(a: uint256, b: uint256): Outcome<uint256> {
    if Mul(a, b) < MODULUS then Ok(Mul(a, b)) else Revert(MultiplicationOverflow)
  }

  // ----- results collected in order -----

  /** First `a`, then `b`, unless one of them reverts. */
  function Then<T>(a: Outcome<seq<T>>, b: Outcome<seq<T>>): Outcome<seq<T>> {
    if a.Revert? then a else if b.Revert? then b else Ok(a.value + b.value)
  }

  lemma ThenAssociates<T>(a: Outcome<seq<T>>, b: Outcome<seq<T>>, c: Outcome<seq<T>>)
    ensures Then(a, Then(b, c)) == Then(Then(a, b), c)
  {
    if a.Ok? && b.Ok? && c.Ok? {
      assert a.value + (b.value + c.value) == (a.value + b.value) + c.value;
    }
  }

  lemma ThenNothing<T>(a: Outcome<seq<T>>)
    ensures Then(Ok([]), a) == a && Then(a, Ok([])) == a
  {
    if a.Ok? {
      assert [] + a.value == a.value && a.value + [] == a.value;
    }
  }

  lemma ThenStops<T>(error: Error, b: Outcome<seq<T>>)
    ensures Then(Revert(error), b) == Revert(error)
  {
  }

  lemma RevertStops<T>(done: seq<T>)
    ensures forall e :: Then(Ok(done), Revert(e)) == Revert(e)
  {
  }

  lemma OneMore<T>(done: seq<T>, last: T)
    ensures Then(Ok(done), Ok([last])) == Ok(done + [last])
  {
  }

  // ----- storage mappings -----

  /** Reading a `mapping(K => uint256)`: an entry never written reads as zero. */
  function Get<K>(m: map<K, uint256>, k: K): uint256 {
    if k in m then m[k] else 0
  }

  /** Two mappings no reader can tell apart. */
  ghost predicate SameMapping<K(!new)>(m: map<K, uint256>, n: map<K, uint256>) {
    forall k :: Get(m, k) == Get(n, k)
  }

  /** The sum of all entries of a mapping. */
  ghost function Sum<K>(m: map<K, uint256>): nat
    decreases |m|
  {
    if m == map[] then 0
    else
      var k :| k in m;
      assert |m - {k}| < |m| by { Shrinks(m, k); }
      m[k] + Sum(m - {k})
  }

  lemma Shrinks<K, V>(m: map<K, V>, k: K)
    requires k in m
    ensures |m - {k}| == |m| - 1
  {
    assert (m - {k}).Keys == m.Keys - {k};
    assert |m.Keys - {k}| == |m.Keys| - 1;
  }

  /** The sum does not depend on the order in which entries are taken out. */
  lemma {:induction false} SumWithout<K>(m: map<K, uint256>, k: K)
    requires k in m
    ensures Sum(m) == m[k] + Sum(m - {k})
    decreases |m|
  {
    var j :| j in m && Sum(m) == m[j] + Sum(m - {j});
    if j != k {
      Shrinks(m, j);
      Shrinks(m, k);
      SumWithout(m - {j}, k);
      SumWithout(m - {k}, j);
      assert m - {j} - {k} == m - {k} - {j};
    }
  }

  /** Writing one entry changes the sum by exactly the change of that entry. */
  lemma SumUpdate<K>(m: map<K, uint256>, k: K, v: uint256)
    ensures Sum(m[k := v]) == Sum(m) - Get(m, k) + v
    ensures Get(m, k) <= Sum(m)
  {
    var n := m[k := v];
    SumWithout(n, k);
    assert n - {k} == m - {k};
    if k in m {
      SumWithout(m, k);
    } else {
      assert m - {k} == m;
    }
  }
}
