/**
 * Gas, fees and balances (packages/vm/src/runTx.ts and runBlock.ts): what a block does to the
 * total supply. The EVM step is a parameter that conserves balances and stays within its gas.
 */
module Supply {
  import opened ByteStrings

  type Address = Bytes
  datatype Account = Account(nonce: nat, balance: int)
  type Accounts = map<Address, Account>

  /** An account that does not exist reads as empty. */
  function GetAccount(s: Accounts, a: Address): Account {
    if a in s then s[a] else Account(0, 0)
  }

  ghost predicate Solvent(s: Accounts) {
    forall a :: a in s ==> s[a].balance >= 0
  }

  /** The sum of all balances. */
  ghost function Total(s: Accounts): int
    decreases |s|
  {
    if s == map[] then 0
    else
      var a :| a in s;
      s[a].balance + Total(s - {a})
  }

  lemma {:induction false} TotalWithout(s: Accounts, a: Address)
    requires a in s
    ensures Total(s) == s[a].balance + Total(s - {a})
    decreases |s|
  {
    var b :| b in s && Total(s) == s[b].balance + Total(s - {b});
    if b != a {
      TotalWithout(s - {b}, a);
      TotalWithout(s - {a}, b);
      assert (s - {b}) - {a} == (s - {a}) - {b};
    }
  }

  /** Writing one account changes the total by the change of its balance. */
  lemma TotalPut(s: Accounts, a: Address, account: Account)
    ensures Total(s[a := account]) == Total(s) - GetAccount(s, a).balance + account.balance
  {
    TotalWithout(s[a := account], a);
    assert s[a := account] - {a} == s - {a};
    if a in s {
      TotalWithout(s, a);
    } else {
      assert s - {a} == s;
    }
  }

  // ---------- transactions ----------

  datatype Fees = Legacy(gasPrice: nat) | FeeMarket(maxPriorityFeePerGas: nat, maxFeePerGas: nat)

  /** `baseGas` is what the transaction costs before any execution. */
  datatype Tx = Tx(sender: Address, nonce: nat, gasLimit: nat, baseGas: nat, value: nat, fees: Fees, data: Bytes)

  /** A base fee is present exactly when EIP-1559 is active. */
  datatype BlockHeader = BlockHeader(
    number: nat, gasLimit: nat, gasUsed: nat, miner: Address, baseFeePerGas: Option<nat>,
    receiptTrie: Bytes, logsBloom: Bytes, stateRoot: Bytes)

  datatype ExecResult = ExecResult(accounts: Accounts, gasUsed: nat, gasRefund: nat, logs: Bytes)
  type Evm = (Accounts, Tx, nat) -> ExecResult

  /** What execution depends on: the EVM and the cap on refunds. */
  datatype Rules = Rules(evm: Evm, maxRefundQuotient: nat)

  datatype TxError = GasLimitAboveBlock | NotActivated | BaseFeeExceedsGasLimit | FeeBelowBaseFee
    | InsufficientFunds | WrongNonce
  datatype Receipt = Receipt(cumulativeGasUsed: int)
  datatype TxResult = TxResult(gasUsed: int, amountSpent: int, receipt: Receipt, logs: Bytes)

  /** The EVM moves balances around and never overdraws an account or its gas. */
  ghost predicate Conserving(evm: Evm) {
    forall s, tx, gas :: Solvent(s) ==>
      var r := evm(s, tx, gas);
      Solvent(r.accounts) && Total(r.accounts) == Total(s) && r.gasUsed <= gas
  }

  ghost predicate Lawful(rules: Rules) {
    Conserving(rules.evm) && rules.maxRefundQuotient > 0
  }

  function Min(a: int, b: int): int {
    if a < b then a else b
  }

  function MaxFee(fees: Fees): nat {
    match fees
    case Legacy(gasPrice) => gasPrice
    case FeeMarket(_, maxFeePerGas) => maxFeePerGas
  }

  function BaseFee(header: BlockHeader): nat {
    match header.baseFeePerGas
    case None => 0
    case Some(fee) => fee
  }

  /** What goes to the miner for each gas. */
  function InclusionFee(fees: Fees, header: BlockHeader): int {
    match fees
    case Legacy(gasPrice) => gasPrice - BaseFee(header)
    case FeeMarket(maxPriorityFeePerGas, maxFeePerGas) => Min(maxPriorityFeePerGas, maxFeePerGas - BaseFee(header))
  }

  /** What the sender pays for each gas. */
  function GasPrice(fees: Fees, header: BlockHeader): int {
    match fees
    case Legacy(gasPrice) => gasPrice
    case FeeMarket(_, _) => InclusionFee(fees, header) + BaseFee(header)
  }

  function UpfrontCost(tx: Tx, header: BlockHeader): int {
    tx.gasLimit * GasPrice(tx.fees, header) + tx.value
  }

  /** The checks before execution, in the order in which they are made. */
  function Check(s: Accounts, tx: Tx, header: BlockHeader): Option<TxError> {
    var from := GetAccount(s, tx.sender);
    if header.gasLimit < tx.gasLimit then Some(GasLimitAboveBlock)
    else if tx.fees.FeeMarket? && header.baseFeePerGas.None? then Some(NotActivated)
    else if tx.gasLimit < tx.baseGas then Some(BaseFeeExceedsGasLimit)
    else if header.baseFeePerGas.Some? && MaxFee(tx.fees) < BaseFee(header) then Some(FeeBelowBaseFee)
    else if from.balance < UpfrontCost(tx, header) then Some(InsufficientFunds)
    else if tx.fees.FeeMarket? && from.balance < tx.gasLimit * MaxFee(tx.fees) + tx.value then Some(InsufficientFunds)
    else if from.nonce != tx.nonce then Some(WrongNonce)
    else None
  }

  /** The state in which the EVM starts: the sender has paid for all the gas. */
  function Charged(s: Accounts, tx: Tx, header: BlockHeader): Accounts {
    var from := GetAccount(s, tx.sender);
    s[tx.sender := Account(from.nonce + 1, from.balance - tx.gasLimit * GasPrice(tx.fees, header))]
  }

  /** The gas used, after the capped refund. */
  function GasUsed(exec: ExecResult, tx: Tx, maxRefundQuotient: nat): int
    requires maxRefundQuotient > 0
  {
    var used := exec.gasUsed + tx.baseGas;
    used - Min(exec.gasRefund, used / maxRefundQuotient)
  }

  function Balance(s: Accounts, a: Address): int {
    GetAccount(s, a).balance
  }

  lemma PriceParts(tx: Tx, header: BlockHeader, s: Accounts)
    requires Check(s, tx, header).None?
    ensures tx.baseGas <= tx.gasLimit && InclusionFee(tx.fees, header) >= 0
    ensures tx.fees.FeeMarket? ==> header.baseFeePerGas.Some?
    ensures GasPrice(tx.fees, header) == InclusionFee(tx.fees, header) + BaseFee(header)
    ensures tx.gasLimit * GasPrice(tx.fees, header) <= GetAccount(s, tx.sender).balance
  {}

  lemma MulLess(a: nat, b: nat, p: nat)
    requires a <= b
    ensures a * p <= b * p
  {}

  lemma RefundSmall(used: nat, q: nat)
    requires q > 0
    ensures 0 <= used / q <= used
  {
    var p := used / q;
    assert used == q * p + used % q;
    MulLess(1, q, p);
  }

  lemma Factor(a: int, b: int, p: int)
    ensures a * p - b * p == (a - b) * p
  {}

  lemma Split(g: nat, i: nat, b: nat)
    ensures g * (i + b) == g * i + g * b && g * i >= 0
  {}

  lemma Distribute(a: nat, b: nat, p: nat)
    ensures (a + b) * p == a * p + b * p
  {}

  /** The state with an amount added to one account. */
  function Credited(s: Accounts, a: Address, amount: int): Accounts {
    s[a := GetAccount(s, a).(balance := GetAccount(s, a).balance + amount)]
  }

  /** What the EVM makes of an accepted transaction. */
  ghost function Executed(rules: Rules, s: Accounts, tx: Tx, header: BlockHeader): ExecResult
    requires Check(s, tx, header).None?
  {
    (rules.evm)(Charged(s, tx, header), tx, tx.gasLimit - tx.baseGas)
  }

  /** The gas that an accepted transaction uses. */
  ghost function Used(rules: Rules, s: Accounts, tx: Tx, header: BlockHeader): int
    requires Check(s, tx, header).None? && rules.maxRefundQuotient > 0
  {
    GasUsed(Executed(rules, s, tx, header), tx, rules.maxRefundQuotient)
  }

  /** The state after an accepted transaction: what the EVM left, the sender's refund, the miner's fee. */
  ghost function AfterTx(rules: Rules, s: Accounts, tx: Tx, header: BlockHeader): Accounts
    requires Check(s, tx, header).None? && rules.maxRefundQuotient > 0
  {
    var used := Used(rules, s, tx, header);
    var unused := (tx.gasLimit - used) * GasPrice(tx.fees, header);
    Credited(Credited(Executed(rules, s, tx, header).accounts, tx.sender, unused),
             header.miner, used * InclusionFee(tx.fees, header))
  }

  ghost function ResultOf(rules: Rules, s: Accounts, tx: Tx, header: BlockHeader, before: int): TxResult
    requires Check(s, tx, header).None? && rules.maxRefundQuotient > 0
  {
    var used := Used(rules, s, tx, header);
    TxResult(used, used * GasPrice(tx.fees, header), Receipt(before + used), Executed(rules, s, tx, header).logs)
  }

  lemma PutSolvent(s: Accounts, a: Address, account: Account)
    requires Solvent(s) && account.balance >= 0
    ensures Solvent(s[a := account])
  {}

  lemma Paid(s: Accounts, a: Address, x: nat, b: Address, y: nat)
    requires Solvent(s)
    ensures var r := Credited(Credited(s, a, x), b, y);
      && Solvent(r) && Total(r) == Total(s) + x + y
      && forall c :: Balance(r, c) == Balance(s, c) + (if c == a then x else 0) + (if c == b then y else 0)
  {
    hide Total;
    var t := Credited(s, a, x);
    TotalPut(s, a, GetAccount(s, a).(balance := GetAccount(s, a).balance + x));
    TotalPut(t, b, GetAccount(t, b).(balance := GetAccount(t, b).balance + y));
  }

  lemma EvmStep(evm: Evm, s: Accounts, tx: Tx, gas: nat)
    requires Conserving(evm) && Solvent(s)
    ensures var r := evm(s, tx, gas); Solvent(r.accounts) && Total(r.accounts) == Total(s) && r.gasUsed <= gas
  {
    hide Total;
    hide Solvent;
  }

  // ---------- what a transaction costs, on its own terms ----------

  /** A tip and a price for each gas. A fee-market transaction tips as much as it offers, but keeps the price
      within its maximum; a legacy transaction pays its gas price and tips what is left of it. */
  ghost predicate Priced(fees: Fees, header: BlockHeader, tip: int, price: int) {
    var base := if header.baseFeePerGas.Some? then header.baseFeePerGas.value else 0;
    if fees.Legacy? then price == fees.gasPrice && tip == price - base
    else
      && header.baseFeePerGas.Some? && price == base + tip
      && tip <= fees.maxPriorityFeePerGas && tip <= fees.maxFeePerGas - base
      && (tip == fees.maxPriorityFeePerGas || tip == fees.maxFeePerGas - base)
  }

  /** The account and the transaction fit, at this price. */
  ghost predicate Payable(s: Accounts, tx: Tx, header: BlockHeader, price: int) {
    var from := if tx.sender in s then s[tx.sender] else Account(0, 0);
    && tx.baseGas <= tx.gasLimit <= header.gasLimit && tx.nonce == from.nonce
    && (header.baseFeePerGas.Some? ==>
          header.baseFeePerGas.value <= if tx.fees.Legacy? then tx.fees.gasPrice else tx.fees.maxFeePerGas)
    && tx.gasLimit * price + tx.value <= from.balance
    && (tx.fees.FeeMarket? ==> tx.gasLimit * tx.fees.maxFeePerGas + tx.value <= from.balance)
  }

  /** The gas used after a refund of at most what is due, and at most one part in q of the gas. */
  ghost predicate Refunded(gas: int, due: int, q: int, used: int) {
    var refund := gas - used;
    && refund <= due && refund * q <= gas
    && (refund == due || gas < (refund + 1) * q)
  }

  /** What an accepted transaction does: the sender pays for all its gas, the EVM runs on what is left above
      the base cost, the sender gets back the price of the unused gas and the miner gets the tips. */
  ghost predicate SettledAt(rules: Rules, s: Accounts, tx: Tx, header: BlockHeader, before: int, tip: int, price: int,
                            after: Accounts, result: TxResult)
    requires tx.baseGas <= tx.gasLimit
  {
    var from := if tx.sender in s then s[tx.sender] else Account(0, 0);
    var paid := s[tx.sender := Account(from.nonce + 1, from.balance - tx.gasLimit * price)];
    var exec := (rules.evm)(paid, tx, tx.gasLimit - tx.baseGas);
    && Refunded(exec.gasUsed + tx.baseGas, exec.gasRefund, rules.maxRefundQuotient, result.gasUsed)
    && result.amountSpent == result.gasUsed * price && result.logs == exec.logs
    && result.receipt.cumulativeGasUsed == before + result.gasUsed
    && forall a :: Balance(after, a) == Balance(exec.accounts, a)
                     + (if a == tx.sender then tx.gasLimit * price - result.amountSpent else 0)
                     + (if a == header.miner then result.gasUsed * tip else 0)
  }

  /** At some price that the fees allow; and never more than the sender's maximum. */
  ghost predicate Settled(rules: Rules, s: Accounts, tx: Tx, header: BlockHeader, before: int,
                          after: Accounts, result: TxResult) {
    && tx.baseGas <= tx.gasLimit
    && (exists tip, price :: Priced(tx.fees, header, tip, price) && tip >= 0
                             && SettledAt(rules, s, tx, header, before, tip, price, after, result))
    && (tx.fees.FeeMarket? ==> result.amountSpent <= result.gasUsed * tx.fees.maxFeePerGas)
    && (tx.fees.Legacy? ==> result.amountSpent == result.gasUsed * tx.fees.gasPrice)
  }

  lemma BalanceIs(s: Accounts, a: Address)
    ensures Balance(s, a) == if a in s then s[a].balance else 0
  {}

  /** A transaction passes the checks if and only if it has a price at which it fits. */
  lemma CheckIff(s: Accounts, tx: Tx, header: BlockHeader)
    ensures Check(s, tx, header).None? <==>
            exists tip, price :: Priced(tx.fees, header, tip, price) && Payable(s, tx, header, price)
  {
    if tx.fees.Legacy? || header.baseFeePerGas.Some? {
      PriceIs(tx.fees, header);
      var tip, price := InclusionFee(tx.fees, header), GasPrice(tx.fees, header);
      assert Priced(tx.fees, header, tip, price);
      assert Check(s, tx, header).None? <==> Payable(s, tx, header, price);
    } else {
      assert forall tip, price :: !Priced(tx.fees, header, tip, price);
    }
  }

  /** There is one price, with its tip. */
  lemma PriceIs(fees: Fees, header: BlockHeader)
    requires fees.Legacy? || header.baseFeePerGas.Some?
    ensures forall tip, price :: Priced(fees, header, tip, price) <==>
              tip == InclusionFee(fees, header) && price == GasPrice(fees, header)
  {}

  lemma RefundIs(exec: ExecResult, tx: Tx, q: nat)
    requires q > 0
    ensures Refunded(exec.gasUsed + tx.baseGas, exec.gasRefund, q, GasUsed(exec, tx, q))
  {
    var gas := exec.gasUsed + tx.baseGas;
    var part := gas / q;
    assert gas == part * q + gas % q;
    if exec.gasRefund < part { MulLess(exec.gasRefund, part, q); }
    Distribute(part, 1, q);
  }

  /** The specification of an accepted transaction says the same. */
  lemma TxSettles(rules: Rules, s: Accounts, tx: Tx, header: BlockHeader, before: int)
    requires Lawful(rules) && Solvent(s) && Check(s, tx, header).None?
    ensures Settled(rules, s, tx, header, before, AfterTx(rules, s, tx, header), ResultOf(rules, s, tx, header, before))
  {
    hide Conserving;
    hide Total;
    hide Solvent;
    PriceParts(tx, header, s);
    PriceIs(tx.fees, header);
    var exec, used := Executed(rules, s, tx, header), Used(rules, s, tx, header);
    var tip, price := InclusionFee(tx.fees, header), GasPrice(tx.fees, header);
    RefundIs(exec, tx, rules.maxRefundQuotient);
    Factor(tx.gasLimit, used, price);
    UsedNotNegative(rules, s, tx, header);
    if tx.fees.FeeMarket? { MulFactor(price, tx.fees.maxFeePerGas, used); }
    hide InclusionFee;
    hide GasPrice;
    hide Check;
    BalancesCredited(exec.accounts, tx.sender, (tx.gasLimit - used) * price, header.miner, used * tip);
    assert SettledAt(rules, s, tx, header, before, tip, price, AfterTx(rules, s, tx, header),
                     ResultOf(rules, s, tx, header, before));
  }

  lemma UsedNotNegative(rules: Rules, s: Accounts, tx: Tx, header: BlockHeader)
    requires rules.maxRefundQuotient > 0 && Check(s, tx, header).None?
    ensures Used(rules, s, tx, header) >= 0
  {
    hide Check;
    RefundSmall(Executed(rules, s, tx, header).gasUsed + tx.baseGas, rules.maxRefundQuotient);
  }

  lemma MulFactor(a: int, b: int, n: int)
    requires a <= b && n >= 0
    ensures n * a <= n * b
  {}

  lemma BalancesCredited(s: Accounts, a: Address, x: int, b: Address, y: int)
    ensures forall c :: Balance(Credited(Credited(s, a, x), b, y), c) ==
                        Balance(s, c) + (if c == a then x else 0) + (if c == b then y else 0)
  {}

  // ---------- blocks ----------

  datatype Ommer = Ommer(number: nat, coinbase: Address)
  datatype Block = Block(header: BlockHeader, transactions: seq<Tx>, ommers: seq<Ommer>)
  datatype BlockResult = BlockResult(gasUsed: int, receipts: seq<Receipt>, results: seq<TxResult>)

  datatype BlockError = InvalidGasLimit | InvalidBlock | InTransaction(error: TxError)
    | InvalidReceiptTrie | InvalidBloom | InvalidGasUsed | InvalidStateRoot

  const ELASTICITY := 2
  const GAS_LIMIT_BOUND := 0x8000_0000_0000_0000

  /** The bound on the gas used so far plus the gas limit of the next transaction: under EIP-1559
      the code allows twice the gas limit of the block here. */
  function MaxGasLimit(header: BlockHeader): nat {
    if header.baseFeePerGas.Some? then header.gasLimit * ELASTICITY else header.gasLimit
  }

  function OmmerReward(ommerNumber: nat, blockNumber: nat, minerReward: nat): nat {
    var reward := (8 - (blockNumber - ommerNumber)) * (minerReward / 8);
    if reward < 0 then 0 else reward
  }

  function MinerReward(minerReward: nat, ommersNum: nat): nat {
    minerReward + minerReward / 32 * ommersNum
  }

  lemma Quotients(m: nat, eighth: nat, part: nat)
    requires 8 * eighth <= m < 8 * (eighth + 1) && 32 * part <= m < 32 * (part + 1)
    ensures m / 8 == eighth && m / 32 == part
  {}

  lemma OmmerForm(ommer: nat, block: nat, minerReward: nat, eighth: nat)
    requires ommer <= block && minerReward / 8 == eighth
    ensures OmmerReward(ommer, block, minerReward) == if block - ommer <= 8 then (8 - (block - ommer)) * eighth else 0
  {
    var eighths := 8 - (block - ommer);
    if eighths < 0 { MulFactor(eighths, -1, eighth); } else { MulFactor(0, eighths, eighth); }
  }

  lemma MinerForm(minerReward: nat, part: nat, n: nat)
    requires minerReward / 32 == part
    ensures MinerReward(minerReward, n) == minerReward + n * part
  {}

  /** An ommer d blocks below its block gets 8 - d eighths of the reward, rounded down before multiplying, and
      nothing from nine blocks on; the miner gets a further thirty-second for each ommer, rounded down too. */
  lemma RewardForms(ommer: nat, block: nat, minerReward: nat, eighth: nat, part: nat, n: nat)
    requires ommer <= block && 8 * eighth <= minerReward < 8 * (eighth + 1)
    requires 32 * part <= minerReward < 32 * (part + 1)
    ensures OmmerReward(ommer, block, minerReward) == if block - ommer <= 8 then (8 - (block - ommer)) * eighth else 0
    ensures MinerReward(minerReward, n) == minerReward + n * part
  {
    hide OmmerReward;
    hide MinerReward;
    Quotients(minerReward, eighth, part);
    OmmerForm(ommer, block, minerReward, eighth);
    MinerForm(minerReward, part, n);
  }

  ghost function SumUsed(results: seq<TxResult>): int {
    if results == [] then 0 else SumUsed(results[..|results| - 1]) + results[|results| - 1].gasUsed
  }

  lemma SumUsedPush(results: seq<TxResult>, r: TxResult)
    ensures SumUsed(results + [r]) == SumUsed(results) + r.gasUsed
  {
    assert (results + [r])[..|results|] == results;
  }

  /** The rewards of all ommers, and the part that goes to one address. */
  ghost function OmmerRewards(b: Block, n: nat, minerReward: nat): nat
    requires n <= |b.ommers|
  {
    if n == 0 then 0
    else OmmerRewards(b, n - 1, minerReward) + OmmerReward(b.ommers[n - 1].number, b.header.number, minerReward)
  }

  ghost function OmmerRewardsOf(b: Block, n: nat, minerReward: nat, a: Address): nat
    requires n <= |b.ommers|
  {
    if n == 0 then 0
    else
      OmmerRewardsOf(b, n - 1, minerReward, a) +
      if b.ommers[n - 1].coinbase == a then OmmerReward(b.ommers[n - 1].number, b.header.number, minerReward) else 0
  }

  /** The state after the ommers, and then the miner, were rewarded. */
  ghost function AfterOmmers(s: Accounts, b: Block, n: nat, minerReward: nat): Accounts
    requires n <= |b.ommers|
  {
    if n == 0 then s
    else
      var ommer := b.ommers[n - 1];
      Credited(AfterOmmers(s, b, n - 1, minerReward), ommer.coinbase,
               OmmerReward(ommer.number, b.header.number, minerReward))
  }

  ghost function AfterRewards(s: Accounts, b: Block, minerReward: nat): Accounts {
    Credited(AfterOmmers(s, b, |b.ommers|, minerReward), b.header.miner, MinerReward(minerReward, |b.ommers|))
  }

  /** Receipts carry the running sum of the gas used. */
  ghost predicate PrefixSums(receipts: seq<Receipt>, results: seq<TxResult>) {
    && |receipts| == |results|
    && forall i :: 0 <= i < |receipts| ==>
         receipts[i] == results[i].receipt && receipts[i].cumulativeGasUsed == SumUsed(results[..i + 1])
  }

  lemma NoReceipts()
    ensures PrefixSums([], []) && SumUsed([]) == 0
  {}

  lemma PrefixPush(receipts: seq<Receipt>, results: seq<TxResult>, r: TxResult)
    requires PrefixSums(receipts, results) && r.receipt.cumulativeGasUsed == SumUsed(results) + r.gasUsed
    ensures PrefixSums(receipts + [r.receipt], results + [r])
  {
    SumUsedPush(results, r);
    forall i | 0 <= i <= |receipts|
      ensures (receipts + [r.receipt])[i].cumulativeGasUsed == SumUsed((results + [r])[..i + 1])
    {
      if i < |receipts| {
        assert (results + [r])[..i + 1] == results[..i + 1];
      } else {
        assert (results + [r])[..i + 1] == results + [r];
      }
    }
  }

  /** Where a block stands after some of its transactions. */
  datatype Progress = Progress(accounts: Accounts, gasUsed: int, results: seq<TxResult>)

  /** One more transaction; None if it is refused. */
  ghost function Step(rules: Rules, p: Progress, header: BlockHeader, tx: Tx): Option<Progress>
    requires rules.maxRefundQuotient > 0
  {
    if MaxGasLimit(header) < tx.gasLimit + p.gasUsed || Check(p.accounts, tx, header).Some? then None
    else Some(Progress(AfterTx(rules, p.accounts, tx, header), p.gasUsed + Used(rules, p.accounts, tx, header),
                       p.results + [ResultOf(rules, p.accounts, tx, header, p.gasUsed)]))
  }

  /** The transactions of a block in order; None if one is refused. */
  ghost function AfterAll(rules: Rules, s: Accounts, header: BlockHeader, txs: seq<Tx>): Option<Progress>
    requires rules.maxRefundQuotient > 0
  {
    if txs == [] then Some(Progress(s, 0, []))
    else
      match AfterAll(rules, s, header, txs[..|txs| - 1])
      case None => None
      case Some(p) => Step(rules, p, header, txs[|txs| - 1])
  }

  lemma {:induction false} RefusedEarly(rules: Rules, s: Accounts, header: BlockHeader, txs: seq<Tx>, n: nat)
    requires rules.maxRefundQuotient > 0 && n <= |txs| && AfterAll(rules, s, header, txs[..n]).None?
    ensures AfterAll(rules, s, header, txs).None?
    decreases |txs|
  {
    if n == |txs| {
      assert txs[..n] == txs;
    } else {
      var front := txs[..|txs| - 1];
      assert front[..n] == txs[..n];
      RefusedEarly(rules, s, header, front, n);
    }
  }

  lemma NextTx(rules: Rules, s: Accounts, header: BlockHeader, txs: seq<Tx>, i: nat)
    requires rules.maxRefundQuotient > 0 && i < |txs| && AfterAll(rules, s, header, txs[..i]).Some?
    ensures AfterAll(rules, s, header, txs[..i + 1]) ==
            Step(rules, AfterAll(rules, s, header, txs[..i]).value, header, txs[i])
  {
    assert txs[..i + 1][..i] == txs[..i];
  }

  lemma NoTxs(rules: Rules, s: Accounts, header: BlockHeader, txs: seq<Tx>)
    requires rules.maxRefundQuotient > 0
    ensures AfterAll(rules, s, header, txs[..0]) == Some(Progress(s, 0, []))
  {}

  /** How a block is run; `rulesHold` stands for the rules of `block.validate` that do not concern gas. */
  datatype RunOptions = RunOptions(generate: bool, skipBlockValidation: bool, rulesHold: bool, proofOfWork: bool,
                                   minerReward: nat)

  function Validation(header: BlockHeader, opts: RunOptions): Option<BlockError> {
    if opts.skipBlockValidation then None
    else if header.gasLimit >= GAS_LIMIT_BOUND then Some(InvalidGasLimit)
    else if !opts.rulesHold || (header.number > 0 && header.gasUsed > header.gasLimit) then Some(InvalidBlock)
    else None
  }

  /** What `applyBlock` makes of a state; None if it throws. */
  ghost function AfterBlock(rules: Rules, s: Accounts, b: Block, opts: RunOptions): Option<Progress>
    requires rules.maxRefundQuotient > 0
  {
    if Validation(b.header, opts).Some? then None
    else
      match AfterAll(rules, s, b.header, b.transactions)
      case None => None
      case Some(p) =>
        Some(p.(accounts := if opts.proofOfWork then AfterRewards(p.accounts, b, opts.minerReward) else p.accounts))
  }

  /** The functions behind the other three header fields. */
  datatype Digests = Digests(receiptRoot: seq<TxResult> -> Bytes, bloom: seq<TxResult> -> Bytes,
                             stateRoot: Accounts -> Bytes)

  /** The comparisons with the header, made after the state was committed, in their order. */
  function Comparison(d: Digests, header: BlockHeader, p: Progress): Option<BlockError> {
    if (d.receiptRoot)(p.results) != header.receiptTrie then Some(InvalidReceiptTrie)
    else if (d.bloom)(p.results) != header.logsBloom then Some(InvalidBloom)
    else if p.gasUsed != header.gasUsed then Some(InvalidGasUsed)
    else if (d.stateRoot)(p.accounts) != header.stateRoot then Some(InvalidStateRoot)
    else None
  }

  /** The header agrees with what was computed in all four fields. */
  ghost predicate Agrees(d: Digests, header: BlockHeader, p: Progress) {
    && header.receiptTrie == (d.receiptRoot)(p.results) && header.logsBloom == (d.bloom)(p.results)
    && header.gasUsed == p.gasUsed && header.stateRoot == (d.stateRoot)(p.accounts)
  }

  lemma ComparisonIff(d: Digests, header: BlockHeader, p: Progress)
    ensures Comparison(d, header, p).None? <==> Agrees(d, header, p)
  {}

  /** Validation lets a block pass if it is skipped, or if the gas limit is below 2^63, the gas used within it,
      unless the block has number 0, and the other rules hold. */
  lemma ValidationIff(header: BlockHeader, opts: RunOptions)
    ensures Validation(header, opts).None? <==>
            || opts.skipBlockValidation
            || (&& header.gasLimit < 9223372036854775808 && opts.rulesHold
                && (header.number == 0 || header.gasUsed <= header.gasLimit))
  {}

  /** A transaction is applied in a block if and only if its gas limit fits next to the gas used before, within
      the limit of the block, or twice that under EIP-1559, and it is payable; it is then settled. */
  lemma StepIff(rules: Rules, p: Progress, header: BlockHeader, tx: Tx)
    requires Lawful(rules) && Solvent(p.accounts)
    ensures Step(rules, p, header, tx).Some? <==>
            && p.gasUsed + tx.gasLimit <= (if header.baseFeePerGas.Some? then 2 * header.gasLimit else header.gasLimit)
            && exists tip, price :: Priced(tx.fees, header, tip, price) && Payable(p.accounts, tx, header, price)
    ensures Step(rules, p, header, tx).Some? ==>
              var t := Step(rules, p, header, tx).value;
              && |t.results| == |p.results| + 1 && t.results[..|p.results|] == p.results
              && t.gasUsed == p.gasUsed + t.results[|p.results|].gasUsed
              && Settled(rules, p.accounts, tx, header, p.gasUsed, t.accounts, t.results[|p.results|])
  {
    hide Conserving;
    hide Solvent;
    hide Check;
    hide AfterTx;
    hide Used;
    hide Settled;
    hide Priced;
    hide Payable;
    CheckIff(p.accounts, tx, header);
    if Check(p.accounts, tx, header).None? { TxSettles(rules, p.accounts, tx, header, p.gasUsed); }
  }

  /** What a block issues to its miner and the miners of its ommers. */
  ghost function Issued(b: Block, opts: RunOptions): nat {
    if opts.proofOfWork
    then opts.minerReward + opts.minerReward / 32 * |b.ommers| + OmmerRewards(b, |b.ommers|, opts.minerReward)
    else 0
  }

  class Vm {
    const rules: Rules
    const digests: Digests
    var accounts: Accounts

    ghost predicate Valid()
      reads this
    {
      Lawful(rules) && Solvent(accounts)
    }

    constructor (rules: Rules, digests: Digests, accounts: Accounts)
      requires Lawful(rules) && Solvent(accounts)
      ensures Valid() && this.rules == rules && this.digests == digests && this.accounts == accounts
    {
      this.rules := rules;
      this.digests := digests;
      this.accounts := accounts;
    }

    /** The checks before execution, one after the other. */
    method CheckTx(tx: Tx, header: BlockHeader) returns (r: Option<TxError>)
      ensures r == Check(accounts, tx, header)
      ensures r.None? <==>
              exists tip, price :: Priced(tx.fees, header, tip, price) && Payable(accounts, tx, header, price)
    {
      CheckIff(accounts, tx, header);
      hide Priced;
      hide Payable;
      if header.gasLimit < tx.gasLimit {
        return Some(GasLimitAboveBlock);
      }
      if tx.fees.FeeMarket? && header.baseFeePerGas.None? {
        return Some(NotActivated);
      }
      if tx.gasLimit < tx.baseGas {
        return Some(BaseFeeExceedsGasLimit);
      }
      if header.baseFeePerGas.Some? {
        var maxFeePerGas := if tx.fees.FeeMarket? then tx.fees.maxFeePerGas else tx.fees.gasPrice;
        if maxFeePerGas < header.baseFeePerGas.value {
          return Some(FeeBelowBaseFee);
        }
      }
      var fromAccount := GetAccount(accounts, tx.sender);
      var gasPrice := if tx.fees.Legacy? then tx.fees.gasPrice
                      else Min(tx.fees.maxPriorityFeePerGas, tx.fees.maxFeePerGas - header.baseFeePerGas.value)
                           + header.baseFeePerGas.value;
      if fromAccount.balance < tx.gasLimit * gasPrice + tx.value {
        return Some(InsufficientFunds);
      }
      if tx.fees.FeeMarket? && fromAccount.balance < tx.gasLimit * tx.fees.maxFeePerGas + tx.value {
        return Some(InsufficientFunds);
      }
      if fromAccount.nonce != tx.nonce {
        return Some(WrongNonce);
      }
      return None;
    }

    /** What the sender pays and the miner gets for each gas. */
    method Prices(fees: Fees, header: BlockHeader) returns (gasPrice: int, inclusionFeePerGas: int)
      requires fees.FeeMarket? ==> header.baseFeePerGas.Some?
      ensures gasPrice == GasPrice(fees, header)
      ensures header.baseFeePerGas.Some? ==> inclusionFeePerGas == InclusionFee(fees, header)
      ensures header.baseFeePerGas.Some? ==> Priced(fees, header, inclusionFeePerGas, gasPrice)
    {
      gasPrice, inclusionFeePerGas := 0, 0;
      if fees.FeeMarket? {
        var baseFee := header.baseFeePerGas.value;
        inclusionFeePerGas := Min(fees.maxPriorityFeePerGas, fees.maxFeePerGas - baseFee);
        gasPrice := inclusionFeePerGas + baseFee;
      } else {
        gasPrice := fees.gasPrice;
        if header.baseFeePerGas.Some? {
          inclusionFeePerGas := fees.gasPrice - header.baseFeePerGas.value;
        }
      }
    }

    /** One transaction. The sender ends up paying for the gas used, the miner gets its part, and
        the base fee is burnt, also when sender, recipient and miner are one. */
    method RunTx(tx: Tx, header: BlockHeader, blockGasUsed: int) returns (r: Result<TxResult, TxError>)
      requires Valid()
      modifies this
      ensures Valid()
      ensures r.Err? <==> Check(old(accounts), tx, header).Some?
      ensures r.Err? ==> accounts == old(accounts) && Check(old(accounts), tx, header) == Some(r.error)
      ensures r.Ok? ==>
                && accounts == AfterTx(rules, old(accounts), tx, header)
                && r.value == ResultOf(rules, old(accounts), tx, header, blockGasUsed)
                && 0 <= r.value.gasUsed <= tx.gasLimit
                && r.value.receipt == Receipt(blockGasUsed + r.value.gasUsed)
                && r.value.gasUsed == Used(rules, old(accounts), tx, header)
      ensures r.Ok? <==>
              exists tip, price :: Priced(tx.fees, header, tip, price) && Payable(old(accounts), tx, header, price)
      ensures r.Ok? ==> Settled(rules, old(accounts), tx, header, blockGasUsed, accounts, r.value)
      ensures r.Ok? ==> Total(accounts) == old(Total(accounts)) - r.value.gasUsed * BaseFee(header)
    {
      hide Total;
      hide Solvent;
      hide Conserving;
      hide Check;
      hide Balance;
      hide Credited;
      hide Priced;
      hide Payable;
      hide Settled;
      hide InclusionFee;
      hide GasPrice;
      var check := CheckTx(tx, header);
      if check.Some? {
        return Err(check.value);
      }
      TxSettles(rules, accounts, tx, header, blockGasUsed);
      PriceParts(tx, header, accounts);
      var gasPrice, inclusionFee := Prices(tx.fees, header);
      var gasLimit := tx.gasLimit - tx.baseGas;
      var txCost := tx.gasLimit * gasPrice;
      var fromAccount := GetAccount(accounts, tx.sender);
      TotalPut(accounts, tx.sender, Account(fromAccount.nonce + 1, fromAccount.balance - txCost));
      accounts := accounts[tx.sender := Account(fromAccount.nonce + 1, fromAccount.balance - txCost)];
      PutSolvent(old(accounts), tx.sender, Account(fromAccount.nonce + 1, fromAccount.balance - txCost));
      var results := (rules.evm)(accounts, tx, gasLimit);
      EvmStep(rules.evm, accounts, tx, gasLimit);
      accounts := results.accounts;
      var gasUsed := results.gasUsed + tx.baseGas;
      var gasRefund := Min(results.gasRefund, gasUsed / rules.maxRefundQuotient);
      RefundSmall(gasUsed, rules.maxRefundQuotient);
      gasUsed := gasUsed - gasRefund;
      var amountSpent := gasUsed * gasPrice;
      MulLess(gasUsed, tx.gasLimit, gasPrice);
      var txCostDiff := txCost - amountSpent;
      Factor(tx.gasLimit, gasUsed, gasPrice);
      AddBalance(tx.sender, txCostDiff);
      var fee := if header.baseFeePerGas.Some? then gasUsed * inclusionFee else amountSpent;
      Split(gasUsed, InclusionFee(tx.fees, header), BaseFee(header));
      assert fee == gasUsed * InclusionFee(tx.fees, header);
      Paid(results.accounts, tx.sender, txCostDiff, header.miner, fee);
      AddBalance(header.miner, fee);
      return Ok(TxResult(gasUsed, amountSpent, Receipt(blockGasUsed + gasUsed), results.logs));
    }

    /** Reads an account, adds to its balance and writes it back. */
    method AddBalance(a: Address, amount: int)
      modifies this
      ensures accounts == Credited(old(accounts), a, amount)
    {
      var account := GetAccount(accounts, a);
      accounts := accounts[a := account.(balance := account.balance + amount)];
    }

    method RewardAccount(a: Address, reward: nat)
      requires Valid()
      modifies this
      ensures Valid() && accounts == Credited(old(accounts), a, reward)
      ensures Total(accounts) == old(Total(accounts)) + reward
      ensures forall b :: Balance(accounts, b) == old(Balance(accounts, b)) + if b == a then reward else 0
    {
      hide Total;
      var account := GetAccount(accounts, a);
      TotalPut(accounts, a, account.(balance := account.balance + reward));
      AddBalance(a, reward);
    }

    static method CalculateOmmerReward(ommerNumber: nat, blockNumber: nat, minerReward: nat) returns (reward: int)
      ensures reward == OmmerReward(ommerNumber, blockNumber, minerReward)
    {
      var heightDiff := blockNumber - ommerNumber;
      reward := (8 - heightDiff) * (minerReward / 8);
      if reward < 0 {
        reward := 0;
      }
    }

    method AssignBlockRewards(b: Block, minerReward: nat)
      requires Valid()
      modifies this
      ensures Valid() && accounts == AfterRewards(old(accounts), b, minerReward)
      ensures Total(accounts) ==
              old(Total(accounts)) + OmmerRewards(b, |b.ommers|, minerReward) + MinerReward(minerReward, |b.ommers|)
      ensures forall a ::
                Balance(accounts, a) == old(Balance(accounts, a)) + OmmerRewardsOf(b, |b.ommers|, minerReward, a)
                                        + if a == b.header.miner then MinerReward(minerReward, |b.ommers|) else 0
    {
      hide Total;
      hide OmmerReward;
      hide Balance;
      hide Credited;
      for i := 0 to |b.ommers|
        invariant Valid() && accounts == AfterOmmers(old(accounts), b, i, minerReward)
        invariant Total(accounts) == old(Total(accounts)) + OmmerRewards(b, i, minerReward)
        invariant forall a :: Balance(accounts, a) == old(Balance(accounts, a)) + OmmerRewardsOf(b, i, minerReward, a)
      {
        var reward := CalculateOmmerReward(b.ommers[i].number, b.header.number, minerReward);
        RewardAccount(b.ommers[i].coinbase, reward);
      }
      var niblingReward := minerReward / 32;
      var totalNiblingReward := niblingReward * |b.ommers|;
      RewardAccount(b.header.miner, minerReward + totalNiblingReward);
    }

    method ApplyTransactions(b: Block) returns (r: Result<BlockResult, TxError>)
      requires Valid()
      modifies this
      ensures Valid()
      ensures r.Ok? <==> AfterAll(rules, old(accounts), b.header, b.transactions).Some?
      ensures r.Ok? ==>
                AfterAll(rules, old(accounts), b.header, b.transactions) ==
                Some(Progress(accounts, r.value.gasUsed, r.value.results))
      ensures r.Ok? ==>
                && |r.value.results| == |b.transactions| && PrefixSums(r.value.receipts, r.value.results)
                && r.value.gasUsed == SumUsed(r.value.results)
                && (b.transactions != [] ==> r.value.gasUsed <= MaxGasLimit(b.header))
                && Total(accounts) == old(Total(accounts)) - r.value.gasUsed * BaseFee(b.header)
    {
      hide Total;
      hide Check;
      hide Conserving;
      hide AfterAll;
      hide AfterTx;
      hide Used;
      hide Balance;
      hide Priced;
      hide Payable;
      hide Settled;
      hide Solvent;
      hide ResultOf;
      hide BaseFee;
      hide PrefixSums;
      hide SumUsed;
      var gasUsed := 0;
      var receipts: seq<Receipt>, results: seq<TxResult> := [], [];
      NoTxs(rules, accounts, b.header, b.transactions);
      NoReceipts();
      for i := 0 to |b.transactions|
        invariant Valid() && |results| == i && PrefixSums(receipts, results) && 0 <= gasUsed == SumUsed(results)
        invariant AfterAll(rules, old(accounts), b.header, b.transactions[..i]) ==
                  Some(Progress(accounts, gasUsed, results))
        invariant i > 0 ==> gasUsed <= MaxGasLimit(b.header)
      {
        var tx := b.transactions[i];
        NextTx(rules, old(accounts), b.header, b.transactions, i);
        var maxGasLimit := b.header.gasLimit;
        if b.header.baseFeePerGas.Some? {
          maxGasLimit := b.header.gasLimit * ELASTICITY;
        }
        if maxGasLimit < tx.gasLimit + gasUsed {
          RefusedEarly(rules, old(accounts), b.header, b.transactions, i + 1);
          return Err(GasLimitAboveBlock);
        }
        var txRes := RunTx(tx, b.header, gasUsed);
        if txRes.Err? {
          RefusedEarly(rules, old(accounts), b.header, b.transactions, i + 1);
          return Err(txRes.error);
        }
        SumUsedPush(results, txRes.value);
        PrefixPush(receipts, results, txRes.value);
        results := results + [txRes.value];
        gasUsed := gasUsed + txRes.value.gasUsed;
        receipts := receipts + [txRes.value.receipt];
      }
      assert b.transactions[..|b.transactions|] == b.transactions;
      BurntFromSupply(rules, old(accounts), b.header, b.transactions);
      return Ok(BlockResult(gasUsed, receipts, results));
    }

    /** Validation, transactions and rewards, without a checkpoint of its own. */
    method ApplyBlock(b: Block, opts: RunOptions) returns (r: Result<BlockResult, BlockError>)
      requires Valid()
      modifies this
      ensures Valid()
      ensures r.Ok? <==> AfterBlock(rules, old(accounts), b, opts).Some?
      ensures r.Ok? ==>
                && AfterBlock(rules, old(accounts), b, opts) ==
                   Some(Progress(accounts, r.value.gasUsed, r.value.results))
                && |r.value.receipts| == |b.transactions| && PrefixSums(r.value.receipts, r.value.results)
                && r.value.gasUsed == SumUsed(r.value.results)
                && Total(accounts) == old(Total(accounts)) - r.value.gasUsed * BaseFee(b.header) + Issued(b, opts)
      ensures r.Err? ==> r.error.InvalidGasLimit? || r.error.InvalidBlock? || r.error.InTransaction?
    {
      hide AfterAll;
      hide Balance;
      hide Total;
      hide OmmerRewards;
      hide OmmerRewardsOf;
      hide AfterRewards;
      hide Solvent;
      if !opts.skipBlockValidation {
        if b.header.gasLimit >= GAS_LIMIT_BOUND {
          return Err(InvalidGasLimit);
        }
        if !opts.rulesHold {
          return Err(InvalidBlock);
        }
        if b.header.number > 0 && b.header.gasUsed > b.header.gasLimit {
          return Err(InvalidBlock);
        }
      }
      var applied := ApplyTransactions(b);
      if applied.Err? {
        return Err(InTransaction(applied.error));
      }
      if opts.proofOfWork {
        AssignBlockRewards(b, opts.minerReward);
      }
      return Ok(applied.value);
    }

    /** A block is committed before it is compared with its header. One that fails to apply leaves no
        trace; one that fails in the comparison keeps all its changes, with the supply equation of an
        accepted block. A validated and compared block stays within its gas limit. */
    method RunBlock(b: Block, opts: RunOptions) returns (r: Result<BlockResult, BlockError>)
      requires Valid()
      modifies this
      ensures Valid()
      ensures var applied := AfterBlock(rules, old(accounts), b, opts);
        r.Ok? <==> applied.Some? && (opts.generate || Agrees(digests, b.header, applied.value))
      ensures AfterBlock(rules, old(accounts), b, opts).None? ==> r.Err? && accounts == old(accounts)
      ensures AfterBlock(rules, old(accounts), b, opts).Some? ==>
                var p := AfterBlock(rules, old(accounts), b, opts).value;
                && accounts == p.accounts && p.gasUsed == SumUsed(p.results) && |p.results| == |b.transactions|
                && Total(accounts) == old(Total(accounts)) - p.gasUsed * BaseFee(b.header) + Issued(b, opts)
                && (r.Ok? ==> r.value.results == p.results && r.value.gasUsed == p.gasUsed)
                && (r.Err? ==> Comparison(digests, b.header, p) == Some(r.error))
      ensures r.Ok? ==> PrefixSums(r.value.receipts, r.value.results)
      ensures r.Ok? && !opts.generate && !opts.skipBlockValidation && b.header.number > 0 ==>
                r.value.gasUsed <= b.header.gasLimit
    {
      hide AfterAll;
      hide AfterRewards;
      hide Total;
      hide Solvent;
      hide Issued;
      var checkpoint := accounts;
      r := ApplyBlock(b, opts);
      if r.Err? {
        accounts := checkpoint;
        return;
      }
      if !opts.generate {
        if (digests.receiptRoot)(r.value.results) != b.header.receiptTrie {
          return Err(InvalidReceiptTrie);
        }
        if (digests.bloom)(r.value.results) != b.header.logsBloom {
          return Err(InvalidBloom);
        }
        if r.value.gasUsed != b.header.gasUsed {
          return Err(InvalidGasUsed);
        }
        if (digests.stateRoot)(accounts) != b.header.stateRoot {
          return Err(InvalidStateRoot);
        }
      }
    }
  }

  // ---------- failing after the commit ----------

  /** An EVM that moves nothing and uses all the gas it is given. */
  const BURN_ALL: Evm := (s: Accounts, tx: Tx, gas: nat) => ExecResult(s, gas, 0, [])

  lemma BurnAllConserves()
    ensures Conserving(BURN_ALL)
  {}

  /** What it makes of one transaction. */
  lemma BurnTx(q: nat, s: Accounts, tx: Tx, header: BlockHeader, before: int)
    requires q > 0 && Check(s, tx, header).None?
    ensures var rules := Rules(BURN_ALL, q);
      && Used(rules, s, tx, header) == tx.gasLimit
      && AfterTx(rules, s, tx, header)
         == Credited(Credited(Charged(s, tx, header), tx.sender, 0),
                     header.miner, tx.gasLimit * InclusionFee(tx.fees, header))
      && ResultOf(rules, s, tx, header, before)
         == TxResult(tx.gasLimit, tx.gasLimit * GasPrice(tx.fees, header), Receipt(before + tx.gasLimit), [])
  {
    hide Check;
    hide Charged;
    hide Credited;
    hide InclusionFee;
    hide GasPrice;
    PriceParts(tx, header, s);
    RefundSmall(tx.gasLimit, q);
    assert (tx.gasLimit - tx.gasLimit) * GasPrice(tx.fees, header) == 0;
  }

  /** What a transaction without data costs before any execution. */
  const BASE_GAS := 21000

  /** A transfer of nothing, at a given price. */
  function Transfer(sender: Address, nonce: nat, price: nat): Tx {
    Tx(sender, nonce, BASE_GAS, BASE_GAS, 0, Legacy(price), [])
  }

  function RichSender(sender: Address): Accounts {
    map[sender := Account(0, 50000)]
  }

  /** The balances after one transfer at the price of one. */
  function OncePaid(sender: Address, miner: Address): Accounts {
    map[sender := Account(1, 29000), miner := Account(0, 21000)]
  }

  const ONCE_RESULT := TxResult(BASE_GAS, BASE_GAS, Receipt(BASE_GAS), [])

  /** One transfer, in a block whose header agrees in all but the gas used. */
  function MiscountedBlock(d: Digests, sender: Address, miner: Address): Block {
    var results := [ONCE_RESULT];
    Block(BlockHeader(1, 5000000, 0, miner, None, (d.receiptRoot)(results), (d.bloom)(results),
                      (d.stateRoot)(OncePaid(sender, miner))),
          [Transfer(sender, 0, 1)], [])
  }

  const COMPARED := RunOptions(false, false, true, false, 0)

  lemma OneTransfer(sender: Address, miner: Address, header: BlockHeader)
    requires sender != miner && header.gasLimit == 5000000 && header.miner == miner && header.baseFeePerGas == None
    ensures var rules, s, tx := Rules(BURN_ALL, 2), RichSender(sender), Transfer(sender, 0, 1);
      && Check(s, tx, header).None? && AfterTx(rules, s, tx, header) == OncePaid(sender, miner)
      && Used(rules, s, tx, header) == BASE_GAS && ResultOf(rules, s, tx, header, 0) == ONCE_RESULT
  {
    var s, tx := RichSender(sender), Transfer(sender, 0, 1);
    assert Check(s, tx, header).None?;
    hide AfterTx;
    hide Used;
    hide ResultOf;
    BurnTx(2, s, tx, header, 0);
  }

  lemma OneTx(rules: Rules, s: Accounts, header: BlockHeader, tx: Tx)
    requires rules.maxRefundQuotient > 0
    ensures AfterAll(rules, s, header, [tx]) == Step(rules, Progress(s, 0, []), header, tx)
  {
    hide Step;
    assert [tx][..0] == [] && [tx][..1] == [tx];
    NextTx(rules, s, header, [tx], 0);
  }

  /** A block that throws, whatever the digests and the addresses, with its changes already committed. */
  lemma FailsWithChangedState(d: Digests, sender: Address, miner: Address)
    requires sender != miner
    ensures var rules, s, b := Rules(BURN_ALL, 2), RichSender(sender), MiscountedBlock(d, sender, miner);
      var p := Progress(OncePaid(sender, miner), BASE_GAS, [ONCE_RESULT]);
      && Lawful(rules) && Solvent(s) && p.accounts != s
      && AfterBlock(rules, s, b, COMPARED) == Some(p) && Comparison(d, b.header, p) == Some(InvalidGasUsed)
  {
    hide Conserving;
    hide Check;
    hide AfterTx;
    hide Used;
    hide ResultOf;
    hide AfterAll;
    BurnAllConserves();
    var rules, s, b := Rules(BURN_ALL, 2), RichSender(sender), MiscountedBlock(d, sender, miner);
    assert sender in s && s[sender].nonce != OncePaid(sender, miner)[sender].nonce;
    OneTx(rules, s, b.header, Transfer(sender, 0, 1));
    OneTransfer(sender, miner, b.header);
    assert [] + [ONCE_RESULT] == [ONCE_RESULT];
  }

  // ---------- gas used against the gas limit ----------

  function SumLimits(txs: seq<Tx>): nat {
    if txs == [] then 0 else SumLimits(txs[..|txs| - 1]) + txs[|txs| - 1].gasLimit
  }

  lemma UsedWithin(rules: Rules, s: Accounts, tx: Tx, header: BlockHeader)
    requires Lawful(rules) && Solvent(s) && Check(s, tx, header).None?
    ensures 0 <= Used(rules, s, tx, header) <= tx.gasLimit && Solvent(AfterTx(rules, s, tx, header))
    ensures rules.evm == BURN_ALL ==> Used(rules, s, tx, header) == tx.gasLimit
  {
    hide Total;
    hide Conserving;
    hide Check;
    PriceParts(tx, header, s);
    PutSolvent(s, tx.sender, Charged(s, tx, header)[tx.sender]);
    EvmStep(rules.evm, Charged(s, tx, header), tx, tx.gasLimit - tx.baseGas);
    var exec := Executed(rules, s, tx, header);
    RefundSmall(exec.gasUsed + tx.baseGas, rules.maxRefundQuotient);
    var used := Used(rules, s, tx, header);
    MulLess(0, tx.gasLimit - used, GasPrice(tx.fees, header));
    MulLess(0, used, InclusionFee(tx.fees, header));
    Paid(exec.accounts, tx.sender, (tx.gasLimit - used) * GasPrice(tx.fees, header), header.miner,
         used * InclusionFee(tx.fees, header));
  }

  /** A block never uses more gas than its transactions may, and all of it when each uses all it may. */
  lemma {:induction false} GasWithinLimits(rules: Rules, s: Accounts, header: BlockHeader, txs: seq<Tx>)
    requires Lawful(rules) && Solvent(s) && AfterAll(rules, s, header, txs).Some?
    ensures var p := AfterAll(rules, s, header, txs).value;
      && 0 <= p.gasUsed <= SumLimits(txs) && Solvent(p.accounts)
      && (rules.evm == BURN_ALL ==> p.gasUsed == SumLimits(txs))
    decreases |txs|
  {
    hide Conserving;
    hide Solvent;
    hide Check;
    hide AfterTx;
    hide Used;
    if txs != [] {
      var front := txs[..|txs| - 1];
      GasWithinLimits(rules, s, header, front);
      UsedWithin(rules, AfterAll(rules, s, header, front).value.accounts, txs[|txs| - 1], header);
    }
  }

  /** For transactions that are accepted even when each uses all its gas: whatever the EVM, accepted
      blocks of them stay within the gas limit of the block if and only if their limits add up to no more. */
  lemma GasWithinBlockIff(q: nat, s: Accounts, header: BlockHeader, txs: seq<Tx>)
    requires q > 0 && Solvent(s) && AfterAll(Rules(BURN_ALL, q), s, header, txs).Some?
    ensures SumLimits(txs) <= header.gasLimit <==>
            forall evm: Evm :: Conserving(evm) && AfterAll(Rules(evm, q), s, header, txs).Some? ==>
              AfterAll(Rules(evm, q), s, header, txs).value.gasUsed <= header.gasLimit
  {
    hide AfterAll;
    hide SumLimits;
    hide Conserving;
    BurnAllConserves();
    GasWithinLimits(Rules(BURN_ALL, q), s, header, txs);
    forall evm: Evm | Conserving(evm) && AfterAll(Rules(evm, q), s, header, txs).Some?
      ensures 0 <= AfterAll(Rules(evm, q), s, header, txs).value.gasUsed <= SumLimits(txs)
    {
      GasWithinLimits(Rules(evm, q), s, header, txs);
    }
  }

  ghost function Sum(gas: seq<int>): int {
    if gas == [] then 0 else Sum(gas[..|gas| - 1]) + gas[|gas| - 1]
  }

  /** The gas limits of transactions, and uses of gas that the rule on the gas of a block admits for them:
      what was used before, plus the next limit, is at most the bound. */
  ghost predicate Admitted(bound: int, limits: seq<int>, uses: seq<int>)
    decreases |limits|
  {
    && |uses| == |limits|
    && (limits != [] ==>
          var n := |limits| - 1;
          Admitted(bound, limits[..n], uses[..n]) && 0 <= uses[n] <= limits[n] && Sum(uses[..n]) + limits[n] <= bound)
  }

  ghost predicate AtLeast(more: seq<int>, uses: seq<int>) {
    |more| == |uses| && forall i :: 0 <= i < |uses| ==> uses[i] <= more[i]
  }

  lemma {:induction false} AdmittedSum(bound: int, limits: seq<int>, uses: seq<int>)
    requires Admitted(bound, limits, uses)
    ensures 0 <= Sum(uses) <= Sum(limits) && AtLeast(uses, uses)
    decreases |limits|
  {
    if limits != [] { AdmittedSum(bound, limits[..|limits| - 1], uses[..|uses| - 1]); }
  }

  /** Admitted uses can be raised to any total between their own and that of the limits, up to the bound. */
  lemma {:induction false} RaisedTo(bound: int, limits: seq<int>, uses: seq<int>, total: int) returns (more: seq<int>)
    requires Admitted(bound, limits, uses) && Sum(uses) <= total <= Sum(limits) && total <= bound
    ensures Admitted(bound, limits, more) && AtLeast(more, uses) && Sum(more) == total
    decreases |limits|
  {
    hide AtLeast;
    if limits == [] {
      more := [];
      AdmittedSum(bound, limits, uses);
      return;
    }
    var n := |limits| - 1;
    AdmittedSum(bound, limits[..n], uses[..n]);
    if total - Sum(uses[..n]) <= limits[n] {
      more := uses[..n] + [total - Sum(uses[..n])];
      OneMore(limits, uses, uses[..n], total - Sum(uses[..n]));
    } else {
      var front := RaisedTo(bound, limits[..n], uses[..n], total - limits[n]);
      more := front + [limits[n]];
      OneMore(limits, uses, front, limits[n]);
    }
  }

  lemma OneMore(limits: seq<int>, uses: seq<int>, front: seq<int>, last: int)
    requires |uses| == |limits| > 0 && AtLeast(front, uses[..|uses| - 1]) && uses[|uses| - 1] <= last
    ensures (front + [last])[..|limits| - 1] == front && Sum(front + [last]) == Sum(front) + last
    ensures |front + [last]| == |limits| && AtLeast(front + [last], uses)
  {
    assert forall i :: 0 <= i < |front| ==> uses[i] == uses[..|uses| - 1][i];
  }

  function Limits(txs: seq<Tx>): seq<int> {
    seq(|txs|, i requires 0 <= i < |txs| => txs[i].gasLimit)
  }

  function Uses(results: seq<TxResult>): seq<int> {
    seq(|results|, i requires 0 <= i < |results| => results[i].gasUsed)
  }

  lemma {:induction false} AcceptedAdmitted(rules: Rules, s: Accounts, header: BlockHeader, txs: seq<Tx>)
    requires Lawful(rules) && Solvent(s) && AfterAll(rules, s, header, txs).Some?
    ensures var p := AfterAll(rules, s, header, txs).value;
      && Admitted(MaxGasLimit(header), Limits(txs), Uses(p.results)) && Sum(Uses(p.results)) == p.gasUsed
      && Sum(Limits(txs)) == SumLimits(txs)
    decreases |txs|
  {
    hide Conserving;
    hide Solvent;
    hide Check;
    hide AfterTx;
    hide Used;
    if txs != [] {
      var n := |txs| - 1;
      var front, tx := txs[..n], txs[n];
      AcceptedAdmitted(rules, s, header, front);
      GasWithinLimits(rules, s, header, front);
      var q := AfterAll(rules, s, header, front).value;
      var p := AfterAll(rules, s, header, txs).value;
      UsedWithin(rules, q.accounts, tx, header);
      UsesMore(q.results, p.results[|q.results|]);
      assert Limits(txs)[..n] == Limits(front);
    }
  }

  lemma UsesMore(results: seq<TxResult>, r: TxResult)
    ensures Uses(results + [r]) == Uses(results) + [r.gasUsed]
    ensures Uses(results + [r])[..|results|] == Uses(results)
  {}

  /** For every accepted list under EIP-1559: whatever more gas its transactions use, as far as the rule
      admits it, they stay within the gas limit of the block if and only if their limits add up to no more. */
  lemma GasRuleIff(rules: Rules, s: Accounts, header: BlockHeader, txs: seq<Tx>)
    requires Lawful(rules) && Solvent(s) && AfterAll(rules, s, header, txs).Some?
    requires header.baseFeePerGas.Some? && header.gasLimit > 0
    ensures SumLimits(txs) <= header.gasLimit <==>
            forall uses :: Admitted(MaxGasLimit(header), Limits(txs), uses)
                           && AtLeast(uses, Uses(AfterAll(rules, s, header, txs).value.results)) ==>
                             Sum(uses) <= header.gasLimit
  {
    hide AfterAll;
    hide Admitted;
    hide AtLeast;
    hide Sum;
    AcceptedAdmitted(rules, s, header, txs);
    var bound, limits, least := MaxGasLimit(header), Limits(txs), Uses(AfterAll(rules, s, header, txs).value.results);
    forall uses | Admitted(bound, limits, uses) ensures Sum(uses) <= Sum(limits) {
      AdmittedSum(bound, limits, uses);
    }
    AdmittedSum(bound, limits, least);
    if Sum(limits) > header.gasLimit && Sum(least) <= header.gasLimit {
      var more := RaisedTo(bound, limits, least, header.gasLimit + 1);
    }
  }

  /** An accepted transaction burns the base fee for the gas it uses. */
  lemma TxBurns(rules: Rules, s: Accounts, tx: Tx, header: BlockHeader)
    requires Lawful(rules) && Solvent(s) && Check(s, tx, header).None?
    ensures Total(AfterTx(rules, s, tx, header)) == Total(s) - Used(rules, s, tx, header) * BaseFee(header)
  {
    hide Total;
    hide Conserving;
    hide Check;
    hide Solvent;
    var exec, used := Executed(rules, s, tx, header), Used(rules, s, tx, header);
    var price, fee := GasPrice(tx.fees, header), InclusionFee(tx.fees, header);
    PriceParts(tx, header, s);
    TotalPut(s, tx.sender, Charged(s, tx, header)[tx.sender]);
    PutSolvent(s, tx.sender, Charged(s, tx, header)[tx.sender]);
    EvmStep(rules.evm, Charged(s, tx, header), tx, tx.gasLimit - tx.baseGas);
    UsedWithin(rules, s, tx, header);
    MulLess(0, tx.gasLimit - used, price);
    MulLess(0, used, fee);
    Paid(exec.accounts, tx.sender, (tx.gasLimit - used) * price, header.miner, used * fee);
    Factor(tx.gasLimit, used, price);
    Split(used, fee, BaseFee(header));
  }

  lemma {:induction false} TotalNotNegative(s: Accounts)
    requires Solvent(s)
    ensures Total(s) >= 0
    decreases |s|
  {
    if s != map[] {
      var a :| a in s;
      TotalWithout(s, a);
      TotalNotNegative(s - {a});
    }
  }

  /** What accepted transactions burn is taken from the supply, which therefore bounds their gas. */
  lemma {:induction false} BurntFromSupply(rules: Rules, s: Accounts, header: BlockHeader, txs: seq<Tx>)
    requires Lawful(rules) && Solvent(s) && AfterAll(rules, s, header, txs).Some?
    ensures var p := AfterAll(rules, s, header, txs).value;
      0 <= Total(p.accounts) == Total(s) - p.gasUsed * BaseFee(header)
    decreases |txs|
  {
    hide Total;
    hide Conserving;
    hide Solvent;
    hide Check;
    hide AfterTx;
    hide Used;
    GasWithinLimits(rules, s, header, txs);
    TotalNotNegative(AfterAll(rules, s, header, txs).value.accounts);
    if txs != [] {
      var front, tx := txs[..|txs| - 1], txs[|txs| - 1];
      BurntFromSupply(rules, s, header, front);
      GasWithinLimits(rules, s, header, front);
      var q := AfterAll(rules, s, header, front).value;
      TxBurns(rules, q.accounts, tx, header);
      Distributed(q.gasUsed, Used(rules, q.accounts, tx, header), BaseFee(header));
    }
  }

  lemma Distributed(a: int, b: int, p: int)
    ensures (a + b) * p == a * p + b * p
  {}

  /** Before EIP-1559 every accepted block stays within its gas limit. */
  lemma {:induction false} LegacyGasWithinBlock(rules: Rules, s: Accounts, header: BlockHeader, txs: seq<Tx>)
    requires Lawful(rules) && Solvent(s) && header.baseFeePerGas.None? && AfterAll(rules, s, header, txs).Some?
    ensures AfterAll(rules, s, header, txs).value.gasUsed <= header.gasLimit
    decreases |txs|
  {
    hide Conserving;
    hide Solvent;
    hide Check;
    hide AfterTx;
    hide Used;
    if txs != [] {
      var front, tx := txs[..|txs| - 1], txs[|txs| - 1];
      GasWithinLimits(rules, s, header, front);
      UsedWithin(rules, AfterAll(rules, s, header, front).value.accounts, tx, header);
    }
  }

  /** A block whose limit is filled by one transfer, at the least base fee. */
  function FullHeader(miner: Address): BlockHeader {
    BlockHeader(1, BASE_GAS, 0, miner, Some(7), [], [], [])
  }

  const GENERATED := RunOptions(true, false, true, false, 0)

  /** A transfer uses the whole limit of the block, and is accepted if the sender can pay for it. */
  lemma FullTx(s: Accounts, sender: Address, miner: Address, nonce: nat, balance: int)
    requires sender != miner && GetAccount(s, sender) == Account(nonce, balance) && balance >= 7 * BASE_GAS
    ensures var rules, tx, header := Rules(BURN_ALL, 2), Transfer(sender, nonce, 7), FullHeader(miner);
      && Check(s, tx, header).None? && Used(rules, s, tx, header) == BASE_GAS
      && GetAccount(AfterTx(rules, s, tx, header), sender) == Account(nonce + 1, balance - 7 * BASE_GAS)
  {
    var tx, header := Transfer(sender, nonce, 7), FullHeader(miner);
    assert Check(s, tx, header).None?;
    hide AfterTx;
    hide Used;
    BurnTx(2, s, tx, header, 0);
  }

  /** Two transactions that are accepted one after the other. */
  lemma TwoTxs(rules: Rules, s: Accounts, header: BlockHeader, tx0: Tx, tx1: Tx)
    requires rules.maxRefundQuotient > 0
    requires Check(s, tx0, header).None? && tx0.gasLimit <= MaxGasLimit(header)
    requires Check(AfterTx(rules, s, tx0, header), tx1, header).None?
    requires tx1.gasLimit + Used(rules, s, tx0, header) <= MaxGasLimit(header)
    ensures var p := AfterAll(rules, s, header, [tx0, tx1]);
      && p.Some?
      && p.value.gasUsed == Used(rules, s, tx0, header) + Used(rules, AfterTx(rules, s, tx0, header), tx1, header)
  {
    hide Check;
    hide AfterTx;
    hide Used;
    hide ResultOf;
    hide AfterAll;
    OneTx(rules, s, header, tx0);
    assert [tx0, tx1][..1] == [tx0] && [tx0, tx1][..2] == [tx0, tx1];
    NextTx(rules, s, header, [tx0, tx1], 1);
  }

  /** Under EIP-1559, two transactions that each use the whole limit of the block are both applied: a
      generated block, which is not compared with its header, is accepted with twice its gas limit used. */
  lemma TwiceTheLimit(sender: Address, miner: Address)
    requires sender != miner
    ensures var rules, s := Rules(BURN_ALL, 2), map[sender := Account(0, 14 * BASE_GAS)];
      var b := Block(FullHeader(miner), [Transfer(sender, 0, 7), Transfer(sender, 1, 7)], []);
      && Lawful(rules) && Solvent(s) && AfterBlock(rules, s, b, GENERATED).Some?
      && AfterBlock(rules, s, b, GENERATED).value.gasUsed == 2 * b.header.gasLimit
  {
    hide Conserving;
    hide Check;
    hide AfterTx;
    hide Used;
    hide AfterAll;
    BurnAllConserves();
    var rules, s: Accounts, header := Rules(BURN_ALL, 2), map[sender := Account(0, 14 * BASE_GAS)], FullHeader(miner);
    var tx0, tx1 := Transfer(sender, 0, 7), Transfer(sender, 1, 7);
    FullTx(s, sender, miner, 0, 14 * BASE_GAS);
    FullTx(AfterTx(rules, s, tx0, header), sender, miner, 1, 7 * BASE_GAS);
    TwoTxs(rules, s, header, tx0, tx1);
  }

  // ---------- funds against the gas limit ----------

  /** An EVM that moves nothing and uses no gas. */
  const IDLE: Evm := (s: Accounts, tx: Tx, gas: nat) => ExecResult(s, 0, 0, [])

  function Spacious(sender: Address, nonce: nat): Tx {
    Tx(sender, nonce, 40000, BASE_GAS, 0, Legacy(7), [])
  }

  function FundedHeader(miner: Address): BlockHeader {
    BlockHeader(1, 70000, 0, miner, Some(7), [], [], [])
  }

  lemma IdleTx(s: Accounts, sender: Address, miner: Address, nonce: nat, balance: int)
    requires sender != miner && GetAccount(s, sender) == Account(nonce, balance) && balance >= 7 * 40000
    ensures var rules, tx, header := Rules(IDLE, 2), Spacious(sender, nonce), FundedHeader(miner);
      && Check(s, tx, header).None? && Used(rules, s, tx, header) == BASE_GAS
      && GetAccount(AfterTx(rules, s, tx, header), sender) == Account(nonce + 1, balance - 7 * BASE_GAS)
  {
    assert Check(s, Spacious(sender, nonce), FundedHeader(miner)).None?;
    hide Check;
  }

  /** Funds can keep a block within its gas limit: two transactions whose limits add up to more than that
      of the block, and which some EVM gets accepted, stay within it whatever the EVM. */
  lemma FundsKeepWithin(sender: Address, miner: Address)
    requires sender != miner
    ensures var s: Accounts, header := map[sender := Account(0, 490000)], FundedHeader(miner);
      var txs := [Spacious(sender, 0), Spacious(sender, 1)];
      && Solvent(s) && SumLimits(txs) > header.gasLimit
      && Conserving(IDLE) && AfterAll(Rules(IDLE, 2), s, header, txs).Some?
      && forall evm: Evm :: Conserving(evm) && AfterAll(Rules(evm, 2), s, header, txs).Some? ==>
           AfterAll(Rules(evm, 2), s, header, txs).value.gasUsed <= header.gasLimit
  {
    hide AfterAll;
    hide AfterTx;
    hide Used;
    hide Check;
    hide Total;
    var s: Accounts, header := map[sender := Account(0, 490000)], FundedHeader(miner);
    var tx0, tx1 := Spacious(sender, 0), Spacious(sender, 1);
    var txs := [tx0, tx1];
    IdleTx(s, sender, miner, 0, 490000);
    IdleTx(AfterTx(Rules(IDLE, 2), s, tx0, header), sender, miner, 1, 490000 - 7 * BASE_GAS);
    TwoTxs(Rules(IDLE, 2), s, header, tx0, tx1);
    OnlyAccount(sender, Account(0, 490000));
    TwoLimits(tx0, tx1);
    hide Conserving;
    forall evm: Evm | Conserving(evm) && AfterAll(Rules(evm, 2), s, header, txs).Some?
      ensures AfterAll(Rules(evm, 2), s, header, txs).value.gasUsed <= header.gasLimit
    {
      BurntFromSupply(Rules(evm, 2), s, header, txs);
    }
  }

  lemma OnlyAccount(a: Address, account: Account)
    ensures Total(map[a := account]) == account.balance
  {
    TotalWithout(map[a := account], a);
    assert map[a := account] - {a} == map[];
  }

  lemma TwoLimits(tx0: Tx, tx1: Tx)
    ensures SumLimits([tx0, tx1]) == tx0.gasLimit + tx1.gasLimit
  {
    assert [tx0, tx1][..1] == [tx0] && [tx0][..0] == [];
    assert SumLimits([tx0]) == tx0.gasLimit;
  }
}
