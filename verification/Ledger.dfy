/** The tables of the store and its transactions, each as a function from the committed
    tables to the next committed tables. A transaction that fails is rolled back, so it
    returns only its error. */
module Ledger {
  import opened Results
  import opened Ints
  import opened Sums

  /** Amounts in zatoshi. The empty account id stands for a NULL account column. */
  type Zat = x: int | 0 < x <= 0x7FFF_FFFF_FFFF_FFFF witness 1
  type AccountId = string
  type WalletId = string

  datatype Status = Detected | Confirmed | Unconfirmed | Orphaned

  datatype DepositKey = DepositKey(wallet: WalletId, txid: string, action: uint32)

  datatype Deposit = Deposit(
    diversifier: uint32, account: AccountId, amount: Zat, height: int64,
    status: Status, confirmedHeight: Option<int64>)

  datatype Withdrawal = Withdrawal(
    account: AccountId, wallet: WalletId, to: string, amount: Zat, fee: int64, txid: string)

  datatype Wallet = Wallet(ufvk: string, seedPath: string, nextExternal: int64, nextInternal: int64)

  /** A row of deposit_addresses. Only the scope "external" is ever inserted. */
  datatype AddressRow = AddressRow(account: AccountId, wallet: WalletId, index: uint32, address: string)

  datatype DB = DB(
    wallets: map<WalletId, Wallet>,
    accounts: set<AccountId>,
    addresses: seq<AddressRow>,
    cursors: map<WalletId, nat>,
    deposits: map<DepositKey, Deposit>,
    balances: map<AccountId, int64>,
    withdrawals: map<string, Withdrawal>)

  const EMPTY_DB := DB(map[], {}, [], map[], map[], map[], map[])

  datatype Error =
    | InvalidRequest
    | InvalidMapping
    | NoBalanceRow
    | NegativeBalance
    | AmountOverflow
    | InsufficientBalance
    | Conflict
    | AccountNotFound
    | WalletNotInitialized
    | InvalidWalletIndex
    | DeriveFailed

  // ---------------------------------------------------------------- address book lookups

  function LowerChar(c: char): char {
    if 'A' <= c <= 'Z' then (c as int + 32) as char else c
  }

  /** strings.ToLower on the ASCII addresses of the chain. */
  function Lower(s: string): string {
    seq(|s|, i requires 0 <= i < |s| => LowerChar(s[i]))
  }

  /** The first row, in insertion order, that a query selects. */
  function FirstRow(book: seq<AddressRow>, query: AddressRow -> bool): (r: Option<AddressRow>)
    ensures r.Some? ==> r.value in book && query(r.value)
    ensures r.None? ==> forall row :: row in book ==> !query(row)
  {
    if book == [] then None
    else if query(book[0]) then Some(book[0])
    else FirstRow(book[1..], query)
  }

  function RowByAddress(book: seq<AddressRow>, w: WalletId, address: string): (r: Option<AddressRow>)
    ensures r.Some? ==> r.value in book && r.value.wallet == w && r.value.address == address
    ensures r.None? ==> forall row :: row in book ==> !(row.wallet == w && row.address == address)
  {
    FirstRow(book, (row: AddressRow) => row.wallet == w && row.address == address)
  }

  function RowByIndex(book: seq<AddressRow>, w: WalletId, index: int): (r: Option<AddressRow>)
    ensures r.Some? ==> r.value in book && r.value.wallet == w && r.value.index == index
    ensures r.None? ==> forall row :: row in book ==> !(row.wallet == w && row.index == index)
  {
    FirstRow(book, (row: AddressRow) => row.wallet == w && row.index == index)
  }

  function OwnerOfRow(row: Option<AddressRow>): Result<Option<AccountId>, Error> {
    match row
    case None => Ok(None)
    case Some(r) => if r.account == "" then Err(InvalidMapping) else Ok(Some(r.account))
  }

  function AccountForRecipientAddress(book: seq<AddressRow>, w: WalletId, recipient: string)
    : Result<Option<AccountId>, Error>
  {
    if w == "" || recipient == "" then Err(InvalidRequest)
    else OwnerOfRow(RowByAddress(book, w, Lower(recipient)))
  }

  function AccountForDiversifierIndex(book: seq<AddressRow>, w: WalletId, index: uint32)
    : Result<Option<AccountId>, Error>
  {
    if w == "" then Err(InvalidRequest) else OwnerOfRow(RowByIndex(book, w, index))
  }

  /** Only upper-case ASCII letters change, each to the same letter 32 code points up. */
  lemma LowerEach(s: string)
    ensures |Lower(s)| == |s|
    ensures forall i :: 0 <= i < |s| ==>
      Lower(s)[i] as int == (if 65 <= s[i] as int <= 90 then s[i] as int + 32 else s[i] as int)
    ensures Lower(Lower(s)) == Lower(s)
  {
  }

  /** A query is answered by the row inserted first among those it selects. */
  lemma {:induction false} FirstRowAt(book: seq<AddressRow>, query: AddressRow -> bool, p: nat)
    requires p < |book| && query(book[p]) && forall q :: 0 <= q < p ==> !query(book[q])
    ensures FirstRow(book, query) == Some(book[p])
    decreases p
  {
    if p > 0 {
      FirstRowAt(book[1..], query, p - 1);
    }
  }

  // ---------------------------------------------------------------- deposits

  datatype DepositRequest = DepositRequest(
    key: DepositKey, diversifier: uint32, recipient: string, amount: int64, height: int64,
    status: Status, confirmedHeight: Option<int64>)

  predicate WellFormed(r: DepositRequest) {
    r.key.wallet != "" && r.key.txid != "" && r.amount > 0 && r.height >= 0
  }

  /** The account the address book names for a request, "" when it names none. It is read
      before the transaction begins. */
  function LookedUpOwner(book: seq<AddressRow>, r: DepositRequest): Result<AccountId, Error> {
    var found := if r.recipient != ""
                 then AccountForRecipientAddress(book, r.key.wallet, r.recipient)
                 else AccountForDiversifierIndex(book, r.key.wallet, r.diversifier);
    match found
    case Err(e) => Err(e)
    case Ok(None) => Ok("")
    case Ok(Some(a)) => Ok(a)
  }

  function Find<K, V>(m: map<K, V>, k: K): Option<V> {
    if k in m then Some(m[k]) else None
  }

  function AccountOf(d: Option<Deposit>): AccountId {
    if d.Some? then d.value.account else ""
  }

  /** A request without a recipient address keeps the account stored before. */
  function Owner(r: DepositRequest, looked: AccountId, stored: AccountId): AccountId {
    if r.recipient == "" && stored != "" then stored else looked
  }

  function RowFor(r: DepositRequest, account: AccountId): Deposit
    requires WellFormed(r)
  {
    Deposit(r.diversifier, account, r.amount, r.height, r.status, r.confirmedHeight)
  }

  /** What a row contributes to balances: its amount, to its account, while it is confirmed. */
  datatype Credit = Credit(account: AccountId, amount: Zat)

  function CreditOf(d: Option<Deposit>): Option<Credit> {
    if d.Some? && d.value.status.Confirmed? && d.value.account != ""
    then Some(Credit(d.value.account, d.value.amount)) else None
  }

  type Balances = map<AccountId, int64>

  function TakeBack(b: Balances, c: Option<Credit>): Result<Balances, Error> {
    if c.None? then Ok(b)
    else if c.value.account !in b then Err(NoBalanceRow)
    else if b[c.value.account] < c.value.amount then Err(NegativeBalance)
    else Ok(b[c.value.account := b[c.value.account] - c.value.amount])
  }

  function Grant(b: Balances, c: Option<Credit>): Result<Balances, Error> {
    if c.None? then Ok(b)
    else if c.value.account !in b then Err(NoBalanceRow)
    else if b[c.value.account] + c.value.amount > MAX_I64 then Err(NegativeBalance)
    else Ok(b[c.value.account := b[c.value.account] + c.value.amount])
  }

  /** Replaces one credit by another; an unchanged credit moves nothing. */
  function MoveCredit(b: Balances, before: Option<Credit>, after: Option<Credit>): Result<Balances, Error> {
    if before == after then Ok(b) else
    match TakeBack(b, before)
    case Err(e) => Err(e)
    case Ok(b') => Grant(b', after)
  }

  function Worth(c: Option<Credit>): int { if c.Some? then c.value.amount else 0 }

  /** The transaction of ApplyDeposit, given the account looked up before it began. */
  function ApplyTx(db: DB, r: DepositRequest, looked: AccountId): Result<DB, Error>
    requires WellFormed(r)
  {
    var before := Find(db.deposits, r.key);
    var row := RowFor(r, Owner(r, looked, AccountOf(before)));
    match MoveCredit(db.balances, CreditOf(before), CreditOf(Some(row)))
    case Err(e) => Err(e)
    case Ok(b) => Ok(db.(deposits := db.deposits[r.key := row], balances := b))
  }

  function ApplyDeposit(db: DB, r: DepositRequest): Result<DB, Error> {
    if !WellFormed(r) then Err(InvalidRequest) else
    match LookedUpOwner(db.addresses, r)
    case Err(e) => Err(e)
    case Ok(looked) => ApplyTx(db, r, looked)
  }

  // ---------------------------------------------------------------- accounts and withdrawals

  /** The id is drawn at random by the source; a clash with a stored id fails the insert. */
  function CreateAccount(db: DB, id: AccountId): Result<DB, Error> {
    if id in db.accounts || id in db.balances then Err(Conflict)
    else Ok(db.(accounts := db.accounts + {id}, balances := db.balances[id := 0]))
  }

  function Withdraw(db: DB, id: string, a: AccountId, w: WalletId, to: string, amount: int64, fee: int64, txid: string)
    : Result<DB, Error>
  {
    if a == "" || w == "" || to == "" || txid == "" || amount <= 0 || fee < 0 then Err(InvalidRequest)
    else if a !in db.balances then Err(AccountNotFound)
    else if amount + fee > MAX_I64 then Err(AmountOverflow)
    else if db.balances[a] < amount + fee then Err(InsufficientBalance)
    else if id in db.withdrawals then Err(Conflict)
    else Ok(db.(
      balances := db.balances[a := db.balances[a] - (amount + fee)],
      withdrawals := db.withdrawals[id := Withdrawal(a, w, to, amount, fee, txid)]))
  }

  // ---------------------------------------------------------------- conservation

  ghost function Deposited(deposits: map<DepositKey, Deposit>, a: AccountId): int {
    Column(deposits, (d: Deposit) => Share(d, a))
  }

  function Share(d: Deposit, a: AccountId): int {
    if d.status == Confirmed && d.account == a && a != "" then d.amount else 0
  }

  ghost function Withdrawn(withdrawals: map<string, Withdrawal>, a: AccountId): int {
    Column(withdrawals, (w: Withdrawal) => Cost(w, a))
  }

  function Cost(w: Withdrawal, a: AccountId): int {
    if w.account == a then w.amount + w.fee else 0
  }

  /** Every balance is what the confirmed deposits brought minus what the withdrawals took. */
  ghost predicate Conserved(db: DB) {
    forall a :: a in db.balances ==>
      && db.balances[a] >= 0
      && db.balances[a] == Deposited(db.deposits, a) - Withdrawn(db.withdrawals, a)
  }

  /** Every row that names an account names one that exists. */
  ghost predicate Referential(db: DB) {
    && db.balances.Keys == db.accounts
    && "" !in db.accounts
    && (forall row :: row in db.addresses ==> row.account in db.accounts)
    && (forall k :: k in db.deposits && CreditOf(Some(db.deposits[k])).Some? ==> db.deposits[k].account in db.accounts)
    && (forall id :: id in db.withdrawals ==> db.withdrawals[id].account in db.accounts && db.withdrawals[id].fee >= 0)
  }

  ghost predicate LedgerInv(db: DB) {
    Referential(db) && Conserved(db)
  }

  lemma DepositedUpdate(deposits: map<DepositKey, Deposit>, k: DepositKey, row: Deposit, a: AccountId)
    ensures Deposited(deposits[k := row], a)
         == Deposited(deposits, a) - (if k in deposits then Share(deposits[k], a) else 0) + Share(row, a)
    ensures Deposited(deposits[k := row], a) == Deposited(deposits - {k}, a) + Share(row, a)
  {
    ColumnUpdate(deposits, (d: Deposit) => Share(d, a), k, row);
  }

  lemma WithdrawnUpdate(withdrawals: map<string, Withdrawal>, id: string, row: Withdrawal, a: AccountId)
    requires id !in withdrawals
    ensures Withdrawn(withdrawals[id := row], a) == Withdrawn(withdrawals, a) + Cost(row, a)
  {
    ColumnUpdate(withdrawals, (w: Withdrawal) => Cost(w, a), id, row);
  }

  /** Moving a credit changes each balance by exactly its part of the two credits, and keeps it non-negative. */
  lemma MoveCreditExact(b: Balances, before: Option<Credit>, after: Option<Credit>)
    requires forall a :: a in b ==> b[a] >= 0
    ensures MoveCredit(b, before, after).Ok? ==>
      var b' := MoveCredit(b, before, after).value;
      && b'.Keys == b.Keys
      && (before.Some? && before != after ==> before.value.account in b)
      && (after.Some? && before != after ==> after.value.account in b)
      && (forall a :: a in b ==> (0 <= b'[a] && b'[a] == b[a]
          - (if before.Some? && before.value.account == a then before.value.amount else 0)
          + (if after.Some? && after.value.account == a then after.value.amount else 0)))
  {
  }

  lemma ApplyTxKeepsLedger(db: DB, r: DepositRequest, looked: AccountId)
    requires WellFormed(r) && LedgerInv(db) && ApplyTx(db, r, looked).Ok?
    ensures LedgerInv(ApplyTx(db, r, looked).value)
  {
    var db' := ApplyTx(db, r, looked).value;
    var before := Find(db.deposits, r.key);
    var row := RowFor(r, Owner(r, looked, AccountOf(before)));
    MoveCreditExact(db.balances, CreditOf(before), CreditOf(Some(row)));
    assert Referential(db');
    forall a | a in db'.balances
      ensures db'.balances[a] >= 0 && db'.balances[a] == Deposited(db'.deposits, a) - Withdrawn(db'.withdrawals, a)
    {
      DepositedUpdate(db.deposits, r.key, row, a);
    }
  }

  lemma ApplyDepositKeepsLedger(db: DB, r: DepositRequest)
    requires LedgerInv(db) && ApplyDeposit(db, r).Ok?
    ensures LedgerInv(ApplyDeposit(db, r).value)
  {
    ApplyTxKeepsLedger(db, r, LookedUpOwner(db.addresses, r).value);
  }

  lemma CreateAccountKeepsLedger(db: DB, id: AccountId)
    requires LedgerInv(db) && id != "" && CreateAccount(db, id).Ok?
    ensures LedgerInv(CreateAccount(db, id).value)
  {
    ColumnZero(db.deposits, (d: Deposit) => Share(d, id));
    ColumnZero(db.withdrawals, (w: Withdrawal) => Cost(w, id));
  }

  lemma WithdrawKeepsLedger(db: DB, id: string, a: AccountId, w: WalletId, to: string, amount: int64, fee: int64, txid: string)
    requires LedgerInv(db) && Withdraw(db, id, a, w, to, amount, fee, txid).Ok?
    ensures LedgerInv(Withdraw(db, id, a, w, to, amount, fee, txid).value)
  {
    var db' := Withdraw(db, id, a, w, to, amount, fee, txid).value;
    var row := Withdrawal(a, w, to, amount, fee, txid);
    forall x | x in db'.balances
      ensures db'.balances[x] >= 0 && db'.balances[x] == Deposited(db'.deposits, x) - Withdrawn(db'.withdrawals, x)
    {
      WithdrawnUpdate(db.withdrawals, id, row, x);
    }
  }

  /** Two conserved ledgers with the same deposits and withdrawals have the same balances. */
  lemma BalancesDetermined(x: DB, y: DB)
    requires LedgerInv(x) && LedgerInv(y)
    requires x.accounts == y.accounts && x.deposits == y.deposits && x.withdrawals == y.withdrawals
    ensures x.balances == y.balances
  {
    forall a | a in x.balances ensures x.balances[a] == y.balances[a] {
      assert a in y.balances;
    }
  }

  // ---------------------------------------------------------------- when a deposit is refused

  /** The debit leg of a request runs when the stored row's credit goes away or changes. */
  ghost predicate DebitsOld(deposits: map<DepositKey, Deposit>, r: DepositRequest, looked: AccountId)
    requires WellFormed(r)
  {
    var before := Find(deposits, r.key);
    CreditOf(before).Some? && CreditOf(before) != CreditOf(Some(RowFor(r, Owner(r, looked, AccountOf(before)))))
  }

  /** What the account to be debited withdrew exceeds its other confirmed deposits. */
  ghost predicate DebitRefused(deposits: map<DepositKey, Deposit>, withdrawals: map<string, Withdrawal>,
                               r: DepositRequest, looked: AccountId)
    requires WellFormed(r)
  {
    DebitsOld(deposits, r, looked) &&
      Withdrawn(withdrawals, deposits[r.key].account) > Deposited(deposits - {r.key}, deposits[r.key].account)
  }

  /** The account to be credited does not exist, or its new total would not fit an int64. */
  ghost predicate CreditRefused(accounts: set<AccountId>, deposits: map<DepositKey, Deposit>,
                                withdrawals: map<string, Withdrawal>, r: DepositRequest, looked: AccountId)
    requires WellFormed(r)
  {
    var row := RowFor(r, Owner(r, looked, AccountOf(Find(deposits, r.key))));
    CreditOf(Some(row)).Some? &&
      (row.account !in accounts
       || Deposited(deposits[r.key := row], row.account) - Withdrawn(withdrawals, row.account) > MAX_I64)
  }

  /** The debit leg fails exactly when the account's withdrawals exceed its other confirmed deposits. */
  lemma DebitRefusedIff(db: DB, r: DepositRequest, looked: AccountId)
    requires WellFormed(r) && LedgerInv(db) && DebitsOld(db.deposits, r, looked)
    ensures TakeBack(db.balances, CreditOf(Find(db.deposits, r.key))).Err?
      <==> DebitRefused(db.deposits, db.withdrawals, r, looked)
  {
    var row := db.deposits[r.key];
    DepositedUpdate(db.deposits, r.key, row, row.account);
    assert db.deposits[r.key := row] == db.deposits;
  }

  /** The account that a refused debit would take from has withdrawn. */
  lemma RefusedSpent(deposits: map<DepositKey, Deposit>, withdrawals: map<string, Withdrawal>,
                     r: DepositRequest, looked: AccountId)
    requires WellFormed(r) && DebitRefused(deposits, withdrawals, r, looked)
    ensures exists id :: id in withdrawals && withdrawals[id].account == deposits[r.key].account
  {
    var a := deposits[r.key].account;
    if forall id :: id in withdrawals ==> withdrawals[id].account != a {
      ColumnZero(withdrawals, (w: Withdrawal) => Cost(w, a));
      ColumnNonNegative(deposits - {r.key}, (d: Deposit) => Share(d, a));
    }
  }

  /** An account that never withdrew never has a debit refused. */
  lemma NoWithdrawalNoRefusal(db: DB, r: DepositRequest, looked: AccountId)
    requires WellFormed(r) && LedgerInv(db) && DebitsOld(db.deposits, r, looked)
    requires forall id :: id in db.withdrawals ==> db.withdrawals[id].account != db.deposits[r.key].account
    ensures TakeBack(db.balances, CreditOf(Find(db.deposits, r.key))).Ok?
    ensures !r.status.Confirmed? ==> ApplyTx(db, r, looked).Ok?
  {
    DebitRefusedIff(db, r, looked);
    if DebitRefused(db.deposits, db.withdrawals, r, looked) {
      RefusedSpent(db.deposits, db.withdrawals, r, looked);
    }
  }

  /** The whole transaction is refused exactly when its debit leg or its credit leg is. */
  lemma ApplyRefusedIff(db: DB, r: DepositRequest, looked: AccountId)
    requires WellFormed(r) && LedgerInv(db)
    ensures ApplyTx(db, r, looked).Err? <==>
      || DebitRefused(db.deposits, db.withdrawals, r, looked)
      || CreditRefused(db.accounts, db.deposits, db.withdrawals, r, looked)
  {
    var before := Find(db.deposits, r.key);
    var row := RowFor(r, Owner(r, looked, AccountOf(before)));
    DepositedUpdate(db.deposits, r.key, row, row.account);
    if DebitsOld(db.deposits, r, looked) {
      DebitRefusedIff(db, r, looked);
    }
    if CreditOf(Some(row)).Some? && CreditOf(before) == CreditOf(Some(row)) {
      assert row.account in db.balances;
    }
  }

  // ---------------------------------------------------------------- what the transactions write, field by field

  /** A deposit writes every field of its own row from the request, and nothing else but balances. */
  lemma DepositFields(db: DB, r: DepositRequest)
    requires ApplyDeposit(db, r).Ok?
    ensures r.key.wallet != "" && r.key.txid != "" && r.amount > 0 && r.height >= 0
    ensures var db' := ApplyDeposit(db, r).value;
      && db' == db.(deposits := db'.deposits, balances := db'.balances)
      && db'.deposits.Keys == db.deposits.Keys + {r.key}
      && (forall k :: k in db.deposits && k != r.key ==> db'.deposits[k] == db.deposits[k])
      && var row := db'.deposits[r.key];
        && row.diversifier == r.diversifier && row.amount == r.amount && row.height == r.height
        && row.status == r.status && row.confirmedHeight == r.confirmedHeight
  {
  }

  /** What a stored row is worth to an account: its amount while it is confirmed and that account's. */
  function Gives(deposits: map<DepositKey, Deposit>, k: DepositKey, a: AccountId): int {
    if k in deposits && deposits[k].status == Confirmed && deposits[k].account == a && a != ""
    then deposits[k].amount else 0
  }

  /** A deposit moves every balance by what its row gives the account now, less what it gave before. */
  lemma DepositBalances(db: DB, r: DepositRequest)
    requires (forall a :: a in db.balances ==> db.balances[a] >= 0) && ApplyDeposit(db, r).Ok?
    ensures var db' := ApplyDeposit(db, r).value;
      && db'.balances.Keys == db.balances.Keys
      && forall a :: a in db.balances ==>
           db'.balances[a] == db.balances[a] - Gives(db.deposits, r.key, a) + Gives(db'.deposits, r.key, a)
  {
    var row := ApplyDeposit(db, r).value.deposits[r.key];
    MoveCreditExact(db.balances, CreditOf(Find(db.deposits, r.key)), CreditOf(Some(row)));
  }

  /** The request is malformed exactly on these grounds, whatever the tables hold. */
  lemma DepositInvalidIff(db: DB, r: DepositRequest)
    ensures ApplyDeposit(db, r) == Err(InvalidRequest) <==>
      r.key.wallet == "" || r.key.txid == "" || r.amount <= 0 || r.height < 0
  {
  }

  /** A withdrawal is recorded as asked, and takes amount plus fee from its own account alone. */
  lemma WithdrawFields(db: DB, id: string, a: AccountId, w: WalletId, to: string, amount: int64, fee: int64, txid: string)
    requires Withdraw(db, id, a, w, to, amount, fee, txid).Ok?
    ensures a in db.balances && amount > 0 && fee >= 0 && db.balances[a] >= amount + fee && id !in db.withdrawals
    ensures var db' := Withdraw(db, id, a, w, to, amount, fee, txid).value;
      && db' == db.(balances := db'.balances, withdrawals := db'.withdrawals)
      && db'.withdrawals.Keys == db.withdrawals.Keys + {id}
      && (forall x :: x in db.withdrawals ==> db'.withdrawals[x] == db.withdrawals[x])
      && db'.balances.Keys == db.balances.Keys
      && (forall x :: x in db.balances ==> db'.balances[x] == db.balances[x] - (if x == a then amount + fee else 0))
      && var row := db'.withdrawals[id];
        && row.account == a && row.wallet == w && row.to == to && row.amount == amount && row.fee == fee && row.txid == txid
  {
  }

  /** Which of the refusals a withdrawal meets: the first that applies, in this order. */
  lemma WithdrawErrors(db: DB, id: string, a: AccountId, w: WalletId, to: string, amount: int64, fee: int64, txid: string)
    ensures var res := Withdraw(db, id, a, w, to, amount, fee, txid);
      var bad := a == "" || w == "" || to == "" || txid == "" || amount <= 0 || fee < 0;
      && (bad <==> res == Err(InvalidRequest))
      && (!bad && a !in db.balances <==> res == Err(AccountNotFound))
      && (!bad && a in db.balances && amount + fee > 0x7FFF_FFFF_FFFF_FFFF <==> res == Err(AmountOverflow))
      && (!bad && a in db.balances && db.balances[a] < amount + fee <= 0x7FFF_FFFF_FFFF_FFFF <==> res == Err(InsufficientBalance))
  {
  }

  /** A new account has a zero balance; nothing else changes. */
  lemma AccountFields(db: DB, id: AccountId)
    requires CreateAccount(db, id).Ok?
    ensures id !in db.accounts && id !in db.balances
    ensures var db' := CreateAccount(db, id).value;
      && db' == db.(accounts := db'.accounts, balances := db'.balances)
      && (forall x :: x in db'.accounts <==> x in db.accounts || x == id)
      && db'.balances.Keys == db.balances.Keys + {id} && db'.balances[id] == 0
      && (forall x :: x in db.balances ==> db'.balances[x] == db.balances[x])
  {
  }
}
