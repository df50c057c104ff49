/** The store: its tables as fields, its transactions as methods that overwrite them. Each method
    is proved against the function on tables of the same name. */
module Database {
  import opened Results
  import opened Ints
  import opened Ledger
  import AddressBook

  datatype DepositApplyResult = DepositApplyResult(account: AccountId, delta: int64)

  /** What a successful call reports: the row's account and by how much the credits changed. */
  function ResultOf(before: map<DepositKey, Deposit>, after: map<DepositKey, Deposit>, k: DepositKey): DepositApplyResult
    requires k in after
  {
    DepositApplyResult(after[k].account, Worth(CreditOf(Find(after, k))) - Worth(CreditOf(Find(before, k))))
  }

  /** The report names the row's account, and the difference between what the row adds to balances now and
      what it added before. */
  lemma ReportFields(db: DB, r: DepositRequest)
    requires Ledger.ApplyDeposit(db, r).Ok?
    ensures var db' := Ledger.ApplyDeposit(db, r).value;
      && r.key in db'.deposits
      && var report := ResultOf(db.deposits, db'.deposits, r.key);
        && report.account == db'.deposits[r.key].account
        && report.delta == Adds(db'.deposits, r.key) - Adds(db.deposits, r.key)
  {
  }

  function Adds(deposits: map<DepositKey, Deposit>, k: DepositKey): int {
    if k in deposits && deposits[k].status == Confirmed && deposits[k].account != "" then deposits[k].amount else 0
  }

  /** One entry of the deltas slice. */
  datatype Leg = Leg(account: AccountId, delta: int64)

  /** applyAccountBalanceDeltaTx: the sum wraps, and a negative sum is refused. */
  function ApplyDelta(b: Balances, leg: Leg): Result<Balances, Error> {
    if leg.account == "" then Err(InvalidRequest)
    else if leg.account !in b then Err(NoBalanceRow)
    else
      var next := Add64(b[leg.account], leg.delta);
      if next < 0 then Err(NegativeBalance) else Ok(b[leg.account := next])
  }

  ghost function ApplyLegs(b: Balances, legs: seq<Leg>): Result<Balances, Error> {
    if legs == [] then Ok(b) else
    match ApplyDelta(b, legs[0])
    case Err(e) => Err(e)
    case Ok(b') => ApplyLegs(b', legs[1..])
  }

  ghost function LegTotal(legs: seq<Leg>): int {
    if legs == [] then 0 else legs[0].delta + LegTotal(legs[1..])
  }

  ghost predicate NonNegative(b: Balances) {
    forall a :: a in b ==> b[a] >= 0
  }

  /** A wrapped balance is always negative, so the check catches overflow as well as debt. */
  lemma ApplyDeltaExact(b: Balances, a: AccountId, amount: Zat)
    requires NonNegative(b) && a != ""
    ensures ApplyDelta(b, Leg(a, amount)) == Grant(b, Some(Credit(a, amount)))
    ensures ApplyDelta(b, Leg(a, -(amount as int))) == TakeBack(b, Some(Credit(a, amount)))
  {
  }

  ghost function LegsOf(before: Option<Credit>, after: Option<Credit>): seq<Leg> {
    if before == after then [] else
    (if before.Some? then [Leg(before.value.account, -(before.value.amount as int))] else [])
    + (if after.Some? then [Leg(after.value.account, after.value.amount)] else [])
  }

  lemma UnfoldLegs(b: Balances, x: Leg, legs: seq<Leg>)
    ensures ApplyDelta(b, x).Err? ==> ApplyLegs(b, [x] + legs) == ApplyDelta(b, x)
    ensures ApplyDelta(b, x).Ok? ==> ApplyLegs(b, [x] + legs) == ApplyLegs(ApplyDelta(b, x).value, legs)
    ensures LegTotal([x] + legs) == x.delta + LegTotal(legs)
  {
    assert ([x] + legs)[1..] == legs;
  }

  /** The legs that take one credit back and grant another do what MoveCredit says. */
  lemma LegsMoveCredit(b: Balances, before: Option<Credit>, after: Option<Credit>)
    requires NonNegative(b)
    requires before.Some? ==> before.value.account != ""
    requires after.Some? ==> after.value.account != ""
    ensures ApplyLegs(b, LegsOf(before, after)) == MoveCredit(b, before, after)
    ensures LegTotal(LegsOf(before, after)) == Worth(after) - Worth(before)
  {
    if before != after {
      var b' := TakeBack(b, before);
      var second := if after.Some? then [Leg(after.value.account, after.value.amount)] else [];
      if after.Some? && b'.Ok? {
        ApplyDeltaExact(b'.value, after.value.account, after.value.amount);
        UnfoldLegs(b'.value, second[0], []);
        assert second == [second[0]] + [];
      }
      assert LegTotal(second) == Worth(after);
      if before.Some? {
        var first := Leg(before.value.account, -(before.value.amount as int));
        ApplyDeltaExact(b, before.value.account, before.value.amount);
        UnfoldLegs(b, first, second);
        assert LegsOf(before, after) == [first] + second;
      } else {
        assert LegsOf(before, after) == second;
      }
    }
  }

  /** The three-way switch of ApplyDeposit on the stored and the new status. */
  method DeltasFor(prev: Option<Deposit>, row: Deposit) returns (deltas: seq<Leg>)
    ensures deltas == LegsOf(CreditOf(prev), CreditOf(Some(row)))
  {
    deltas := [];
    var wasConfirmed := prev.Some? && prev.value.status.Confirmed?;
    if !wasConfirmed && row.status.Confirmed? {
      if row.account != "" {
        deltas := deltas + [Leg(row.account, row.amount)];
      }
    } else if wasConfirmed && !row.status.Confirmed? {
      if prev.value.account != "" {
        deltas := deltas + [Leg(prev.value.account, -(prev.value.amount as int))];
      }
    } else if wasConfirmed && row.status.Confirmed? {
      if prev.value.account != row.account || prev.value.amount != row.amount {
        if prev.value.account != "" {
          deltas := deltas + [Leg(prev.value.account, -(prev.value.amount as int))];
        }
        if row.account != "" {
          deltas := deltas + [Leg(row.account, row.amount)];
        }
      }
    }
  }

  /** The loop over the deltas slice: the new balances and the (wrapping) sum of the deltas. */
  method RunDeltas(b: Balances, deltas: seq<Leg>) returns (res: Result<(Balances, int64), Error>)
    requires forall d :: d in deltas ==> d.delta != 0 && d.account != ""
    requires |deltas| == 2 ==> MIN_I64 <= deltas[0].delta + deltas[1].delta <= MAX_I64
    requires |deltas| <= 2
    ensures match ApplyLegs(b, deltas)
            case Err(e) => res == Err(e)
            case Ok(b') => res == Ok((b', LegTotal(deltas)))
  {
    var balancesTx := b;
    var deltaSum: int64 := 0;
    var i := 0;
    while i < |deltas|
      invariant 0 <= i <= |deltas|
      invariant ApplyLegs(b, deltas) == ApplyLegs(balancesTx, deltas[i..])
      invariant LegTotal(deltas) == deltaSum + LegTotal(deltas[i..])
      invariant i == 0 ==> deltaSum == 0
      invariant i == 1 ==> deltaSum == deltas[0].delta
    {
      var d := deltas[i];
      assert deltas[i..][1..] == deltas[i + 1..];
      var next := ApplyDelta(balancesTx, d);
      if next.Err? {
        return Err(next.error);
      }
      balancesTx := next.value;
      deltaSum := Add64(deltaSum, d.delta);
      i := i + 1;
    }
    return Ok((balancesTx, deltaSum));
  }

  /** What a deposit transaction is about to commit. */
  datatype Writes = Writes(deposits: map<DepositKey, Deposit>, balances: Balances, result: DepositApplyResult)

  method DepositTx(deposits: map<DepositKey, Deposit>, balances: Balances, r: DepositRequest, looked: AccountId)
    returns (res: Result<Writes, Error>)
    requires WellFormed(r) && NonNegative(balances)
    ensures var prev := Find(deposits, r.key);
      var row := RowFor(r, Owner(r, looked, AccountOf(prev)));
      match MoveCredit(balances, CreditOf(prev), CreditOf(Some(row)))
      case Err(e) => res == Err(e)
      case Ok(b) =>
        && NonNegative(b)
        && res == Ok(Writes(deposits[r.key := row], b, ResultOf(deposits, deposits[r.key := row], r.key)))
  {
    var prev := Find(deposits, r.key);
    var prevAccountID := AccountOf(prev);
    var accountID := looked;
    if r.recipient == "" && prevAccountID != "" {
      accountID := prevAccountID;
    }
    var row := Deposit(r.diversifier, accountID, r.amount, r.height, r.status, r.confirmedHeight);
    var deltas := DeltasFor(prev, row);
    LegsMoveCredit(balances, CreditOf(prev), CreditOf(Some(row)));
    MoveCreditExact(balances, CreditOf(prev), CreditOf(Some(row)));
    var moved := RunDeltas(balances, deltas);
    if moved.Err? {
      return Err(moved.error);
    }
    var (balancesTx, deltaSum) := moved.value;
    return Ok(Writes(deposits[r.key := row], balancesTx, DepositApplyResult(accountID, deltaSum)));
  }

  class Store {
    var wallets: map<WalletId, Wallet>
    var accounts: set<AccountId>
    var addresses: seq<AddressRow>
    var cursors: map<WalletId, nat>
    var deposits: map<DepositKey, Deposit>
    var balances: Balances
    var withdrawals: map<string, Withdrawal>

    ghost function State(): DB
      reads this
    {
      DB(wallets, accounts, addresses, cursors, deposits, balances, withdrawals)
    }

    /** What the methods need of the tables. The invariants of whole runs, LedgerInv and BookInv,
        are about the functions that these methods are proved to follow. */
    ghost predicate Valid()
      reads this
    {
      NonNegative(balances)
    }

    constructor ()
      ensures Valid() && State() == EMPTY_DB
    {
      wallets, accounts, addresses, cursors := map[], {}, [], map[];
      deposits, balances, withdrawals := map[], map[], map[];
    }

    method CreateAccount(id: AccountId) returns (res: Result<AccountId, Error>)
      requires Valid()
      modifies this
      ensures Valid()
      ensures match Ledger.CreateAccount(old(State()), id)
              case Ok(db) => res == Ok(id) && State() == db
              case Err(e) => res == Err(e) && State() == old(State())
    {
      if id in accounts || id in balances {
        return Err(Conflict);
      }
      accounts := accounts + {id};
      balances := balances[id := 0];
      return Ok(id);
    }

    method UpsertWallet(w: WalletId, ufvk: string, seedPath: string) returns (res: Result<(), Error>)
      requires Valid()
      modifies this`wallets
      ensures Valid()
      ensures match AddressBook.UpsertWallet(old(State()), w, ufvk, seedPath)
              case Ok(db) => res == Ok(()) && State() == db
              case Err(e) => res == Err(e) && State() == old(State())
    {
      if w == "" || ufvk == "" || seedPath == "" {
        return Err(InvalidRequest);
      }
      if w in wallets {
        wallets := wallets[w := wallets[w].(ufvk := ufvk, seedPath := seedPath)];
      } else {
        wallets := wallets[w := Wallet(ufvk, seedPath, 0, 0)];
      }
      return Ok(());
    }

    method GetOrAssignDepositAddress(a: AccountId, w: WalletId, derive: AddressBook.Derive)
      returns (res: Result<string, Error>)
      requires Valid()
      modifies this`wallets, this`addresses
      ensures Valid()
      ensures match AddressBook.GetOrAssign(old(State()), a, w, derive)
              case Ok((db, address)) => res == Ok(address) && State() == db
              case Err(e) => res == Err(e) && State() == old(State())
    {
      if a == "" || w == "" {
        return Err(InvalidRequest);
      }
      var existing := AddressBook.RowByAccount(addresses, a, w);
      if existing.Some? {
        return Ok(existing.value.address);
      }
      if a !in accounts {
        return Err(AccountNotFound);
      }
      if w !in wallets {
        return Err(WalletNotInitialized);
      }
      var nextIdx := wallets[w].nextExternal;
      if nextIdx < 0 || nextIdx > MAX_U32 {
        return Err(InvalidWalletIndex);
      }
      var derived := derive(nextIdx);
      if derived.None? || derived.value == "" {
        return Err(DeriveFailed);
      }
      if RowByIndex(addresses, w, nextIdx).Some? {
        return Err(Conflict);
      }
      var row := AddressRow(a, w, nextIdx, derived.value);
      addresses := addresses + [row];
      wallets := wallets[w := wallets[w].(nextExternal := nextIdx + 1)];
      assert addresses[|addresses| - 1] == row;
      return Ok(derived.value);
    }

    method NextInternalAddress(w: WalletId, derive: AddressBook.Derive) returns (res: Result<string, Error>)
      requires Valid()
      modifies this`wallets
      ensures Valid()
      ensures match AddressBook.NextInternal(old(State()), w, derive)
              case Ok((db, address)) => res == Ok(address) && State() == db
              case Err(e) => res == Err(e) && State() == old(State())
      ensures res.Ok? ==>
        && w in old(wallets) && w in wallets
        && derive(old(wallets)[w].nextInternal) == Some(res.value)
        && wallets[w].nextInternal == old(wallets)[w].nextInternal + 1
    {
      if w == "" {
        return Err(InvalidRequest);
      }
      if w !in wallets {
        return Err(WalletNotInitialized);
      }
      var nextIdx := wallets[w].nextInternal;
      if nextIdx < 0 || nextIdx > MAX_U32 {
        return Err(InvalidWalletIndex);
      }
      var derived := derive(nextIdx);
      if derived.None? || derived.value == "" {
        return Err(DeriveFailed);
      }
      wallets := wallets[w := wallets[w].(nextInternal := nextIdx + 1)];
      return Ok(derived.value);
    }

    method GetScanCursor(w: WalletId) returns (res: Result<nat, Error>)
      requires Valid()
      modifies this`cursors
      ensures Valid()
      ensures w == "" ==> res == Err(InvalidRequest) && cursors == old(cursors)
      ensures w != "" ==>
        && res == Ok(if w in old(cursors) then old(cursors)[w] else 0)
        && cursors == old(cursors)[w := res.value]
    {
      if w == "" {
        return Err(InvalidRequest);
      }
      if w !in cursors {
        cursors := cursors[w := 0];
        return Ok(0);
      }
      assert cursors == cursors[w := cursors[w]];
      return Ok(cursors[w]);
    }

    method SetScanCursor(w: WalletId, cursor: int) returns (res: Result<(), Error>)
      requires Valid()
      modifies this`cursors
      ensures Valid()
      ensures res.Ok? <==> w != "" && cursor >= 0
      ensures cursors == if res.Ok? then old(cursors)[w := cursor] else old(cursors)
    {
      if w == "" || cursor < 0 {
        return Err(InvalidRequest);
      }
      cursors := cursors[w := cursor];
      return Ok(());
    }

    /** Records one deposit event: looks its owner up, then runs the transaction. */
    method ApplyDeposit(r: DepositRequest) returns (res: Result<DepositApplyResult, Error>)
      requires Valid()
      modifies this`deposits, this`balances
      ensures Valid()
      ensures match Ledger.ApplyDeposit(old(State()), r)
              case Err(e) => res == Err(e) && State() == old(State())
              case Ok(db) => State() == db && res == Ok(ResultOf(old(deposits), db.deposits, r.key))
    {
      if r.key.wallet == "" || r.key.txid == "" || r.amount <= 0 || r.height < 0 {
        return Err(InvalidRequest);
      }
      var accountID := "";
      var found := if r.recipient != ""
                   then AccountForRecipientAddress(addresses, r.key.wallet, r.recipient)
                   else AccountForDiversifierIndex(addresses, r.key.wallet, r.diversifier);
      if found.Err? {
        return Err(found.error);
      }
      if found.value.Some? {
        accountID := found.value.value;
      }
      res := ApplyInTransaction(r, accountID);
    }

    /** The transaction: an error leaves the tables alone, the last assignments commit. */
    method ApplyInTransaction(r: DepositRequest, looked: AccountId) returns (res: Result<DepositApplyResult, Error>)
      requires Valid() && WellFormed(r)
      modifies this`deposits, this`balances
      ensures Valid()
      ensures match ApplyTx(old(State()), r, looked)
              case Err(e) => res == Err(e) && State() == old(State())
              case Ok(db) => State() == db && res == Ok(ResultOf(old(deposits), db.deposits, r.key))
    {
      var tx := DepositTx(deposits, balances, r, looked);
      if tx.Err? {
        return Err(tx.error);
      }
      deposits, balances := tx.value.deposits, tx.value.balances;
      return Ok(tx.value.result);
    }

    method CreateWithdrawalAndDebit(id: string, a: AccountId, w: WalletId, to: string, amount: int64, fee: int64, txid: string)
      returns (res: Result<string, Error>)
      requires Valid()
      modifies this`balances, this`withdrawals
      ensures Valid()
      ensures match Withdraw(old(State()), id, a, w, to, amount, fee, txid)
              case Ok(db) => res == Ok(id) && State() == db
              case Err(e) => res == Err(e) && State() == old(State())
    {
      if a == "" || w == "" || to == "" || txid == "" || amount <= 0 || fee < 0 {
        return Err(InvalidRequest);
      }
      if a !in balances {
        return Err(AccountNotFound);
      }
      var bal := balances[a];
      var total := Add64(amount, fee);
      if total < amount {
        return Err(AmountOverflow);
      }
      if bal < total {
        return Err(InsufficientBalance);
      }
      if id in withdrawals {
        return Err(Conflict);
      }
      balances := balances[a := bal - total];
      withdrawals := withdrawals[id := Withdrawal(a, w, to, amount, fee, txid)];
      return Ok(id);
    }
  }
}
