/** Two concrete runs of the whole system, from an empty store, that show why results need their conditions:
    a stopped run that undoes a confirmation, and a replay that is refused. */
module Limits {
  import opened Results
  import opened Ints
  import opened Ledger
  import opened AddressBook
  import opened Sync
  import opened Replay
  import opened Protocol
  import opened RunInvariant
  import opened Convergence
  import opened Schedules

  // ---------------------------------------------------------------- a stopped run can undo a confirmation for good

  /** Events and rows that no account owns are never refused. */
  ghost predicate Unowned(rows: map<DepositKey, Deposit>) {
    forall k :: k in rows ==> rows[k].account == ""
  }

  lemma {:induction false} UnownedUnrefused(w: WalletId, rows: map<DepositKey, Deposit>, evs: seq<Event>)
    requires Unowned(rows) && forall ev :: ev in evs ==> ev.DepositEvent? && !BadEvent([], w, ev)
    ensures Unowned(RowsAfter([], w, rows, evs)) && !SomeRefused(Setting([], {}, map[]), w, rows, evs)
    decreases |evs|
  {
    if evs != [] {
      assert evs[0] in evs;
      UnownedUnrefused(w, RowsStep([], w, rows, evs[0]), evs[1..]);
      SomeRefusedFirst(Setting([], {}, map[]), w, rows, evs);
    }
  }

  const KEY := DepositKey("hot", "t", 0)

  function Ev(status: Status): Event { DepositEvent(status, "t", 0, 0, "x", 1, 0, 0) }

  const LOG := [Ev(Detected), Ev(Confirmed)]

  lemma LogFacts()
    ensures LastOf("hot", LOG, KEY) == Some(Ev(Confirmed)) && LastOf("hot", LOG[0..1], KEY) == Some(Ev(Detected))
    ensures UndoneBy(LOG, KEY, 0, 1)
    ensures forall ev :: ev in LOG ==> ev.DepositEvent? && !BadEvent([], "hot", ev)
  {
    LastAt("hot", LOG, KEY, 1);
    LastAt("hot", LOG[0..1], KEY, 0);
  }

  /** Two runs start on a fresh store and the log [detected, confirmed]. One finishes and saves the end of the
      log, the other applies the first event again and is stopped. The row says "detected" although the last
      event confirms it; both events lie before the saved cursor, and whatever happens next, the row stays as
      it is until a new event of it is appended. */
  lemma StoppedRunUndoesConfirmation(keys: Keys, s: Sys) returns (acts: seq<Action>, s': Sys)
    requires Initial(s) && s.db == EMPTY_DB
    ensures Execute(keys, s, acts) == Some(s')
    ensures Log(s', "hot") == LOG && CursorOf(s'.db.cursors, "hot") == 2
    ensures LastOf("hot", LOG, KEY) == Some(Ev(Confirmed))
    ensures KEY in s'.db.deposits && s'.db.deposits[KEY].status == Detected
    ensures forall more :: Execute(keys, s', more).Some? && NoNews(more, KEY) ==>
      Find(Execute(keys, s', more).value.db.deposits, KEY) == Find(s'.db.deposits, KEY)
  {
    LogFacts();
    UnownedUnrefused("hot", map[], LOG);
    assert forall ev :: ev in LOG[0..1] ==> ev in LOG;
    UnownedUnrefused("hot", RowsAfter([], "hot", map[], LOG), LOG[0..1]);
    assert Unrefused(s, "hot", LOG, 0, 1);
    acts, s' := StopUndoes(keys, s, LOG, KEY, 0, 1);
  }

  // ---------------------------------------------------------------- a replay can be refused

  function Paid(txid: string, status: Status): Event { DepositEvent(status, txid, 0, 0, "x", 50, 0, 0) }

  function PaidKey(txid: string): DepositKey { DepositKey("hot", txid, 0) }

  function PaidRow(status: Status): Deposit {
    Deposit(0, "a", 50, 0, status, if status.Confirmed? then Some(0) else None)
  }

  /** Account a owns address x, has the given rows, balance and withdrawals. */
  function Owned(rows: map<DepositKey, Deposit>, balance: int64, withdrawals: map<string, Withdrawal>): DB {
    DB(map["hot" := Wallet("u", "p", 1, 0)], {"a"}, [AddressRow("a", "hot", 0, "x")], map[],
       rows, map["a" := balance], withdrawals)
  }

  /** Account a spent 50 and has deposits p and perhaps q of 50 each. */
  function Spent(p: Status, q: Option<Status>, balance: int64): DB {
    Owned(if q.Some? then map[PaidKey("p") := PaidRow(p), PaidKey("q") := PaidRow(q.value)] else map[PaidKey("p") := PaidRow(p)],
          balance, map["i" := Withdrawal("a", "hot", "y", 50, 0, "z")])
  }

  lemma PaidToA(db: DB, txid: string, status: Status)
    requires db.addresses == [AddressRow("a", "hot", 0, "x")] && txid != ""
    ensures ApplyDeposit(db, RequestOf("hot", Paid(txid, status))) == ApplyTx(db, RequestOf("hot", Paid(txid, status)), "a")
    ensures RowFor(RequestOf("hot", Paid(txid, status)), "a") == PaidRow(status)
  {
    assert Lower("x") == "x";
    assert RowByAddress(db.addresses, "hot", "x") == Some(db.addresses[0]);
  }

  lemma StepTables(p: Progress, ev: Event, db: DB)
    requires ev.DepositEvent? && p.failed.None? && ApplyDeposit(p.db, RequestOf("hot", ev)) == Ok(db)
    ensures Step(p, "hot", ev).db == db && Step(p, "hot", ev).failed.None?
  {
  }

  lemma PaidStep(p: Progress, txid: string, status: Status, to: DB)
    requires p.failed.None? && p.db.addresses == [AddressRow("a", "hot", 0, "x")] && txid != ""
    requires ApplyTx(p.db, RequestOf("hot", Paid(txid, status)), "a") == Ok(to)
    ensures Step(p, "hot", Paid(txid, status)).db == to && Step(p, "hot", Paid(txid, status)).failed.None?
  {
    PaidToA(p.db, txid, status);
    StepTables(p, Paid(txid, status), to);
  }

  lemma FeedFirst(p: Progress, ev: Event, rest: seq<Event>)
    requires p.failed.None?
    ensures Feed(p, "hot", [ev] + rest) == Feed(Step(p, "hot", ev), "hot", rest)
  {
    assert ([ev] + rest)[1..] == rest;
  }

  /** q is detected, q confirms, p is orphaned. */
  function ThreeEvents(): seq<Event> {
    [Paid("q", Detected)] + ([Paid("q", Confirmed)] + ([Paid("p", Orphaned)] + []))
  }

  lemma OnePass()
    ensures var end := Feed(Begin(Spent(Confirmed, None, 0)), "hot", ThreeEvents());
      end.failed.None? && end.db == Spent(Orphaned, Some(Confirmed), 0)
  {
    var a := Begin(Spent(Confirmed, None, 0));
    FeedFirst(a, Paid("q", Detected), [Paid("q", Confirmed)] + ([Paid("p", Orphaned)] + []));
    TxDetectQ();
    PaidStep(a, "q", Detected, Spent(Confirmed, Some(Detected), 0));
    AfterQ(Step(a, "hot", Paid("q", Detected)));
  }

  lemma AfterQ(b: Progress)
    requires b.failed.None? && b.db == Spent(Confirmed, Some(Detected), 0)
    ensures var end := Feed(b, "hot", [Paid("q", Confirmed)] + ([Paid("p", Orphaned)] + []));
      end.failed.None? && end.db == Spent(Orphaned, Some(Confirmed), 0)
  {
    FeedFirst(b, Paid("q", Confirmed), [Paid("p", Orphaned)] + []);
    TxConfirmQ();
    PaidStep(b, "q", Confirmed, Spent(Confirmed, Some(Confirmed), 50));
    var c := Step(b, "hot", Paid("q", Confirmed));
    FeedFirst(c, Paid("p", Orphaned), []);
    TxOrphanP();
    PaidStep(c, "p", Orphaned, Spent(Orphaned, Some(Confirmed), 0));
  }

  lemma TxDetectQ()
    ensures ApplyTx(Spent(Confirmed, None, 0), RequestOf("hot", Paid("q", Detected)), "a") == Ok(Spent(Confirmed, Some(Detected), 0))
  {
    assert RowFor(RequestOf("hot", Paid("q", Detected)), "a") == PaidRow(Detected);
    assert Spent(Confirmed, None, 0).deposits[PaidKey("q") := PaidRow(Detected)] == Spent(Confirmed, Some(Detected), 0).deposits;
  }

  lemma TxConfirmQ()
    ensures ApplyTx(Spent(Confirmed, Some(Detected), 0), RequestOf("hot", Paid("q", Confirmed)), "a") == Ok(Spent(Confirmed, Some(Confirmed), 50))
  {
    assert RowFor(RequestOf("hot", Paid("q", Confirmed)), "a") == PaidRow(Confirmed);
    assert Spent(Confirmed, Some(Detected), 0).deposits[PaidKey("q") := PaidRow(Confirmed)] == Spent(Confirmed, Some(Confirmed), 0).deposits;
    assert Spent(Confirmed, Some(Detected), 0).balances["a" := 50] == map["a" := 50];
  }

  lemma TxOrphanP()
    ensures ApplyTx(Spent(Confirmed, Some(Confirmed), 50), RequestOf("hot", Paid("p", Orphaned)), "a") == Ok(Spent(Orphaned, Some(Confirmed), 0))
  {
    assert RowFor(RequestOf("hot", Paid("p", Orphaned)), "a") == PaidRow(Orphaned);
    assert Spent(Confirmed, Some(Confirmed), 50).deposits[PaidKey("p") := PaidRow(Orphaned)] == Spent(Orphaned, Some(Confirmed), 0).deposits;
    assert Spent(Confirmed, Some(Confirmed), 50).balances["a" := 0] == map["a" := 0];
  }

  lemma RefusedAgain(p: Progress, rest: seq<Event>)
    requires p.failed.None? && p.db == Spent(Orphaned, Some(Confirmed), 0)
    ensures Feed(p, "hot", [Paid("q", Detected)] + rest).failed == Some(StoreError(NegativeBalance))
  {
    PaidToA(p.db, "q", Detected);
    assert CreditOf(Find(p.db.deposits, PaidKey("q"))) == Some(Credit("a", 50));
    FeedFirst(p, Paid("q", Detected), rest);
  }

  lemma FeedPlain(db: DB, w: WalletId, evs: seq<Event>)
    ensures Feed(Begin(db), w, evs).failed == Feed(Begin(Plain(db)), w, evs).failed
    ensures Plain(Feed(Begin(db), w, evs).db) == Plain(Feed(Begin(Plain(db)), w, evs).db)
  {
    FeedSameDeposits(Begin(db), Begin(Plain(db)), w, evs);
  }

  /** The account, the wallet and the account's address. */
  lemma OpenAccount(keys: Keys, s: Sys) returns (acts: seq<Action>, s': Sys)
    requires Unsynced(s, "hot") && s.db == EMPTY_DB && keys("u")(0) == Some("x")
    ensures Execute(keys, s, acts) == Some(s') && s' == s.(db := Owned(map[], 0, map[]))
  {
    var a, b, c := NewAccount("a"), NewWallet("hot", "u", "p"), Assign("a", "hot", "u");
    var s1 := s.(db := EMPTY_DB.(accounts := {"a"}, balances := map["a" := 0]));
    var s2 := s.(db := s1.db.(wallets := map["hot" := Wallet("u", "p", 0, 0)]));
    s' := s.(db := Owned(map[], 0, map[]));
    assert s.db.accounts + {"a"} == {"a"} && s.db.balances["a" := 0] == map["a" := 0];
    assert s.db.wallets["hot" := Wallet("u", "p", 0, 0)] == map["hot" := Wallet("u", "p", 0, 0)];
    assert Next(keys, s, a) == Some(s1);
    assert Next(keys, s1, b) == Some(s2);
    AssignFirst(keys("u"), s2.db);
    assert Next(keys, s2, c) == Some(s');
    Two(keys, s, a, b);
    One(keys, s2, c);
    Then(keys, s, [a, b], s2, [c], s');
    acts := [a, b] + [c];
  }

  lemma AssignFirst(derive: Derive, db: DB)
    requires db == EMPTY_DB.(accounts := {"a"}, balances := map["a" := 0], wallets := map["hot" := Wallet("u", "p", 0, 0)])
    requires derive(0) == Some("x")
    ensures AssignTx(db, "a", "hot", derive) == Ok(Owned(map[], 0, map[]))
  {
    assert RowByAccount([], "a", "hot").None? && RowByIndex([], "hot", 0).None?;
    assert db.wallets["hot" := Wallet("u", "p", 1, 0)] == map["hot" := Wallet("u", "p", 1, 0)];
    assert db.addresses + [AddressRow("a", "hot", 0, "x")] == [AddressRow("a", "hot", 0, "x")];
  }

  lemma ConfirmP()
    ensures var end := Feed(Begin(Owned(map[], 0, map[])), "hot", [Paid("p", Confirmed)]);
      end.failed.None? && end.db == Owned(map[PaidKey("p") := PaidRow(Confirmed)], 50, map[])
  {
    var db := Owned(map[], 0, map[]);
    assert RowFor(RequestOf("hot", Paid("p", Confirmed)), "a") == PaidRow(Confirmed);
    assert db.balances["a" := 50] == map["a" := 50];
    PaidStep(Begin(db), "p", Confirmed, Owned(map[PaidKey("p") := PaidRow(Confirmed)], 50, map[]));
    FeedFirst(Begin(db), Paid("p", Confirmed), []);
    assert [Paid("p", Confirmed)] + [] == [Paid("p", Confirmed)];
  }

  /** Deposit p confirms, a run applies it and saves its cursor. */
  lemma ReceiveP(keys: Keys, s: Sys) returns (acts: seq<Action>, s': Sys)
    requires Unsynced(s, "hot") && s.db == Owned(map[], 0, map[])
    ensures Execute(keys, s, acts) == Some(s') && Log(s', "hot") == [Paid("p", Confirmed)]
    ensures s'.runs == map[0 := Run("hot", 1, Done)] && CursorOf(s'.db.cursors, "hot") == 1
    ensures Plain(s'.db) == Owned(map[PaidKey("p") := PaidRow(Confirmed)], 50, map[])
  {
    var evs := [Paid("p", Confirmed)];
    ConfirmP();
    var a, mid := AppendAll(keys, s, "hot", evs);
    assert Log(mid, "hot") == evs && evs[0..] == evs;
    var c;
    c, s' := FullRun(keys, mid, 0, "hot");
    Then(keys, s, a, mid, c, s');
    acts := a + c;
    assert s'.runs == map[0 := Run("hot", 1, Done)];
  }

  /** Account a withdraws all of it. */
  lemma SpendP(keys: Keys, s: Sys) returns (acts: seq<Action>, s': Sys)
    requires Plain(s.db) == Owned(map[PaidKey("p") := PaidRow(Confirmed)], 50, map[])
    ensures Execute(keys, s, acts) == Some(s') && s' == s.(db := s'.db)
    ensures s'.db.cursors == s.db.cursors && Plain(s'.db) == Spent(Confirmed, None, 0)
  {
    var act := Debit("i", "a", "hot", "y", 50, 0, "z");
    acts := [act];
    One(keys, s, act);
    var none: map<string, Withdrawal> := map[];
    assert s.db.balances["a" := 0] == map["a" := 0];
    assert none["i" := Withdrawal("a", "hot", "y", 50, 0, "z")] == map["i" := Withdrawal("a", "hot", "y", 50, 0, "z")];
    s' := Next(keys, s, act).value;
  }

  /** Account a receives deposit p and spends it; deposit q then confirms and p is orphaned. One pass over the
      events after the cursor succeeds. When the run stops before saving its cursor, the replay begins by
      taking q back and is refused. */
  lemma ReplayCanBeRefused(keys: Keys, s: Sys) returns (acts: seq<Action>, s': Sys)
    requires Initial(s) && s.db == EMPTY_DB && keys("u")(0) == Some("x")
    ensures Execute(keys, s, acts) == Some(s') && Settled(s', "hot")
    ensures CursorOf(s'.db.cursors, "hot") <= |Log(s', "hot")|
    ensures var evs := Log(s', "hot")[CursorOf(s'.db.cursors, "hot")..];
      && Feed(Begin(s'.db), "hot", evs).failed.None?
      && Feed(Begin(Feed(Begin(s'.db), "hot", evs).db), "hot", evs).failed == Some(StoreError(NegativeBalance))
  {
    InitialUnsynced(s, "hot");
    var a, s1 := OpenAccount(keys, s);
    assert Unsynced(s1, "hot");
    var b, s2 := ReceiveP(keys, s1);
    var c, s3 := SpendP(keys, s2);
    var d;
    d, s' := AppendAll(keys, s3, "hot", ThreeEvents());
    Then(keys, s, a, s1, b, s2);
    Then(keys, s, a + b, s2, c, s3);
    Then(keys, s, a + b + c, s3, d, s');
    acts := a + b + c + d;
    assert Log(s', "hot")[1..] == ThreeEvents();
    SpentReplay(s'.db);
  }

  lemma SpentReplay(db: DB)
    requires Plain(db) == Spent(Confirmed, None, 0)
    ensures var once := Feed(Begin(db), "hot", ThreeEvents());
      once.failed.None? && Feed(Begin(once.db), "hot", ThreeEvents()).failed == Some(StoreError(NegativeBalance))
  {
    var once := Feed(Begin(db), "hot", ThreeEvents());
    OnePass();
    FeedPlain(db, "hot", ThreeEvents());
    FeedPlain(once.db, "hot", ThreeEvents());
    RefusedAgain(Begin(Spent(Orphaned, Some(Confirmed), 0)), [Paid("q", Confirmed)] + ([Paid("p", Orphaned)] + []));
  }
}
