/** A run that fails saves no cursor, so its events are applied again. Replaying them gives the
    rows and balances of one uninterrupted run, also for events without a recipient address,
    which keep whatever owner the row had. */
module Replay {
  import opened Results
  import opened Ledger
  import opened Sync

  predicate Touches(w: WalletId, ev: Event, k: DepositKey) {
    ev.DepositEvent? && k == DepositKey(w, ev.txid, ev.action)
  }

  function Looked(book: seq<AddressRow>, w: WalletId, ev: Event): AccountId
    requires ev.DepositEvent?
  {
    match LookedUpOwner(book, RequestOf(w, ev))
    case Ok(a) => a
    case Err(_) => ""
  }

  /** The owner of row k after the events, given the owner before. */
  function OwnerAfter(book: seq<AddressRow>, w: WalletId, evs: seq<Event>, k: DepositKey, owner: AccountId): AccountId
    decreases |evs|
  {
    if evs == [] then owner
    else OwnerAfter(book, w, evs[1..], k, OwnerStep(book, w, evs[0], k, owner))
  }

  function OwnerStep(book: seq<AddressRow>, w: WalletId, ev: Event, k: DepositKey, owner: AccountId): AccountId {
    if Touches(w, ev, k) then Owner(RequestOf(w, ev), Looked(book, w, ev), owner) else owner
  }

  /** The last event of the log about row k. */
  function LastOf(w: WalletId, evs: seq<Event>, k: DepositKey): (r: Option<Event>)
    ensures r.Some? ==> r.value in evs && Touches(w, r.value, k)
    ensures r.None? ==> forall ev :: ev in evs ==> !Touches(w, ev, k)
  {
    if evs == [] then None else
    var later := LastOf(w, evs[1..], k);
    if later.Some? then later else if Touches(w, evs[0], k) then Some(evs[0]) else None
  }

  /** What row k is after the events: the fields of its last event, and the owner carried along. */
  ghost predicate RowAfter(book: seq<AddressRow>, w: WalletId, evs: seq<Event>, k: DepositKey,
                           before: Option<Deposit>, after: Option<Deposit>) {
    match LastOf(w, evs, k)
    case None => after == before
    case Some(ev) =>
      && WellFormed(RequestOf(w, ev))
      && after == Some(RowFor(RequestOf(w, ev), OwnerAfter(book, w, evs, k, AccountOf(before))))
  }

  lemma {:induction false} FeedRow(p: Progress, w: WalletId, evs: seq<Event>, k: DepositKey)
    requires p.failed.None? && Feed(p, w, evs).failed.None?
    ensures RowAfter(p.db.addresses, w, evs, k, Find(p.db.deposits, k), Find(Feed(p, w, evs).db.deposits, k))
    decreases |evs|
  {
    if evs != [] {
      var q := Step(p, w, evs[0]);
      FeedRow(q, w, evs[1..], k);
      var owner := AccountOf(Find(p.db.deposits, k));
      assert AccountOf(Find(q.db.deposits, k)) == OwnerStep(p.db.addresses, w, evs[0], k, owner);
      if LastOf(w, evs[1..], k).None? && Touches(w, evs[0], k) {
        OwnerUntouched(p.db.addresses, w, evs[1..], k, AccountOf(Find(q.db.deposits, k)));
      }
    }
  }

  /** Some event fixes the owner, whatever it was before. */
  predicate Fixes(w: WalletId, evs: seq<Event>, k: DepositKey) {
    exists i :: 0 <= i < |evs| && Touches(w, evs[i], k) && evs[i].recipient != ""
  }

  lemma {:induction false} FixedOwner(book: seq<AddressRow>, w: WalletId, evs: seq<Event>, k: DepositKey, a: AccountId, b: AccountId)
    requires Fixes(w, evs, k)
    ensures OwnerAfter(book, w, evs, k, a) == OwnerAfter(book, w, evs, k, b)
    decreases |evs|
  {
    if !(Touches(w, evs[0], k) && evs[0].recipient != "") {
      var i :| 0 <= i < |evs| && Touches(w, evs[i], k) && evs[i].recipient != "";
      assert evs[1..][i - 1] == evs[i];
      FixedOwner(book, w, evs[1..], k, OwnerStep(book, w, evs[0], k, a), OwnerStep(book, w, evs[0], k, b));
    }
  }

  lemma {:induction false} KeptOwner(book: seq<AddressRow>, w: WalletId, evs: seq<Event>, k: DepositKey, a: AccountId)
    requires !Fixes(w, evs, k) && a != ""
    ensures OwnerAfter(book, w, evs, k, a) == a
    decreases |evs|
  {
    if evs != [] {
      assert Touches(w, evs[0], k) ==> evs[0].recipient == "";
      forall i | 0 <= i < |evs[1..]| ensures !(Touches(w, evs[1..][i], k) && evs[1..][i].recipient != "") {
        assert evs[1..][i] == evs[i + 1];
      }
      KeptOwner(book, w, evs[1..], k, a);
    }
  }

  /** Applying a prefix first and then the whole gives the owner that the whole gives. */
  lemma {:induction false} OwnerReplay(book: seq<AddressRow>, w: WalletId, evs: seq<Event>, n: nat, k: DepositKey, a: AccountId)
    requires n <= |evs|
    ensures OwnerAfter(book, w, evs, k, OwnerAfter(book, w, evs[..n], k, a)) == OwnerAfter(book, w, evs, k, a)
    decreases |evs|
  {
    if Fixes(w, evs, k) {
      FixedOwner(book, w, evs, k, OwnerAfter(book, w, evs[..n], k, a), a);
    } else if n > 0 {
      forall i | 0 <= i < n ensures !(Touches(w, evs[..n][i], k) && evs[..n][i].recipient != "") {
        assert evs[..n][i] == evs[i];
      }
      assert evs[..n][1..] == evs[1..][..n - 1];
      if a != "" {
        KeptOwner(book, w, evs[..n], k, a);
      } else {
        var a1 := OwnerStep(book, w, evs[0], k, a);
        OwnerReplay(book, w, evs[1..], n - 1, k, a1);
        var b := OwnerAfter(book, w, evs[1..][..n - 1], k, a1);
        if b != "" {
          KeptOwner(book, w, evs, k, b);
          forall i | 0 <= i < |evs[1..]| ensures !(Touches(w, evs[1..][i], k) && evs[1..][i].recipient != "") {
            assert evs[1..][i] == evs[i + 1];
          }
          KeptOwner(book, w, evs[1..], k, b);
        }
      }
    }
  }

  // ---------------------------------------------------------------- when a run is refused

  /** What the events of a run read and never change. */
  datatype Setting = Setting(book: seq<AddressRow>, accounts: set<AccountId>, withdrawals: map<string, Withdrawal>)

  function SettingOf(db: DB): Setting { Setting(db.addresses, db.accounts, db.withdrawals) }

  /** An event that fails whatever the tables hold: its payload, its fields, or the mapping it looks up. */
  predicate BadEvent(book: seq<AddressRow>, w: WalletId, ev: Event) {
    || ev.Malformed?
    || (ev.DepositEvent? && (!WellFormed(RequestOf(w, ev)) || LookedUpOwner(book, RequestOf(w, ev)).Err?))
  }

  /** The rows alone after some events, no balance looked at. */
  function RowsAfter(book: seq<AddressRow>, w: WalletId, rows: map<DepositKey, Deposit>, evs: seq<Event>): map<DepositKey, Deposit>
    decreases |evs|
  {
    if evs == [] then rows else RowsAfter(book, w, RowsStep(book, w, rows, evs[0]), evs[1..])
  }

  function RowsStep(book: seq<AddressRow>, w: WalletId, rows: map<DepositKey, Deposit>, ev: Event): map<DepositKey, Deposit> {
    if !ev.DepositEvent? || BadEvent(book, w, ev) then rows else
    var r := RequestOf(w, ev);
    rows[r.key := RowFor(r, Owner(r, Looked(book, w, ev), AccountOf(Find(rows, r.key))))]
  }

  ghost predicate EventRefused(at: Setting, w: WalletId, rows: map<DepositKey, Deposit>, ev: Event) {
    || BadEvent(at.book, w, ev)
    || (ev.DepositEvent? &&
         (|| DebitRefused(rows, at.withdrawals, RequestOf(w, ev), Looked(at.book, w, ev))
          || CreditRefused(at.accounts, rows, at.withdrawals, RequestOf(w, ev), Looked(at.book, w, ev))))
  }

  /** Some event is refused on the rows that the events before it leave. */
  ghost predicate SomeRefused(at: Setting, w: WalletId, rows: map<DepositKey, Deposit>, evs: seq<Event>) {
    exists i :: 0 <= i < |evs| && EventRefused(at, w, RowsAfter(at.book, w, rows, evs[..i]), evs[i])
  }

  lemma SomeRefusedFirst(at: Setting, w: WalletId, rows: map<DepositKey, Deposit>, evs: seq<Event>)
    requires evs != []
    ensures SomeRefused(at, w, rows, evs) <==>
      EventRefused(at, w, rows, evs[0]) || SomeRefused(at, w, RowsStep(at.book, w, rows, evs[0]), evs[1..])
  {
    var rest, next := evs[1..], RowsStep(at.book, w, rows, evs[0]);
    assert evs[..0] == [];
    forall i | 0 < i < |evs|
      ensures RowsAfter(at.book, w, rows, evs[..i]) == RowsAfter(at.book, w, next, rest[..i - 1]) && evs[i] == rest[i - 1]
    {
      assert evs[..i][1..] == rest[..i - 1];
    }
    if i :| 0 <= i < |rest| && EventRefused(at, w, RowsAfter(at.book, w, next, rest[..i]), rest[i]) {
      assert evs[i + 1] == rest[i] && rest[..i + 1 - 1] == rest[..i];
    }
  }

  lemma StepRefusedIff(p: Progress, w: WalletId, ev: Event)
    requires LedgerInv(p.db) && p.failed.None?
    ensures Step(p, w, ev).failed.Some? <==> EventRefused(SettingOf(p.db), w, p.db.deposits, ev)
    ensures Step(p, w, ev).failed.None? ==>
      var db' := Step(p, w, ev).db;
      && LedgerInv(db') && SettingOf(db') == SettingOf(p.db)
      && db'.deposits == RowsStep(p.db.addresses, w, p.db.deposits, ev)
  {
    if ev.DepositEvent? && !BadEvent(p.db.addresses, w, ev) {
      var r := RequestOf(w, ev);
      ApplyRefusedIff(p.db, r, Looked(p.db.addresses, w, ev));
      if ApplyDeposit(p.db, r).Ok? {
        ApplyDepositKeepsLedger(p.db, r);
      }
    }
  }

  /** A run fails exactly when some event is bad, or takes back more than the account kept, or credits an
      account that does not exist or beyond int64, on the rows that the events before it leave. */
  lemma {:induction false} FeedRefusedIff(p: Progress, w: WalletId, evs: seq<Event>)
    requires LedgerInv(p.db) && p.failed.None?
    ensures Feed(p, w, evs).failed.Some? <==> SomeRefused(SettingOf(p.db), w, p.db.deposits, evs)
    ensures Feed(p, w, evs).failed.None? ==>
      Feed(p, w, evs).db.deposits == RowsAfter(p.db.addresses, w, p.db.deposits, evs)
    decreases |evs|
  {
    if evs != [] {
      var q := Step(p, w, evs[0]);
      StepRefusedIff(p, w, evs[0]);
      SomeRefusedFirst(SettingOf(p.db), w, p.db.deposits, evs);
      if q.failed.None? {
        FeedRefusedIff(q, w, evs[1..]);
      } else {
        assert Feed(q, w, evs[1..]) == q;
      }
    }
  }

  /** A run applies the first n events and stops before saving; the next run starts from the same
      cursor and applies them all. When one uninterrupted run is not refused, the replay succeeds exactly
      when no event is refused on the rows the stopped run left, and then rows and balances are those of
      the uninterrupted run. */
  lemma ReplayAfterFailure(db: DB, w: WalletId, evs: seq<Event>, n: nat)
    requires LedgerInv(db) && n <= |evs| && !SomeRefused(SettingOf(db), w, db.deposits, evs)
    ensures Feed(Begin(db), w, evs).failed.None? && Feed(Begin(db), w, evs[..n]).failed.None?
    ensures var again := Feed(Begin(Feed(Begin(db), w, evs[..n]).db), w, evs);
      && (again.failed.None? <==> !SomeRefused(SettingOf(db), w, RowsAfter(db.addresses, w, db.deposits, evs[..n]), evs))
      && (again.failed.None? ==> again.db == Feed(Begin(db), w, evs).db)
  {
    FeedRefusedIff(Begin(db), w, evs);
    FeedStops(Begin(db), w, evs, n);
    var part := Feed(Begin(db), w, evs[..n]).db;
    FeedKeepsLedger(Begin(db), w, evs[..n]);
    FeedRefusedIff(Begin(db), w, evs[..n]);
    FeedRefusedIff(Begin(part), w, evs);
    if Feed(Begin(part), w, evs).failed.None? {
      ReplayedTables(db, w, evs, n);
    }
  }

  /** A replay that is refused although one run is not, is refused for a credit, or for taking back a
      deposit from an account that has withdrawn: accounts without withdrawals never have a debit refused. */
  lemma RefusedReplay(db: DB, w: WalletId, evs: seq<Event>, n: nat)
    requires LedgerInv(db) && n <= |evs| && !SomeRefused(SettingOf(db), w, db.deposits, evs)
    requires Feed(Begin(Feed(Begin(db), w, evs[..n]).db), w, evs).failed.Some?
    ensures var left := RowsAfter(db.addresses, w, db.deposits, evs[..n]);
      exists i ::
        (0 <= i < |evs| && RefusedCreditOrSpent(SettingOf(db), w, RowsAfter(db.addresses, w, left, evs[..i]), evs[i]))
  {
    ReplayAfterFailure(db, w, evs, n);
    var at, rows := SettingOf(db), RowsAfter(db.addresses, w, db.deposits, evs[..n]);
    var i :| 0 <= i < |evs| && EventRefused(at, w, RowsAfter(at.book, w, rows, evs[..i]), evs[i]);
    assert !EventRefused(at, w, RowsAfter(at.book, w, db.deposits, evs[..i]), evs[i]);
    var r, now := RequestOf(w, evs[i]), RowsAfter(at.book, w, rows, evs[..i]);
    if DebitRefused(now, at.withdrawals, r, Looked(at.book, w, evs[i])) {
      RefusedSpent(now, at.withdrawals, r, Looked(at.book, w, evs[i]));
    }
  }

  ghost predicate RefusedCreditOrSpent(at: Setting, w: WalletId, rows: map<DepositKey, Deposit>, ev: Event) {
    ev.DepositEvent? && WellFormed(RequestOf(w, ev)) &&
    var r, looked := RequestOf(w, ev), Looked(at.book, w, ev);
    || CreditRefused(at.accounts, rows, at.withdrawals, r, looked)
    || (DebitRefused(rows, at.withdrawals, r, looked) &&
         exists id :: id in at.withdrawals && at.withdrawals[id].account == rows[r.key].account)
  }

  lemma ReplayedTables(db: DB, w: WalletId, evs: seq<Event>, n: nat)
    requires LedgerInv(db) && n <= |evs|
    requires Feed(Begin(db), w, evs[..n]).failed.None?
    requires Feed(Begin(Feed(Begin(db), w, evs[..n]).db), w, evs).failed.None?
    requires Feed(Begin(db), w, evs).failed.None?
    ensures Feed(Begin(Feed(Begin(db), w, evs[..n]).db), w, evs).db == Feed(Begin(db), w, evs).db
  {
    var part := Feed(Begin(db), w, evs[..n]).db;
    var again := Feed(Begin(part), w, evs).db;
    var once := Feed(Begin(db), w, evs).db;
    FeedKeepsLedger(Begin(db), w, evs[..n]);
    FeedKeepsLedger(Begin(part), w, evs);
    FeedKeepsLedger(Begin(db), w, evs);
    forall k ensures Find(again.deposits, k) == Find(once.deposits, k) {
      FeedRow(Begin(db), w, evs[..n], k);
      FeedRow(Begin(part), w, evs, k);
      FeedRow(Begin(db), w, evs, k);
      if LastOf(w, evs, k).Some? {
        RowOwner(db, w, evs[..n], k);
        OwnerReplay(db.addresses, w, evs, n, k, AccountOf(Find(db.deposits, k)));
      } else {
        assert forall ev :: ev in evs[..n] ==> ev in evs;
      }
    }
    assert again.deposits == once.deposits by {
      assert forall k :: k in again.deposits <==> Find(again.deposits, k).Some?;
      assert forall k :: k in once.deposits <==> Find(once.deposits, k).Some?;
    }
    BalancesDetermined(again, once);
  }

  lemma {:induction false} OwnerUntouched(book: seq<AddressRow>, w: WalletId, evs: seq<Event>, k: DepositKey, a: AccountId)
    requires LastOf(w, evs, k).None?
    ensures OwnerAfter(book, w, evs, k, a) == a
    decreases |evs|
  {
    if evs != [] {
      assert evs[0] in evs;
      OwnerUntouched(book, w, evs[1..], k, a);
    }
  }

  lemma RowOwner(db: DB, w: WalletId, evs: seq<Event>, k: DepositKey)
    requires Feed(Begin(db), w, evs).failed.None?
    ensures AccountOf(Find(Feed(Begin(db), w, evs).db.deposits, k))
         == OwnerAfter(db.addresses, w, evs, k, AccountOf(Find(db.deposits, k)))
  {
    FeedRow(Begin(db), w, evs, k);
    if LastOf(w, evs, k).None? {
      OwnerUntouched(db.addresses, w, evs, k, AccountOf(Find(db.deposits, k)));
    }
  }
}
