/** One syncWallet run: it reads the saved cursor, applies the scanner's events page by page, and
    saves the cursor once, at the very end. */
module Sync {
  import opened Results
  import opened Ints
  import opened Ledger
  import opened Database

  /** The scanner's wallet events. A payload that does not parse is Malformed; kinds that the sync
      ignores are Other. */
  datatype Event =
    | DepositEvent(status: Status, txid: string, action: uint32, diversifier: uint32, recipient: string,
                   amount: uint64, height: int64, confirmedHeight: int64)
    | Malformed
    | Other

  datatype SyncError = InvalidPayload | StoreError(error: Error) | ScannerError

  function AmountI64(v: uint64): int64 {
    if v > MAX_I64 then MAX_I64 else v
  }

  function RequestOf(w: WalletId, ev: Event): DepositRequest
    requires ev.DepositEvent?
  {
    DepositRequest(DepositKey(w, ev.txid, ev.action), ev.diversifier, ev.recipient, AmountI64(ev.amount), ev.height,
      ev.status, if ev.status.Confirmed? then Some(ev.confirmedHeight) else None)
  }

  // ---------------------------------------------------------------- the fold over a log

  datatype Counters = Counters(events: int64, credits: int64, debits: int64)

  /** The tables after some events, the run's counters, and the error that stopped the run if any. */
  datatype Progress = Progress(db: DB, out: Counters, failed: Option<SyncError>)

  function Count(out: Counters, ev: Event, delta: int64): Counters
    requires ev.DepositEvent?
  {
    match ev.status
    case Detected => out
    case Confirmed => if delta > 0 then out.(credits := Add64(out.credits, delta)) else out
    case Unconfirmed => if MIN_I64 < delta < 0 then out.(debits := Add64(out.debits, 0 - delta)) else out
    case Orphaned => if MIN_I64 < delta < 0 then out.(debits := Add64(out.debits, 0 - delta)) else out
  }

  function Step(p: Progress, w: WalletId, ev: Event): Progress {
    var out := p.out.(events := Add64(p.out.events, 1));
    match ev
    case Other => p.(out := out)
    case Malformed => p.(out := out, failed := Some(InvalidPayload))
    case DepositEvent(_, _, _, _, _, _, _, _) =>
      var r := RequestOf(w, ev);
      match ApplyDeposit(p.db, r)
      case Err(e) => p.(out := out, failed := Some(StoreError(e)))
      case Ok(db) => Progress(db, Count(out, ev, ResultOf(p.db.deposits, db.deposits, r.key).delta), None)
  }

  /** Applies the events in order, stopping at the first failure. */
  function Feed(p: Progress, w: WalletId, evs: seq<Event>): Progress
    decreases |evs|
  {
    if evs == [] || p.failed.Some? then p else Feed(Step(p, w, evs[0]), w, evs[1..])
  }

  function Begin(db: DB): Progress { Progress(db, Counters(0, 0, 0), None) }

  /** The split of a log into pages and runs does not matter. */
  lemma {:induction false} FeedConcat(p: Progress, w: WalletId, a: seq<Event>, b: seq<Event>)
    ensures Feed(p, w, a + b) == Feed(Feed(p, w, a), w, b)
    decreases |a|
  {
    if a == [] {
      assert a + b == b;
    } else if p.failed.None? {
      assert (a + b)[1..] == a[1..] + b;
      FeedConcat(Step(p, w, a[0]), w, a[1..], b);
    }
  }

  /** The counters do not influence the tables. */
  lemma {:induction false} FeedIgnoresCounters(p: Progress, q: Progress, w: WalletId, evs: seq<Event>)
    requires p.db == q.db && p.failed == q.failed
    ensures Feed(p, w, evs).db == Feed(q, w, evs).db && Feed(p, w, evs).failed == Feed(q, w, evs).failed
    decreases |evs|
  {
    if evs != [] && p.failed.None? {
      FeedIgnoresCounters(Step(p, w, evs[0]), Step(q, w, evs[0]), w, evs[1..]);
    }
  }

  /** Events touch only deposits and balances, and keep the ledger conserved, also when a later one fails. */
  lemma {:induction false} FeedKeepsLedger(p: Progress, w: WalletId, evs: seq<Event>)
    requires LedgerInv(p.db)
    ensures var db' := Feed(p, w, evs).db;
      LedgerInv(db') && db' == p.db.(deposits := db'.deposits, balances := db'.balances)
    decreases |evs|
  {
    if evs != [] && p.failed.None? {
      var q := Step(p, w, evs[0]);
      if evs[0].DepositEvent? && ApplyDeposit(p.db, RequestOf(w, evs[0])).Ok? {
        ApplyDepositKeepsLedger(p.db, RequestOf(w, evs[0]));
      }
      FeedKeepsLedger(q, w, evs[1..]);
    }
  }

  // ---------------------------------------------------------------- what an event writes, field by field

  /** The row says what the event says: amounts are cut at the largest int64, and only a confirmation has a
      confirmed height. */
  ghost predicate Says(row: Deposit, ev: Event) {
    && ev.DepositEvent?
    && row.diversifier == ev.diversifier && row.height == ev.height && row.status == ev.status
    && row.amount == (if ev.amount > 0x7FFF_FFFF_FFFF_FFFF then 0x7FFF_FFFF_FFFF_FFFF else ev.amount)
    && row.confirmedHeight == (if ev.status == Confirmed then Some(ev.confirmedHeight) else None)
  }

  /** A deposit event that succeeds changes the deposits only at its wallet, txid and action index, and the row
      there says what it says. */
  lemma EventFields(p: Progress, w: WalletId, ev: Event)
    requires ev.DepositEvent? && Step(p, w, ev).failed.None?
    ensures var key, db' := DepositKey(w, ev.txid, ev.action), Step(p, w, ev).db;
      && db' == p.db.(deposits := db'.deposits, balances := db'.balances)
      && db'.deposits.Keys == p.db.deposits.Keys + {key}
      && (forall k :: k in p.db.deposits && k != key ==> db'.deposits[k] == p.db.deposits[k])
      && Says(db'.deposits[key], ev)
  {
    DepositFields(p.db, RequestOf(w, ev));
  }

  /** Events of different outputs write different rows: the second leaves the first one's row as it was. */
  lemma EventsApart(p: Progress, w: WalletId, one: Event, two: Event)
    requires one.DepositEvent? && two.DepositEvent? && (one.txid != two.txid || one.action != two.action)
    requires Step(p, w, one).failed.None? && Step(Step(p, w, one), w, two).failed.None?
    ensures var rows := Step(Step(p, w, one), w, two).db.deposits;
      var k1, k2 := DepositKey(w, one.txid, one.action), DepositKey(w, two.txid, two.action);
      k1 in rows && k2 in rows && Says(rows[k1], one) && Says(rows[k2], two)
  {
    EventFields(p, w, one);
    EventFields(Step(p, w, one), w, two);
  }

  /** Every event counts; what a confirmation adds to balances counts as credits, what an unconfirmation or an
      orphaning takes from them as debits. */
  lemma EventCounters(p: Progress, w: WalletId, ev: Event)
    requires p.failed.None? && Step(p, w, ev).failed.None?
    ensures var q := Step(p, w, ev);
      && q.out.events == Add64(p.out.events, 1)
      && (!ev.DepositEvent? ==> q.db == p.db && q.out == p.out.(events := q.out.events))
      && (ev.DepositEvent? ==>
           var key := DepositKey(w, ev.txid, ev.action);
           var moved := Adds(q.db.deposits, key) - Adds(p.db.deposits, key);
           && q.out.credits == (if ev.status == Confirmed && moved > 0 then Add64(p.out.credits, moved) else p.out.credits)
           && q.out.debits == (if (ev.status == Unconfirmed || ev.status == Orphaned) && moved < 0
                               then Add64(p.out.debits, 0 - moved) else p.out.debits))
  {
    if ev.DepositEvent? {
      ReportFields(p.db, RequestOf(w, ev));
    }
  }

  /** A malformed event and a refused deposit stop the run and leave the tables; nothing else does. */
  lemma EventFailures(p: Progress, w: WalletId, ev: Event)
    requires p.failed.None?
    ensures Step(p, w, ev).failed.Some? ==> Step(p, w, ev).db == p.db && !ev.Other?
    ensures ev.Malformed? ==> Step(p, w, ev).failed == Some(InvalidPayload)
    ensures ev.DepositEvent? && (w == "" || ev.txid == "" || ev.amount == 0 || ev.height < 0) ==>
      Step(p, w, ev).failed == Some(StoreError(InvalidRequest))
  {
  }

  // ---------------------------------------------------------------- the run itself

  /** What the scanner answers during one run. The cursor only grows, so each fetch is at another
      cursor: pageEnd gives the cursor just past the page fetched there, and log is what was visible
      when the run saw its empty page. */
  datatype Scanner = Scanner(log: seq<Event>, pageEnd: nat -> nat, down: nat -> bool)
  {
    ghost predicate Pages() {
      forall c :: 0 <= c < |log| ==> c < pageEnd(c) <= |log| && pageEnd(c) <= c + 200
    }

    function List(cursor: nat): Option<(seq<Event>, nat)>
      requires Pages()
    {
      if down(cursor) then None
      else if cursor < |log| then Some((log[cursor..pageEnd(cursor)], pageEnd(cursor)))
      else Some(([], cursor))
    }
  }

  function CursorOf(cursors: map<WalletId, nat>, w: WalletId): nat {
    if w in cursors then cursors[w] else 0
  }

  datatype SyncResult = SyncResult(cursor: nat, out: Counters)

  /** The body of the loop over a page's events. */
  method ApplyEvent(st: Store, w: WalletId, ev: Event, out: Counters) returns (out': Counters, failed: Option<SyncError>)
    requires st.Valid()
    modifies st`deposits, st`balances
    ensures st.Valid()
    ensures Progress(st.State(), out', failed) == Step(Progress(old(st.State()), out, None), w, ev)
  {
    out' := out.(events := Add64(out.events, 1));
    failed := None;
    match ev {
      case DepositEvent(_, _, _, _, _, _, _, _) =>
        var applied := st.ApplyDeposit(RequestOf(w, ev));
        if applied.Err? {
          failed := Some(StoreError(applied.error));
        } else {
          out' := Count(out', ev, applied.value.delta);
        }
      case Malformed =>
        failed := Some(InvalidPayload);
      case Other =>
    }
  }

  /** The loop over a page's events; it stops at the first failure. */
  method ApplyPage(st: Store, w: WalletId, events: seq<Event>, out: Counters)
    returns (out': Counters, failed: Option<SyncError>)
    requires st.Valid()
    modifies st`deposits, st`balances
    ensures st.Valid()
    ensures Progress(st.State(), out', failed) == Feed(Progress(old(st.State()), out, None), w, events)
  {
    out', failed := out, None;
    ghost var p := Progress(st.State(), out, None);
    var i := 0;
    while i < |events|
      invariant 0 <= i <= |events|
      invariant st.Valid() && failed.None?
      invariant Feed(p, w, events[..i]) == Progress(st.State(), out', None)
    {
      FeedOne(p, w, events, i);
      FeedStops(p, w, events, i + 1);
      out', failed := ApplyEvent(st, w, events[i], out');
      if failed.Some? {
        return;
      }
      i := i + 1;
    }
    assert events[..i] == events;
  }

  /** The page loop, from the given cursor to the empty page. */
  method Drain(st: Store, sc: Scanner, w: WalletId, start: nat)
    returns (cursor: nat, out: Counters, failed: Option<SyncError>)
    requires st.Valid() && sc.Pages() && start <= |sc.log|
    modifies st`deposits, st`balances
    ensures st.Valid() && start <= cursor <= |sc.log|
    ensures failed.None? ==>
      cursor == |sc.log| && Feed(Begin(old(st.State())), w, sc.log[start..]) == Progress(st.State(), out, None)
    ensures failed.Some? ==> Feed(Begin(old(st.State())), w, sc.log[start..cursor]).db == st.State()
    ensures failed.Some? && (forall c :: !sc.down(c)) ==>
      Feed(Begin(old(st.State())), w, sc.log[start..]).failed == failed
  {
    cursor, out, failed := start, Counters(0, 0, 0), None;
    ghost var p := Begin(st.State());
    while true
      invariant start <= cursor <= |sc.log| && failed.None? && st.Valid()
      invariant Feed(p, w, sc.log[start..cursor]) == Progress(st.State(), out, None)
      decreases |sc.log| - cursor
    {
      var page := sc.List(cursor);
      if page.None? {
        failed := Some(ScannerError);
        return;
      }
      var (events, next) := page.value;
      if |events| == 0 {
        cursor := next;
        break;
      }
      FeedSlice(p, w, sc.log, start, cursor, next);
      out, failed := ApplyPage(st, w, events, out);
      cursor := next;
      if failed.Some? {
        FeedSlice(p, w, sc.log, start, cursor, |sc.log|);
        assert sc.log[start..|sc.log|] == sc.log[start..];
        return;
      }
    }
    assert sc.log[start..cursor] == sc.log[start..];
  }

  /** The tables once the run has read its cursor: a missing cursor row is created at 0. */
  function Opened(db: DB, w: WalletId): DB {
    db.(cursors := db.cursors[w := CursorOf(db.cursors, w)])
  }

  /** A run that succeeds has applied exactly the log from the saved cursor on, whatever the pages,
      and has saved the log's end; a run that fails has applied some prefix of it and saved nothing. */
  method SyncWallet(st: Store, sc: Scanner, w: WalletId) returns (res: Result<SyncResult, SyncError>)
    requires st.Valid() && sc.Pages() && w != ""
    requires w in st.cursors ==> st.cursors[w] <= |sc.log|
    modifies st`deposits, st`balances, st`cursors
    ensures st.Valid()
    ensures var from := if w in old(st.cursors) then old(st.cursors)[w] else 0;
      var p := Feed(Begin(old(st.State()).(cursors := old(st.cursors)[w := from])), w, sc.log[from..]);
      && (res.Ok? ==>
            && p.failed.None?
            && st.State() == p.db.(cursors := p.db.cursors[w := |sc.log|])
            && res.value == SyncResult(|sc.log|, p.out))
      && ((forall c :: !sc.down(c)) ==> (res.Err? <==> p.failed.Some?))
    ensures var from := if w in old(st.cursors) then old(st.cursors)[w] else 0;
      res.Err? ==>
      (exists n :: from <= n <= |sc.log| &&
         st.State() == Feed(Begin(old(st.State()).(cursors := old(st.cursors)[w := from])), w, sc.log[from..n]).db)
  {
    var got := st.GetScanCursor(w);
    var start := got.value;
    assert st.State() == Opened(old(st.State()), w);
    var cursor, out, failed := Drain(st, sc, w, start);
    if failed.Some? {
      return Err(failed.value);
    }
    var _ := st.SetScanCursor(w, cursor);
    return Ok(SyncResult(cursor, out));
  }

  lemma FeedSlice(p: Progress, w: WalletId, log: seq<Event>, a: nat, b: nat, c: nat)
    requires a <= b <= c <= |log|
    ensures Feed(p, w, log[a..c]) == Feed(Feed(p, w, log[a..b]), w, log[b..c])
  {
    assert log[a..c] == log[a..b] + log[b..c];
    FeedConcat(p, w, log[a..b], log[b..c]);
  }

  lemma FeedOne(p: Progress, w: WalletId, evs: seq<Event>, n: nat)
    requires n < |evs|
    ensures Feed(p, w, evs[..n + 1]) == if Feed(p, w, evs[..n]).failed.Some? then Feed(p, w, evs[..n])
                                        else Step(Feed(p, w, evs[..n]), w, evs[n])
  {
    assert evs[..n + 1] == evs[..n] + [evs[n]];
    FeedConcat(p, w, evs[..n], [evs[n]]);
  }

  /** Once a prefix has failed the whole log fails. */
  lemma FeedStops(p: Progress, w: WalletId, evs: seq<Event>, n: nat)
    requires n <= |evs|
    ensures Feed(p, w, evs[..n]).failed.Some? ==> Feed(p, w, evs) == Feed(p, w, evs[..n])
  {
    assert evs == evs[..n] + evs[n..];
    FeedConcat(p, w, evs[..n], evs[n..]);
  }

  lemma StepSameDeposits(p: Progress, q: Progress, w: WalletId, ev: Event)
    requires q == p.(db := p.db.(cursors := q.db.cursors))
    ensures Step(q, w, ev) == Step(p, w, ev).(db := Step(p, w, ev).db.(cursors := q.db.cursors))
  {
  }

  /** The cursor table does not influence the outcome. */
  lemma {:induction false} FeedSameDeposits(p: Progress, q: Progress, w: WalletId, evs: seq<Event>)
    requires q == p.(db := p.db.(cursors := q.db.cursors))
    ensures Feed(q, w, evs) == Feed(p, w, evs).(db := Feed(p, w, evs).db.(cursors := q.db.cursors))
    decreases |evs|
  {
    if evs != [] && p.failed.None? {
      StepSameDeposits(p, q, w, evs[0]);
      FeedSameDeposits(Step(p, w, evs[0]), Step(q, w, evs[0]), w, evs[1..]);
    }
  }

  // ---------------------------------------------------------------- many runs, one after another

  /** The table after runs that each see the log up to the next stop. */
  function SyncRuns(db: DB, w: WalletId, log: seq<Event>, stops: seq<nat>): Progress
    requires forall i :: 0 <= i < |stops| ==> stops[i] <= |log|
    decreases |stops|
  {
    if stops == [] then Begin(db) else
    var from := CursorOf(db.cursors, w);
    var p := Feed(Begin(db), w, if from <= stops[0] then log[from..stops[0]] else []);
    if p.failed.Some? then p
    else SyncRuns(p.db.(cursors := p.db.cursors[w := if from <= stops[0] then stops[0] else from]), w, log, stops[1..])
  }

  /** Any number of error-free runs, seeing any prefixes, leaves the rows and balances that one pass
      over the prefix up to the saved cursor gives. */
  lemma {:induction false} SyncRunsAreOnePass(db: DB, w: WalletId, log: seq<Event>, stops: seq<nat>)
    requires forall i :: 0 <= i < |stops| ==> stops[i] <= |log|
    requires CursorOf(db.cursors, w) <= |log|
    requires SyncRuns(db, w, log, stops).failed.None?
    ensures CursorOf(db.cursors, w) <= CursorOf(SyncRuns(db, w, log, stops).db.cursors, w) <= |log|
    ensures var db' := SyncRuns(db, w, log, stops).db;
      var once := Feed(Begin(db), w, log[CursorOf(db.cursors, w)..CursorOf(db'.cursors, w)]);
      && once.failed.None?
      && db' == once.db.(cursors := db'.cursors)
    decreases |stops|
  {
    if stops != [] {
      var from := CursorOf(db.cursors, w);
      var to := if from <= stops[0] then stops[0] else from;
      var p := Feed(Begin(db), w, if from <= stops[0] then log[from..stops[0]] else []);
      assert p == Feed(Begin(db), w, log[from..to]);
      var mid := p.db.(cursors := p.db.cursors[w := to]);
      FeedKeepsTables(Begin(db), w, log[from..to]);
      SyncRunsAreOnePass(mid, w, log, stops[1..]);
      var db' := SyncRuns(db, w, log, stops).db;
      var end := CursorOf(db'.cursors, w);
      assert log[from..end] == log[from..to] + log[to..end];
      FeedConcat(Begin(db), w, log[from..to], log[to..end]);
      FeedSameDeposits(Begin(p.db), Begin(mid), w, log[to..end]);
      FeedIgnoresCounters(p, Begin(p.db), w, log[to..end]);
      FeedKeepsTables(Begin(mid), w, log[to..end]);
    }
  }

  lemma {:induction false} FeedKeepsTables(p: Progress, w: WalletId, evs: seq<Event>)
    ensures Feed(p, w, evs).db == p.db.(deposits := Feed(p, w, evs).db.deposits, balances := Feed(p, w, evs).db.balances)
    decreases |evs|
  {
    if evs != [] && p.failed.None? {
      FeedKeepsTables(Step(p, w, evs[0]), w, evs[1..]);
    }
  }
}
