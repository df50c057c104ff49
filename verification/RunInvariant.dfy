/** What every action of Protocol keeps about the runs, the rows and who wrote them last. */
module RunInvariant {
  import opened Results
  import opened Ints
  import opened Ledger
  import opened AddressBook
  import opened Sync
  import opened Replay
  import opened Protocol

  // ---------------------------------------------------------------- the invariant of the runs

  /** The row holds every field of the event except, possibly, the owner. */
  ghost predicate Holds(row: Deposit, w: WalletId, ev: Event) {
    Says(row, ev) && w != "" && ev.txid != "" && ev.amount > 0 && ev.height >= 0
  }

  /** A run that has not passed position j, and is in flight before it or was stopped before it. */
  predicate Behind(run: Run, j: nat) {
    run.pos <= j && !run.phase.Saving? && !run.phase.Done?
  }

  predicate RunOk(s: Sys, run: Run) {
    && run.wallet != ""
    && run.pos <= Reached(s, run.wallet) <= |Log(s, run.wallet)|
    && (run.phase.Applying? ==> run.pos < run.phase.pageEnd <= |Log(s, run.wallet)|)
    && (run.phase.Committing? ==> run.pos < run.phase.pageEnd <= |Log(s, run.wallet)|)
  }

  /** Some run of the wallet stands at the furthest position. */
  ghost predicate FrontRun(s: Sys, w: WalletId) {
    exists r :: r in s.runs && s.runs[r].wallet == w && s.runs[r].pos == Reached(s, w)
  }

  ghost predicate RunsInv(s: Sys) {
    && (forall r :: r in s.runs ==> RunOk(s, s.runs[r]))
    && (forall w :: w in s.db.cursors ==> s.db.cursors[w] <= Reached(s, w))
    && (forall w :: Reached(s, w) <= |Log(s, w)|)
    && (forall w :: Reached(s, w) > 0 ==> FrontRun(s, w))
  }

  ghost predicate StartsInv(s: Sys) {
    forall r :: r in s.runs ==> r in s.h.started && s.h.started[r] <= s.runs[r].pos
  }

  /** Every event before the furthest position has been handled at least once. */
  ghost predicate HandledInv(s: Sys) {
    forall w, i :: 0 <= i < Reached(s, w) ==> (w, i) in s.h.handled
  }

  /** Each row holds the event recorded as its last writer. */
  ghost predicate RowsInv(s: Sys) {
    && s.db.deposits.Keys == s.h.written.Keys
    && forall k :: k in s.h.written ==>
         var log := Log(s, k.wallet);
         s.h.written[k] < Reached(s, k.wallet) && s.h.written[k] < |log|
         && Touches(k.wallet, log[s.h.written[k]], k)
         && Holds(s.db.deposits[k], k.wallet, log[s.h.written[k]])
  }

  predicate Seen(s: Sys, w: WalletId, j: nat) {
    j < |Log(s, w)| && Log(s, w)[j].DepositEvent? ==> RequestOf(w, Log(s, w)[j]).key in s.h.written
  }

  /** Every deposit event before the furthest position has its row. */
  ghost predicate SeenInv(s: Sys) {
    forall w, j :: 0 <= j < Reached(s, w) ==> Seen(s, w, j)
  }

  /** An event of row k that some run has passed and that is newer than the one that wrote the row last. */
  predicate Newer(s: Sys, k: DepositKey, j: nat)
    requires k in s.h.written
  {
    s.h.written[k] < j < Reached(s, k.wallet) && j < |Log(s, k.wallet)| && Touches(k.wallet, Log(s, k.wallet)[j], k)
  }

  /** The run that wrote row k last handled the event it wrote, and has not passed any newer one. */
  ghost predicate WriterOk(s: Sys, k: DepositKey) {
    && k in s.h.written && k in s.h.writer && s.h.writer[k] in s.runs && s.h.writer[k] in s.h.started
    && var r := s.h.writer[k];
      && s.runs[r].wallet == k.wallet
      && s.h.started[r] <= s.h.written[k] < s.runs[r].pos
      && forall j :: Newer(s, k, j) ==> Behind(s.runs[r], j)
  }

  ghost predicate WriterInv(s: Sys) {
    forall k :: k in s.h.written ==> WriterOk(s, k)
  }

  ghost predicate SyncInv(s: Sys) {
    RunsInv(s) && StartsInv(s) && HandledInv(s) && SeenInv(s) && RowsInv(s) && WriterInv(s)
  }

  // ---------------------------------------------------------------- its preservation, action by action

  /** What the rows and the handled events say does not depend on the runs or the cursors. */
  lemma SameHistory(s: Sys, s': Sys)
    requires RowsInv(s) && HandledInv(s) && SeenInv(s) && s'.logs == s.logs && s'.db.deposits == s.db.deposits
    requires s'.h.handled == s.h.handled && s'.h.reached == s.h.reached && s'.h.written == s.h.written
    ensures RowsInv(s') && HandledInv(s') && SeenInv(s')
  {
    assert forall x :: Log(s', x) == Log(s, x) && Reached(s', x) == Reached(s, x);
    assert forall x, j :: Seen(s, x, j) ==> Seen(s', x, j);
  }

  lemma SameRuns(s: Sys, s': Sys)
    requires RunsInv(s) && s'.logs == s.logs && s'.runs == s.runs && s'.db.cursors == s.db.cursors
    requires s'.h.reached == s.h.reached
    ensures RunsInv(s')
  {
    assert forall x :: Log(s', x) == Log(s, x) && Reached(s', x) == Reached(s, x);
    assert forall r :: r in s.runs ==> RunOk(s', s.runs[r]);
  }

  /** The run is where it was, and behind every event it was behind. */
  ghost predicate StillBehind(s: Sys, s': Sys, q: nat)
    requires q in s.runs
  {
    && q in s'.runs && s'.runs[q].wallet == s.runs[q].wallet && s'.runs[q].pos == s.runs[q].pos
    && (q in s.h.started ==> q in s'.h.started && s'.h.started[q] == s.h.started[q])
    && forall j: nat :: j < |Log(s, s.runs[q].wallet)| && Behind(s.runs[q], j) ==> Behind(s'.runs[q], j)
  }

  lemma SameWriters(s: Sys, s': Sys)
    requires WriterInv(s) && s'.logs == s.logs && s'.h.reached == s.h.reached
    requires s'.h.written == s.h.written && s'.h.writer == s.h.writer
    requires forall q :: q in s.runs ==> StillBehind(s, s', q)
    ensures WriterInv(s')
  {
    forall k | k in s'.h.written ensures WriterOk(s', k) {
      SameWriter(s, s', k);
    }
  }

  lemma SameWriter(s: Sys, s': Sys, k: DepositKey)
    requires WriterOk(s, k) && s'.logs == s.logs && s'.h.reached == s.h.reached
    requires s'.h.written == s.h.written && s'.h.writer == s.h.writer && StillBehind(s, s', s.h.writer[k])
    ensures WriterOk(s', k)
  {
    forall j | Newer(s', k, j) ensures Behind(s'.runs[s.h.writer[k]], j) {
      assert Newer(s, k, j);
    }
  }

  /** Actions that leave runs, logs, deposits, cursors and this part of the history alone. */
  lemma Untouched(s: Sys, s': Sys)
    requires SyncInv(s)
    requires s'.logs == s.logs && s'.runs == s.runs
    requires s'.db.deposits == s.db.deposits && s'.db.cursors == s.db.cursors
    requires s'.h.handled == s.h.handled && s'.h.reached == s.h.reached && s'.h.written == s.h.written
    requires s'.h.writer == s.h.writer && s'.h.started == s.h.started
    ensures SyncInv(s')
  {
    SameRuns(s, s');
    SameHistory(s, s');
    SameWriters(s, s');
  }

  lemma LogGrows(s: Sys, w: WalletId, ev: Event)
    requires SyncInv(s)
    ensures SyncInv(s.(logs := s.logs[w := Log(s, w) + [ev]]))
  {
    var s' := s.(logs := s.logs[w := Log(s, w) + [ev]]);
    assert forall x :: Reached(s', x) == Reached(s, x) <= |Log(s, x)|;
    assert forall x :: Log(s, x) <= Log(s', x);
    LogGrowsRuns(s, s');
    forall x, j | 0 <= j < Reached(s', x) ensures Seen(s', x, j) {
      assert Seen(s, x, j) && Log(s', x)[j] == Log(s, x)[j];
    }
    forall k | k in s'.h.written ensures WriterOk(s', k) {
      LogGrowsWriter(s, s', k);
    }
  }

  lemma LogGrowsRuns(s: Sys, s': Sys)
    requires RunsInv(s) && RowsInv(s) && s'.runs == s.runs && s'.h == s.h && s'.db == s.db
    requires forall x :: Log(s, x) <= Log(s', x)
    ensures RunsInv(s') && RowsInv(s')
  {
    assert forall x :: Reached(s', x) == Reached(s, x) && |Log(s, x)| <= |Log(s', x)|;
    assert forall r :: r in s.runs ==> RunOk(s', s.runs[r]);
    assert forall x :: FrontRun(s, x) ==> FrontRun(s', x);
  }

  lemma LogGrowsWriter(s: Sys, s': Sys, k: DepositKey)
    requires WriterOk(s, k) && s'.runs == s.runs && s'.h == s.h
    requires Reached(s, k.wallet) <= |Log(s, k.wallet)| && Log(s, k.wallet) <= Log(s', k.wallet)
    ensures WriterOk(s', k)
  {
    forall j | Newer(s', k, j) ensures Behind(s.runs[s.h.writer[k]], j) {
      assert Newer(s, k, j);
    }
  }

  lemma StartKeeps(s: Sys, r: nat, w: WalletId)
    requires SyncInv(s) && r !in s.runs && w != ""
    ensures SyncInv(Started(s, r, w))
  {
    var s' := Started(s, r, w);
    StartRuns(s, s', r, w);
    SameHistory(s, s');
    SameWriters(s, s');
  }

  lemma StartRuns(s: Sys, s': Sys, r: nat, w: WalletId)
    requires RunsInv(s) && r !in s.runs && w != ""
    requires s'.logs == s.logs && s'.h.reached == s.h.reached
    requires s'.db.cursors == s.db.cursors[w := CursorOf(s.db.cursors, w)]
    requires s'.runs == s.runs[r := Run(w, CursorOf(s.db.cursors, w), Fetching)]
    ensures RunsInv(s')
  {
    assert forall x :: Log(s', x) == Log(s, x) && Reached(s', x) == Reached(s, x);
    StartedOk(s, w);
    forall q | q in s'.runs ensures RunOk(s', s'.runs[q]) {
      RunOkSame(s, s', s'.runs[q]);
    }
    FrontRuns(s, s');
  }

  lemma StartedOk(s: Sys, w: WalletId)
    requires RunsInv(s) && w != ""
    ensures RunOk(s, Run(w, CursorOf(s.db.cursors, w), Fetching))
  {
  }

  lemma RunOkSame(s: Sys, s': Sys, run: Run)
    requires s'.logs == s.logs && s'.h.reached == s.h.reached
    ensures RunOk(s', run) <==> RunOk(s, run)
  {
  }

  lemma FrontRuns(s: Sys, s': Sys)
    requires s'.h.reached == s.h.reached
    requires forall q :: q in s.runs ==> q in s'.runs && s'.runs[q].wallet == s.runs[q].wallet && s'.runs[q].pos == s.runs[q].pos
    ensures forall x :: FrontRun(s, x) ==> FrontRun(s', x)
  {
    forall x | FrontRun(s, x) ensures FrontRun(s', x) {
      var q :| q in s.runs && s.runs[q].wallet == x && s.runs[q].pos == Reached(s, x);
      assert q in s'.runs && s'.runs[q].pos == Reached(s', x);
    }
  }

  /** A run changes its phase and stays where it is. It may begin to save only at the end of the log. */
  lemma PhaseKeeps(s: Sys, r: nat, p: Phase)
    requires SyncInv(s) && r in s.runs
    requires RunOk(s, s.runs[r].(phase := p))
    requires p.Saving? && !s.runs[r].phase.Saving? ==> |Log(s, s.runs[r].wallet)| <= s.runs[r].pos
    requires p.Done? ==> s.runs[r].phase.Saving?
    ensures SyncInv(WithPhase(s, r, p))
  {
    var s' := WithPhase(s, r, p);
    PhaseRuns(s, r, p);
    SameHistory(s, s');
    SameWriters(s, s');
  }

  lemma PhaseRuns(s: Sys, r: nat, p: Phase)
    requires RunsInv(s) && r in s.runs && RunOk(s, s.runs[r].(phase := p))
    ensures RunsInv(WithPhase(s, r, p))
  {
    var s' := WithPhase(s, r, p);
    assert forall x :: Log(s', x) == Log(s, x) && Reached(s', x) == Reached(s, x);
    FrontRuns(s, s');
  }

  lemma SaveKeeps(s: Sys, r: nat)
    requires SyncInv(s) && r in s.runs
    ensures SyncInv(s.(db := s.db.(cursors := s.db.cursors[s.runs[r].wallet := s.runs[r].pos])))
  {
    var s' := s.(db := s.db.(cursors := s.db.cursors[s.runs[r].wallet := s.runs[r].pos]));
    SaveRuns(s, s', r);
    SameHistory(s, s');
    SameWriters(s, s');
  }

  lemma SaveRuns(s: Sys, s': Sys, r: nat)
    requires RunsInv(s) && r in s.runs && s'.logs == s.logs && s'.h == s.h && s'.runs == s.runs
    requires s'.db.cursors == s.db.cursors[s.runs[r].wallet := s.runs[r].pos]
    ensures RunsInv(s')
  {
    assert RunOk(s, s.runs[r]);
    assert forall x :: Log(s', x) == Log(s, x) && Reached(s', x) == Reached(s, x);
    assert forall q :: q in s.runs ==> RunOk(s', s.runs[q]);
    assert forall x :: FrontRun(s, x) ==> FrontRun(s', x);
  }

  /** Moving past an event keeps everything about the runs. */
  lemma AdvanceRuns(s: Sys, r: nat, pageEnd: nat)
    requires RunsInv(s) && r in s.runs && s.runs[r].pos < pageEnd <= |Log(s, s.runs[r].wallet)|
    ensures RunsInv(Advance(s, r, pageEnd))
  {
    var s' := Advance(s, r, pageEnd);
    var w := s.runs[r].wallet;
    assert RunOk(s, s.runs[r]);
    assert forall x :: Log(s', x) == Log(s, x) && Reached(s, x) <= Reached(s', x);
    assert forall x :: x != w ==> Reached(s', x) == Reached(s, x);
    forall q | q in s'.runs ensures RunOk(s', s'.runs[q]) {
      assert q != r ==> RunOk(s, s.runs[q]);
    }
    forall x | Reached(s', x) > 0 ensures FrontRun(s', x) {
      if Reached(s', x) != Reached(s, x) {
        assert s'.runs[r].pos == Reached(s', x);
      } else {
        var q :| q in s.runs && s.runs[q].wallet == x && s.runs[q].pos == Reached(s, x);
        assert q != r && q in s'.runs && s'.runs[q] == s.runs[q];
      }
    }
  }

  lemma AdvanceHandled(s: Sys, s': Sys, r: nat, pageEnd: nat)
    requires HandledInv(s) && StartsInv(s) && r in s.runs && RunOk(s, s.runs[r]) && s'.runs == Advance(s, r, pageEnd).runs
    requires s'.h.handled == Advance(s, r, pageEnd).h.handled && s'.h.reached == Advance(s, r, pageEnd).h.reached
    requires s'.h.started == s.h.started
    ensures HandledInv(s') && StartsInv(s')
  {
    forall x, i | 0 <= i < Reached(s', x) ensures (x, i) in s'.h.handled {
      if i < Reached(s, x) {
        assert (x, i) in s.h.handled;
      }
    }
  }

  /** Moving past an event of another row leaves the last writer of row k before all newer events of it. */
  lemma AdvanceWriter(s: Sys, s': Sys, r: nat, pageEnd: nat, k: DepositKey)
    requires WriterOk(s, k) && r in s.runs && RunOk(s, s.runs[r])
    requires s.runs[r].pos < pageEnd && !s.runs[r].phase.Saving? && !s.runs[r].phase.Done?
    requires Current(s, r).Some? && !Touches(s.runs[r].wallet, Current(s, r).value, k)
    requires s'.runs == Advance(s, r, pageEnd).runs && s'.logs == s.logs && s'.h.reached == Advance(s, r, pageEnd).h.reached
    requires s'.h.started == s.h.started && k in s'.h.written && k in s'.h.writer
    requires s'.h.written[k] == s.h.written[k] && s'.h.writer[k] == s.h.writer[k]
    ensures WriterOk(s', k)
  {
    var q := s.h.writer[k];
    forall j | Newer(s', k, j) ensures Behind(s'.runs[q], j) {
      assert k.wallet == s.runs[r].wallet ==> j != s.runs[r].pos;
      assert Newer(s, k, j);
      assert Behind(s.runs[q], j);
    }
  }

  lemma SkipKeeps(s: Sys, r: nat)
    requires SyncInv(s) && RunNext(s, Skip(r)).Some?
    ensures SyncInv(RunNext(s, Skip(r)).value)
  {
    var s' := RunNext(s, Skip(r)).value;
    var pageEnd := s.runs[r].phase.pageEnd;
    assert RunOk(s, s.runs[r]);
    AdvanceRuns(s, r, pageEnd);
    AdvanceHandled(s, s', r, pageEnd);
    AdvanceSeen(s, s', r, pageEnd);
    SkipRows(s, s', r, pageEnd);
    forall k | k in s'.h.written ensures WriterOk(s', k) {
      AdvanceWriter(s, s', r, pageEnd, k);
    }
  }

  lemma SkipRows(s: Sys, s': Sys, r: nat, pageEnd: nat)
    requires RowsInv(s) && r in s.runs && s' == Advance(s, r, pageEnd)
    ensures RowsInv(s')
  {
    assert forall x :: Log(s', x) == Log(s, x) && Reached(s, x) <= Reached(s', x);
  }

  /** A run moves past an event whose row, if it has one, is written. */
  lemma AdvanceSeen(s: Sys, s': Sys, r: nat, pageEnd: nat)
    requires SeenInv(s) && r in s.runs && RunOk(s, s.runs[r]) && s'.logs == s.logs
    requires s'.h.reached == Advance(s, r, pageEnd).h.reached && s.h.written.Keys <= s'.h.written.Keys
    requires Seen(s', s.runs[r].wallet, s.runs[r].pos)
    ensures SeenInv(s')
  {
    forall x, j | 0 <= j < Reached(s', x) ensures Seen(s', x, j) {
      if j < Reached(s, x) {
        assert Seen(s, x, j);
      } else {
        assert x == s.runs[r].wallet && j == s.runs[r].pos;
      }
    }
  }

  /** The event committed is now its row's last writer's; the writer itself is behind any newer event. */
  lemma CommitKeeps(s: Sys, r: nat)
    requires SyncInv(s) && RunNext(s, Commit(r)).Some?
    ensures SyncInv(RunNext(s, Commit(r)).value)
  {
    var s' := RunNext(s, Commit(r)).value;
    var pageEnd := s.runs[r].phase.pageEnd;
    assert RunOk(s, s.runs[r]);
    CommitFrame(s, r);
    AdvanceRuns(s, r, pageEnd);
    AdvanceHandled(s, s', r, pageEnd);
    SameRuns(Advance(s, r, pageEnd), s');
    AdvanceSeen(s, s', r, pageEnd);
    CommitRow(s, r);
    CommitWriters(s, s', r, pageEnd);
  }

  /** What a commit does outside the deposits and balances. */
  lemma CommitFrame(s: Sys, r: nat)
    requires RunNext(s, Commit(r)).Some?
    ensures var s', past := RunNext(s, Commit(r)).value, Advance(s, r, s.runs[r].phase.pageEnd);
      && s'.runs == past.runs && s'.logs == s.logs && s'.db.cursors == s.db.cursors && s'.h.started == s.h.started
      && s'.h.handled == past.h.handled && s'.h.reached == past.h.reached
      && s'.h.written == s.h.written[RequestOf(s.runs[r].wallet, Current(s, r).value).key := s.runs[r].pos]
      && s'.h.writer == s.h.writer[RequestOf(s.runs[r].wallet, Current(s, r).value).key := r]
  {
  }

  lemma CommitWriters(s: Sys, s': Sys, r: nat, pageEnd: nat)
    requires WriterInv(s) && StartsInv(s) && r in s.runs && RunOk(s, s.runs[r])
    requires s.runs[r].phase.Committing? && s.runs[r].phase.pageEnd == pageEnd
    requires s.runs[r].pos < pageEnd && Current(s, r).Some? && Current(s, r).value.DepositEvent?
    requires s'.runs == Advance(s, r, pageEnd).runs && s'.logs == s.logs && s'.h.reached == Advance(s, r, pageEnd).h.reached
    requires s'.h.started == s.h.started
    requires s'.h.written == s.h.written[RequestOf(s.runs[r].wallet, Current(s, r).value).key := s.runs[r].pos]
    requires s'.h.writer == s.h.writer[RequestOf(s.runs[r].wallet, Current(s, r).value).key := r]
    ensures WriterInv(s')
  {
    forall k | k in s'.h.written ensures WriterOk(s', k) {
      if k != RequestOf(s.runs[r].wallet, Current(s, r).value).key {
        AdvanceWriter(s, s', r, pageEnd, k);
      }
    }
  }

  lemma CommitRow(s: Sys, r: nat)
    requires RowsInv(s) && RunNext(s, Commit(r)).Some?
    ensures RowsInv(RunNext(s, Commit(r)).value)
  {
    var s' := RunNext(s, Commit(r)).value;
    var w, pos := s.runs[r].wallet, s.runs[r].pos;
    var req := RequestOf(w, Log(s, w)[pos]);
    assert forall x :: Log(s', x) == Log(s, x) && Reached(s, x) <= Reached(s', x);
    assert s'.h.written == s.h.written[req.key := pos];
    assert s'.db.deposits.Keys == s.db.deposits.Keys + {req.key};
    assert Holds(s'.db.deposits[req.key], w, Log(s, w)[pos]);
    assert Touches(w, Log(s, w)[pos], req.key);
  }

  lemma SyncStep(keys: Keys, s: Sys, act: Action)
    requires SyncInv(s) && Next(keys, s, act).Some?
    ensures SyncInv(Next(keys, s, act).value)
  {
    var s' := Next(keys, s, act).value;
    if act.Append? {
      LogGrows(s, act.w, act.ev);
    } else if act.Start? {
      StartKeeps(s, act.r, act.w);
    } else if RunNext(s, act).Some? {
      assert RunOk(s, s.runs[act.r]);
      if act.Skip? {
        SkipKeeps(s, act.r);
      } else if act.Commit? {
        CommitKeeps(s, act.r);
      } else if act.Save? {
        PhaseKeeps(s, act.r, Done);
        SaveKeeps(WithPhase(s, act.r, Done), act.r);
      } else {
        PhaseKeeps(s, act.r, s'.runs[act.r].phase);
      }
    } else {
      TableStepFrame(keys, s, act);
      Untouched(s, s');
    }
  }

  lemma TableStepFrame(keys: Keys, s: Sys, act: Action)
    requires TableNext(keys, s, act).Some?
    ensures var s' := TableNext(keys, s, act).value;
      && s'.logs == s.logs && s'.runs == s.runs
      && s'.db.deposits == s.db.deposits && s'.db.cursors == s.db.cursors
      && s'.h.handled == s.h.handled && s'.h.reached == s.h.reached && s'.h.written == s.h.written
      && s'.h.writer == s.h.writer && s'.h.started == s.h.started
      && (!act.Assign? ==> s'.db.addresses == s.db.addresses)
  {
  }

  lemma {:induction false} SyncReachable(keys: Keys, s: Sys, acts: seq<Action>)
    requires SyncInv(s) && Execute(keys, s, acts).Some?
    ensures SyncInv(Execute(keys, s, acts).value)
    decreases |acts|
  {
    if acts != [] {
      SyncStep(keys, s, acts[0]);
      SyncReachable(keys, Next(keys, s, acts[0]).value, acts[1..]);
    }
  }

  lemma InitialSync(s: Sys)
    requires Initial(s)
    ensures SyncInv(s)
  {
    assert forall w :: Reached(s, w) == 0;
  }

}
