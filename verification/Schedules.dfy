/** Schedules built on purpose: whatever a stopped run's events could undo, some interleaving undoes for good. */
module Schedules {
  import opened Results
  import opened Ints
  import opened Ledger
  import opened AddressBook
  import opened Sync
  import opened Replay
  import opened Protocol
  import opened RunInvariant
  import opened Convergence

  lemma {:induction false} ExecuteConcat(keys: Keys, s: Sys, a: seq<Action>, b: seq<Action>)
    requires Execute(keys, s, a).Some?
    ensures Execute(keys, s, a + b) == Execute(keys, Execute(keys, s, a).value, b)
    decreases |a|
  {
    if a == [] {
      assert a + b == b;
    } else {
      assert (a + b)[1..] == a[1..] + b;
      ExecuteConcat(keys, Next(keys, s, a[0]).value, a[1..], b);
    }
  }

  lemma One(keys: Keys, s: Sys, a: Action)
    ensures Execute(keys, s, [a]) == Next(keys, s, a)
  {
    assert [a][1..] == [];
    var n := Next(keys, s, a);
    if n.Some? {
      assert Execute(keys, n.value, []) == n;
    }
  }

  lemma Two(keys: Keys, s: Sys, a: Action, b: Action)
    requires Next(keys, s, a).Some?
    ensures Execute(keys, s, [a, b]) == Next(keys, Next(keys, s, a).value, b)
  {
    assert [a, b] == [a] + [b];
    One(keys, s, a);
    One(keys, Next(keys, s, a).value, b);
    ExecuteConcat(keys, s, [a], [b]);
  }

  /** Besides the deposits and balances, only the run moved on. */
  ghost predicate AdvancedOnly(s: Sys, r: nat, s': Sys)
    requires r in s.runs && (s.runs[r].phase.Applying? || s.runs[r].phase.Committing?)
  {
    var past := Advance(s, r, s.runs[r].phase.pageEnd);
    s'.runs == past.runs && s'.logs == s.logs && s'.h.reached == past.h.reached && s'.h.started == s.h.started
  }

  /** The request of the deposit event that a run is at. */
  function RequestAt(s: Sys, r: nat): DepositRequest
    requires r in s.runs && Current(s, r).Some? && Current(s, r).value.DepositEvent?
  {
    RequestOf(s.runs[r].wallet, Current(s, r).value)
  }

  predicate AtDeposit(s: Sys, r: nat) {
    r in s.runs && Current(s, r).Some? && Current(s, r).value.DepositEvent?
  }

  /** A run that nobody interrupts between lookup and transaction applies its event as ApplyDeposit does. */
  lemma LookupThenCommit(keys: Keys, s: Sys, r: nat)
    requires AtDeposit(s, r) && s.runs[r].phase.Applying? && ApplyDeposit(s.db, RequestAt(s, r)).Ok?
    ensures var s' := Execute(keys, s, [Lookup(r), Commit(r)]);
      s'.Some? && s'.value.db == ApplyDeposit(s.db, RequestAt(s, r)).value && AdvancedOnly(s, r, s'.value)
  {
    LookupStep(s, r);
    var mid := RunNext(s, Lookup(r)).value;
    RunNextIsNext(keys, s, Lookup(r));
    CommitStep(mid, r);
    RunNextIsNext(keys, mid, Commit(r));
    Two(keys, s, Lookup(r), Commit(r));
    LookedUpOnly(s, r, mid, RunNext(mid, Commit(r)).value);
  }

  lemma RunNextIsNext(keys: Keys, s: Sys, act: Action)
    requires RunNext(s, act).Some?
    ensures Next(keys, s, act) == RunNext(s, act)
  {
  }

  lemma LookupStep(s: Sys, r: nat)
    requires AtDeposit(s, r) && s.runs[r].phase.Applying? && ApplyDeposit(s.db, RequestAt(s, r)).Ok?
    ensures RunNext(s, Lookup(r)).Some?
    ensures var mid := RunNext(s, Lookup(r)).value;
      && mid == s.(runs := mid.runs) && mid.runs == s.runs[r := s.runs[r].(phase := mid.runs[r].phase)]
      && mid.runs[r].phase.Committing? && mid.runs[r].phase.pageEnd == s.runs[r].phase.pageEnd
      && Current(mid, r) == Current(s, r) && WellFormed(RequestAt(s, r))
      && ApplyDeposit(s.db, RequestAt(s, r)) == ApplyTx(s.db, RequestAt(s, r), mid.runs[r].phase.looked)
  {
  }

  lemma CommitStep(s: Sys, r: nat)
    requires AtDeposit(s, r) && s.runs[r].phase.Committing? && WellFormed(RequestAt(s, r))
    requires ApplyTx(s.db, RequestAt(s, r), s.runs[r].phase.looked).Ok?
    ensures var s' := RunNext(s, Commit(r));
      s'.Some? && s'.value.db == ApplyTx(s.db, RequestAt(s, r), s.runs[r].phase.looked).value && AdvancedOnly(s, r, s'.value)
  {
  }

  lemma LookedUpOnly(s: Sys, r: nat, mid: Sys, s': Sys)
    requires r in s.runs && s.runs[r].phase.Applying? && r in mid.runs && mid.runs[r].phase.Committing?
    requires mid == s.(runs := mid.runs) && mid.runs == s.runs[r := s.runs[r].(phase := mid.runs[r].phase)]
    requires mid.runs[r].phase.pageEnd == s.runs[r].phase.pageEnd && AdvancedOnly(mid, r, s')
    ensures AdvancedOnly(s, r, s')
  {
    assert Reached(mid, s.runs[r].wallet) == Reached(s, s.runs[r].wallet);
    assert s'.runs == Advance(s, r, s.runs[r].phase.pageEnd).runs;
  }

  lemma Then(keys: Keys, s: Sys, acts: seq<Action>, mid: Sys, more: seq<Action>, s': Sys)
    requires Execute(keys, s, acts) == Some(mid) && Execute(keys, mid, more) == Some(s')
    ensures Execute(keys, s, acts + more) == Some(s')
  {
    ExecuteConcat(keys, s, acts, more);
  }

  // ---------------------------------------------------------------- one run alone

  /** The run is in flight, at the start of a page or inside one. */
  predicate Moving(s: Sys, r: nat) {
    && r in s.runs && s.runs[r].wallet != ""
    && (s.runs[r].phase.Fetching?
        || (s.runs[r].phase.Applying? && s.runs[r].pos < s.runs[r].phase.pageEnd <= |Log(s, s.runs[r].wallet)|))
  }

  /** The tables without the cursors, which no event looks at. */
  function Plain(db: DB): DB { db.(cursors := map[]) }

  lemma StepPlain(db: DB, w: WalletId, ev: Event)
    ensures Plain(Step(Begin(db), w, ev).db) == Step(Begin(Plain(db)), w, ev).db
    ensures Step(Begin(db), w, ev).failed == Step(Begin(Plain(db)), w, ev).failed
  {
    StepSameDeposits(Begin(db), Begin(Plain(db)), w, ev);
  }

  /** Feeding one event and then the others, from a fresh count. */
  lemma FeedNext(db: DB, w: WalletId, log: seq<Event>, at: nat, to: nat)
    requires at < to <= |log| && Feed(Begin(db), w, log[at..to]).failed.None?
    ensures Step(Begin(db), w, log[at]).failed.None?
    ensures Feed(Begin(Step(Begin(db), w, log[at]).db), w, log[at + 1..to]).failed.None?
    ensures Feed(Begin(Step(Begin(db), w, log[at]).db), w, log[at + 1..to]).db == Feed(Begin(db), w, log[at..to]).db
  {
    var p := Step(Begin(db), w, log[at]);
    assert log[at..to][1..] == log[at + 1..to];
    FeedIgnoresCounters(p, Begin(p.db), w, log[at + 1..to]);
  }

  /** The run handles the event it is at. */
  lemma OneMore(keys: Keys, s: Sys, r: nat) returns (acts: seq<Action>, s': Sys)
    requires Moving(s, r) && s.runs[r].phase.Applying?
    requires Step(Begin(Plain(s.db)), s.runs[r].wallet, Current(s, r).value).failed.None?
    ensures Execute(keys, s, acts) == Some(s') && AdvancedOnly(s, r, s') && s'.db.cursors == s.db.cursors
    ensures Plain(s'.db) == Step(Begin(Plain(s.db)), s.runs[r].wallet, Current(s, r).value).db
  {
    var ev := Current(s, r).value;
    StepPlain(s.db, s.runs[r].wallet, ev);
    if ev.Other? {
      acts := [Skip(r)];
      One(keys, s, Skip(r));
      RunNextIsNext(keys, s, Skip(r));
      s' := RunNext(s, Skip(r)).value;
    } else {
      acts := [Lookup(r), Commit(r)];
      LookupThenCommit(keys, s, r);
      s' := Execute(keys, s, acts).value;
    }
  }

  /** What a run that goes from where it stands to a later position changes outside the deposits and balances. */
  ghost predicate MovedTo(s: Sys, r: nat, to: nat, s': Sys)
    requires r in s.runs
  {
    var w := s.runs[r].wallet;
    && Moving(s', r) && s'.runs == s.runs[r := s'.runs[r]] && s'.runs[r].wallet == w && s'.runs[r].pos == to
    && s'.logs == s.logs && s'.h.started == s.h.started && s'.db.cursors == s.db.cursors
    && (forall x :: x != w ==> Reached(s', x) == Reached(s, x))
    && Reached(s', w) == (if Reached(s, w) < to then to else Reached(s, w))
  }

  /** The run fetches full pages and goes to a given position, if its events are not refused. */
  lemma {:induction false} RunThrough(keys: Keys, s: Sys, r: nat, to: nat) returns (acts: seq<Action>, s': Sys)
    requires Moving(s, r) && s.runs[r].pos <= to <= |Log(s, s.runs[r].wallet)| && s.runs[r].pos <= Reached(s, s.runs[r].wallet)
    requires Feed(Begin(Plain(s.db)), s.runs[r].wallet, Log(s, s.runs[r].wallet)[s.runs[r].pos..to]).failed.None?
    ensures Execute(keys, s, acts) == Some(s') && MovedTo(s, r, to, s')
    ensures Plain(s'.db) == Feed(Begin(Plain(s.db)), s.runs[r].wallet, Log(s, s.runs[r].wallet)[s.runs[r].pos..to]).db
    decreases 2 * (to - s.runs[r].pos) + (if s.runs[r].phase.Fetching? then 1 else 0)
  {
    var w, pos := s.runs[r].wallet, s.runs[r].pos;
    var log := Log(s, w);
    if pos == to {
      assert log[pos..to] == [];
      return [], s;
    }
    var first, mid, rest;
    if s.runs[r].phase.Fetching? {
      first, mid := FetchPage(keys, s, r);
      rest, s' := RunThrough(keys, mid, r, to);
    } else {
      FeedNext(Plain(s.db), w, log, pos, to);
      first, mid := OneMore(keys, s, r);
      StaysMoving(s, r, mid);
      rest, s' := RunThrough(keys, mid, r, to);
      MovedOn(s, r, mid, to, s');
    }
    acts := first + rest;
    Then(keys, s, first, mid, rest, s');
  }

  lemma StaysMoving(s: Sys, r: nat, s': Sys)
    requires Moving(s, r) && s.runs[r].phase.Applying? && AdvancedOnly(s, r, s') && s'.db.cursors == s.db.cursors
    requires s.runs[r].pos <= Reached(s, s.runs[r].wallet)
    ensures MovedTo(s, r, s.runs[r].pos + 1, s') && s'.runs[r].pos <= Reached(s', s.runs[r].wallet)
    ensures Log(s', s.runs[r].wallet) == Log(s, s.runs[r].wallet)
  {
  }

  lemma MovedOn(s: Sys, r: nat, mid: Sys, to: nat, s': Sys)
    requires r in s.runs && MovedTo(s, r, s.runs[r].pos + 1, mid) && MovedTo(mid, r, to, s') && s.runs[r].pos < to
    ensures MovedTo(s, r, to, s')
  {
  }

  lemma FetchPage(keys: Keys, s: Sys, r: nat) returns (acts: seq<Action>, s': Sys)
    requires Moving(s, r) && s.runs[r].phase.Fetching? && s.runs[r].pos < |Log(s, s.runs[r].wallet)|
    ensures Execute(keys, s, acts) == Some(s') && Moving(s', r) && s'.runs[r].phase.Applying?
    ensures s' == s.(runs := s.runs[r := s.runs[r].(phase := s'.runs[r].phase)])
  {
    var length := |Log(s, s.runs[r].wallet)|;
    var pageEnd := if s.runs[r].pos + 200 < length then s.runs[r].pos + 200 else length;
    acts := [Fetch(r, pageEnd)];
    One(keys, s, Fetch(r, pageEnd));
    RunNextIsNext(keys, s, Fetch(r, pageEnd));
    s' := WithPhase(s, r, Applying(pageEnd));
  }

  // ---------------------------------------------------------------- whole runs and appended events

  /** The scanner's log of the wallet grows by the events. */
  lemma {:induction false} AppendAll(keys: Keys, s: Sys, w: WalletId, evs: seq<Event>) returns (acts: seq<Action>, s': Sys)
    ensures Execute(keys, s, acts) == Some(s')
    ensures s' == s.(logs := s'.logs) && Log(s', w) == Log(s, w) + evs && forall x :: x != w ==> Log(s', x) == Log(s, x)
    decreases |evs|
  {
    if evs == [] {
      return [], s;
    }
    var mid := s.(logs := s.logs[w := Log(s, w) + [evs[0]]]);
    One(keys, s, Append(w, evs[0]));
    var rest;
    rest, s' := AppendAll(keys, mid, w, evs[1..]);
    acts := [Append(w, evs[0])] + rest;
    Then(keys, s, [Append(w, evs[0])], mid, rest, s');
    assert Log(s, w) + [evs[0]] + evs[1..] == Log(s, w) + evs;
  }

  lemma StartOne(keys: Keys, s: Sys, r: nat, w: WalletId) returns (acts: seq<Action>, s': Sys)
    requires r !in s.runs && w != ""
    ensures Execute(keys, s, acts) == Some(s') && s' == Started(s, r, w)
    ensures Moving(s', r) && Plain(s'.db) == Plain(s.db)
    ensures forall x :: Log(s', x) == Log(s, x) && Reached(s', x) == Reached(s, x)
    ensures CursorOf(s'.db.cursors, w) == CursorOf(s.db.cursors, w)
  {
    acts := [Start(r, w)];
    One(keys, s, Start(r, w));
    s' := Started(s, r, w);
  }

  /** At the end of the log the run sees an empty page, saves its cursor and is done. */
  lemma Finish(keys: Keys, s: Sys, r: nat) returns (acts: seq<Action>, s': Sys)
    requires Moving(s, r) && s.runs[r].pos == |Log(s, s.runs[r].wallet)|
    ensures Execute(keys, s, acts) == Some(s')
    ensures s' == s.(runs := s.runs[r := s.runs[r].(phase := Done)],
                     db := s.db.(cursors := s.db.cursors[s.runs[r].wallet := s.runs[r].pos]))
  {
    acts := [FetchEmpty(r), Save(r)];
    RunNextIsNext(keys, s, FetchEmpty(r));
    var mid := RunNext(s, FetchEmpty(r)).value;
    RunNextIsNext(keys, mid, Save(r));
    Two(keys, s, FetchEmpty(r), Save(r));
    s' := RunNext(mid, Save(r)).value;
    assert s'.runs == s.runs[r := s.runs[r].(phase := Done)];
  }

  /** What a complete run of a wallet changes outside the deposits and balances. */
  ghost predicate RanToEnd(s: Sys, r: nat, w: WalletId, s': Sys) {
    && s'.runs == s.runs[r := Run(w, |Log(s, w)|, Done)] && s'.logs == s.logs
    && s'.h.started == s.h.started[r := CursorOf(s.db.cursors, w)]
    && CursorOf(s'.db.cursors, w) == |Log(s, w)|
    && (forall x :: x != w ==> Reached(s', x) == Reached(s, x) && CursorOf(s'.db.cursors, x) == CursorOf(s.db.cursors, x))
    && Reached(s', w) == |Log(s, w)|
  }

  lemma FullRun(keys: Keys, s: Sys, r: nat, w: WalletId) returns (acts: seq<Action>, s': Sys)
    requires r !in s.runs && w != "" && CursorOf(s.db.cursors, w) <= Reached(s, w) <= |Log(s, w)|
    requires Feed(Begin(Plain(s.db)), w, Log(s, w)[CursorOf(s.db.cursors, w)..]).failed.None?
    ensures Execute(keys, s, acts) == Some(s') && RanToEnd(s, r, w, s')
    ensures Plain(s'.db) == Feed(Begin(Plain(s.db)), w, Log(s, w)[CursorOf(s.db.cursors, w)..]).db
  {
    var log, from := Log(s, w), CursorOf(s.db.cursors, w);
    assert log[from..|log|] == log[from..];
    var a, s1 := StartOne(keys, s, r, w);
    var b, s2 := RunThrough(keys, s1, r, |log|);
    assert Log(s2, w) == log;
    var c;
    c, s' := Finish(keys, s2, r);
    Then(keys, s, a, s1, b, s2);
    Then(keys, s, a + b, s2, c, s');
    acts := a + b + c;
    StartToEnd(s, r, w, s1, s2, s');
  }

  lemma StartToEnd(s: Sys, r: nat, w: WalletId, s1: Sys, s2: Sys, s': Sys)
    requires r !in s.runs && w != "" && s1 == Started(s, r, w) && MovedTo(s1, r, |Log(s, w)|, s2)
    requires CursorOf(s.db.cursors, w) <= Reached(s, w) <= |Log(s, w)|
    requires s' == s2.(runs := s2.runs[r := s2.runs[r].(phase := Done)], db := s2.db.(cursors := s2.db.cursors[w := |Log(s, w)|]))
    ensures RanToEnd(s, r, w, s')
  {
    assert s'.runs == s.runs[r := Run(w, |Log(s, w)|, Done)];
    assert forall x :: Reached(s1, x) == Reached(s, x) && Reached(s', x) == Reached(s2, x);
  }

  // ---------------------------------------------------------------- a stopped run, with the others past it

  lemma FeedSplit(db: DB, w: WalletId, log: seq<Event>, b: nat)
    requires b <= |log| && Feed(Begin(db), w, log).failed.None?
    ensures Feed(Begin(db), w, log[..b]).failed.None?
    ensures Feed(Begin(Feed(Begin(db), w, log[..b]).db), w, log[b..]).failed.None?
    ensures Feed(Begin(Feed(Begin(db), w, log[..b]).db), w, log[b..]).db == Feed(Begin(db), w, log).db
  {
    var p := Feed(Begin(db), w, log[..b]);
    FeedStops(Begin(db), w, log, b);
    assert log == log[..b] + log[b..];
    FeedConcat(Begin(db), w, log[..b], log[b..]);
    FeedIgnoresCounters(p, Begin(p.db), w, log[b..]);
  }

  /** Run 0 has finished at b, and the log has grown since. */
  ghost predicate FinishedAt(s: Sys, w: WalletId, log: seq<Event>, b: nat) {
    && Log(s, w) == log && Reached(s, w) == b && CursorOf(s.db.cursors, w) == b
    && s.runs == map[0 := Run(w, b, Done)] && s.h.started == map[0 := 0]
  }

  /** Nothing was synced, as in an initial state. */
  ghost predicate Unsynced(s: Sys, w: WalletId) {
    && s.runs == map[] && s.h.started == map[] && s.db.cursors == map[]
    && Log(s, w) == [] && Reached(s, w) == 0 && Plain(s.db) == s.db
  }

  lemma InitialUnsynced(s: Sys, w: WalletId)
    requires Initial(s)
    ensures Unsynced(s, w)
  {
  }

  lemma FirstSchedule(keys: Keys, s: Sys, w: WalletId, log: seq<Event>, b: nat) returns (acts: seq<Action>, s': Sys)
    requires Unsynced(s, w) && w != "" && b <= |log| && Feed(Begin(s.db), w, log[..b]).failed.None?
    ensures Execute(keys, s, acts) == Some(s') && FinishedAt(s', w, log, b)
    ensures Plain(s'.db) == Feed(Begin(s.db), w, log[..b]).db
  {
    var a, s1 := AppendAll(keys, s, w, log[..b]);
    assert Log(s1, w) == log[..b] && log[..b][0..] == log[..b];
    var c, s2 := FullRun(keys, s1, 0, w);
    assert s2.runs == map[0 := Run(w, b, Done)];
    var d;
    d, s' := AppendAll(keys, s2, w, log[b..]);
    assert log == log[..b] + log[b..];
    Then(keys, s, a, s1, c, s2);
    Then(keys, s, a + c, s2, d, s');
    acts := a + c + d;
  }

  /** Run 0 left the cursor at b, where runs 1 and 2 started. Run 2 finished the log; run 1 got to p and stopped. */
  ghost predicate StoppedAt(s: Sys, w: WalletId, log: seq<Event>, b: nat, p: nat) {
    && Log(s, w) == log && Reached(s, w) == |log| && CursorOf(s.db.cursors, w) == |log|
    && s.runs == map[0 := Run(w, b, Done), 1 := Run(w, p, Failed), 2 := Run(w, |log|, Done)]
    && s.h.started == map[0 := 0, 1 := b, 2 := b]
  }

  lemma StopOne(keys: Keys, s: Sys, r: nat) returns (acts: seq<Action>, s': Sys)
    requires Moving(s, r)
    ensures Execute(keys, s, acts) == Some(s') && s' == WithPhase(s, r, Failed)
  {
    acts := [Fail(r)];
    One(keys, s, Fail(r));
    RunNextIsNext(keys, s, Fail(r));
    s' := WithPhase(s, r, Failed);
  }

  lemma SecondSchedule(keys: Keys, s: Sys, w: WalletId, log: seq<Event>, b: nat, p: nat) returns (acts: seq<Action>, s': Sys)
    requires FinishedAt(s, w, log, b) && w != "" && b <= p <= |log|
    requires Feed(Begin(Plain(s.db)), w, log[b..]).failed.None?
    requires Feed(Begin(Feed(Begin(Plain(s.db)), w, log[b..]).db), w, log[b..p]).failed.None?
    ensures Execute(keys, s, acts) == Some(s') && StoppedAt(s', w, log, b, p)
    ensures Plain(s'.db) == Feed(Begin(Feed(Begin(Plain(s.db)), w, log[b..]).db), w, log[b..p]).db
  {
    var a, s1 := StartOne(keys, s, 1, w);
    var c, s2 := FullRun(keys, s1, 2, w);
    assert s2.runs == map[0 := Run(w, b, Done), 1 := Run(w, b, Fetching), 2 := Run(w, |log|, Done)];
    assert Log(s2, w) == log;
    var d, s3 := RunThrough(keys, s2, 1, p);
    var e;
    e, s' := StopOne(keys, s3, 1);
    Then(keys, s, a, s1, c, s2);
    Then(keys, s, a + c, s2, d, s3);
    Then(keys, s, a + c + d, s3, e, s');
    acts := a + c + d + e;
    StopState(s2, w, log, b, p, s3, s');
    assert s'.h.started == s2.h.started == map[0 := 0, 1 := b, 2 := b];
  }

  lemma StopState(s: Sys, w: WalletId, log: seq<Event>, b: nat, p: nat, mid: Sys, s': Sys)
    requires s.runs == map[0 := Run(w, b, Done), 1 := Run(w, b, Fetching), 2 := Run(w, |log|, Done)] && p <= |log|
    requires Log(s, w) == log && Reached(s, w) == |log| && CursorOf(s.db.cursors, w) == |log|
    requires MovedTo(s, 1, p, mid) && s' == WithPhase(mid, 1, Failed)
    ensures Log(s', w) == log && Reached(s', w) == |log| && CursorOf(s'.db.cursors, w) == |log|
    ensures s'.runs == map[0 := Run(w, b, Done), 1 := Run(w, p, Failed), 2 := Run(w, |log|, Done)]
  {
    assert Reached(s', w) == Reached(mid, w);
    assert s'.runs == mid.runs[1 := Run(w, p, Failed)] == s.runs[1 := Run(w, p, Failed)];
  }

  lemma StopSchedule(keys: Keys, s: Sys, w: WalletId, log: seq<Event>, b: nat, p: nat) returns (acts: seq<Action>, s': Sys)
    requires Initial(s) && w != "" && b <= p <= |log| && Feed(Begin(s.db), w, log).failed.None?
    requires Feed(Begin(Feed(Begin(s.db), w, log).db), w, log[b..p]).failed.None?
    ensures Execute(keys, s, acts) == Some(s') && StoppedAt(s', w, log, b, p)
    ensures Plain(s'.db) == Feed(Begin(Feed(Begin(s.db), w, log).db), w, log[b..p]).db
  {
    FeedSplit(s.db, w, log, b);
    InitialUnsynced(s, w);
    var a, mid := FirstSchedule(keys, s, w, log, b);
    var c;
    c, s' := SecondSchedule(keys, mid, w, log, b, p);
    Then(keys, s, a, mid, c, s');
    acts := a + c;
  }

  // ---------------------------------------------------------------- which stopped runs are harmless

  /** The log was consumed to its end, and every run of the wallet finished, or started at b and was stopped at p. */
  ghost predicate Ends(s: Sys, w: WalletId, log: seq<Event>, b: nat, p: nat) {
    && Log(s, w) == log && Reached(s, w) == |log|
    && forall q :: q in s.runs && s.runs[q].wallet == w ==>
         || s.runs[q].phase.Done?
         || (s.runs[q].phase.Failed? && q in s.h.started && s.h.started[q] == b && s.runs[q].pos == p)
  }

  ghost predicate HoldsLast(s: Sys, k: DepositKey, log: seq<Event>) {
    && LastOf(k.wallet, log, k).Some? && k in s.db.deposits
    && Holds(s.db.deposits[k], k.wallet, LastOf(k.wallet, log, k).value)
  }

  /** The last event of row k between b and p does not say what the last one of the log says. */
  predicate UndoneBy(log: seq<Event>, k: DepositKey, b: nat, p: nat)
    requires b <= p <= |log|
  {
    var handled, last := LastOf(k.wallet, log[b..p], k), LastOf(k.wallet, log, k);
    handled.Some? && last.Some? && !SameRow(handled.value, last.value)
  }

  lemma EndsHoldsLast(keys: Keys, s: Sys, acts: seq<Action>, s': Sys, log: seq<Event>, k: DepositKey, b: nat, p: nat)
    requires Initial(s) && Execute(keys, s, acts) == Some(s') && b <= p <= |log| && Ends(s', k.wallet, log, b, p)
    requires LastOf(k.wallet, log, k).Some? && !UndoneBy(log, k, b, p)
    ensures HoldsLast(s', k, log)
  {
    assert log[0..|log|] == log;
    assert LastEvent(s', k) == LastOf(k.wallet, log, k);
    forall q | q in s'.runs ensures !Undoes(s', q, k) {
      if s'.runs[q].wallet == k.wallet && s'.runs[q].phase.Failed? {
        assert LastHandled(s', q, k) == LastOf(k.wallet, log[b..p], k);
      }
    }
    SettledRowIff(keys, s, acts, s', k);
  }

  /** The stopped run wrote the row last, the cursor is at the end of the log, and nobody is in flight: the row
      keeps what the stopped run wrote until a new event of it is appended. */
  lemma UndoneForGood(keys: Keys, s: Sys, s': Sys, log: seq<Event>, k: DepositKey, b: nat, p: nat)
    requires Initial(s) && b <= p <= |log| && UndoneBy(log, k, b, p) && StoppedAt(s', k.wallet, log, b, p)
    requires Feed(Begin(s.db), k.wallet, log).failed.None?
    requires Feed(Begin(Feed(Begin(s.db), k.wallet, log).db), k.wallet, log[b..p]).failed.None?
    requires Plain(s'.db) == Feed(Begin(Feed(Begin(s.db), k.wallet, log).db), k.wallet, log[b..p]).db
    ensures !HoldsLast(s', k, log) && Passed(s', k, |log|)
    ensures k in s'.db.deposits && Holds(s'.db.deposits[k], k.wallet, LastOf(k.wallet, log[b..p], k).value)
  {
    var db := Feed(Begin(s.db), k.wallet, log).db;
    FedRow(db, k, log[b..p]);
    assert s'.db.deposits == Feed(Begin(db), k.wallet, log[b..p]).db.deposits;
    HoldsIff(s'.db.deposits[k], k, LastOf(k.wallet, log[b..p], k).value, LastOf(k.wallet, log, k).value);
  }

  lemma FedRow(db: DB, k: DepositKey, evs: seq<Event>)
    requires Feed(Begin(db), k.wallet, evs).failed.None? && LastOf(k.wallet, evs, k).Some?
    ensures var rows := Feed(Begin(db), k.wallet, evs).db.deposits;
      k in rows && Holds(rows[k], k.wallet, LastOf(k.wallet, evs, k).value)
  {
    FeedRow(Begin(db), k.wallet, evs, k);
  }

  ghost predicate Unrefused(s: Sys, w: WalletId, log: seq<Event>, b: nat, p: nat)
    requires b <= p <= |log|
  {
    && !SomeRefused(SettingOf(s.db), w, s.db.deposits, log)
    && !SomeRefused(SettingOf(s.db), w, RowsAfter(s.db.addresses, w, s.db.deposits, log), log[b..p])
  }

  lemma UnrefusedFeeds(s: Sys, w: WalletId, log: seq<Event>, b: nat, p: nat)
    requires Initial(s) && b <= p <= |log| && Unrefused(s, w, log, b, p)
    ensures Feed(Begin(s.db), w, log).failed.None?
    ensures Feed(Begin(Feed(Begin(s.db), w, log).db), w, log[b..p]).failed.None?
  {
    var db := Feed(Begin(s.db), w, log).db;
    FeedRefusedIff(Begin(s.db), w, log);
    FeedKeepsLedger(Begin(s.db), w, log);
    FeedRefusedIff(Begin(db), w, log[b..p]);
  }

  /** If the events of a row between b and p would undo it, and none is refused on the way, then some schedule
      in which a run started at b stops at p leaves the row wrong, and no continuation repairs it before a new
      event of the row is appended. */
  lemma StopUndoes(keys: Keys, s: Sys, log: seq<Event>, k: DepositKey, b: nat, p: nat) returns (acts: seq<Action>, s': Sys)
    requires Initial(s) && k.wallet != "" && b <= p <= |log| && Unrefused(s, k.wallet, log, b, p) && UndoneBy(log, k, b, p)
    ensures Execute(keys, s, acts) == Some(s') && StoppedAt(s', k.wallet, log, b, p) && !HoldsLast(s', k, log)
    ensures k in s'.db.deposits && Holds(s'.db.deposits[k], k.wallet, LastOf(k.wallet, log[b..p], k).value)
    ensures forall more :: Execute(keys, s', more).Some? && NoNews(more, k) ==>
      Find(Execute(keys, s', more).value.db.deposits, k) == Find(s'.db.deposits, k)
  {
    UnrefusedFeeds(s, k.wallet, log, b, p);
    acts, s' := StopSchedule(keys, s, k.wallet, log, b, p);
    UndoneForGood(keys, s, s', log, k, b, p);
    forall more | Execute(keys, s', more).Some? && NoNews(more, k)
      ensures Find(Execute(keys, s', more).value.db.deposits, k) == Find(s'.db.deposits, k)
    {
      RowStays(keys, s', more, k, |log|);
    }
  }

  /** In every schedule in which runs of the wallet finish or are stopped between b and p. */
  ghost predicate AlwaysHolds(keys: Keys, s: Sys, log: seq<Event>, k: DepositKey, b: nat, p: nat) {
    forall acts :: Execute(keys, s, acts).Some? && Ends(Execute(keys, s, acts).value, k.wallet, log, b, p) ==>
      HoldsLast(Execute(keys, s, acts).value, k, log)
  }

  lemma StoppedEnds(s: Sys, w: WalletId, log: seq<Event>, b: nat, p: nat)
    requires StoppedAt(s, w, log, b, p)
    ensures Ends(s, w, log, b, p)
  {
  }

  lemma NotAlways(keys: Keys, s: Sys, acts: seq<Action>, log: seq<Event>, k: DepositKey, b: nat, p: nat)
    requires Execute(keys, s, acts).Some? && Ends(Execute(keys, s, acts).value, k.wallet, log, b, p)
    requires !HoldsLast(Execute(keys, s, acts).value, k, log)
    ensures !AlwaysHolds(keys, s, log, k, b, p)
  {
  }

  /** Runs stopped between b and p are harmless to a row in every schedule exactly when the row's last event
      among those they handled says what its last event says. */
  lemma StopHarmlessIff(keys: Keys, s: Sys, log: seq<Event>, k: DepositKey, b: nat, p: nat)
    requires Initial(s) && k.wallet != "" && b <= p <= |log| && Unrefused(s, k.wallet, log, b, p)
    requires LastOf(k.wallet, log, k).Some?
    ensures AlwaysHolds(keys, s, log, k, b, p) <==> !UndoneBy(log, k, b, p)
  {
    if UndoneBy(log, k, b, p) {
      var acts, s' := StopUndoes(keys, s, log, k, b, p);
      StoppedEnds(s', k.wallet, log, b, p);
      NotAlways(keys, s, acts, log, k, b, p);
    } else {
      forall acts | Execute(keys, s, acts).Some? && Ends(Execute(keys, s, acts).value, k.wallet, log, b, p)
        ensures HoldsLast(Execute(keys, s, acts).value, k, log)
      {
        EndsHoldsLast(keys, s, acts, Execute(keys, s, acts).value, log, k, b, p);
      }
    }
  }
}
