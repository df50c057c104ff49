/** What the interleaved runs of Protocol leave in the deposits table. */
module Convergence {
  import opened Results
  import opened Ints
  import opened Ledger
  import opened AddressBook
  import opened Sync
  import opened Replay
  import opened Protocol
  import opened RunInvariant

  lemma RunsReachable(keys: Keys, s: Sys, acts: seq<Action>, s': Sys)
    requires Initial(s) && Execute(keys, s, acts) == Some(s')
    ensures SyncInv(s')
  {
    InitialSync(s);
    SyncReachable(keys, s, acts);
  }

  /** In every reachable state, with runs that stop part-way, each event before a stored cursor has been
      handled at least once, and a deposit event has its row. */
  lemma NoEventSkipped(keys: Keys, s: Sys, acts: seq<Action>, s': Sys, w: WalletId, i: nat)
    requires Initial(s) && Execute(keys, s, acts) == Some(s')
    requires w in s'.db.cursors && i < s'.db.cursors[w]
    ensures (w, i) in s'.h.handled && i < |Log(s', w)|
    ensures Log(s', w)[i].DepositEvent? ==> RequestOf(w, Log(s', w)[i]).key in s'.db.deposits
  {
    RunsReachable(keys, s, acts, s');
    assert Seen(s', w, i);
  }

  // ---------------------------------------------------------------- which event a row holds

  /** Two events that write the same row, owner aside. */
  predicate SameRow(a: Event, b: Event) {
    && a.DepositEvent? && b.DepositEvent? && a.txid == b.txid && a.action == b.action
    && a.diversifier == b.diversifier && a.height == b.height && a.status == b.status
    && (a.amount == b.amount || (a.amount >= 0x7FFF_FFFF_FFFF_FFFF && b.amount >= 0x7FFF_FFFF_FFFF_FFFF))
    && (a.status == Confirmed ==> a.confirmedHeight == b.confirmedHeight)
  }

  lemma HoldsIff(row: Deposit, k: DepositKey, a: Event, b: Event)
    requires Holds(row, k.wallet, a) && Touches(k.wallet, a, k) && Touches(k.wallet, b, k)
    ensures Holds(row, k.wallet, b) <==> SameRow(a, b)
  {
  }

  lemma {:induction false} LastIndex(w: WalletId, evs: seq<Event>, k: DepositKey) returns (j: nat)
    requires LastOf(w, evs, k).Some?
    ensures j < |evs| && LastOf(w, evs, k) == Some(evs[j]) && Touches(w, evs[j], k)
    ensures forall i :: j < i < |evs| ==> !Touches(w, evs[i], k)
    decreases |evs|
  {
    if LastOf(w, evs[1..], k).Some? {
      var i := LastIndex(w, evs[1..], k);
      j := i + 1;
      assert forall n :: j < n < |evs| ==> evs[n] == evs[1..][n - 1];
    } else {
      j := 0;
      assert forall n :: 0 < n < |evs| ==> evs[n] in evs[1..];
    }
  }

  lemma LastAt(w: WalletId, evs: seq<Event>, k: DepositKey, j: nat)
    requires j < |evs| && Touches(w, evs[j], k)
    requires forall i :: j < i < |evs| ==> !Touches(w, evs[i], k)
    ensures LastOf(w, evs, k) == Some(evs[j])
  {
    assert evs[j] in evs;
    var i := LastIndex(w, evs, k);
  }

  function Slice(log: seq<Event>, a: nat, b: nat): seq<Event> {
    if a <= b <= |log| then log[a..b] else []
  }

  /** The last event of row k that any run has passed. */
  function LastEvent(s: Sys, k: DepositKey): Option<Event> {
    LastOf(k.wallet, Slice(Log(s, k.wallet), 0, Reached(s, k.wallet)), k)
  }

  /** The last event of row k that run r handled, from its start to where it stands. */
  function LastHandled(s: Sys, r: nat, k: DepositKey): Option<Event>
    requires r in s.runs
  {
    LastOf(k.wallet, Slice(Log(s, k.wallet), if r in s.h.started then s.h.started[r] else 0, s.runs[r].pos), k)
  }

  /** A row exists once an event of it was passed. Then it holds its last event exactly when the last event
      of it that its last writer handled says the same, and it does unless that writer is in flight or was stopped. */
  ghost predicate HeldExactly(s: Sys, k: DepositKey) {
    && (LastEvent(s, k).Some? <==> k in s.db.deposits)
    && (LastEvent(s, k).Some? ==>
          && k in s.h.writer && s.h.writer[k] in s.runs
          && var r, last := s.h.writer[k], LastEvent(s, k).value;
            && s.runs[r].wallet == k.wallet && LastHandled(s, r, k).Some?
            && (Holds(s.db.deposits[k], k.wallet, last) <==> SameRow(LastHandled(s, r, k).value, last))
            && (s.runs[r].phase.Done? || s.runs[r].phase.Saving? ==> Holds(s.db.deposits[k], k.wallet, last)))
  }

  lemma RowExists(s: Sys, k: DepositKey)
    requires RowsInv(s) && SeenInv(s) && Reached(s, k.wallet) <= |Log(s, k.wallet)|
    ensures LastEvent(s, k).Some? <==> k in s.db.deposits
  {
    var evs := Log(s, k.wallet)[..Reached(s, k.wallet)];
    if LastEvent(s, k).Some? {
      var j := LastIndex(k.wallet, evs, k);
      assert Seen(s, k.wallet, j);
    }
    if k in s.h.written {
      assert evs[s.h.written[k]] in evs;
    }
  }

  /** The last event of row k that its last writer handled is the one it wrote. */
  lemma WriterHandled(s: Sys, k: DepositKey)
    requires RowsInv(s) && k in s.h.written && WriterOk(s, k)
    requires RunOk(s, s.runs[s.h.writer[k]])
    ensures LastHandled(s, s.h.writer[k], k) == Some(Log(s, k.wallet)[s.h.written[k]])
  {
    var r, log, at := s.h.writer[k], Log(s, k.wallet), s.h.written[k];
    var a, b := s.h.started[r], s.runs[r].pos;
    var evs := Slice(log, a, b);
    assert evs[at - a] == log[at];
    forall i | at - a < i < |evs| ensures !Touches(k.wallet, evs[i], k) {
      assert evs[i] == log[a + i];
      assert Newer(s, k, a + i) ==> Behind(s.runs[r], a + i);
    }
    LastAt(k.wallet, evs, k, at - a);
  }

  lemma WriterAtEnd(s: Sys, k: DepositKey)
    requires RowsInv(s) && k in s.h.written && WriterOk(s, k) && Reached(s, k.wallet) <= |Log(s, k.wallet)|
    requires s.runs[s.h.writer[k]].phase.Done? || s.runs[s.h.writer[k]].phase.Saving?
    ensures LastEvent(s, k) == Some(Log(s, k.wallet)[s.h.written[k]])
  {
    var evs, at := Slice(Log(s, k.wallet), 0, Reached(s, k.wallet)), s.h.written[k];
    forall i | at < i < |evs| ensures !Touches(k.wallet, evs[i], k) {
      assert Newer(s, k, i) ==> Behind(s.runs[s.h.writer[k]], i);
    }
    LastAt(k.wallet, evs, k, at);
  }

  lemma HeldFromInv(s: Sys, k: DepositKey)
    requires SyncInv(s)
    ensures Reached(s, k.wallet) <= |Log(s, k.wallet)| && HeldExactly(s, k)
  {
    assert Reached(s, k.wallet) <= |Log(s, k.wallet)|;
    RowExists(s, k);
    if LastEvent(s, k).Some? {
      assert WriterOk(s, k) && RunOk(s, s.runs[s.h.writer[k]]);
      WriterHandled(s, k);
      if s.runs[s.h.writer[k]].phase.Done? || s.runs[s.h.writer[k]].phase.Saving? {
        WriterAtEnd(s, k);
      }
      HoldsIff(s.db.deposits[k], k, Log(s, k.wallet)[s.h.written[k]], LastEvent(s, k).value);
    }
  }

  /** Exact in every reachable state, with runs in flight and runs that stopped part-way. */
  lemma RowHoldsLastIff(keys: Keys, s: Sys, acts: seq<Action>, s': Sys, k: DepositKey)
    requires Initial(s) && Execute(keys, s, acts) == Some(s')
    ensures Reached(s', k.wallet) <= |Log(s', k.wallet)| && HeldExactly(s', k)
  {
    RunsReachable(keys, s, acts, s');
    HeldFromInv(s', k);
  }

  /** No run of the wallet is in flight. */
  ghost predicate Settled(s: Sys, w: WalletId) {
    forall q :: q in s.runs && s.runs[q].wallet == w ==> s.runs[q].phase.Done? || s.runs[q].phase.Failed?
  }

  /** A stopped run that handled events of row k, and the last of them does not say what the row's last event says. */
  ghost predicate Undoes(s: Sys, q: nat, k: DepositKey) {
    && q in s.runs && s.runs[q].wallet == k.wallet && s.runs[q].phase.Failed?
    && LastHandled(s, q, k).Some? && LastEvent(s, k).Some?
    && !SameRow(LastHandled(s, q, k).value, LastEvent(s, k).value)
  }

  ghost predicate NoneUndoes(s: Sys, k: DepositKey) {
    forall q :: q in s.runs ==> !Undoes(s, q, k)
  }

  /** With no run in flight a row holds its last event exactly when its last writer is not a stopped run
      whose last event of the row says something else. */
  lemma SettledRowIff(keys: Keys, s: Sys, acts: seq<Action>, s': Sys, k: DepositKey)
    requires Initial(s) && Execute(keys, s, acts) == Some(s')
    requires Settled(s', k.wallet) && LastEvent(s', k).Some?
    ensures k in s'.db.deposits && k in s'.h.writer
    ensures Holds(s'.db.deposits[k], k.wallet, LastEvent(s', k).value) <==> !Undoes(s', s'.h.writer[k], k)
  {
    RowHoldsLastIff(keys, s, acts, s', k);
  }

  // ---------------------------------------------------------------- who owns a row

  /** The owner an event with this recipient gets does not depend on when it is looked up: its address was
      assigned before the runs, or no address is assigned at all. */
  predicate Known(book: seq<AddressRow>, fixed: bool, w: WalletId, ev: Event) {
    ev.DepositEvent? && ev.recipient != "" && (fixed || RowByAddress(book, w, Lower(ev.recipient)).Some?)
  }

  lemma LookedStays(book: seq<AddressRow>, longer: seq<AddressRow>, fixed: bool, w: WalletId, ev: Event)
    requires Known(book, fixed, w, ev) && book <= longer && (fixed ==> longer == book)
    ensures LookedUpOwner(longer, RequestOf(w, ev)) == LookedUpOwner(book, RequestOf(w, ev))
  {
    var address := Lower(ev.recipient);
    if !fixed {
      FirstRowStays(book, longer, (row: AddressRow) => row.wallet == w && row.address == address);
    }
  }

  /** A run about to commit carries the owner its event would have got from the first book. */
  predicate CarriesOwner(s: Sys, r: nat, book: seq<AddressRow>, fixed: bool)
    requires r in s.runs
  {
    s.runs[r].phase.Committing? && Current(s, r).Some? && Known(book, fixed, s.runs[r].wallet, Current(s, r).value) ==>
      s.runs[r].phase.looked == Looked(book, s.runs[r].wallet, Current(s, r).value)
  }

  predicate OwnedAsKnown(s: Sys, k: DepositKey, book: seq<AddressRow>, fixed: bool) {
    k in s.h.written && k in s.db.deposits && s.h.written[k] < |Log(s, k.wallet)| ==>
      OwnerAsLooked(book, fixed, k.wallet, Log(s, k.wallet)[s.h.written[k]], s.db.deposits[k].account)
  }

  predicate OwnerAsLooked(book: seq<AddressRow>, fixed: bool, w: WalletId, ev: Event, owner: AccountId) {
    Known(book, fixed, w, ev) ==> owner == Looked(book, w, ev)
  }

  ghost predicate OwnersInv(s: Sys, book: seq<AddressRow>, fixed: bool) {
    && book <= s.db.addresses && (fixed ==> s.db.addresses == book)
    && (forall r :: r in s.runs ==> CarriesOwner(s, r, book, fixed))
    && (forall k :: k in s.h.written ==> OwnedAsKnown(s, k, book, fixed))
  }

  lemma OwnersUntouched(s: Sys, s': Sys, book: seq<AddressRow>, fixed: bool)
    requires OwnersInv(s, book, fixed) && RunsInv(s) && RowsInv(s)
    requires book <= s'.db.addresses && (fixed ==> s'.db.addresses == book)
    requires s'.db.deposits == s.db.deposits && s'.h.written == s.h.written
    requires forall w :: Log(s, w) <= Log(s', w)
    requires forall r :: r in s'.runs && s'.runs[r].phase.Committing? ==> r in s.runs && s'.runs[r] == s.runs[r]
    ensures OwnersInv(s', book, fixed)
  {
    forall r | r in s'.runs ensures CarriesOwner(s', r, book, fixed) {
      if s'.runs[r].phase.Committing? {
        assert RunOk(s, s.runs[r]) && CarriesOwner(s, r, book, fixed);
        assert Current(s, r) == Current(s', r);
      }
    }
    forall k | k in s'.h.written ensures OwnedAsKnown(s', k, book, fixed) {
      assert OwnedAsKnown(s, k, book, fixed);
    }
  }

  lemma OwnersStep(keys: Keys, s: Sys, act: Action, book: seq<AddressRow>, fixed: bool)
    requires SyncInv(s) && OwnersInv(s, book, fixed) && !(fixed && act.Assign?) && Next(keys, s, act).Some?
    ensures OwnersInv(Next(keys, s, act).value, book, fixed)
  {
    var s' := Next(keys, s, act).value;
    BookGrows(keys, s, act);
    if act.Lookup? {
      OwnersLookup(s, act.r, book, fixed);
    } else if act.Commit? {
      OwnersCommit(s, act.r, book, fixed);
    } else if act.Append? || act.Start? {
      OwnersUntouched(s, s', book, fixed);
    } else if RunNext(s, act).Some? {
      OwnersRun(s, act, book, fixed);
    } else {
      TableStepFrame(keys, s, act);
      assert forall w :: Log(s, w) <= Log(s', w);
      OwnersUntouched(s, s', book, fixed);
    }
  }

  lemma OwnersRun(s: Sys, act: Action, book: seq<AddressRow>, fixed: bool)
    requires SyncInv(s) && OwnersInv(s, book, fixed) && !act.Lookup? && !act.Commit? && RunNext(s, act).Some?
    ensures OwnersInv(RunNext(s, act).value, book, fixed)
  {
    var s' := RunNext(s, act).value;
    RunStepFrame(s, act);
    assert forall w :: Log(s, w) <= Log(s', w);
    OwnersUntouched(s, s', book, fixed);
  }

  lemma RunStepFrame(s: Sys, act: Action)
    requires !act.Lookup? && !act.Commit? && RunNext(s, act).Some?
    ensures var s' := RunNext(s, act).value;
      && s'.logs == s.logs && s'.db.addresses == s.db.addresses
      && s'.db.deposits == s.db.deposits && s'.h.written == s.h.written
      && forall r :: r in s'.runs && s'.runs[r].phase.Committing? ==> r in s.runs && s'.runs[r] == s.runs[r]
  {
  }

  lemma OwnersLookup(s: Sys, r: nat, book: seq<AddressRow>, fixed: bool)
    requires OwnersInv(s, book, fixed) && RunNext(s, Lookup(r)).Some?
    ensures OwnersInv(RunNext(s, Lookup(r)).value, book, fixed)
  {
    var s' := RunNext(s, Lookup(r)).value;
    var w, ev := s.runs[r].wallet, Current(s, r).value;
    assert forall x :: Log(s', x) == Log(s, x);
    forall q | q in s'.runs ensures CarriesOwner(s', q, book, fixed) {
      if q == r && Known(book, fixed, w, ev) {
        LookedStays(book, s.db.addresses, fixed, w, ev);
      } else {
        assert CarriesOwner(s, q, book, fixed);
      }
    }
    assert forall k :: OwnedAsKnown(s, k, book, fixed) ==> OwnedAsKnown(s', k, book, fixed);
  }

  lemma OwnersCommit(s: Sys, r: nat, book: seq<AddressRow>, fixed: bool)
    requires SyncInv(s) && OwnersInv(s, book, fixed) && RunNext(s, Commit(r)).Some?
    ensures OwnersInv(RunNext(s, Commit(r)).value, book, fixed)
  {
    var s' := RunNext(s, Commit(r)).value;
    var mid := Advance(s, r, s.runs[r].phase.pageEnd);
    var w, pos := s.runs[r].wallet, s.runs[r].pos;
    var ev := Log(s, w)[pos];
    assert CarriesOwner(s, r, book, fixed);
    assert forall x :: Log(s, x) <= Log(mid, x);
    OwnersUntouched(s, mid, book, fixed);
    CommittedOwner(s.db, RequestOf(w, ev), s.runs[r].phase.looked);
    OwnersWritten(mid, s', book, fixed, RequestOf(w, ev).key, pos);
  }

  lemma CommittedOwner(db: DB, req: DepositRequest, looked: AccountId)
    requires WellFormed(req) && ApplyTx(db, req, looked).Ok?
    ensures var db' := ApplyTx(db, req, looked).value;
      && db'.addresses == db.addresses
      && (forall k :: k in db'.deposits && k != req.key ==> k in db.deposits && db'.deposits[k] == db.deposits[k])
      && req.key in db'.deposits
      && (req.recipient != "" ==> db'.deposits[req.key].account == looked)
  {
  }

  lemma OwnersWritten(s: Sys, s': Sys, book: seq<AddressRow>, fixed: bool, key: DepositKey, pos: nat)
    requires OwnersInv(s, book, fixed)
    requires s'.runs == s.runs && s'.logs == s.logs && s'.db.addresses == s.db.addresses
    requires s'.h.written == s.h.written[key := pos] && key in s'.db.deposits && pos < |Log(s, key.wallet)|
    requires forall k :: k in s'.db.deposits && k != key ==> k in s.db.deposits && s'.db.deposits[k] == s.db.deposits[k]
    requires OwnerAsLooked(book, fixed, key.wallet, Log(s, key.wallet)[pos], s'.db.deposits[key].account)
    ensures OwnersInv(s', book, fixed)
  {
    assert forall x :: Log(s', x) == Log(s, x);
    forall q | q in s'.runs ensures CarriesOwner(s', q, book, fixed) {
      assert CarriesOwner(s, q, book, fixed);
    }
    forall k | k in s'.h.written ensures OwnedAsKnown(s', k, book, fixed) {
      if k != key {
        assert OwnedAsKnown(s, k, book, fixed);
      }
    }
  }

  ghost predicate NoAssign(acts: seq<Action>) {
    forall i :: 0 <= i < |acts| ==> !acts[i].Assign?
  }

  lemma {:induction false} OwnersReachable(keys: Keys, s: Sys, acts: seq<Action>, book: seq<AddressRow>, fixed: bool)
    requires SyncInv(s) && OwnersInv(s, book, fixed) && Execute(keys, s, acts).Some? && (fixed ==> NoAssign(acts))
    ensures OwnersInv(Execute(keys, s, acts).value, book, fixed)
    decreases |acts|
  {
    if acts != [] {
      SyncStep(keys, s, acts[0]);
      OwnersStep(keys, s, acts[0], book, fixed);
      OwnersReachable(keys, Next(keys, s, acts[0]).value, acts[1..], book, fixed);
    }
  }

  lemma InitialOwners(s: Sys, fixed: bool)
    requires Initial(s)
    ensures OwnersInv(s, s.db.addresses, fixed)
  {
  }

  lemma OwnersOfRuns(keys: Keys, s: Sys, acts: seq<Action>, s': Sys, fixed: bool)
    requires Initial(s) && Execute(keys, s, acts) == Some(s') && (fixed ==> NoAssign(acts))
    ensures OwnersInv(s', s.db.addresses, fixed)
  {
    InitialSync(s);
    InitialOwners(s, fixed);
    OwnersReachable(keys, s, acts, s.db.addresses, fixed);
  }

  // ---------------------------------------------------------------- convergence

  /** The run that got furthest among the runs of a wallet. */
  ghost predicate Furthest(s: Sys, w: WalletId, r: nat) {
    && r in s.runs && s.runs[r].wallet == w
    && forall q :: q in s.runs && s.runs[q].wallet == w ==> s.runs[q].pos <= s.runs[r].pos
  }

  lemma FurthestReached(s: Sys, w: WalletId, r: nat)
    requires RunsInv(s) && Furthest(s, w, r)
    ensures s.runs[r].pos == Reached(s, w) <= |Log(s, w)|
  {
    assert RunOk(s, s.runs[r]);
    assert Reached(s, w) > 0 ==> FrontRun(s, w);
  }

  /** A stopped run whose last event of row k differs from the row's last event, if only in the recipient. */
  ghost predicate Differs(s: Sys, q: nat, k: DepositKey) {
    && q in s.runs && s.runs[q].wallet == k.wallet && s.runs[q].phase.Failed?
    && LastHandled(s, q, k).Some? && LastEvent(s, k).Some?
    && RequestOf(k.wallet, LastHandled(s, q, k).value) != RequestOf(k.wallet, LastEvent(s, k).value)
  }

  ghost predicate NoneDiffers(s: Sys, k: DepositKey) {
    forall q :: q in s.runs ==> !Differs(s, q, k)
  }

  lemma NotUndone(s: Sys, q: nat, k: DepositKey)
    requires q in s.runs && NoneDiffers(s, k)
    ensures !Undoes(s, q, k)
  {
    assert !Differs(s, q, k);
  }

  lemma WroteLast(s: Sys, k: DepositKey)
    requires RowsInv(s) && k in s.h.written && WriterOk(s, k) && RunOk(s, s.runs[s.h.writer[k]])
    requires Reached(s, k.wallet) <= |Log(s, k.wallet)| && LastEvent(s, k).Some?
    requires Settled(s, k.wallet) && NoneDiffers(s, k)
    ensures RequestOf(k.wallet, Log(s, k.wallet)[s.h.written[k]]) == RequestOf(k.wallet, LastEvent(s, k).value)
  {
    WriterHandled(s, k);
    if s.runs[s.h.writer[k]].phase.Done? {
      WriterAtEnd(s, k);
    } else {
      assert !Differs(s, s.h.writer[k], k);
    }
  }

  /** The last writer of a settled row wrote the owner of the row's last event. */
  lemma SettledOwner(s: Sys, book: seq<AddressRow>, fixed: bool, k: DepositKey)
    requires SyncInv(s) && OwnersInv(s, book, fixed) && LastEvent(s, k).Some?
    requires Settled(s, k.wallet) && NoneDiffers(s, k)
    ensures k in s.db.deposits && Holds(s.db.deposits[k], k.wallet, LastEvent(s, k).value)
    ensures OwnerAsLooked(book, fixed, k.wallet, LastEvent(s, k).value, s.db.deposits[k].account)
  {
    HeldFromInv(s, k);
    assert WriterOk(s, k) && RunOk(s, s.runs[s.h.writer[k]]);
    NotUndone(s, s.h.writer[k], k);
    WroteLast(s, k);
    assert OwnedAsKnown(s, k, book, fixed);
  }

  /** However the runs were interleaved, and although they may re-apply old events and move the cursor back:
      once no run of the wallet is in flight, each row holds the last event of its key up to the furthest
      position reached, unless a stopped run's last event of that key says something else. The owner is the
      one looked up for that event, when its address was assigned before the runs or none is assigned, unless
      a stopped run's last event of that key differs at all. */
  lemma SyncersConverge(keys: Keys, s: Sys, acts: seq<Action>, s': Sys, k: DepositKey, r: nat, fixed: bool)
    requires Initial(s) && Execute(keys, s, acts) == Some(s')
    requires Furthest(s', k.wallet, r) && Settled(s', k.wallet) && NoneUndoes(s', k)
    ensures s'.runs[r].pos <= |Log(s', k.wallet)|
    ensures var last := LastOf(k.wallet, Log(s', k.wallet)[..s'.runs[r].pos], k);
      && (last.None? ==> k !in s'.db.deposits)
      && (last.Some? ==> k in s'.db.deposits && Holds(s'.db.deposits[k], k.wallet, last.value))
      && (last.Some? && NoneDiffers(s', k) && Known(s.db.addresses, fixed, k.wallet, last.value) && (fixed ==> NoAssign(acts)) ==>
            s'.db.deposits[k].account == Looked(s.db.addresses, k.wallet, last.value))
  {
    RunsReachable(keys, s, acts, s');
    FurthestReached(s', k.wallet, r);
    HeldFromInv(s', k);
    if LastEvent(s', k).Some? {
      assert !Undoes(s', s'.h.writer[k], k);
      if NoneDiffers(s', k) && (fixed ==> NoAssign(acts)) {
        OwnersOfRuns(keys, s, acts, s', fixed);
        SettledOwner(s', s.db.addresses, fixed, k);
      }
    }
  }

  /** Every run of every wallet is finished or stopped, and no stopped run's last event of a row differs
      from the row's. */
  ghost predicate Converged(s: Sys) {
    forall k: DepositKey :: Settled(s, k.wallet) && NoneDiffers(s, k)
  }

  /** The owner of every deposit event is known beforehand. */
  ghost predicate AllKnown(s: Sys, book: seq<AddressRow>, fixed: bool) {
    forall w, i :: 0 <= i < |Log(s, w)| && Log(s, w)[i].DepositEvent? ==> Known(book, fixed, w, Log(s, w)[i])
  }

  /** Two interleavings that consumed the same events agree on every row, and so, with the same accounts and
      withdrawals, on every balance. */
  lemma InterleavingsAgree(keys: Keys, s: Sys, one: seq<Action>, two: seq<Action>, x: Sys, y: Sys, fixed: bool)
    requires Initial(s) && Execute(keys, s, one) == Some(x) && Execute(keys, s, two) == Some(y)
    requires Converged(x) && Converged(y) && AllKnown(x, s.db.addresses, fixed)
    requires fixed ==> NoAssign(one) && NoAssign(two)
    requires forall w :: Log(x, w) == Log(y, w) && Reached(x, w) == Reached(y, w)
    ensures x.db.deposits == y.db.deposits
    ensures x.db.accounts == y.db.accounts && x.db.withdrawals == y.db.withdrawals ==> x.db.balances == y.db.balances
  {
    DepositsAgree(keys, s, one, two, x, y, fixed);
    TablesReachable(keys, s, one);
    TablesReachable(keys, s, two);
    if x.db.accounts == y.db.accounts && x.db.withdrawals == y.db.withdrawals {
      BalancesDetermined(x.db, y.db);
    }
  }

  lemma DepositsAgree(keys: Keys, s: Sys, one: seq<Action>, two: seq<Action>, x: Sys, y: Sys, fixed: bool)
    requires Initial(s) && Execute(keys, s, one) == Some(x) && Execute(keys, s, two) == Some(y)
    requires Converged(x) && Converged(y) && AllKnown(x, s.db.addresses, fixed)
    requires fixed ==> NoAssign(one) && NoAssign(two)
    requires forall w :: Log(x, w) == Log(y, w) && Reached(x, w) == Reached(y, w)
    ensures x.db.deposits == y.db.deposits
  {
    RunsReachable(keys, s, one, x);
    RunsReachable(keys, s, two, y);
    OwnersOfRuns(keys, s, one, x, fixed);
    OwnersOfRuns(keys, s, two, y, fixed);
    forall k ensures Find(x.db.deposits, k) == Find(y.db.deposits, k) {
      assert Log(x, k.wallet) == Log(y, k.wallet) && Reached(x, k.wallet) == Reached(y, k.wallet);
      assert AllKnownIn(Log(y, k.wallet), s.db.addresses, fixed, k.wallet);
      SettledRow(x, s.db.addresses, fixed, k);
      SettledRow(y, s.db.addresses, fixed, k);
    }
    SameRows(x.db.deposits, y.db.deposits);
  }

  ghost predicate AllKnownIn(log: seq<Event>, book: seq<AddressRow>, fixed: bool, w: WalletId) {
    forall i :: 0 <= i < |log| && log[i].DepositEvent? ==> Known(book, fixed, w, log[i])
  }

  /** What a settled row is, when owners are known. */
  lemma SettledRow(s: Sys, book: seq<AddressRow>, fixed: bool, k: DepositKey)
    requires SyncInv(s) && OwnersInv(s, book, fixed) && Settled(s, k.wallet) && NoneDiffers(s, k)
    requires AllKnownIn(Log(s, k.wallet), book, fixed, k.wallet)
    ensures Find(s.db.deposits, k) ==
      if LastEvent(s, k).Some? && WellFormed(RequestOf(k.wallet, LastEvent(s, k).value))
      then Some(RowFor(RequestOf(k.wallet, LastEvent(s, k).value), Looked(book, k.wallet, LastEvent(s, k).value))) else None
  {
    HeldFromInv(s, k);
    if LastEvent(s, k).Some? {
      var last := LastEvent(s, k).value;
      SettledOwner(s, book, fixed, k);
      assert last in Log(s, k.wallet);
      HeldRow(s.db.deposits[k], book, fixed, k.wallet, last);
    }
  }

  /** A row that holds an event with a known owner is the row that the event writes. */
  lemma HeldRow(row: Deposit, book: seq<AddressRow>, fixed: bool, w: WalletId, ev: Event)
    requires Holds(row, w, ev) && Known(book, fixed, w, ev) && OwnerAsLooked(book, fixed, w, ev, row.account)
    ensures WellFormed(RequestOf(w, ev)) && row == RowFor(RequestOf(w, ev), Looked(book, w, ev))
  {
  }

  lemma SameRows<K, V>(m: map<K, V>, n: map<K, V>)
    requires forall k :: Find(m, k) == Find(n, k)
    ensures m == n
  {
    assert forall k :: k in m <==> Find(m, k).Some?;
    assert forall k :: k in n <==> Find(n, k).Some?;
  }

  // ---------------------------------------------------------------- a row that no run will write again

  /** The cursor and every run in flight are past all events of row k. */
  ghost predicate Passed(s: Sys, k: DepositKey, c: nat) {
    && c <= CursorOf(s.db.cursors, k.wallet)
    && (forall r :: r in s.runs && s.runs[r].wallet == k.wallet ==>
          c <= s.runs[r].pos || s.runs[r].phase.Done? || s.runs[r].phase.Failed?)
    && (forall i :: c <= i < |Log(s, k.wallet)| ==> !Touches(k.wallet, Log(s, k.wallet)[i], k))
  }

  /** No event of row k is appended. */
  ghost predicate NoNews(acts: seq<Action>, k: DepositKey) {
    forall i :: 0 <= i < |acts| && acts[i].Append? && acts[i].w == k.wallet ==> !Touches(k.wallet, acts[i].ev, k)
  }

  lemma PassedStep(keys: Keys, s: Sys, act: Action, k: DepositKey, c: nat)
    requires Passed(s, k, c) && Next(keys, s, act).Some?
    requires act.Append? && act.w == k.wallet ==> !Touches(k.wallet, act.ev, k)
    ensures Passed(Next(keys, s, act).value, k, c)
    ensures Find(Next(keys, s, act).value.db.deposits, k) == Find(s.db.deposits, k)
  {
    var s' := Next(keys, s, act).value;
    if act.Append? {
      assert Log(s', k.wallet) == if act.w == k.wallet then Log(s, k.wallet) + [act.ev] else Log(s, k.wallet);
    } else if act.Start? {
      assert Log(s', k.wallet) == Log(s, k.wallet);
    } else if RunNext(s, act).Some? {
      PassedRun(s, act, k, c);
    } else {
      TableStepFrame(keys, s, act);
      assert Log(s', k.wallet) == Log(s, k.wallet);
    }
  }

  lemma PassedRun(s: Sys, act: Action, k: DepositKey, c: nat)
    requires Passed(s, k, c) && RunNext(s, act).Some?
    ensures Passed(RunNext(s, act).value, k, c)
    ensures Find(RunNext(s, act).value.db.deposits, k) == Find(s.db.deposits, k)
  {
    var s' := RunNext(s, act).value;
    assert s'.logs == s.logs && Log(s', k.wallet) == Log(s, k.wallet);
    if act.Commit? {
      CommittedOwner(s.db, RequestOf(s.runs[act.r].wallet, Current(s, act.r).value), s.runs[act.r].phase.looked);
    }
  }

  /** A row whose events all lie before the cursor and before every run in flight stays as it is, right or
      wrong, whatever happens next, until a new event of it is appended. */
  lemma {:induction false} RowStays(keys: Keys, s: Sys, acts: seq<Action>, k: DepositKey, c: nat)
    requires Passed(s, k, c) && Execute(keys, s, acts).Some? && NoNews(acts, k)
    ensures Find(Execute(keys, s, acts).value.db.deposits, k) == Find(s.db.deposits, k)
    decreases |acts|
  {
    if acts != [] {
      assert acts[0].Append? && acts[0].w == k.wallet ==> !Touches(k.wallet, acts[0].ev, k);
      PassedStep(keys, s, acts[0], k, c);
      assert forall i :: 0 <= i < |acts[1..]| ==> acts[1..][i] == acts[i + 1];
      RowStays(keys, Next(keys, s, acts[0]).value, acts[1..], k, c);
    }
  }
}
