/** Any number of syncWallet runs, in several processes, interleaved with each other and with the
    store's other transactions over one database. The scanner's logs only grow. A run's position is
    its cursor plus the events of its page already handled; positions stand for event ids. */
module Protocol {
  import opened Results
  import opened Ints
  import opened Ledger
  import opened AddressBook
  import opened Sync
  import opened Replay

  /** Where a run stands: about to fetch, inside a page, between the owner lookup and the transaction,
      about to save its cursor after an empty page, finished, or stopped by an error or a crash. */
  datatype Phase =
    | Fetching
    | Applying(pageEnd: nat)
    | Committing(pageEnd: nat, looked: AccountId)
    | Saving
    | Done
    | Failed

  datatype Run = Run(wallet: WalletId, pos: nat, phase: Phase)

  /** What happened so far; no action reads it. Per wallet the events handled and the furthest position
      of any run, per row the event that wrote it last and the run that did, per run where it started, per
      wallet the internal indices taken and the addresses handed out for them. */
  datatype History = History(
    handled: set<(WalletId, nat)>,
    reached: map<WalletId, nat>,
    written: map<DepositKey, nat>,
    writer: map<DepositKey, nat>,
    started: map<nat, nat>,
    internals: map<WalletId, seq<int>>,
    handed: map<WalletId, seq<string>>)

  datatype Sys = Sys(db: DB, logs: map<WalletId, seq<Event>>, runs: map<nat, Run>, h: History)

  datatype Action =
    | Append(w: WalletId, ev: Event)
    | Start(r: nat, w: WalletId)
    | Fetch(r: nat, pageEnd: nat)
    | FetchEmpty(r: nat)
    | Skip(r: nat)
    | Lookup(r: nat)
    | Commit(r: nat)
    | Save(r: nat)
    | Fail(r: nat)
    | NewAccount(id: AccountId)
    | NewWallet(w: WalletId, ufvk: string, seedPath: string)
    | Assign(a: AccountId, w: WalletId, ufvk: string)
    | HandOut(w: WalletId, ufvk: string)
    | Debit(id: string, a: AccountId, w: WalletId, to: string, amount: int64, fee: int64, txid: string)

  function Log(s: Sys, w: WalletId): seq<Event> {
    if w in s.logs then s.logs[w] else []
  }

  function Reached(s: Sys, w: WalletId): nat {
    if w in s.h.reached then s.h.reached[w] else 0
  }

  function Internals(s: Sys, w: WalletId): seq<int> {
    if w in s.h.internals then s.h.internals[w] else []
  }

  function Handed(s: Sys, w: WalletId): seq<string> {
    if w in s.h.handed then s.h.handed[w] else []
  }

  /** The run moves past the event at its position. */
  function Advance(s: Sys, r: nat, pageEnd: nat): Sys
    requires r in s.runs
  {
    var run := s.runs[r];
    var next := run.pos + 1;
    s.(runs := s.runs[r := Run(run.wallet, next, if next < pageEnd then Applying(pageEnd) else Fetching)],
       h := s.h.(handled := s.h.handled + {(run.wallet, run.pos)},
                 reached := s.h.reached[run.wallet := if Reached(s, run.wallet) < next then next else Reached(s, run.wallet)]))
  }

  predicate InPhase(s: Sys, r: nat, p: Phase) {
    r in s.runs && s.runs[r].phase == p
  }

  function WithPhase(s: Sys, r: nat, p: Phase): Sys
    requires r in s.runs
  {
    s.(runs := s.runs[r := s.runs[r].(phase := p)])
  }

  /** The event a run is at. */
  function Current(s: Sys, r: nat): Option<Event>
    requires r in s.runs
  {
    var log := Log(s, s.runs[r].wallet);
    if s.runs[r].pos < |log| then Some(log[s.runs[r].pos]) else None
  }

  /** A new run reads its wallet's cursor. */
  function Started(s: Sys, r: nat, w: WalletId): Sys {
    s.(db := Opened(s.db, w),
       runs := s.runs[r := Run(w, CursorOf(s.db.cursors, w), Fetching)],
       h := s.h.(started := s.h.started[r := CursorOf(s.db.cursors, w)]))
  }

  function RunNext(s: Sys, act: Action): Option<Sys> {
    match act
    case Fetch(r, pageEnd) =>
      if InPhase(s, r, Fetching) && s.runs[r].pos < pageEnd <= s.runs[r].pos + 200
         && pageEnd <= |Log(s, s.runs[r].wallet)|
      then Some(WithPhase(s, r, Applying(pageEnd))) else None
    case FetchEmpty(r) =>
      if InPhase(s, r, Fetching) && |Log(s, s.runs[r].wallet)| <= s.runs[r].pos
      then Some(WithPhase(s, r, Saving)) else None
    case Skip(r) =>
      if r in s.runs && s.runs[r].phase.Applying? && Current(s, r) == Some(Event.Other)
      then Some(Advance(s, r, s.runs[r].phase.pageEnd)) else None
    case Lookup(r) =>
      if r in s.runs && s.runs[r].phase.Applying? && Current(s, r).Some? && Current(s, r).value.DepositEvent? then
        var req := RequestOf(s.runs[r].wallet, Current(s, r).value);
        if WellFormed(req) && LookedUpOwner(s.db.addresses, req).Ok?
        then Some(WithPhase(s, r, Committing(s.runs[r].phase.pageEnd, LookedUpOwner(s.db.addresses, req).value)))
        else None
      else None
    case Commit(r) =>
      if r in s.runs && s.runs[r].phase.Committing? && Current(s, r).Some? && Current(s, r).value.DepositEvent? then
        var req := RequestOf(s.runs[r].wallet, Current(s, r).value);
        if WellFormed(req) && ApplyTx(s.db, req, s.runs[r].phase.looked).Ok? then
          var s' := Advance(s, r, s.runs[r].phase.pageEnd);
          Some(s'.(db := ApplyTx(s.db, req, s.runs[r].phase.looked).value,
                   h := s'.h.(written := s'.h.written[req.key := s.runs[r].pos], writer := s'.h.writer[req.key := r])))
        else None
      else None
    case Save(r) =>
      if InPhase(s, r, Saving)
      then Some(WithPhase(s, r, Done).(db := s.db.(cursors := s.db.cursors[s.runs[r].wallet := s.runs[r].pos])))
      else None
    case Fail(r) =>
      if r in s.runs && !s.runs[r].phase.Done? && !s.runs[r].phase.Failed? then Some(WithPhase(s, r, Failed)) else None
    case _ => None
  }

  function TableNext(keys: Keys, s: Sys, act: Action): Option<Sys> {
    match act
    case NewAccount(id) =>
      if id == "" || CreateAccount(s.db, id).Err? then None else Some(s.(db := CreateAccount(s.db, id).value))
    case NewWallet(w, ufvk, seedPath) =>
      if UpsertWallet(s.db, w, ufvk, seedPath).Err? then None else Some(s.(db := UpsertWallet(s.db, w, ufvk, seedPath).value))
    case Assign(a, w, ufvk) =>
      if AssignTx(s.db, a, w, keys(ufvk)).Err? then None else Some(s.(db := AssignTx(s.db, a, w, keys(ufvk)).value))
    case HandOut(w, ufvk) =>
      if NextInternal(s.db, w, keys(ufvk)).Err? then None
      else Some(s.(db := NextInternal(s.db, w, keys(ufvk)).value.0,
                   h := s.h.(internals := s.h.internals[w := Internals(s, w) + [s.db.wallets[w].nextInternal]],
                             handed := s.h.handed[w := Handed(s, w) + [NextInternal(s.db, w, keys(ufvk)).value.1]])))
    case Debit(id, a, w, to, amount, fee, txid) =>
      if Withdraw(s.db, id, a, w, to, amount, fee, txid).Err? then None
      else Some(s.(db := Withdraw(s.db, id, a, w, to, amount, fee, txid).value))
    case _ => None
  }

  /** One action, None when it is not enabled. A transaction that fails is no action on the tables; its
      run stops by Fail, which may happen at any time. keys(ufvk) derives addresses; the key that an
      assignment uses was read earlier, so it may differ from the one stored by now. */
  function Next(keys: Keys, s: Sys, act: Action): Option<Sys> {
    match act
    case Append(w, ev) => Some(s.(logs := s.logs[w := Log(s, w) + [ev]]))
    case Start(r, w) =>
      if r in s.runs || w == "" then None
      else Some(Started(s, r, w))
    case _ => if RunNext(s, act).Some? then RunNext(s, act) else TableNext(keys, s, act)
  }

  function Execute(keys: Keys, s: Sys, acts: seq<Action>): Option<Sys>
    decreases |acts|
  {
    if acts == [] then Some(s) else
    match Next(keys, s, acts[0])
    case None => None
    case Some(s') => Execute(keys, s', acts[1..])
  }

  /** Accounts, wallets and addresses may exist; nothing has been synced or handed out. */
  ghost predicate Initial(s: Sys) {
    && LedgerInv(s.db) && BookInv(s.db)
    && s.db.deposits == map[] && s.db.cursors == map[]
    && (forall w :: w in s.db.wallets ==> s.db.wallets[w].nextInternal == 0)
    && s.logs == map[] && s.runs == map[] && s.h == History({}, map[], map[], map[], map[], map[], map[])
  }

  // ---------------------------------------------------------------- conservation and the allocator, over all runs

  lemma LedgerUntouched(db: DB, db': DB)
    requires LedgerInv(db)
    requires db'.accounts == db.accounts && db'.balances == db.balances && db'.deposits == db.deposits
    requires db'.withdrawals == db.withdrawals && db'.addresses == db.addresses
    ensures LedgerInv(db')
  {
  }

  lemma BookUntouched(db: DB, db': DB)
    requires BookInv(db) && db'.wallets == db.wallets && db'.addresses == db.addresses
    ensures BookInv(db')
  {
  }

  lemma AssignKeepsLedger(db: DB, a: AccountId, w: WalletId, derive: Derive)
    requires LedgerInv(db) && AssignTx(db, a, w, derive).Ok?
    ensures LedgerInv(AssignTx(db, a, w, derive).value)
  {
  }

  lemma HandOutKeepsBook(db: DB, w: WalletId, derive: Derive)
    requires BookInv(db) && NextInternal(db, w, derive).Ok?
    ensures BookInv(NextInternal(db, w, derive).value.0)
  {
  }

  /** A run's own actions touch the tables only in Commit, and the cursors in Save. */
  lemma RunFrame(s: Sys, act: Action)
    requires RunNext(s, act).Some? && !act.Commit?
    ensures var s' := RunNext(s, act).value;
      s'.db == s.db.(cursors := s'.db.cursors) && s'.h.internals == s.h.internals
  {
  }

  lemma CommitLedger(s: Sys, r: nat)
    requires LedgerInv(s.db) && RunNext(s, Commit(r)).Some?
    ensures LedgerInv(RunNext(s, Commit(r)).value.db)
  {
    ApplyTxKeepsLedger(s.db, RequestOf(s.runs[r].wallet, Current(s, r).value), s.runs[r].phase.looked);
  }

  lemma TableLedger(keys: Keys, s: Sys, act: Action)
    requires LedgerInv(s.db) && TableNext(keys, s, act).Some?
    ensures LedgerInv(TableNext(keys, s, act).value.db)
  {
    if act.NewAccount? {
      CreateAccountKeepsLedger(s.db, act.id);
    } else if act.Assign? {
      AssignKeepsLedger(s.db, act.a, act.w, keys(act.ufvk));
    } else if act.Debit? {
      WithdrawKeepsLedger(s.db, act.id, act.a, act.w, act.to, act.amount, act.fee, act.txid);
    } else {
      LedgerUntouched(s.db, TableNext(keys, s, act).value.db);
    }
  }

  lemma LedgerStep(keys: Keys, s: Sys, act: Action)
    requires LedgerInv(s.db) && Next(keys, s, act).Some?
    ensures LedgerInv(Next(keys, s, act).value.db)
  {
    if act.Commit? {
      CommitLedger(s, act.r);
    } else if act.Append? || act.Start? {
      LedgerUntouched(s.db, Next(keys, s, act).value.db);
    } else if RunNext(s, act).Some? {
      RunFrame(s, act);
      LedgerUntouched(s.db, RunNext(s, act).value.db);
    } else {
      TableLedger(keys, s, act);
    }
  }

  lemma BookStep(keys: Keys, s: Sys, act: Action)
    requires BookInv(s.db) && Next(keys, s, act).Some?
    ensures BookInv(Next(keys, s, act).value.db)
  {
    var s' := Next(keys, s, act).value;
    match act {
      case NewWallet(w, ufvk, seedPath) => UpsertKeepsBook(s.db, w, ufvk, seedPath);
      case Assign(a, w, ufvk) => AssignKeepsBook(s.db, a, w, keys(ufvk));
      case HandOut(w, ufvk) => HandOutKeepsBook(s.db, w, keys(ufvk));
      case _ => BookUntouched(s.db, s'.db);
    }
  }

  /** The internal indices handed out in a wallet are 0, 1, 2, ... up to its counter. */
  ghost predicate InternalsInv(s: Sys) {
    forall w :: Internals(s, w) == Upto(NextInternalOf(s.db, w))
  }

  function NextInternalOf(db: DB, w: WalletId): int {
    if w in db.wallets then db.wallets[w].nextInternal else 0
  }

  function Upto(n: int): seq<int> {
    seq(if n < 0 then 0 else n, i => i)
  }

  lemma InternalsStep(keys: Keys, s: Sys, act: Action)
    requires InternalsInv(s) && Next(keys, s, act).Some?
    ensures InternalsInv(Next(keys, s, act).value)
  {
    var s' := Next(keys, s, act).value;
    if act.HandOut? {
      HandOutInternals(keys, s, act.w, act.ufvk);
    } else {
      if RunNext(s, act).Some? && !act.Append? && !act.Start? && !act.Commit? {
        RunFrame(s, act);
      }
      forall w ensures Internals(s', w) == Upto(NextInternalOf(s'.db, w)) {
        assert Internals(s, w) == Upto(NextInternalOf(s.db, w));
        assert NextInternalOf(s'.db, w) == NextInternalOf(s.db, w);
      }
    }
  }

  lemma HandOutInternals(keys: Keys, s: Sys, w: WalletId, ufvk: string)
    requires InternalsInv(s) && TableNext(keys, s, HandOut(w, ufvk)).Some?
    ensures InternalsInv(TableNext(keys, s, HandOut(w, ufvk)).value)
  {
    var s' := TableNext(keys, s, HandOut(w, ufvk)).value;
    forall x ensures Internals(s', x) == Upto(NextInternalOf(s'.db, x)) {
      assert Internals(s, x) == Upto(NextInternalOf(s.db, x));
    }
  }

  /** The keys that assignments in wallet w used. */
  ghost predicate UsesOnly(acts: seq<Action>, w: WalletId, used: set<string>) {
    forall i :: 0 <= i < |acts| && acts[i].Assign? && acts[i].w == w ==> acts[i].ufvk in used
  }

  lemma DerivedStep(keys: Keys, s: Sys, act: Action, w: WalletId, used: set<string>)
    requires DerivedBy(s.db.addresses, w, keys, used) && Next(keys, s, act).Some?
    requires act.Assign? && act.w == w ==> act.ufvk in used
    ensures DerivedBy(Next(keys, s, act).value.db.addresses, w, keys, used)
  {
    var s' := Next(keys, s, act).value;
    if act.Assign? {
      var row := s'.db.addresses[|s.db.addresses|];
      assert s'.db.addresses == s.db.addresses + [row];
      assert keys(act.ufvk)(row.index) == Some(row.address);
    } else {
      assert s'.db.addresses == s.db.addresses;
    }
  }

  /** In every reachable state each balance is non-negative and equals the account's confirmed deposits
      minus its withdrawals, and the external indices of each wallet are exactly those below its counter,
      each held by one account. */
  lemma {:induction false} TablesReachable(keys: Keys, s: Sys, acts: seq<Action>)
    requires LedgerInv(s.db) && BookInv(s.db) && Execute(keys, s, acts).Some?
    ensures LedgerInv(Execute(keys, s, acts).value.db) && BookInv(Execute(keys, s, acts).value.db)
    decreases |acts|
  {
    if acts != [] {
      LedgerStep(keys, s, acts[0]);
      BookStep(keys, s, acts[0]);
      TablesReachable(keys, Next(keys, s, acts[0]).value, acts[1..]);
    }
  }

  lemma {:induction false} InternalsReachable(keys: Keys, s: Sys, acts: seq<Action>)
    requires InternalsInv(s) && Execute(keys, s, acts).Some?
    ensures InternalsInv(Execute(keys, s, acts).value)
    decreases |acts|
  {
    if acts != [] {
      InternalsStep(keys, s, acts[0]);
      InternalsReachable(keys, Next(keys, s, acts[0]).value, acts[1..]);
    }
  }

  /** No internal index of a wallet is ever handed out twice, and none is left out. */
  lemma InternalsOnce(keys: Keys, s: Sys, acts: seq<Action>, w: WalletId)
    requires Initial(s) && Execute(keys, s, acts).Some?
    ensures var given := Internals(Execute(keys, s, acts).value, w);
      && (forall i, j :: 0 <= i < j < |given| ==> given[i] != given[j])
      && (forall n :: n in given <==> 0 <= n < |given|)
  {
    InternalsReachable(keys, s, acts);
    var given := Internals(Execute(keys, s, acts).value, w);
    forall n | 0 <= n < |given| ensures n in given {
      assert given[n] == n;
    }
  }

  ghost predicate DerivedAt(keys: Keys, used: set<string>, n: int, address: string) {
    exists u :: u in used && keys(u)(n) == Some(address)
  }

  /** The n-th address handed out in the wallet was derived at index n, from one of the given keys. */
  ghost predicate HandedAt(s: Sys, w: WalletId, keys: Keys, used: set<string>) {
    && |Handed(s, w)| == (if w in s.db.wallets && s.db.wallets[w].nextInternal >= 0 then s.db.wallets[w].nextInternal else 0)
    && (w in s.db.wallets ==> s.db.wallets[w].nextInternal >= 0)
    && forall n :: 0 <= n < |Handed(s, w)| ==> DerivedAt(keys, used, n, Handed(s, w)[n])
  }

  /** The keys that the wallet's internal addresses were derived from. */
  ghost predicate HandsOnly(acts: seq<Action>, w: WalletId, used: set<string>) {
    forall i :: 0 <= i < |acts| && acts[i].HandOut? && acts[i].w == w ==> acts[i].ufvk in used
  }

  lemma HandedStep(keys: Keys, s: Sys, act: Action, w: WalletId, used: set<string>)
    requires HandedAt(s, w, keys, used) && Next(keys, s, act).Some?
    requires act.HandOut? && act.w == w ==> act.ufvk in used
    ensures HandedAt(Next(keys, s, act).value, w, keys, used)
  {
    var s' := Next(keys, s, act).value;
    if act.HandOut? {
      InternalFields(s.db, act.w, keys(act.ufvk));
      if act.w == w {
        assert DerivedAt(keys, used, |Handed(s, w)|, Handed(s', w)[|Handed(s, w)|]);
      } else {
        assert Handed(s', w) == Handed(s, w);
      }
    } else {
      HandedFrame(keys, s, act, w);
      assert Handed(s', w) == Handed(s, w);
    }
  }

  /** Wallets that were there keep their internal counter, new ones start at 0. */
  predicate SameCounter(before: map<WalletId, Wallet>, after: map<WalletId, Wallet>, w: WalletId) {
    if w in before then w in after && after[w].nextInternal == before[w].nextInternal
    else w in after ==> after[w].nextInternal == 0
  }

  lemma HandedFrame(keys: Keys, s: Sys, act: Action, w: WalletId)
    requires Next(keys, s, act).Some? && !act.HandOut?
    ensures var s' := Next(keys, s, act).value;
      s'.h.handed == s.h.handed && SameCounter(s.db.wallets, s'.db.wallets, w)
  {
    if act.Append? || act.Start? {
    } else if RunNext(s, act).Some? {
      HandedRun(s, act);
    } else {
      HandedTable(keys, s, act, w);
    }
  }

  lemma HandedRun(s: Sys, act: Action)
    requires RunNext(s, act).Some?
    ensures RunNext(s, act).value.h.handed == s.h.handed && RunNext(s, act).value.db.wallets == s.db.wallets
  {
  }

  lemma HandedTable(keys: Keys, s: Sys, act: Action, w: WalletId)
    requires TableNext(keys, s, act).Some? && !act.HandOut?
    ensures var s' := TableNext(keys, s, act).value;
      s'.h.handed == s.h.handed && SameCounter(s.db.wallets, s'.db.wallets, w)
  {
  }

  lemma {:induction false} HandedReachable(keys: Keys, s: Sys, acts: seq<Action>, w: WalletId, used: set<string>)
    requires HandedAt(s, w, keys, used) && Execute(keys, s, acts).Some? && HandsOnly(acts, w, used)
    ensures HandedAt(Execute(keys, s, acts).value, w, keys, used)
    decreases |acts|
  {
    if acts != [] {
      assert acts[0].HandOut? && acts[0].w == w ==> acts[0].ufvk in used;
      HandedStep(keys, s, acts[0], w, used);
      assert forall i :: 0 <= i < |acts[1..]| ==> acts[1..][i] == acts[i + 1];
      HandedReachable(keys, Next(keys, s, acts[0]).value, acts[1..], w, used);
    }
  }

  /** Over all runs the internal addresses handed out in a wallet are all different, when the keys used keep
      indices apart: the n-th was derived at index n. */
  lemma HandedOnce(keys: Keys, s: Sys, acts: seq<Action>, w: WalletId, used: set<string>)
    requires Initial(s) && Execute(keys, s, acts).Some? && HandsOnly(acts, w, used) && IndicesApart(keys, used)
    ensures var given := Handed(Execute(keys, s, acts).value, w);
      && (forall n :: 0 <= n < |given| ==> DerivedAt(keys, used, n, given[n]))
      && (forall m, n :: 0 <= m < n < |given| ==> given[m] != given[n])
  {
    InitialHanded(s, w, keys, used);
    HandedReachable(keys, s, acts, w, used);
    ApartDiffer(keys, used, Handed(Execute(keys, s, acts).value, w));
  }

  lemma InitialHanded(s: Sys, w: WalletId, keys: Keys, used: set<string>)
    requires Initial(s)
    ensures HandedAt(s, w, keys, used)
  {
  }

  lemma ApartDiffer(keys: Keys, used: set<string>, given: seq<string>)
    requires IndicesApart(keys, used) && forall n :: 0 <= n < |given| ==> DerivedAt(keys, used, n, given[n])
    ensures forall m, n :: 0 <= m < n < |given| ==> given[m] != given[n]
  {
    forall m, n | 0 <= m < n < |given| ensures given[m] != given[n] {
      assert DerivedAt(keys, used, m, given[m]) && DerivedAt(keys, used, n, given[n]);
    }
  }

  lemma BookGrows(keys: Keys, s: Sys, act: Action)
    requires Next(keys, s, act).Some?
    ensures s.db.addresses <= Next(keys, s, act).value.db.addresses
  {
  }

  /** Whatever happens after an account got its address, it gets the same one again, whatever would be derived now. */
  lemma {:induction false} AddressKept(keys: Keys, s: Sys, acts: seq<Action>, a: AccountId, w: WalletId, derive: Derive)
    requires a != "" && w != "" && RowByAccount(s.db.addresses, a, w).Some? && Execute(keys, s, acts).Some?
    ensures var db := Execute(keys, s, acts).value.db;
      GetOrAssign(db, a, w, derive) == Ok((db, RowByAccount(s.db.addresses, a, w).value.address))
    decreases |acts|
  {
    if acts != [] {
      var s' := Next(keys, s, acts[0]).value;
      BookGrows(keys, s, acts[0]);
      FirstRowStays(s.db.addresses, s'.db.addresses, (row: AddressRow) => row.account == a && row.wallet == w);
      AddressKept(keys, s', acts[1..], a, w, derive);
    }
  }

  lemma {:induction false} DerivedReachable(keys: Keys, s: Sys, acts: seq<Action>, w: WalletId, used: set<string>)
    requires DerivedBy(s.db.addresses, w, keys, used) && Execute(keys, s, acts).Some? && UsesOnly(acts, w, used)
    ensures DerivedBy(Execute(keys, s, acts).value.db.addresses, w, keys, used)
    decreases |acts|
  {
    if acts != [] {
      assert acts[0].Assign? && acts[0].w == w ==> acts[0].ufvk in used;
      DerivedStep(keys, s, acts[0], w, used);
      forall i | 0 <= i < |acts[1..]| && acts[1..][i].Assign? && acts[1..][i].w == w ensures acts[1..][i].ufvk in used {
        assert acts[1..][i] == acts[i + 1];
      }
      DerivedReachable(keys, Next(keys, s, acts[0]).value, acts[1..], w, used);
    }
  }

  /** From an empty store, both lookups name the account that holds an address in every reachable state, also
      when UpsertWallet replaced the wallet's key on the way, as long as the keys used derive lower-case
      addresses that differ for different indices. */
  lemma LookupsInvertEverywhere(keys: Keys, s: Sys, acts: seq<Action>, row: AddressRow, used: set<string>)
    requires s.db == EMPTY_DB && Execute(keys, s, acts).Some?
    requires row in Execute(keys, s, acts).value.db.addresses && row.wallet != ""
    requires UsesOnly(acts, row.wallet, used) && LowerInjective(keys, used)
    ensures var book := Execute(keys, s, acts).value.db.addresses;
      && AccountForRecipientAddress(book, row.wallet, row.address) == Ok(Some(row.account))
      && AccountForDiversifierIndex(book, row.wallet, row.index) == Ok(Some(row.account))
  {
    EmptyIsValid();
    TablesReachable(keys, s, acts);
    DerivedReachable(keys, s, acts, row.wallet, used);
    LookupsAgree(Execute(keys, s, acts).value.db, row.wallet, keys, used, row);
  }

  lemma EmptyIsValid()
    ensures LedgerInv(EMPTY_DB) && BookInv(EMPTY_DB)
  {
  }
}
