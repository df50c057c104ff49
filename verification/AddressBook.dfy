/** The index allocator: which account holds which external index of which wallet, and the
    two lookups that the ledger's attribution rests on. */
module AddressBook {
  import opened Results
  import opened Ints
  import opened Ledger

  /** Inserts a wallet at index 0, or replaces its key and path and leaves its indices alone. */
  function UpsertWallet(db: DB, w: WalletId, ufvk: string, seedPath: string): Result<DB, Error> {
    if w == "" || ufvk == "" || seedPath == "" then Err(InvalidRequest)
    else if w in db.wallets then
      Ok(db.(wallets := db.wallets[w := db.wallets[w].(ufvk := ufvk, seedPath := seedPath)]))
    else Ok(db.(wallets := db.wallets[w := Wallet(ufvk, seedPath, 0, 0)]))
  }

  function RowByAccount(book: seq<AddressRow>, a: AccountId, w: WalletId): (r: Option<AddressRow>)
    ensures r.Some? ==> r.value in book && r.value.account == a && r.value.wallet == w
    ensures r.None? ==> forall row :: row in book ==> !(row.account == a && row.wallet == w)
  {
    FirstRow(book, (row: AddressRow) => row.account == a && row.wallet == w)
  }

  type Derive = int -> Option<string>

  /** The transaction of GetOrAssignDepositAddress. The table's two keys, (account, wallet, scope)
      and (wallet, scope, index), refuse a second row. */
  function AssignTx(db: DB, a: AccountId, w: WalletId, derive: Derive): Result<DB, Error> {
    if a !in db.accounts then Err(AccountNotFound)
    else if w !in db.wallets then Err(WalletNotInitialized)
    else
      var next := db.wallets[w].nextExternal;
      if next < 0 || next > MAX_U32 then Err(InvalidWalletIndex)
      else if derive(next).None? || derive(next).value == "" then Err(DeriveFailed)
      else if RowByAccount(db.addresses, a, w).Some? || RowByIndex(db.addresses, w, next).Some? then Err(Conflict)
      else Ok(db.(
        addresses := db.addresses + [AddressRow(a, w, next, derive(next).value)],
        wallets := db.wallets[w := db.wallets[w].(nextExternal := next + 1)]))
  }

  /** GetOrAssignDepositAddress: the stored address when there is one, else a new one. */
  function GetOrAssign(db: DB, a: AccountId, w: WalletId, derive: Derive): Result<(DB, string), Error> {
    if a == "" || w == "" then Err(InvalidRequest) else
    match RowByAccount(db.addresses, a, w)
    case Some(row) => Ok((db, row.address))
    case None =>
      match AssignTx(db, a, w, derive)
      case Err(e) => Err(e)
      case Ok(db') => Ok((db', db'.addresses[|db'.addresses| - 1].address))
  }

  function NextInternal(db: DB, w: WalletId, derive: Derive): Result<(DB, string), Error> {
    if w == "" then Err(InvalidRequest)
    else if w !in db.wallets then Err(WalletNotInitialized)
    else
      var next := db.wallets[w].nextInternal;
      if next < 0 || next > MAX_U32 then Err(InvalidWalletIndex)
      else if derive(next).None? || derive(next).value == "" then Err(DeriveFailed)
      else Ok((db.(wallets := db.wallets[w := db.wallets[w].(nextInternal := next + 1)]), derive(next).value))
  }

  // ---------------------------------------------------------------- what the transactions write, field by field

  /** The wallet gets the key and path given; a new one starts at index 0, an old one keeps its indices. */
  lemma UpsertFields(db: DB, w: WalletId, ufvk: string, seedPath: string)
    ensures UpsertWallet(db, w, ufvk, seedPath).Ok? <==> w != "" && ufvk != "" && seedPath != ""
    ensures UpsertWallet(db, w, ufvk, seedPath).Ok? ==>
      var db' := UpsertWallet(db, w, ufvk, seedPath).value;
      && db' == db.(wallets := db'.wallets)
      && db'.wallets.Keys == db.wallets.Keys + {w}
      && (forall x :: x in db.wallets && x != w ==> db'.wallets[x] == db.wallets[x])
      && db'.wallets[w].ufvk == ufvk && db'.wallets[w].seedPath == seedPath
      && db'.wallets[w].nextExternal == (if w in db.wallets then db.wallets[w].nextExternal else 0)
      && db'.wallets[w].nextInternal == (if w in db.wallets then db.wallets[w].nextInternal else 0)
  {
  }

  predicate IndexLeft(counter: int) { 0 <= counter <= 0xFFFF_FFFF }

  /** The wallet's counter is a usable index and its address can be derived. */
  predicate CanDerive(counter: int, derive: Derive) {
    IndexLeft(counter) && derive(counter).Some? && derive(counter).value != ""
  }

  /** An account's first request gets the address at the wallet's old external counter, in a row of its own,
      and the counter moves up by one; nothing else changes. */
  lemma FirstRequestFields(db: DB, a: AccountId, w: WalletId, derive: Derive)
    requires forall row :: row in db.addresses ==> !(row.account == a && row.wallet == w)
    requires GetOrAssign(db, a, w, derive).Ok?
    ensures w in db.wallets && a in db.accounts && CanDerive(db.wallets[w].nextExternal, derive)
    ensures var (db', address) := GetOrAssign(db, a, w, derive).value;
      var next := db.wallets[w].nextExternal;
      && derive(next) == Some(address)
      && db' == db.(addresses := db'.addresses, wallets := db'.wallets)
      && |db'.addresses| == |db.addresses| + 1 && db.addresses <= db'.addresses
      && db'.addresses[|db.addresses|].account == a && db'.addresses[|db.addresses|].wallet == w
      && db'.addresses[|db.addresses|].index == next && db'.addresses[|db.addresses|].address == address
      && MovedUp(db.wallets, db'.wallets, w, 1, 0)
  {
    assert RowByAccount(db.addresses, a, w).None?;
  }

  /** Which problem a first request meets first. */
  lemma FirstRequestErrors(db: DB, a: AccountId, w: WalletId, derive: Derive)
    requires forall row :: row in db.addresses ==> !(row.account == a && row.wallet == w)
    ensures var res := GetOrAssign(db, a, w, derive);
      var named := a != "" && w != "";
      var known := named && a in db.accounts && w in db.wallets;
      && (!named <==> res == Err(InvalidRequest))
      && (named && a !in db.accounts <==> res == Err(AccountNotFound))
      && (named && a in db.accounts && w !in db.wallets <==> res == Err(WalletNotInitialized))
      && (known && !IndexLeft(db.wallets[w].nextExternal) <==> res == Err(InvalidWalletIndex))
      && (known && IndexLeft(db.wallets[w].nextExternal) && !CanDerive(db.wallets[w].nextExternal, derive) <==> res == Err(DeriveFailed))
  {
    assert RowByAccount(db.addresses, a, w).None?;
  }

  /** An index that some row of the wallet holds already is refused. */
  lemma IndexTaken(db: DB, a: AccountId, w: WalletId, derive: Derive, taken: AddressRow)
    requires a in db.accounts && w in db.wallets && CanDerive(db.wallets[w].nextExternal, derive)
    requires taken in db.addresses && taken.wallet == w && taken.index == db.wallets[w].nextExternal
    ensures AssignTx(db, a, w, derive) == Err(Conflict)
  {
  }

  lemma InternalErrors(db: DB, w: WalletId, derive: Derive)
    ensures var res := NextInternal(db, w, derive);
      && (w == "" <==> res == Err(InvalidRequest))
      && (w != "" && w !in db.wallets <==> res == Err(WalletNotInitialized))
      && (w != "" && w in db.wallets && !IndexLeft(db.wallets[w].nextInternal) <==> res == Err(InvalidWalletIndex))
  {
  }

  /** Only the counters of one wallet moved, up by the given steps. */
  ghost predicate MovedUp(before: map<WalletId, Wallet>, after: map<WalletId, Wallet>, w: WalletId, external: int, internal': int) {
    && w in before && after.Keys == before.Keys
    && (forall x :: x in before && x != w ==> after[x] == before[x])
    && after[w].ufvk == before[w].ufvk && after[w].seedPath == before[w].seedPath
    && after[w].nextExternal == before[w].nextExternal + external
    && after[w].nextInternal == before[w].nextInternal + internal'
  }

  /** A later request returns the address of the account's first row and changes nothing. */
  lemma LaterRequestFields(db: DB, a: AccountId, w: WalletId, derive: Derive, p: nat)
    requires a != "" && w != "" && p < |db.addresses| && db.addresses[p].account == a && db.addresses[p].wallet == w
    requires forall q :: 0 <= q < p ==> !(db.addresses[q].account == a && db.addresses[q].wallet == w)
    ensures GetOrAssign(db, a, w, derive) == Ok((db, db.addresses[p].address))
  {
    FirstRowAt(db.addresses, (row: AddressRow) => row.account == a && row.wallet == w, p);
  }

  /** NextInternalAddress hands out the address at the wallet's old internal counter and moves it up by one. */
  lemma InternalFields(db: DB, w: WalletId, derive: Derive)
    ensures NextInternal(db, w, derive).Ok? <==> w != "" && w in db.wallets && CanDerive(db.wallets[w].nextInternal, derive)
    ensures NextInternal(db, w, derive).Ok? ==>
      var (db', address) := NextInternal(db, w, derive).value;
      && derive(db.wallets[w].nextInternal) == Some(address)
      && db' == db.(wallets := db'.wallets)
      && MovedUp(db.wallets, db'.wallets, w, 0, 1)
  {
  }

  // ---------------------------------------------------------------- the allocator's invariant

  /** The external indices in use in a wallet are exactly those below its counter. */
  ghost predicate IndicesExact(db: DB) {
    && (forall row :: row in db.addresses ==> row.wallet in db.wallets)
    && (forall w :: w in db.wallets ==> 0 <= db.wallets[w].nextExternal <= MAX_U32 + 1)
    && (forall w, i :: w in db.wallets ==>
         (RowByIndex(db.addresses, w, i).Some? <==> 0 <= i < db.wallets[w].nextExternal))
  }

  /** No account has two rows in a wallet and no index of a wallet has two rows. */
  ghost predicate KeysUnique(book: seq<AddressRow>) {
    forall p, q :: 0 <= p < q < |book| && book[p].wallet == book[q].wallet ==>
      book[p].account != book[q].account && book[p].index != book[q].index
  }

  ghost predicate BookInv(db: DB) {
    IndicesExact(db) && KeysUnique(db.addresses)
  }

  /** A query answered by a book is answered alike by every longer one. */
  lemma {:induction false} FirstRowStays(book: seq<AddressRow>, longer: seq<AddressRow>, query: AddressRow -> bool)
    requires book <= longer && FirstRow(book, query).Some?
    ensures FirstRow(longer, query) == FirstRow(book, query)
    decreases |book|
  {
    if !query(book[0]) {
      FirstRowStays(book[1..], longer[1..], query);
    }
  }

  lemma IndexAppend(book: seq<AddressRow>, row: AddressRow, w: WalletId, i: int)
    ensures RowByIndex(book + [row], w, i).Some? <==> RowByIndex(book, w, i).Some? || (row.wallet == w && row.index == i)
  {
    var longer := book + [row];
    assert row in longer;
    assert forall x :: x in book ==> x in longer;
  }

  lemma UpsertKeepsBook(db: DB, w: WalletId, ufvk: string, seedPath: string)
    requires BookInv(db) && UpsertWallet(db, w, ufvk, seedPath).Ok?
    ensures var db' := UpsertWallet(db, w, ufvk, seedPath).value;
      && BookInv(db')
      && db'.addresses == db.addresses
      && forall x :: x in db.wallets ==>
           (x in db'.wallets
           && db'.wallets[x].nextExternal == db.wallets[x].nextExternal
           && db'.wallets[x].nextInternal == db.wallets[x].nextInternal)
  {
    UpsertIndices(db, w, ufvk, seedPath);
  }

  lemma UpsertIndices(db: DB, w: WalletId, ufvk: string, seedPath: string)
    requires IndicesExact(db) && UpsertWallet(db, w, ufvk, seedPath).Ok?
    ensures IndicesExact(UpsertWallet(db, w, ufvk, seedPath).value)
  {
    var db' := UpsertWallet(db, w, ufvk, seedPath).value;
    forall x, i | x in db'.wallets
      ensures RowByIndex(db'.addresses, x, i).Some? <==> 0 <= i < db'.wallets[x].nextExternal
    {
      if x !in db.wallets {
        assert RowByIndex(db.addresses, x, i).None?;
      }
    }
  }

  /** In a reachable state a new assignment takes the next index and neither key refuses it. */
  lemma AssignKeepsBook(db: DB, a: AccountId, w: WalletId, derive: Derive)
    requires BookInv(db) && a in db.accounts && w in db.wallets && RowByAccount(db.addresses, a, w).None?
    ensures AssignTx(db, a, w, derive).Ok? <==>
      (db.wallets[w].nextExternal <= MAX_U32 && derive(db.wallets[w].nextExternal).Some?
       && derive(db.wallets[w].nextExternal).value != "")
    ensures AssignTx(db, a, w, derive).Ok? ==> BookInv(AssignTx(db, a, w, derive).value)
  {
    var next := db.wallets[w].nextExternal;
    assert RowByIndex(db.addresses, w, next).None?;
    if AssignTx(db, a, w, derive).Ok? {
      var db' := AssignTx(db, a, w, derive).value;
      var row := db'.addresses[|db.addresses|];
      forall x, i | x in db'.wallets
        ensures RowByIndex(db'.addresses, x, i).Some? <==> 0 <= i < db'.wallets[x].nextExternal
      {
        IndexAppend(db.addresses, row, x, i);
      }
      forall p, q | 0 <= p < q < |db'.addresses| && db'.addresses[p].wallet == db'.addresses[q].wallet
        ensures db'.addresses[p].account != db'.addresses[q].account && db'.addresses[p].index != db'.addresses[q].index
      {
        assert db'.addresses[p] in db.addresses;
      }
    }
  }

  /** The first request for an account assigns; every later one returns the same address and changes nothing. */
  lemma RepeatedRequestsAgree(db: DB, a: AccountId, w: WalletId, derive: Derive, derive': Derive)
    requires BookInv(db) && GetOrAssign(db, a, w, derive).Ok?
    ensures var (db', address) := GetOrAssign(db, a, w, derive).value;
      GetOrAssign(db', a, w, derive') == Ok((db', address))
  {
    var (db', address) := GetOrAssign(db, a, w, derive).value;
    if RowByAccount(db.addresses, a, w).None? {
      AssignKeepsBook(db, a, w, derive);
      var row := db'.addresses[|db.addresses|];
      assert row in db'.addresses;
      var found := RowByAccount(db'.addresses, a, w).value;
      var p :| 0 <= p < |db'.addresses| && db'.addresses[p] == found;
      assert p == |db.addresses|;
    }
  }

  // ---------------------------------------------------------------- who a deposit belongs to

  /** A deposit with a recipient belongs to the account of the first row with that wallet and the lower-cased
      address, and to nobody when there is none. */
  lemma OwnerByAddress(db: DB, r: DepositRequest, p: nat)
    requires ApplyDeposit(db, r).Ok? && r.recipient != "" && p <= |db.addresses|
    requires forall q :: 0 <= q < p ==> !(db.addresses[q].wallet == r.key.wallet && db.addresses[q].address == Lower(r.recipient))
    requires p < |db.addresses| ==> db.addresses[p].wallet == r.key.wallet && db.addresses[p].address == Lower(r.recipient)
    ensures r.key in ApplyDeposit(db, r).value.deposits
    ensures ApplyDeposit(db, r).value.deposits[r.key].account == if p < |db.addresses| then db.addresses[p].account else ""
  {
    var query := (row: AddressRow) => row.wallet == r.key.wallet && row.address == Lower(r.recipient);
    if p < |db.addresses| {
      FirstRowAt(db.addresses, query, p);
    } else {
      assert forall row :: row in db.addresses ==> !query(row);
    }
  }

  /** A mapping without an account refuses the deposit; the book of a reachable state has none. */
  lemma EmptyMapping(db: DB, r: DepositRequest, p: nat)
    requires WellFormed(r) && r.recipient != "" && p < |db.addresses|
    requires db.addresses[p].wallet == r.key.wallet && db.addresses[p].address == Lower(r.recipient) && db.addresses[p].account == ""
    requires forall q :: 0 <= q < p ==> !(db.addresses[q].wallet == r.key.wallet && db.addresses[q].address == Lower(r.recipient))
    ensures ApplyDeposit(db, r) == Err(InvalidMapping) && !LedgerInv(db)
  {
    FirstRowAt(db.addresses, (row: AddressRow) => row.wallet == r.key.wallet && row.address == Lower(r.recipient), p);
    assert db.addresses[p] in db.addresses;
  }

  /** A deposit without a recipient keeps the account stored before; without one it belongs to the account
      that holds its diversifier index in its wallet, and to nobody when no account does. */
  lemma OwnerByIndex(db: DB, r: DepositRequest)
    requires BookInv(db) && LedgerInv(db) && ApplyDeposit(db, r).Ok? && r.recipient == ""
    ensures r.key in ApplyDeposit(db, r).value.deposits
    ensures var owner := ApplyDeposit(db, r).value.deposits[r.key].account;
      var stored := if r.key in db.deposits then db.deposits[r.key].account else "";
      && (stored != "" ==> owner == stored)
      && (stored == "" ==>
           && (forall row :: row in db.addresses && row.wallet == r.key.wallet && row.index == r.diversifier ==> owner == row.account)
           && ((forall row :: row in db.addresses ==> !(row.wallet == r.key.wallet && row.index == r.diversifier)) ==> owner == ""))
  {
    forall row | row in db.addresses && row.wallet == r.key.wallet && row.index == r.diversifier
      ensures RowByIndex(db.addresses, r.key.wallet, r.diversifier) == Some(row)
    {
      var found := RowByIndex(db.addresses, r.key.wallet, r.diversifier).value;
      var p :| 0 <= p < |db.addresses| && db.addresses[p] == found;
      var q :| 0 <= q < |db.addresses| && db.addresses[q] == row;
      assert p == q;
    }
  }

  // ---------------------------------------------------------------- the lookups

  /** The lookup by index always inverts the assignment. */
  lemma IndexLookupInverts(db: DB, row: AddressRow)
    requires BookInv(db) && LedgerInv(db) && row in db.addresses && row.wallet != ""
    ensures AccountForDiversifierIndex(db.addresses, row.wallet, row.index) == Ok(Some(row.account))
  {
    var found := RowByIndex(db.addresses, row.wallet, row.index).value;
    var p :| 0 <= p < |db.addresses| && db.addresses[p] == found;
    var q :| 0 <= q < |db.addresses| && db.addresses[q] == row;
    assert p == q;
  }

  ghost predicate AddressLookupInverts(db: DB, w: WalletId) {
    forall row :: row in db.addresses && row.wallet == w ==>
      AccountForRecipientAddress(db.addresses, w, row.address) == Ok(Some(row.account))
  }

  /** Stored addresses are lower-case, non-empty, and no two rows of the wallet share one. */
  ghost predicate AddressesDistinct(book: seq<AddressRow>, w: WalletId) {
    && (forall row :: row in book && row.wallet == w ==> row.address != "" && Lower(row.address) == row.address)
    && (forall p, q :: 0 <= p < q < |book| && book[p].wallet == w && book[q].wallet == w ==>
         book[p].address != book[q].address)
  }

  /** The lookup by address inverts the assignment exactly when the stored addresses are lower-case
      and distinct: the lookup lower-cases its argument, the assignment stores what was derived. */
  lemma AddressLookupInvertsIff(db: DB, w: WalletId)
    requires BookInv(db) && LedgerInv(db) && w != ""
    ensures AddressLookupInverts(db, w) <==> AddressesDistinct(db.addresses, w)
  {
    var book := db.addresses;
    if AddressesDistinct(book, w) {
      forall row | row in book && row.wallet == w
        ensures AccountForRecipientAddress(book, w, row.address) == Ok(Some(row.account))
      {
        var p :| 0 <= p < |book| && book[p] == row;
        var found := RowByAddress(book, w, row.address).value;
        var q :| 0 <= q < |book| && book[q] == found;
        assert p == q;
      }
    }
    if AddressLookupInverts(db, w) {
      forall row | row in book && row.wallet == w
        ensures row.address != "" && Lower(row.address) == row.address
      {
        LookedUpRow(db, w, row);
      }
      forall p, q | 0 <= p < q < |book| && book[p].wallet == w && book[q].wallet == w
        ensures book[p].address != book[q].address
      {
        assert book[p] in book && book[q] in book;
      }
    }
  }

  /** When the lookup of a row's address answers its account, it found that very row. */
  lemma LookedUpRow(db: DB, w: WalletId, row: AddressRow)
    requires BookInv(db) && LedgerInv(db) && w != "" && row in db.addresses && row.wallet == w
    requires AccountForRecipientAddress(db.addresses, w, row.address) == Ok(Some(row.account))
    ensures row.address != "" && Lower(row.address) == row.address
  {
    var book := db.addresses;
    var found := RowByAddress(book, w, Lower(row.address)).value;
    var p :| 0 <= p < |book| && book[p] == row;
    var q :| 0 <= q < |book| && book[q] == found;
    assert book[p].account == book[q].account;
    assert p == q;
  }

  /** What a wallet key derives. */
  type Keys = string -> Derive

  /** Every address of the wallet was derived from one of the given keys, at its row's index. */
  ghost predicate DerivedBy(book: seq<AddressRow>, w: WalletId, keys: Keys, used: set<string>) {
    forall row :: row in book && row.wallet == w ==>
      row.address != "" && exists u :: u in used && keys(u)(row.index) == Some(row.address)
  }

  /** Equal addresses come from the same index, whatever the key. */
  ghost predicate IndicesApart(keys: Keys, used: set<string>) {
    forall u, v, i, j ::
      u in used && v in used && keys(u)(i).Some? && keys(v)(j).Some? && keys(u)(i).value == keys(v)(j).value ==> i == j
  }

  /** Derived addresses are lower-case and keep indices apart. */
  ghost predicate LowerInjective(keys: Keys, used: set<string>) {
    && (forall u, i :: u in used && keys(u)(i).Some? ==> Lower(keys(u)(i).value) == keys(u)(i).value)
    && IndicesApart(keys, used)
  }

  /** With lower-case derivations that keep indices apart both lookups invert the assignment, so they agree. */
  lemma LookupsAgree(db: DB, w: WalletId, keys: Keys, used: set<string>, row: AddressRow)
    requires BookInv(db) && LedgerInv(db) && w != ""
    requires DerivedBy(db.addresses, w, keys, used) && LowerInjective(keys, used)
    requires row in db.addresses && row.wallet == w
    ensures AccountForRecipientAddress(db.addresses, w, row.address) == Ok(Some(row.account))
    ensures AccountForDiversifierIndex(db.addresses, w, row.index) == Ok(Some(row.account))
  {
    var book := db.addresses;
    forall p, q | 0 <= p < q < |book| && book[p].wallet == w && book[q].wallet == w
      ensures book[p].address != book[q].address
    {
      assert book[p] in book && book[q] in book;
    }
    AddressLookupInvertsIff(db, w);
    IndexLookupInverts(db, row);
  }
}
