/** coldMaxSendable, a second computation of what SelectNotes can pay, and where the two agree. */
module ColdMax {
  import opened Results
  import opened Ints
  import opened Sums
  import opened Sorting
  import opened Notes
  import opened Selection
  import Sweep
  import Planner
  import Send

  /** The filter of coldMaxSendable: no pending-spend test, and no confirmation test when minConf is 0. */
  predicate Counted(n: Planner.WalletNote, tip: int64, minConf: int64) {
    && n.position.Some? && n.position.value >= 0
    && 0 <= n.height <= tip
    && (minConf > 0 ==> minConf <= Add64(tip - n.height, 1))
    && n.action >= 0
    && n.value > 0
  }

  function AsNote(n: Planner.WalletNote): Note
    requires n.value > 0
  {
    Note(n.txid, n.action % (MAX_U32 + 1), n.value)
  }

  function ColdNotes(raw: seq<Planner.WalletNote>, tip: int64, minConf: int64): seq<Note> {
    if raw == [] then []
    else if Counted(raw[0], tip, minConf) then [AsNote(raw[0])] + ColdNotes(raw[1..], tip, minConf)
    else ColdNotes(raw[1..], tip, minConf)
  }

  datatype Sendable = Sendable(max: int64, total: int64, count: int)

  /** The front of the notes in spending order, at most 200. */
  function Front(notes: seq<Note>): seq<Note> {
    var s := InOrder(notes);
    if |s| > Planner.MAX_NOTES_PER_TX then s[..Planner.MAX_NOTES_PER_TX] else s
  }

  ghost function MaxSendable(notes: seq<Note>): Sendable {
    var f := Front(notes);
    if Total(f) > MAX_I64 then Sendable(0, 0, 0)
    else if Total(f) > Fee(|f|, 1) then Sendable(Total(f) - Fee(|f|, 1), Total(f), |f|)
    else Sendable(0, Total(f), |f|)
  }

  /** The report in figures: the count of at most 200 notes, the sum of the first so many in spending order,
      and that sum less the fee for them, or nothing at all when the sum exceeds int64. */
  lemma ReportFigures(notes: seq<Note>, n: nat, total: int, fee: int)
    requires n <= |notes| && n <= 200 && (n == |notes| || n == 200)
    requires |InOrder(notes)| == |notes| && total == Total(InOrder(notes)[..n])
    requires fee >= 5000 * n && fee >= 10000 && (fee == 5000 * n || fee == 10000)
    ensures var res := MaxSendable(notes);
      && (total > 0x7FFF_FFFF_FFFF_FFFF ==> res.max == 0 && res.total == 0 && res.count == 0)
      && (total <= 0x7FFF_FFFF_FFFF_FFFF ==>
           res.count == n && res.total == total && res.max == (if total > fee then total - fee else 0))
  {
    assert InOrder(notes)[..|notes|] == InOrder(notes);
  }

  // ---------------------------------------------------------------- the method

  predicate Descending(a: int, b: int) { a >= b }

  function Values(s: seq<Note>): seq<int> {
    seq(|s|, i requires 0 <= i < |s| => s[i].value)
  }

  lemma {:induction false} SumOfValues(s: seq<Note>)
    ensures ListSum(Values(s)) == Total(s)
    decreases |s|
  {
    if s != [] {
      assert Values(s)[1..] == Values(s[1..]);
      SumOfValues(s[1..]);
    }
  }

  lemma {:induction false} ColdAppend(raw: seq<Planner.WalletNote>, n: Planner.WalletNote, tip: int64, minConf: int64)
    ensures ColdNotes(raw + [n], tip, minConf) == ColdNotes(raw, tip, minConf) + ColdNotes([n], tip, minConf)
    decreases |raw|
  {
    if raw == [] {
      assert raw + [n] == [n];
    } else {
      assert (raw + [n])[1..] == raw[1..] + [n];
      ColdAppend(raw[1..], n, tip, minConf);
    }
  }

  lemma NextValues(raw: seq<Planner.WalletNote>, i: nat, tip: int64, minConf: int64)
    requires i < |raw|
    ensures Values(ColdNotes(raw[..i + 1], tip, minConf)) ==
      Values(ColdNotes(raw[..i], tip, minConf)) + (if Counted(raw[i], tip, minConf) then [raw[i].value] else [])
  {
    assert raw[..i + 1] == raw[..i] + [raw[i]];
    ColdAppend(raw[..i], raw[i], tip, minConf);
    assert [raw[i]][1..] == [];
  }

  method CollectValues(raw: seq<Planner.WalletNote>, tip: int64, minConf: int64) returns (values: seq<int>)
    ensures values == Values(ColdNotes(raw, tip, minConf))
    ensures forall i :: 0 <= i < |values| ==> 0 < values[i] <= MAX_I64
  {
    values := [];
    for i := 0 to |raw|
      invariant values == Values(ColdNotes(raw[..i], tip, minConf))
      invariant forall j :: 0 <= j < |values| ==> 0 < values[j] <= MAX_I64
    {
      var n := raw[i];
      NextValues(raw, i, tip, minConf);
      if n.position.None? || n.position.value < 0 || n.height < 0 || tip < n.height {
        continue;
      }
      if minConf > 0 {
        var conf := Add64(tip - n.height, 1);
        if conf < minConf {
          continue;
        }
      }
      if n.action < 0 || n.value <= 0 {
        continue;
      }
      values := values + [n.value];
    }
    assert raw[..|raw|] == raw;
  }

  lemma {:induction false} ValuesPermute(a: seq<Note>, b: seq<Note>)
    requires multiset(a) == multiset(b)
    ensures multiset(Values(a)) == multiset(Values(b))
    decreases |a|
  {
    assert |a| == |multiset(a)| == |multiset(b)| == |b|;
    if a != [] {
      assert a[0] in multiset(b);
      var i := IndexOf(b, a[0]);
      WithoutMultiset(a, 0);
      WithoutMultiset(b, i);
      assert Without(a, 0) == a[1..];
      ValuesPermute(a[1..], Without(b, i));
      ValuesWithout(a, 0);
      ValuesWithout(b, i);
    }
  }

  lemma ValuesWithout(t: seq<Note>, p: nat)
    requires p < |t|
    ensures multiset(Values(t)) == multiset{t[p].value} + multiset(Values(Without(t, p)))
  {
    assert Values(t) == Values(t[..p]) + [t[p].value] + Values(t[p + 1..]);
    assert Values(Without(t, p)) == Values(t[..p]) + Values(t[p + 1..]);
  }

  /** Sorting the values gives the values of the sorted notes. */
  lemma ValuesInOrder(notes: seq<Note>, sorted: seq<int>)
    requires SortedBy(sorted, Descending) && multiset(sorted) == multiset(Values(notes))
    ensures sorted == Values(InOrder(notes))
  {
    InOrderSorts(notes);
    var s := InOrder(notes);
    ValuesPermute(s, notes);
    var v := Values(s);
    forall i, j | 0 <= i < j < |v| ensures Descending(v[i], v[j]) {
      assert NoteLe(s[i], s[j]);
    }
    SortedUnique(sorted, v, Descending);
  }

  /** The part of coldMaxSendable after the scanner's answer: filter, sort, keep 200, add up, take the fee. */
  method ColdMaxSendable(raw: seq<Planner.WalletNote>, tip: int64, minConf: int64) returns (res: Sendable)
    ensures res == MaxSendable(ColdNotes(raw, tip, if minConf < 0 then 0 else minConf))
  {
    if tip < 0 {
      NothingBeforeGenesis(raw, tip, if minConf < 0 then 0 else minConf);
      return Sendable(0, 0, 0);
    }
    var minconf := if minConf < 0 then 0 else minConf;
    var collected := CollectValues(raw, tip, minconf);
    ghost var notes := ColdNotes(raw, tip, minconf);
    var values := SortAndCut(notes, collected);
    ghost var front := Front(notes);
    SumOfValues(front);
    var total: int64 := 0;
    for i := 0 to |values|
      invariant total == ListSum(values[..i])
    {
      assert values[..i + 1] == values[..i] + [values[i]];
      ListSumAppend(values[..i], values[i]);
      ListSumGrows(values, i + 1);
      ListSumGrows(values, i);
      if values[i] > 0 && values[i] > MAX_I64 - total {
        return Sendable(0, 0, 0);
      }
      total := Add64(total, values[i]);
    }
    assert values[..|values|] == values;
    FeeExact(|values|, 1);
    var feeU64 := RequiredFeeSend(|values|, 1);
    var fee := feeU64.value;
    var maxAmount := 0;
    if total > fee {
      maxAmount := total - fee;
    }
    return Sendable(maxAmount, total, |values|);
  }

  lemma {:induction false} NothingBeforeGenesis(raw: seq<Planner.WalletNote>, tip: int64, minConf: int64)
    requires tip < 0
    ensures ColdNotes(raw, tip, minConf) == [] && MaxSendable(ColdNotes(raw, tip, minConf)) == Sendable(0, 0, 0)
    decreases |raw|
  {
    if raw != [] {
      NothingBeforeGenesis(raw[1..], tip, minConf);
    }
  }

  method SortAndCut(ghost notes: seq<Note>, collected: seq<int>) returns (values: seq<int>)
    requires collected == Values(notes) && forall i :: 0 <= i < |collected| ==> 0 < collected[i] <= MAX_I64
    ensures values == Values(Front(notes)) && |values| <= Planner.MAX_NOTES_PER_TX
    ensures forall i :: 0 <= i < |values| ==> 0 < values[i] <= MAX_I64
  {
    var a := new int[|collected|](i requires 0 <= i < |collected| => collected[i]);
    assert a[..] == collected;
    SortSlice(a, Descending);
    ValuesInOrder(notes, a[..]);
    values := a[..];
    forall i | 0 <= i < |values| ensures 0 < values[i] <= MAX_I64 {
      assert values[i] in multiset(collected);
    }
    if |values| > Planner.MAX_NOTES_PER_TX {
      values := values[..Planner.MAX_NOTES_PER_TX];
    }
  }

  // ---------------------------------------------------------------- the maximum agrees with the selector

  /** With one output a change output costs nothing, so a prefix passes once it covers amount and fee. */
  lemma OneOutput(m: nat)
    ensures Fee(m, 2) == Fee(m, 1)
    ensures forall total: int, amount: int :: Accepts(total, m, amount, 1) <==> total >= amount + Fee(m, 1)
  {
  }

  /** If some prefix whose value fits passes, the amount is selectable. */
  lemma SelectsPrefix(notes: seq<Note>, amount: uint64, p: nat)
    requires 0 < p <= |InOrder(notes)| && Total(InOrder(notes)[..p]) < TWO_64
    requires amount + Fee(p, 1) <= Total(InOrder(notes)[..p])
    ensures Select(notes, amount, 1).Ok?
  {
    var s := InOrder(notes);
    OneOutput(p);
    var m := FirstOf(s, amount, 1, p);
    FeeMonotone(m, p, 1);
    PrefixTotals(s, m, p);
    ChooseFirst(s, amount, 1, 0, 0, m);
  }

  /** If no prefix covers the amount and its own fee, the amount is refused. */
  lemma SelectsNothing(notes: seq<Note>, amount: uint64)
    requires Fee(|notes|, 2) < TWO_64 && |InOrder(notes)| == |notes|
    requires forall m :: 0 < m <= |notes| ==> Total(InOrder(notes)[..m]) < amount + Fee(m, 1)
    ensures Select(notes, amount, 1).Err?
  {
    forall m | 0 < m <= |notes| ensures !Accepts(Total(InOrder(notes)[..m]), m, amount, 1) {
      OneOutput(m);
    }
    ChooseNever(InOrder(notes), amount, 1, 0, 0);
  }

  lemma FrontTotal(notes: seq<Note>)
    ensures var s, l := InOrder(notes), |Front(notes)|;
      && |s| == |notes| && l <= |s| && Front(notes) == s[..l]
      && l == (if |notes| > Planner.MAX_NOTES_PER_TX then Planner.MAX_NOTES_PER_TX else |notes|)
  {
    InOrderSorts(notes);
    assert InOrder(notes)[..|notes|] == InOrder(notes);
  }

  /** Every positive amount up to the reported maximum is selectable with one output. */
  lemma MaxIsPayable(notes: seq<Note>, amount: uint64)
    requires 0 < amount <= MaxSendable(notes).max
    ensures Select(notes, amount, 1).Ok?
  {
    FrontTotal(notes);
    var s, l := InOrder(notes), |Front(notes)|;
    assert s[..0] == [];
    SelectsPrefix(notes, amount, l);
  }

  /** What prefix m of the notes in spending order can send. */
  ghost function Net(s: seq<Note>, m: nat): int
    requires m <= |s|
  {
    Total(s[..m]) - Fee(m, 1)
  }

  /** One more note adds its value less its own fee; the second note's fee is already in the floor. */
  lemma NetStep(s: seq<Note>, m: nat)
    requires m < |s|
    ensures Net(s, m + 1) == Net(s, m) + s[m].value - (if m >= 2 then FEE_PER_ACTION else 0)
  {
    TotalTake(s, m);
  }

  /** While notes are worth their fee, more notes send more. */
  lemma {:induction false} NetRises(s: seq<Note>, m: nat, l: nat)
    requires m <= l <= |s| && SortedBy(s, NoteLe)
    requires l <= 2 || s[l - 1].value >= FEE_PER_ACTION
    ensures Net(s, m) <= Net(s, l)
    decreases l - m
  {
    if m < l {
      NetStep(s, m);
      assert m < l - 1 ==> NoteLe(s[m], s[l - 1]);
      NetRises(s, m + 1, l);
    }
  }

  /** Once notes are not worth their fee, more notes send no more. */
  lemma {:induction false} NetFalls(s: seq<Note>, l: nat, m: nat)
    requires 2 <= l <= m <= |s| && SortedBy(s, NoteLe)
    requires l < |s| ==> s[l].value <= FEE_PER_ACTION
    ensures Net(s, m) <= Net(s, l) && Total(s[..m]) <= Total(s[..l]) + FEE_PER_ACTION * (m - l)
    decreases m - l
  {
    if l < m {
      NetFalls(s, l, m - 1);
      NetStep(s, m - 1);
      TotalTake(s, m - 1);
      assert l < m - 1 ==> NoteLe(s[l], s[m - 1]);
    }
  }

  /** The reported maximum is exact on the notes it counts: the last of them pays its own fee, and the
      first one left out, when there are more than 200, does not. */
  ghost predicate LastPaysNextDoesNot(notes: seq<Note>) {
    var s, l := InOrder(notes), |Front(notes)|;
    && |s| == |notes| && l <= |s|
    && (l <= 2 || s[l - 1].value >= FEE_PER_ACTION)
    && (l < |s| ==> s[l].value <= FEE_PER_ACTION)
  }

  ghost predicate LargerRefused(notes: seq<Note>) {
    forall amount: uint64 :: amount > MaxSendable(notes).max ==> Select(notes, amount, 1).Err?
  }

  /** Every amount above the counted notes' net is refused when the condition holds. */
  lemma RefusesLarger(notes: seq<Note>)
    requires LastPaysNextDoesNot(notes) && FEE_PER_ACTION * |notes| < MAX_I64 && Total(Front(notes)) <= MAX_I64
    ensures LargerRefused(notes)
  {
    FrontTotal(notes);
    InOrderSorts(notes);
    var s, l := InOrder(notes), |Front(notes)|;
    assert s[..|s|] == s;
    if l < |s| {
      NetFalls(s, l, |s|);
    }
    forall amount: uint64 | amount > MaxSendable(notes).max ensures Select(notes, amount, 1).Err? {
      forall m | 0 < m <= |s| ensures Total(s[..m]) < amount + Fee(m, 1) {
        if m <= l {
          NetRises(s, m, l);
        } else {
          NetFalls(s, l, m);
        }
      }
      SelectsNothing(notes, amount);
    }
  }

  /** A prefix that nets more than the maximum makes a larger amount selectable. */
  lemma BetterPrefix(notes: seq<Note>, m: nat)
    requires 0 < m <= |notes| && |InOrder(notes)| == |notes|
    requires Net(InOrder(notes), m) > MaxSendable(notes).max >= 0 && Total(InOrder(notes)[..m]) < TWO_64
    ensures !LargerRefused(notes)
  {
    var s := InOrder(notes);
    var amount: uint64 := Net(s, m);
    SelectsPrefix(notes, amount, m);
    assert Select(notes, amount, 1).Ok?;
  }

  /** When coldMaxSendable reports a positive maximum, it is the largest selectable amount exactly when the
      last note it counts is worth its fee and the next one is not. */
  lemma MaxIsLargestIff(notes: seq<Note>)
    requires MaxSendable(notes).max > 0 && FEE_PER_ACTION * |notes| < MAX_I64
    requires forall i :: 0 <= i < |notes| ==> notes[i].value <= MAX_I64
    ensures LargerRefused(notes) <==> LastPaysNextDoesNot(notes)
  {
    FrontTotal(notes);
    InOrderSorts(notes);
    var s, l := InOrder(notes), |Front(notes)|;
    if LastPaysNextDoesNot(notes) {
      RefusesLarger(notes);
    } else if l > 2 && s[l - 1].value < FEE_PER_ACTION {
      NetStep(s, l - 1);
      PrefixTotals(s, l - 1, l);
      BetterPrefix(notes, l - 1);
    } else {
      NetStep(s, l);
      TotalTake(s, l);
      assert s[l] in multiset(notes);
      BetterPrefix(notes, l + 1);
    }
  }

  lemma {:induction false} TotalAtMost(s: seq<Note>, v: nat)
    requires forall i :: 0 <= i < |s| ==> s[i].value <= v
    ensures Total(s) <= |s| * v
    decreases |s|
  {
    if s != [] {
      TotalAtMost(s[1..], v);
      Sweep.NextMultiple(|s| - 1, v);
    }
  }

  /** For at most 200 notes of at least 5000 each, every larger amount is refused exactly when their sum fits
      an int64: beyond that coldMaxSendable reports 0 while the selector still pays. */
  lemma LargerRefusedIffSumFits(notes: seq<Note>)
    requires |notes| <= Planner.MAX_NOTES_PER_TX
    requires forall i :: 0 <= i < |notes| ==> FEE_PER_ACTION <= notes[i].value
    ensures LargerRefused(notes) <==> Total(InOrder(notes)) <= MAX_I64
  {
    FrontTotal(notes);
    InOrderSorts(notes);
    var s := InOrder(notes);
    assert s[..|s|] == s;
    if Total(s) <= MAX_I64 {
      if |s| > 0 {
        assert s[|s| - 1] in multiset(notes);
      }
      RefusesLarger(notes);
    } else {
      assert |s| > 0;
      forall i | 0 <= i < |s| ensures s[i].value <= s[0].value {
        HeadIsLargest(s, s[i]);
      }
      TotalAtMost(s, s[0].value);
      Sweep.MulMonotone(|s|, Planner.MAX_NOTES_PER_TX, s[0].value);
      TotalTake(s, 0);
      BetterPrefix(notes, 1);
    }
  }

  /** How many notes of the front pay their own fee; the first two pay it together, as the floor. */
  function Paying(s: seq<Note>): (p: nat)
    ensures p <= |s|
    ensures p < |s| ==> p >= 2 && s[p].value < FEE_PER_ACTION
    ensures p > 2 ==> s[p - 1].value >= FEE_PER_ACTION
  {
    PayingFrom(s, if |s| < 2 then |s| else 2)
  }

  function PayingFrom(s: seq<Note>, i: nat): (p: nat)
    requires i <= |s|
    ensures i <= p <= |s|
    ensures p < |s| ==> s[p].value < FEE_PER_ACTION
    ensures p > i ==> s[p - 1].value >= FEE_PER_ACTION
    decreases |s| - i
  {
    if i < |s| && s[i].value >= FEE_PER_ACTION then PayingFrom(s, i + 1) else i
  }

  /** No prefix sends more than the notes that pay their own fee. */
  lemma PayingIsBest(s: seq<Note>, m: nat)
    requires m <= |s| && SortedBy(s, NoteLe)
    ensures Net(s, m) <= Net(s, Paying(s))
  {
    if m <= Paying(s) {
      NetRises(s, m, Paying(s));
    } else {
      NetFalls(s, Paying(s), m);
    }
  }

  /** For every wallet: no amount above the reported maximum is selectable exactly when the notes that pay
      their own fee do not send more than it. */
  lemma LargerRefusedIff(notes: seq<Note>)
    requires FEE_PER_ACTION * |notes| < MAX_I64
    requires forall i :: 0 <= i < |notes| ==> notes[i].value <= MAX_I64
    ensures LargerRefused(notes) <==> Net(InOrder(notes), Paying(InOrder(notes))) <= MaxSendable(notes).max
  {
    FrontTotal(notes);
    InOrderSorts(notes);
    var s, p := InOrder(notes), Paying(InOrder(notes));
    if Net(s, p) <= MaxSendable(notes).max {
      forall amount: uint64 | amount > MaxSendable(notes).max ensures Select(notes, amount, 1).Err? {
        forall m | 0 < m <= |s| ensures Total(s[..m]) < amount + Fee(m, 1) {
          PayingIsBest(s, m);
        }
        SelectsNothing(notes, amount);
      }
    } else {
      MoreThanMax(notes);
    }
  }

  /** When they send more, some prefix whose value fits sends more. */
  lemma MoreThanMax(notes: seq<Note>)
    requires FEE_PER_ACTION * |notes| < MAX_I64
    requires forall i :: 0 <= i < |notes| ==> notes[i].value <= MAX_I64
    requires Net(InOrder(notes), Paying(InOrder(notes))) > MaxSendable(notes).max
    ensures !LargerRefused(notes)
  {
    FrontTotal(notes);
    InOrderSorts(notes);
    var s, l, p := InOrder(notes), |Front(notes)|, Paying(InOrder(notes));
    if Total(Front(notes)) > MAX_I64 {
      FrontTooLarge(notes);
    } else if p <= l {
      PrefixTotals(s, p, l);
      BetterPrefix(notes, p);
    } else {
      NetStep(s, l);
      TotalTake(s, l);
      assert s[l] in multiset(notes);
      if s[l].value > FEE_PER_ACTION {
        forall j | 0 <= j < l ensures s[j].value >= FEE_PER_ACTION + 1 {
          assert NoteLe(s[j], s[l]);
        }
        TotalAtLeast(s[..l], FEE_PER_ACTION + 1);
        BetterPrefix(notes, l + 1);
      } else {
        NetFalls(s, l, p);
      }
    }
  }

  lemma {:induction false} TotalAtLeast(s: seq<Note>, v: nat)
    requires forall i :: 0 <= i < |s| ==> s[i].value >= v
    ensures Total(s) >= |s| * v
    decreases |s|
  {
    if s != [] {
      TotalAtLeast(s[1..], v);
      Sweep.NextMultiple(|s| - 1, v);
    }
  }

  /** A front too large for an int64 makes the report 0, while its first note alone can be sent. */
  lemma FrontTooLarge(notes: seq<Note>)
    requires Total(Front(notes)) > MAX_I64
    requires forall i :: 0 <= i < |notes| ==> notes[i].value <= MAX_I64
    ensures !LargerRefused(notes)
  {
    FrontTotal(notes);
    InOrderSorts(notes);
    var s, f := InOrder(notes), Front(notes);
    assert |f| > 0;
    forall i | 0 <= i < |f| ensures f[i].value <= s[0].value {
      HeadIsLargest(s, s[i]);
    }
    TotalAtMost(f, s[0].value);
    Sweep.MulMonotone(|f|, Planner.MAX_NOTES_PER_TX, s[0].value);
    TotalTake(s, 0);
    assert s[0] in multiset(notes);
    BetterPrefix(notes, 1);
  }

  // ---------------------------------------------------------------- the two filters

  /** What listSpendableNotes offers to the selector. */
  function Offered(raw: seq<Planner.WalletNote>, tip: int64, minConf: int64): seq<Note> {
    Send.UnspentOf(Planner.Listed(raw, tip, Planner.ClampConf(minConf)))
  }

  lemma OfferedFirst(raw: seq<Planner.WalletNote>, tip: int64, minConf: int64)
    requires raw != [] && 0 <= tip <= MAX_U32 && minConf >= 0
    requires Planner.Usable(raw[0], tip, Planner.ClampConf(minConf)) ==> raw[0].position.value <= MAX_U32
    ensures Offered(raw, tip, minConf) ==
      (if Counted(raw[0], tip, minConf) && raw[0].pendingSpent == "" then [AsNote(raw[0])] else []) + Offered(raw[1..], tip, minConf)
  {
  }

  lemma FrontAgrees(x: Note, a: seq<Note>, b: seq<Note>)
    ensures [x] + a == [x] + b <==> a == b
  {
    assert ([x] + a)[1..] == a && ([x] + b)[1..] == b;
  }

  /** coldMaxSendable counts exactly the notes that listSpendableNotes lists when none it counts has a pending
      spend, and more otherwise. */
  lemma {:induction false} FiltersAgreeIff(raw: seq<Planner.WalletNote>, tip: int64, minConf: int64)
    requires 0 <= tip <= MAX_U32 && minConf >= 0
    requires Planner.AllPlaceable(raw, tip, Planner.ClampConf(minConf))
    ensures |Offered(raw, tip, minConf)| <= |ColdNotes(raw, tip, minConf)|
    ensures ColdNotes(raw, tip, minConf) == Offered(raw, tip, minConf) <==>
      forall n :: n in raw && Counted(n, tip, minConf) ==> n.pendingSpent == ""
    decreases |raw|
  {
    if raw != [] {
      assert raw == [raw[0]] + raw[1..] && raw[0] in raw;
      FiltersAgreeIff(raw[1..], tip, minConf);
      OfferedFirst(raw, tip, minConf);
      FrontAgrees(if raw[0].value > 0 then AsNote(raw[0]) else Note("", 0, 0),
        ColdNotes(raw[1..], tip, minConf), Offered(raw[1..], tip, minConf));
    }
  }
}
