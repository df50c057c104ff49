/** Greedy selection of the notes to spend, under a fee that grows with their number. */
module Selection {
  import opened Results
  import opened Ints
  import opened Sorting
  import opened Notes

  const FEE_PER_ACTION := 5000

  datatype SelectError = FeeOverflow | NeedOverflow | InsufficientFunds

  function Max(a: int, b: int): int { if a < b then b else a }

  /** An action per spend or per output, whichever is more, and at least two. */
  function Actions(spends: int, outputs: int): int { Max(Max(spends, outputs), 2) }

  /** RequiredFeeSend: the product wraps, and a small product is taken as a sign of it. */
  function RequiredFeeSend(spends: int, outputs: int): Result<uint64, SelectError> {
    var exact := FEE_PER_ACTION * Actions(spends, outputs);
    var fee := if exact < TWO_64 then exact else exact % TWO_64;
    if fee < FEE_PER_ACTION then Err(FeeOverflow) else Ok(fee)
  }

  /** The fee when nothing wraps: 5000 for every spend, for every output, and for two actions, whichever is most. */
  function Fee(spends: int, outputs: int): (fee: int)
    ensures fee >= 5000 * spends && fee >= 5000 * outputs && fee >= 10000
    ensures fee == 5000 * spends || fee == 5000 * outputs || fee == 10000
  {
    FEE_PER_ACTION * Actions(spends, outputs)
  }

  /** What RequiredFeeSend asks: the most of 5000 for every spend, 5000 for every output and 10000, reduced
      modulo 2^64; it refuses exactly when less than 5000 is left of it. */
  lemma RequiredFee(spends: int, outputs: int, most: int)
    requires most >= 5000 * spends && most >= 5000 * outputs && most >= 10000
    requires most == 5000 * spends || most == 5000 * outputs || most == 10000
    ensures most < 0x1_0000_0000_0000_0000 ==> RequiredFeeSend(spends, outputs) == Ok(most)
    ensures RequiredFeeSend(spends, outputs).Ok? <==> most % 0x1_0000_0000_0000_0000 >= 5000
    ensures RequiredFeeSend(spends, outputs).Ok? ==> RequiredFeeSend(spends, outputs).value == most % 0x1_0000_0000_0000_0000
  {
  }

  lemma FeeExact(spends: int, outputs: int)
    requires Fee(spends, outputs) < TWO_64
    ensures RequiredFeeSend(spends, outputs) == Ok(Fee(spends, outputs))
  {
  }

  datatype Selected = Selected(notes: seq<Note>, fee: uint64)

  /** The loop over the sorted notes, from the i-th on with the given running total. */
  function Choose(s: seq<Note>, amount: uint64, outputs: int, i: nat, total: uint64): Result<Selected, SelectError>
    requires i <= |s|
    decreases |s| - i
  {
    if i == |s| then Err(InsufficientFunds) else
    var total' := AddU64(total, s[i].value);
    match RequiredFeeSend(i + 1, outputs + 1)
    case Err(e) => Err(e)
    case Ok(withChange) =>
      if amount + withChange >= TWO_64 then Err(NeedOverflow)
      else if total' > amount + withChange then Ok(Selected(s[..i + 1], withChange))
      else if total' == amount + withChange then
        match RequiredFeeSend(i + 1, outputs)
        case Err(e) => Err(e)
        case Ok(noChange) =>
          if noChange == withChange then Ok(Selected(s[..i + 1], withChange)) else Choose(s, amount, outputs, i + 1, total')
      else Choose(s, amount, outputs, i + 1, total')
  }

  function Select(notes: seq<Note>, amount: uint64, outputs: int): Result<Selected, SelectError> {
    Choose(InOrder(notes), amount, outputs, 0, 0)
  }

  /** SelectNotes: sorts its argument in place, then takes notes from the front until they suffice. */
  method SelectNotes(notes: array<Note>, amount: uint64, outputs: int) returns (res: Result<Selected, SelectError>)
    modifies notes
    ensures notes[..] == InOrder(old(notes[..]))
    ensures res == Select(old(notes[..]), amount, outputs)
  {
    NoteOrder();
    SortSlice(notes, NoteLe);
    InOrderUnique(old(notes[..]), notes[..]);
    var selected: seq<Note> := [];
    var total: uint64 := 0;
    var i := 0;
    while i < notes.Length
      invariant 0 <= i <= notes.Length && selected == notes[..i]
      invariant Choose(notes[..], amount, outputs, i, total) == Choose(notes[..], amount, outputs, 0, 0)
    {
      var n := notes[i];
      selected := selected + [n];
      total := AddU64(total, n.value);
      i := i + 1;
      assert selected == notes[..][..i];
      var feeWithChange := RequiredFeeSend(|selected|, outputs + 1);
      if feeWithChange.Err? {
        return Err(feeWithChange.error);
      }
      if amount + feeWithChange.value >= TWO_64 {
        return Err(NeedOverflow);
      }
      var need := amount + feeWithChange.value;
      if total > need {
        return Ok(Selected(selected, feeWithChange.value));
      }
      if total == need {
        var feeNoChange := RequiredFeeSend(|selected|, outputs);
        if feeNoChange.Err? {
          return Err(feeNoChange.error);
        }
        if feeNoChange.value == feeWithChange.value {
          return Ok(Selected(selected, feeWithChange.value));
        }
      }
    }
    return Err(InsufficientFunds);
  }

  // ---------------------------------------------------------------- what the loop decides

  /** The acceptance test on a sum of m notes: more than amount and fee with a change output, or exactly
      that when the change output costs nothing. */
  predicate Accepts(total: int, m: int, amount: int, outputs: int) {
    || total > amount + Fee(m, outputs + 1)
    || (total == amount + Fee(m, outputs + 1) && Fee(m, outputs) == Fee(m, outputs + 1))
  }

  /** The test in figures: with more outputs than notes the change output costs 5000 more. */
  lemma AcceptsFigures(total: int, m: int, amount: int, outputs: int, need: int)
    requires m > 0 && outputs > 0 && need >= 5000 * m && need >= 5000 * (outputs + 1)
    requires need == 5000 * m || need == 5000 * (outputs + 1)
    ensures Accepts(total, m, amount, outputs) <==>
      || total > amount + need
      || (total == amount + need && (outputs < m || outputs == 1))
  {
  }

  /** Some m notes of the wallet pass the test. */
  ghost predicate Payable(notes: seq<Note>, m: nat, amount: int, outputs: int) {
    exists t: seq<Note> :: |t| == m && multiset(t) <= multiset(notes) && Accepts(Total(t), m, amount, outputs)
  }

  /** The first prefix of the sorted notes that passes the test has m notes. */
  ghost predicate FirstAccepted(s: seq<Note>, amount: int, outputs: int, m: nat) {
    && 0 < m <= |s| && Accepts(Total(s[..m]), m, amount, outputs)
    && forall j :: 0 < j < m ==> !Accepts(Total(s[..j]), j, amount, outputs)
  }

  /** That prefix, if there is one, has a value that fits uint64. */
  ghost predicate FirstFits(notes: seq<Note>, amount: int, outputs: int) {
    forall m: nat :: FirstAccepted(InOrder(notes), amount, outputs, m) ==> Total(InOrder(notes)[..m]) < TWO_64
  }

  lemma FeeMonotone(m: nat, n: nat, outputs: int)
    requires m <= n && outputs >= 0
    ensures Fee(m, outputs) <= Fee(m, outputs + 1) <= Fee(n, outputs + 1)
  {
  }

  lemma FeesExact(m: nat, n: nat, outputs: int)
    requires m <= n && outputs >= 0 && Fee(n, outputs + 1) < TWO_64
    ensures RequiredFeeSend(m, outputs + 1) == Ok(Fee(m, outputs + 1)) && RequiredFeeSend(m, outputs) == Ok(Fee(m, outputs))
  {
    FeeMonotone(m, n, outputs);
    FeeExact(m, outputs + 1);
    FeeExact(m, outputs);
  }

  /** One turn on an exact total, of a prefix that did not pass: a prefix whose value fits is tested exactly;
      one whose value does not fit is passed over, or ends the loop with an error. */
  lemma ChooseStep(s: seq<Note>, amount: uint64, outputs: int, i: nat, total: uint64)
    requires i < |s| && outputs >= 0 && Fee(i + 1, outputs + 1) < TWO_64
    requires total == Total(s[..i]) <= amount + Fee(i, outputs + 1)
    ensures var next, r := Total(s[..i + 1]), Choose(s, amount, outputs, i, total);
      && (next < TWO_64 && Accepts(next, i + 1, amount, outputs) ==> r == Ok(Selected(s[..i + 1], Fee(i + 1, outputs + 1))))
      && (next < TWO_64 && !Accepts(next, i + 1, amount, outputs) ==> r.Err? || r == Choose(s, amount, outputs, i + 1, next))
      && (next >= TWO_64 ==> r.Err? || r == Choose(s, amount, outputs, i + 1, AddU64(total, s[i].value)))
      && (amount + Fee(i + 1, outputs + 1) < TWO_64 && next < TWO_64 && !Accepts(next, i + 1, amount, outputs) ==>
           r == Choose(s, amount, outputs, i + 1, next))
  {
    TotalTake(s, i);
    FeeMonotone(i, i + 1, outputs);
    FeesExact(i + 1, i + 1, outputs);
  }

  /** The loop returns the first prefix that passes exactly when its value fits uint64; otherwise it returns
      a longer one or none. */
  lemma {:induction false} ChooseFirst(s: seq<Note>, amount: uint64, outputs: int, i: nat, total: uint64, m: nat)
    requires i < m && outputs >= 0 && FirstAccepted(s, amount, outputs, m) && Fee(m, outputs + 1) < TWO_64
    requires total == Total(s[..i]) <= amount + Fee(i, outputs + 1)
    ensures var r := Choose(s, amount, outputs, i, total);
      if Total(s[..m]) < TWO_64 then r == Ok(Selected(s[..m], Fee(m, outputs + 1)))
      else r.Ok? ==> |r.value.notes| > m
    decreases m - i
  {
    FeeMonotone(i + 1, m, outputs);
    PrefixTotals(s, i + 1, m);
    ChooseStep(s, amount, outputs, i, total);
    if Total(s[..i + 1]) >= TWO_64 {
      ChoosesPrefix(s, amount, outputs, i + 1, AddU64(total, s[i].value));
      if i + 1 < m {
        assert !Accepts(Total(s[..i + 1]), i + 1, amount, outputs);
        NeedTooLarge(s, amount, outputs, i, total);
      }
    } else if i + 1 < m {
      assert !Accepts(Total(s[..i + 1]), i + 1, amount, outputs);
      ChooseFirst(s, amount, outputs, i + 1, Total(s[..i + 1]), m);
    }
  }

  /** When the need itself exceeds uint64 the loop ends with an error. */
  lemma NeedTooLarge(s: seq<Note>, amount: uint64, outputs: int, i: nat, total: uint64)
    requires i < |s| && outputs >= 0 && Fee(i + 1, outputs + 1) < TWO_64 <= amount + Fee(i + 1, outputs + 1)
    ensures Choose(s, amount, outputs, i, total) == Err(NeedOverflow)
  {
    FeeExact(i + 1, outputs + 1);
  }

  lemma PrefixTotals(s: seq<Note>, i: nat, p: nat)
    requires i <= p <= |s|
    ensures Total(s[..i]) <= Total(s[..p])
  {
    assert s[..p] == s[..i] + s[i..p];
    TotalAppend(s[..i], s[i..p]);
  }

  /** When no prefix passes the loop refuses. */
  lemma {:induction false} ChooseNever(s: seq<Note>, amount: uint64, outputs: int, i: nat, total: uint64)
    requires i <= |s| && outputs >= 0 && Fee(|s|, outputs + 1) < TWO_64
    requires total == Total(s[..i]) <= amount + Fee(i, outputs + 1)
    requires forall m :: i < m <= |s| ==> !Accepts(Total(s[..m]), m, amount, outputs)
    ensures Choose(s, amount, outputs, i, total).Err?
    decreases |s| - i
  {
    if i < |s| {
      FeeMonotone(i + 1, |s|, outputs);
      assert !Accepts(Total(s[..i + 1]), i + 1, amount, outputs);
      if amount + Fee(i + 1, outputs + 1) >= TWO_64 {
        NeedTooLarge(s, amount, outputs, i, total);
      } else {
        ChooseStep(s, amount, outputs, i, total);
        ChooseNever(s, amount, outputs, i + 1, Total(s[..i + 1]));
      }
    }
  }

  lemma {:induction false} ChoosesPrefix(s: seq<Note>, amount: uint64, outputs: int, i: nat, total: uint64)
    requires i <= |s|
    ensures Choose(s, amount, outputs, i, total).Ok? ==>
      var n := |Choose(s, amount, outputs, i, total).value.notes|;
      i < n <= |s| && Choose(s, amount, outputs, i, total).value.notes == s[..n]
    decreases |s| - i
  {
    if i < |s| {
      ChoosesPrefix(s, amount, outputs, i + 1, AddU64(total, s[i].value));
    }
  }

  /** Even when sums wrap, a selection holds only notes that were offered, none more often than offered. */
  lemma SelectionIsSubset(notes: seq<Note>, amount: uint64, outputs: int)
    ensures Select(notes, amount, outputs).Ok? ==> multiset(Select(notes, amount, outputs).value.notes) <= multiset(notes)
  {
    InOrderSorts(notes);
    ChoosesPrefix(InOrder(notes), amount, outputs, 0, 0);
    if Select(notes, amount, outputs).Ok? {
      var s, n := InOrder(notes), |Select(notes, amount, outputs).value.notes|;
      assert s == s[..n] + s[n..];
    }
  }

  /** Whatever the total wrapped to, what is selected passes the test with its true value. */
  lemma {:induction false} ChoosePays(s: seq<Note>, amount: uint64, outputs: int, i: nat, total: uint64)
    requires i <= |s| && outputs >= 0 && Fee(|s|, outputs + 1) < TWO_64 && total <= Total(s[..i])
    ensures Choose(s, amount, outputs, i, total).Ok? ==>
      var sel := Choose(s, amount, outputs, i, total).value;
      sel.fee == Fee(|sel.notes|, outputs + 1) && Accepts(Total(sel.notes), |sel.notes|, amount, outputs)
    decreases |s| - i
  {
    if i < |s| {
      FeesExact(i + 1, |s|, outputs);
      TotalTake(s, i);
      ChoosePays(s, amount, outputs, i + 1, AddU64(total, s[i].value));
    }
  }

  /** A selection is a sub-multiset of the notes whose inputs pay amount, fee and a non-negative change,
      whether or not the unchecked total wrapped. The total never wrapped exactly when FirstFits. */
  lemma SelectionPays(notes: seq<Note>, amount: uint64, outputs: int)
    requires outputs >= 0 && Fee(|notes|, outputs + 1) < TWO_64
    ensures Select(notes, amount, outputs).Ok? ==>
      var sel := Select(notes, amount, outputs).value;
      && |sel.notes| > 0
      && multiset(sel.notes) <= multiset(notes)
      && sel.fee == Fee(|sel.notes|, outputs + 1)
      && Accepts(Total(sel.notes), |sel.notes|, amount, outputs)
      && amount + sel.fee <= Total(sel.notes)
      && (Total(sel.notes) < TWO_64 <==> FirstFits(notes, amount, outputs))
  {
    InOrderSorts(notes);
    var s := InOrder(notes);
    SelectionIsSubset(notes, amount, outputs);
    ChoosesPrefix(s, amount, outputs, 0, 0);
    ChoosePays(s, amount, outputs, 0, 0);
    if Select(notes, amount, outputs).Ok? {
      var n := |Select(notes, amount, outputs).value.notes|;
      var m := FirstOf(s, amount, outputs, n);
      FeeMonotone(m, |s|, outputs);
      ChooseFirst(s, amount, outputs, 0, 0, m);
      PrefixTotals(s, m, n);
      FirstIsOnly(notes, amount, outputs, m);
    }
  }

  /** Some prefix passes, so there is a first one. */
  lemma {:induction false} FirstOf(s: seq<Note>, amount: int, outputs: int, p: nat) returns (m: nat)
    requires 0 < p <= |s| && Accepts(Total(s[..p]), p, amount, outputs)
    ensures m <= p && FirstAccepted(s, amount, outputs, m)
    decreases p
  {
    if j :| 0 < j < p && Accepts(Total(s[..j]), j, amount, outputs) {
      m := FirstOf(s, amount, outputs, j);
    } else {
      m := p;
    }
  }

  lemma FirstIsOnly(notes: seq<Note>, amount: int, outputs: int, m: nat)
    requires FirstAccepted(InOrder(notes), amount, outputs, m)
    ensures FirstFits(notes, amount, outputs) <==> Total(InOrder(notes)[..m]) < TWO_64
  {
    forall n: nat | FirstAccepted(InOrder(notes), amount, outputs, n) ensures n == m {
    }
  }

  lemma PayableByFront(notes: seq<Note>, m: nat, amount: int, outputs: int)
    requires Payable(notes, m, amount, outputs)
    ensures m <= |notes| && |InOrder(notes)| == |notes|
    ensures Accepts(Total(InOrder(notes)[..m]), m, amount, outputs)
  {
    var t: seq<Note> :| |t| == m && multiset(t) <= multiset(notes) && Accepts(Total(t), m, amount, outputs);
    InOrderSorts(notes);
    FrontIsBest(InOrder(notes), t);
  }

  lemma FrontIsPayable(notes: seq<Note>, m: nat, amount: int, outputs: int)
    requires m <= |InOrder(notes)| && Accepts(Total(InOrder(notes)[..m]), m, amount, outputs)
    ensures Payable(notes, m, amount, outputs)
  {
    InOrderSorts(notes);
    var s := InOrder(notes);
    assert s == s[..m] + s[m..];
    assert multiset(s[..m]) <= multiset(notes);
  }

  /** Complete: selection succeeds exactly when some non-empty subset of the notes passes the test.
      Minimal: when it succeeds, no smaller subset passes. */
  ghost predicate CompleteMinimal(notes: seq<Note>, amount: uint64, outputs: int) {
    var r := Select(notes, amount, outputs);
    && (r.Ok? <==> exists m :: 0 < m <= |notes| && Payable(notes, m, amount, outputs))
    && (r.Ok? ==> forall m :: 0 < m < |r.value.notes| ==> !Payable(notes, m, amount, outputs))
  }

  lemma {:induction false} ChooseError(s: seq<Note>, amount: uint64, outputs: int, i: nat, total: uint64)
    requires i <= |s| && outputs >= 0 && Fee(|s|, outputs + 1) < TWO_64
    ensures Choose(s, amount, outputs, i, total).Err? && amount + Fee(|s|, outputs + 1) < TWO_64 ==>
      Choose(s, amount, outputs, i, total) == Err(InsufficientFunds)
    decreases |s| - i
  {
    if i < |s| {
      FeesExact(i + 1, |s|, outputs);
      FeeMonotone(i + 1, |s|, outputs);
      ChooseError(s, amount, outputs, i + 1, AddU64(total, s[i].value));
    }
  }

  /** Greedy selection is complete and minimal exactly when the first prefix of the sorted notes that pays
      has a value below 2^64, in particular for every wallet whose sum fits uint64. The bound on the number
      of notes holds of every slice in memory. */
  lemma SelectCompleteMinimalIff(notes: seq<Note>, amount: uint64, outputs: int)
    requires outputs >= 0 && Fee(|notes|, outputs + 1) < TWO_64
    ensures CompleteMinimal(notes, amount, outputs) <==> FirstFits(notes, amount, outputs)
    ensures Select(notes, amount, outputs).Err? && amount + Fee(|notes|, outputs + 1) < TWO_64 ==>
      Select(notes, amount, outputs) == Err(InsufficientFunds)
  {
    InOrderSorts(notes);
    var s := InOrder(notes);
    ChooseError(s, amount, outputs, 0, 0);
    if m :| 0 < m <= |notes| && Payable(notes, m, amount, outputs) {
      PayableByFront(notes, m, amount, outputs);
      var first := FirstOf(s, amount, outputs, m);
      FirstPaysIff(notes, amount, outputs, first);
    } else {
      forall m | 0 < m <= |s| ensures !Accepts(Total(s[..m]), m, amount, outputs) {
        if Accepts(Total(s[..m]), m, amount, outputs) {
          FrontIsPayable(notes, m, amount, outputs);
        }
      }
      ChooseNever(s, amount, outputs, 0, 0);
    }
  }

  /** When some prefix passes, selection is complete and minimal, and returns the first that does with its
      fee, exactly when that one's value fits. */
  lemma FirstPaysIff(notes: seq<Note>, amount: uint64, outputs: int, first: nat)
    requires outputs >= 0 && Fee(|notes|, outputs + 1) < TWO_64
    requires FirstAccepted(InOrder(notes), amount, outputs, first)
    ensures var r := Select(notes, amount, outputs);
      FirstFits(notes, amount, outputs)
      <==> r.Ok? && r.value.notes == InOrder(notes)[..first] && r.value.fee == Fee(first, outputs + 1)
    ensures CompleteMinimal(notes, amount, outputs) <==> FirstFits(notes, amount, outputs)
  {
    InOrderSorts(notes);
    var s, r := InOrder(notes), Select(notes, amount, outputs);
    FeeMonotone(first, |s|, outputs);
    ChooseFirst(s, amount, outputs, 0, 0, first);
    FirstIsOnly(notes, amount, outputs, first);
    FrontIsPayable(notes, first, amount, outputs);
    if FirstFits(notes, amount, outputs) {
      forall m | 0 < m < first ensures !Payable(notes, m, amount, outputs) {
        if Payable(notes, m, amount, outputs) {
          PayableByFront(notes, m, amount, outputs);
        }
      }
    }
  }

  /** Every wallet whose sum fits uint64. */
  lemma SumFitsSuffices(notes: seq<Note>, amount: int, outputs: int)
    requires Total(InOrder(notes)) < TWO_64
    ensures FirstFits(notes, amount, outputs)
  {
    var s := InOrder(notes);
    assert s[..|s|] == s;
    forall m: nat | FirstAccepted(s, amount, outputs, m) ensures Total(s[..m]) < TWO_64 {
      PrefixTotals(s, m, |s|);
    }
  }

  /** Room for amount, the fee for all notes and the largest note together suffices as well. */
  lemma RoomSuffices(notes: seq<Note>, amount: int, outputs: int)
    requires outputs >= 0 && amount + Fee(|notes|, outputs + 1) < TWO_64
    requires forall i :: 0 <= i < |notes| ==> amount + Fee(|notes|, outputs + 1) + notes[i].value < TWO_64
    ensures FirstFits(notes, amount, outputs)
  {
    InOrderSorts(notes);
    var s := InOrder(notes);
    forall m: nat | FirstAccepted(s, amount, outputs, m) ensures Total(s[..m]) < TWO_64 {
      TotalTake(s, m - 1);
      FeeMonotone(m - 1, |s|, outputs);
      assert s[m - 1] in multiset(notes);
      if m > 1 {
        assert !Accepts(Total(s[..m - 1]), m - 1, amount, outputs);
      }
    }
  }

  /** The order in which the notes arrive does not matter. */
  lemma SelectOrderIndependent(notes: seq<Note>, permuted: seq<Note>, amount: uint64, outputs: int)
    requires multiset(permuted) == multiset(notes)
    ensures Select(permuted, amount, outputs) == Select(notes, amount, outputs)
  {
    InOrderSorts(notes);
    InOrderUnique(permuted, InOrder(notes));
  }

  /** Three notes of 2^63 - 3000 in one transaction: their total wraps to 2^63 - 9000. */
  function Half(action: uint32): Note { Note("t", action, 0x7FFF_FFFF_FFFF_F448) }

  lemma WrappedTotals(amount: uint64)
    requires amount == TWO_64 - 15001
    ensures Choose([Half(0), Half(1), Half(2)], amount, 1, 0, 0) == Err(InsufficientFunds)
  {
    var s := [Half(0), Half(1), Half(2)];
    FeeExact(1, 2);
    FeeExact(2, 2);
    FeeExact(3, 2);
    assert Choose(s, amount, 1, 3, 0x7FFF_FFFF_FFFF_DCD8) == Err(InsufficientFunds);
    assert Choose(s, amount, 1, 2, TWO_64 - 6000) == Err(InsufficientFunds);
    assert Choose(s, amount, 1, 1, 0x7FFF_FFFF_FFFF_F448) == Err(InsufficientFunds);
  }

  lemma HalvesInOrder()
    ensures InOrder([Half(0), Half(1), Half(2)]) == [Half(0), Half(1), Half(2)]
  {
    InOrderUnique([Half(0), Half(1), Half(2)], [Half(0), Half(1), Half(2)]);
  }

  lemma HalvesPay()
    ensures Accepts(Total([Half(0), Half(1), Half(2)]), 3, TWO_64 - 15001, 1)
  {
    var s := [Half(0), Half(1), Half(2)];
    assert s[1..] == [Half(1), Half(2)];
    assert s[1..][1..] == [Half(2)];
    assert s[1..][1..][1..] == [];
  }

  /** The unchecked total can wrap: the three notes cover the amount and are refused. */
  lemma SelectCanWrap()
    ensures var notes := [Half(0), Half(1), Half(2)];
      && Select(notes, TWO_64 - 15001, 1) == Err(InsufficientFunds)
      && Payable(notes, 3, TWO_64 - 15001, 1)
      && !FirstFits(notes, TWO_64 - 15001, 1)
  {
    var notes := [Half(0), Half(1), Half(2)];
    HalvesInOrder();
    HalvesPay();
    WrappedTotals(TWO_64 - 15001);
    assert notes[..3] == notes;
    FrontIsPayable(notes, 3, TWO_64 - 15001, 1);
    SelectCompleteMinimalIff(notes, TWO_64 - 15001, 1);
  }
}
