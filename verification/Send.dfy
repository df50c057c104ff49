/** planSend: selecting notes for given outputs and joining the selection back to the wallet's notes. */
module Send {
  import opened Results
  import opened Ints
  import opened Sums
  import opened Notes
  import opened Selection
  import opened Sweep
  import opened Planner

  datatype Output = Output(to: string, amount: uint64)

  function UnspentOf(ns: seq<Spendable>): seq<Note> {
    seq(|ns|, i requires 0 <= i < |ns| => Unspent(ns[i]))
  }

  /** No two notes share txid and action index. */
  ghost predicate DistinctIds(ns: seq<Spendable>) {
    forall i, j :: 0 <= i < j < |ns| ==> ns[i].txid != ns[j].txid || ns[i].action != ns[j].action
  }

  /** x is the first note with the given id. */
  ghost predicate FirstWithId(ns: seq<Spendable>, txid: string, action: uint32, x: Spendable) {
    exists i :: 0 <= i < |ns| && ns[i] == x && x.txid == txid && x.action == action
                && forall j :: 0 <= j < i ==> !(ns[j].txid == txid && ns[j].action == action)
  }

  /** What the join takes for the selected notes, whether ids are distinct or not. */
  ghost predicate Originals(spent: seq<Spendable>, selected: seq<Note>, ns: seq<Spendable>) {
    |spent| == |selected| && forall i :: 0 <= i < |selected| ==> FirstWithId(ns, selected[i].txid, selected[i].action, spent[i])
  }

  /** findNote: the first note with the given id. */
  method FindNote(ns: seq<Spendable>, txid: string, action: uint32) returns (found: Option<Spendable>)
    ensures found.None? ==> forall i :: 0 <= i < |ns| ==> !(ns[i].txid == txid && ns[i].action == action)
    ensures found.Some? ==> FirstWithId(ns, txid, action, found.value)
  {
    for i := 0 to |ns|
      invariant forall j :: 0 <= j < i ==> !(ns[j].txid == txid && ns[j].action == action)
    {
      if ns[i].txid == txid && ns[i].action == action {
        return Some(ns[i]);
      }
    }
    return None;
  }

  /** The joined notes are wallet notes, each the original of its selected note, none taken twice. */
  ghost predicate Joined(joined: seq<Spendable>, selected: seq<Note>, ns: seq<Spendable>) {
    && |joined| == |selected|
    && (forall i :: 0 <= i < |selected| ==> joined[i] in ns && Unspent(joined[i]) == selected[i])
    && (forall i, j :: 0 <= i < j < |joined| ==> joined[i] != joined[j])
  }

  lemma {:induction false} CountTwice<T>(s: seq<T>, i: nat, j: nat)
    requires i < j < |s| && s[i] == s[j]
    ensures multiset(s)[s[i]] >= 2
  {
    assert s == s[..j] + s[j..];
    assert s[..j][i] == s[i] && s[j..][0] == s[j];
    assert s[i] in multiset(s[..j]) && s[i] in multiset(s[j..]);
    assert multiset(s) == multiset(s[..j]) + multiset(s[j..]);
  }

  lemma {:induction false} DistinctCountsOne<T>(s: seq<T>, x: T)
    requires forall i, j :: 0 <= i < j < |s| ==> s[i] != s[j]
    ensures multiset(s)[x] <= 1
    decreases |s|
  {
    if s != [] {
      assert s == [s[0]] + s[1..];
      DistinctCountsOne(s[1..], x);
      if x == s[0] {
        assert x !in s[1..];
      }
    }
  }

  /** With distinct ids a selection holds no note twice and each has exactly one original. */
  lemma SelectedOnce(ns: seq<Spendable>, selected: seq<Note>)
    requires DistinctIds(ns) && multiset(selected) <= multiset(UnspentOf(ns))
    ensures forall i, j :: 0 <= i < j < |selected| ==> selected[i] != selected[j]
    ensures forall i :: 0 <= i < |selected| ==> selected[i] in UnspentOf(ns)
  {
    forall i, j | 0 <= i < j < |selected| ensures selected[i] != selected[j] {
      if selected[i] == selected[j] {
        CountTwice(selected, i, j);
        DistinctCountsOne(UnspentOf(ns), selected[i]);
      }
    }
    forall i | 0 <= i < |selected| ensures selected[i] in UnspentOf(ns) {
      assert selected[i] in multiset(selected);
    }
  }

  /** The join of planSend: it takes the first note with each selected id, and on a selection from the
      wallet's notes it always finds one. */
  method Join(ns: seq<Spendable>, selected: seq<Note>) returns (joined: Option<seq<Spendable>>)
    ensures joined.Some? ==> Originals(joined.value, selected, ns)
    ensures multiset(selected) <= multiset(UnspentOf(ns)) ==> joined.Some?
  {
    var out: seq<Spendable> := [];
    for i := 0 to |selected|
      invariant |out| == i
      invariant forall j :: 0 <= j < i ==> FirstWithId(ns, selected[j].txid, selected[j].action, out[j])
    {
      var n := FindNote(ns, selected[i].txid, selected[i].action);
      if n.None? {
        NotOffered(ns, selected, i);
        return None;
      }
      out := out + [n.value];
    }
    return Some(out);
  }

  lemma NotOffered(ns: seq<Spendable>, selected: seq<Note>, i: nat)
    requires i < |selected|
    requires forall j :: 0 <= j < |ns| ==> !(ns[j].txid == selected[i].txid && ns[j].action == selected[i].action)
    ensures !(multiset(selected) <= multiset(UnspentOf(ns)))
  {
    assert selected[i] in multiset(selected);
    assert selected[i] !in UnspentOf(ns);
  }

  /** With distinct ids the join recovers the one original of every selected note, none twice. */
  lemma JoinIsExact(ns: seq<Spendable>, selected: seq<Note>, out: seq<Spendable>)
    requires DistinctIds(ns) && multiset(selected) <= multiset(UnspentOf(ns)) && Originals(out, selected, ns)
    ensures Joined(out, selected, ns)
  {
    SelectedOnce(ns, selected);
    forall i | 0 <= i < |selected| ensures out[i] in ns && Unspent(out[i]) == selected[i] {
      assert FirstWithId(ns, selected[i].txid, selected[i].action, out[i]);
      var p :| 0 <= p < |ns| && ns[p] == out[i];
      var q :| 0 <= q < |ns| && UnspentOf(ns)[q] == selected[i];
      assert p == q;
    }
    forall i, j | 0 <= i < j < |out| ensures out[i] != out[j] {
      assert Unspent(out[i]) != Unspent(out[j]);
    }
  }

  lemma {:induction false} JoinedValue(joined: seq<Spendable>, selected: seq<Note>)
    requires |joined| == |selected| && forall i :: 0 <= i < |joined| ==> Unspent(joined[i]) == selected[i]
    ensures Value(joined) == Total(selected)
    decreases |joined|
  {
    if joined != [] {
      JoinedValue(joined[1..], selected[1..]);
    }
  }

  ghost function TotalOut(outputs: seq<Output>): nat {
    if outputs == [] then 0 else outputs[0].amount + TotalOut(outputs[1..])
  }

  lemma {:induction false} TotalOutTake(outputs: seq<Output>, i: nat)
    requires i < |outputs|
    ensures TotalOut(outputs[..i + 1]) == TotalOut(outputs[..i]) + outputs[i].amount
    decreases i
  {
    assert outputs[..i + 1][1..] == outputs[1..][..i];
    if i > 0 {
      assert outputs[..i][1..] == outputs[1..][..i - 1];
      TotalOutTake(outputs[1..], i - 1);
    }
  }

  lemma {:induction false} TotalOutPrefix(outputs: seq<Output>, i: nat)
    requires i <= |outputs|
    ensures TotalOut(outputs[..i]) <= TotalOut(outputs)
    decreases i
  {
    if i > 0 {
      assert outputs[..i][1..] == outputs[1..][..i - 1];
      TotalOutPrefix(outputs[1..], i - 1);
    }
  }

  /** The amounts are the outputs' own, and their sum is what the outputs need. */
  lemma AmountsEach(outputs: seq<Output>)
    ensures |Amounts(outputs)| == |outputs| && forall i :: 0 <= i < |outputs| ==> Amounts(outputs)[i] == outputs[i].amount
    ensures ListSum(Amounts(outputs)) == TotalOut(outputs)
    decreases |outputs|
  {
    if outputs != [] {
      assert Amounts(outputs)[1..] == Amounts(outputs[1..]);
      AmountsEach(outputs[1..]);
    }
  }

  method SumOutputs(outputs: seq<Output>) returns (total: Option<uint64>)
    ensures total == if TotalOut(outputs) < TWO_64 then Some(TotalOut(outputs)) else None
  {
    var sum: uint64 := 0;
    for i := 0 to |outputs|
      invariant sum == TotalOut(outputs[..i])
    {
      TotalOutTake(outputs, i);
      TotalOutPrefix(outputs, i + 1);
      if AddU64(sum, outputs[i].amount) < sum {
        return None;
      }
      sum := AddU64(sum, outputs[i].amount);
    }
    assert outputs[..|outputs|] == outputs;
    return Some(sum);
  }

  function Amounts(outputs: seq<Output>): seq<uint64> {
    seq(|outputs|, i requires 0 <= i < |outputs| => outputs[i].amount)
  }

  predicate ValidOutputs(outputs: seq<Output>) {
    |outputs| > 0 && forall i :: 0 <= i < |outputs| ==> outputs[i].to != "" && outputs[i].amount > 0
  }

  /** Selection of the notes and their originals in the wallet. */
  method SelectAndJoin(ns: seq<Spendable>, total: uint64, outputs: nat) returns (res: Result<(seq<Spendable>, uint64), PlanError>)
    ensures var picked := Select(UnspentOf(ns), total, outputs);
      && (picked.Err? ==> res == Err(PlanError.InsufficientFunds))
      && (picked.Ok? ==> res.Ok? && Originals(res.value.0, picked.value.notes, ns) && res.value.1 == picked.value.fee)
  {
    var unspent := new Note[|ns|](i requires 0 <= i < |ns| => Unspent(ns[i]));
    assert unspent[..] == UnspentOf(ns);
    var picked := SelectNotes(unspent, total, outputs);
    if picked.Err? {
      return Err(PlanError.InsufficientFunds);
    }
    var joined := Join(ns, picked.value.notes);
    res := if joined.None? then Err(SelectedNoteMissing) else Ok((joined.value, picked.value.fee));
    SelectionIsSubset(UnspentOf(ns), total, outputs);
  }

  /** The notes selected for the outputs, None when the outputs are not acceptable or cannot be paid. */
  ghost function Picked(ns: seq<Spendable>, outputs: seq<Output>): Result<Selected, PlanError> {
    if !ValidOutputs(outputs) then Err(InvalidOutputs)
    else if ns == [] then Err(NoSpendableNotes)
    else if TotalOut(outputs) >= TWO_64 then Err(SumOverflow)
    else
      var picked := Select(UnspentOf(ns), TotalOut(outputs), |outputs|);
      if picked.Err? then Err(PlanError.InsufficientFunds) else Ok(picked.value)
  }

  /** Which problem comes first: a missing recipient or amount, no notes, amounts beyond uint64, or too little. */
  lemma PickedErrors(ns: seq<Spendable>, outputs: seq<Output>)
    ensures var bad := outputs == [] || exists i :: 0 <= i < |outputs| && (outputs[i].to == "" || outputs[i].amount == 0);
      && (bad <==> Picked(ns, outputs) == Err(InvalidOutputs))
      && (!bad && ns == [] <==> Picked(ns, outputs) == Err(NoSpendableNotes))
      && (!bad && ns != [] && ListSum(Amounts(outputs)) > 0xFFFF_FFFF_FFFF_FFFF <==> Picked(ns, outputs) == Err(SumOverflow))
  {
    AmountsEach(outputs);
  }

  /** planSend from the listed notes on: the plan spends exactly the originals of the selected notes, each with
      its own position and path, pays the outputs and carries the selection's fee. It fails with the first
      problem in order, and once notes are selected only because the node or the witness service does. */
  method PlanSend(ns: seq<Spendable>, outputs: seq<Output>, node: Node) returns (res: Result<Plan, PlanError>)
    ensures Picked(ns, outputs).Err? ==> res == Err(Picked(ns, outputs).error)
    ensures Picked(ns, outputs).Ok? ==>
      exists spent :: Originals(spent, Picked(ns, outputs).value.notes, ns)
        && (res.Ok? <==> Served(spent, node))
        && (res.Ok? ==> Spends(res.value.notes, spent, node))
    ensures res.Ok? ==> (Picked(ns, outputs).Ok?
      && res.value.outputs == Amounts(outputs) && res.value.fee == Picked(ns, outputs).value.fee)
  {
    if |outputs| == 0 {
      return Err(InvalidOutputs);
    }
    for i := 0 to |outputs|
      invariant forall j :: 0 <= j < i ==> outputs[j].to != "" && outputs[j].amount > 0
    {
      if outputs[i].to == "" || outputs[i].amount == 0 {
        return Err(InvalidOutputs);
      }
    }
    if |ns| == 0 {
      return Err(NoSpendableNotes);
    }
    var totalOut := SumOutputs(outputs);
    if totalOut.None? {
      return Err(SumOverflow);
    }
    var joined := SelectAndJoin(ns, totalOut.value, |outputs|);
    if joined.Err? {
      return Err(joined.error);
    }
    var (spent, fee) := joined.value;
    var planNotes := BuildPlanNotes(spent, node);
    if planNotes.None? {
      return Err(NodeFailed);
    }
    return Ok(Plan(planNotes.value, Amounts(outputs), fee));
  }

  /** For notes with distinct ids, what such a plan spends are wallet notes, none twice, that cover its outputs,
      its fee and a non-negative change. */
  lemma SentNotesPay(ns: seq<Spendable>, outputs: seq<Output>, spent: seq<Spendable>)
    requires DistinctIds(ns) && Picked(ns, outputs).Ok? && Originals(spent, Picked(ns, outputs).value.notes, ns)
    ensures Joined(spent, Picked(ns, outputs).value.notes, ns)
    ensures Fee(|ns|, |outputs| + 1) < TWO_64 ==>
      && Picked(ns, outputs).value.fee == Fee(|spent|, |outputs| + 1)
      && TotalOut(outputs) + Fee(|spent|, |outputs| + 1) <= Value(spent)
  {
    SelectionIsSubset(UnspentOf(ns), TotalOut(outputs), |outputs|);
    JoinIsExact(ns, Picked(ns, outputs).value.notes, spent);
    if Fee(|ns|, |outputs| + 1) < TWO_64 {
      SelectionPays(UnspentOf(ns), TotalOut(outputs), |outputs|);
      JoinedValue(spent, Picked(ns, outputs).value.notes);
    }
  }
}
