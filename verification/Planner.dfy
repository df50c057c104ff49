/** Turning wallet notes into transaction plans. The node and the scanner's witness service are
    external: their answers are parameters. */
module Planner {
  import opened Results
  import opened Ints
  import opened Notes
  import opened Selection
  import opened Sweep
  import opened Split

  const MAX_NOTES_PER_TX := 200

  /** A note as the scanner lists it. */
  datatype WalletNote = WalletNote(
    txid: string, action: int64, height: int64, position: Option<int64>, value: int64, pendingSpent: string)

  datatype OrchardAction = OrchardAction(nullifier: string, cmx: string, ephemeralKey: string, encCiphertext: string)

  datatype WitnessPath = WitnessPath(position: uint32, path: seq<string>)

  datatype Witness = Witness(root: string, anchorHeight: int64, paths: seq<WitnessPath>)

  /** The action on chain for a note, and the witness for a list of positions. */
  datatype Node = Node(action: Spendable -> Option<OrchardAction>, witnessFor: seq<uint32> -> Option<Witness>)

  datatype PlanNote = PlanNote(txid: string, index: uint32, position: uint32, action: OrchardAction, path: seq<string>)

  datatype Plan = Plan(notes: seq<PlanNote>, outputs: seq<uint64>, fee: uint64)

  datatype PlanError =
    | NoSpendableNotes
    | InvalidHeight
    | PositionTooLarge
    | SumOverflow
    | InsufficientFunds
    | InvalidOutputs
    | SelectedNoteMissing
    | NodeFailed

  // ---------------------------------------------------------------- listing

  predicate Usable(n: WalletNote, tip: int64, minConf: int64) {
    && n.pendingSpent == ""
    && n.position.Some? && n.position.value >= 0
    && 0 <= n.height <= tip
    && minConf <= Add64(tip - n.height, 1)
    && n.action >= 0
    && n.value > 0
  }

  predicate AllPlaceable(raw: seq<WalletNote>, tip: int64, minConf: int64) {
    forall n :: n in raw && Usable(n, tip, minConf) ==> n.position.value <= MAX_U32
  }

  function ToSpendable(n: WalletNote): Spendable
    requires n.position.Some? && 0 <= n.position.value <= MAX_U32 && n.value > 0
  {
    Spendable(n.txid, n.action % (MAX_U32 + 1), n.height, n.position.value, n.value)
  }

  function Listed(raw: seq<WalletNote>, tip: int64, minConf: int64): seq<Spendable> {
    if raw == [] then []
    else if Usable(raw[0], tip, minConf) && raw[0].position.value <= MAX_U32
    then [ToSpendable(raw[0])] + Listed(raw[1..], tip, minConf)
    else Listed(raw[1..], tip, minConf)
  }

  lemma {:induction false} ListedAppend(raw: seq<WalletNote>, n: WalletNote, tip: int64, minConf: int64)
    ensures Listed(raw + [n], tip, minConf) == Listed(raw, tip, minConf) + Listed([n], tip, minConf)
    decreases |raw|
  {
    if raw == [] {
      assert raw + [n] == [n];
    } else {
      assert (raw + [n])[1..] == raw[1..] + [n];
      ListedAppend(raw[1..], n, tip, minConf);
    }
  }

  /** listSpendableNotes: the usable notes in order; it fails when one has a position beyond uint32. */
  method ListSpendableNotes(raw: seq<WalletNote>, tip: int64, minConf: int64) returns (res: Result<seq<Spendable>, PlanError>)
    ensures res.Ok? <==> AllPlaceable(raw, tip, minConf)
    ensures res.Ok? ==> res.value == Listed(raw, tip, minConf)
    ensures res.Err? ==> res == Err(PositionTooLarge)
  {
    var out: seq<Spendable> := [];
    for i := 0 to |raw|
      invariant out == Listed(raw[..i], tip, minConf)
      invariant AllPlaceable(raw[..i], tip, minConf)
    {
      var n := raw[i];
      assert raw[..i + 1] == raw[..i] + [n];
      ListedAppend(raw[..i], n, tip, minConf);
      if n.pendingSpent != "" || n.position.None? || n.position.value < 0 || n.height < 0 || tip < n.height {
        continue;
      }
      var conf := Add64(tip - n.height, 1);
      if conf < minConf || n.action < 0 || n.value <= 0 {
        continue;
      }
      if n.position.value > MAX_U32 {
        return Err(PositionTooLarge);
      }
      out := out + [ToSpendable(n)];
      assert [n][1..] == [];
    }
    assert raw[..|raw|] == raw;
    return Ok(out);
  }

  /** Nothing spends the note already, it has a position, enough confirmations, an action index and a value. */
  ghost predicate MayBeSpent(n: WalletNote, tip: int, minConf: int) {
    && n.pendingSpent == "" && n.position.Some? && n.position.value >= 0 && n.height >= 0 && n.action >= 0 && n.value > 0
    && n.height <= tip && tip - n.height + 1 >= minConf
  }

  /** The listed note is the raw note, field by field, and the raw note may be spent. */
  ghost predicate ListedFrom(x: Spendable, n: WalletNote, tip: int64, minConf: int64) {
    && MayBeSpent(n, tip, minConf)
    && x.txid == n.txid && x.height == n.height && x.position == n.position.value && x.value == n.value
    && (n.action <= 0xFFFF_FFFF ==> x.action == n.action) && (n.action - x.action) % 0x1_0000_0000 == 0
  }

  predicate Rising(at: seq<nat>) {
    forall i, j :: 0 <= i < j < |at| ==> at[i] < at[j]
  }

  /** The listed notes are the raw notes at the given places, in order, and no other raw note may be spent. */
  ghost predicate ListedAt(listed: seq<Spendable>, raw: seq<WalletNote>, tip: int64, minConf: int64, at: seq<nat>) {
    && |at| == |listed|
    && (forall i :: 0 <= i < |at| ==> at[i] < |raw| && ListedFrom(listed[i], raw[at[i]], tip, minConf))
    && Rising(at)
    && (forall p :: 0 <= p < |raw| && p !in at ==> !MayBeSpent(raw[p], tip, minConf))
  }

  lemma ToSpendableFields(n: WalletNote, tip: int64, minConf: int64)
    requires Usable(n, tip, minConf) && n.position.value <= MAX_U32
    ensures ListedFrom(ToSpendable(n), n, tip, minConf)
  {
  }

  /** Places in a list, with one more note in front. */
  function Up(at: seq<nat>): (up: seq<nat>) {
    seq(|at|, i requires 0 <= i < |at| => at[i] + 1)
  }

  lemma UpMisses(at: seq<nat>, p: nat)
    requires p > 0 && p !in Up(at)
    ensures p - 1 !in at
  {
    assert forall i :: 0 <= i < |at| ==> Up(at)[i] == at[i] + 1 && Up(at)[i] in Up(at);
  }

  lemma RisingUp(at: seq<nat>)
    requires Rising(at)
    ensures Rising(Up(at)) && Rising([0] + Up(at))
  {
  }

  lemma PassedOver(listed: seq<Spendable>, raw: seq<WalletNote>, tip: int64, minConf: int64, at: seq<nat>)
    requires raw != [] && ListedAt(listed, raw[1..], tip, minConf, at) && !MayBeSpent(raw[0], tip, minConf)
    ensures ListedAt(listed, raw, tip, minConf, Up(at))
  {
    forall p | 0 <= p < |raw| && p !in Up(at) ensures !MayBeSpent(raw[p], tip, minConf) {
      if p > 0 {
        UpMisses(at, p);
        assert !MayBeSpent(raw[1..][p - 1], tip, minConf);
      }
    }
  }

  lemma TakenFirst(x: Spendable, listed: seq<Spendable>, raw: seq<WalletNote>, tip: int64, minConf: int64, at: seq<nat>)
    requires raw != [] && ListedAt(listed, raw[1..], tip, minConf, at) && ListedFrom(x, raw[0], tip, minConf)
    ensures ListedAt([x] + listed, raw, tip, minConf, [0] + Up(at))
  {
    var longer, places := [x] + listed, [0] + Up(at);
    forall i | 0 <= i < |places| ensures places[i] < |raw| && ListedFrom(longer[i], raw[places[i]], tip, minConf) {
      if i > 0 {
        assert longer[i] == listed[i - 1] && raw[places[i]] == raw[1..][at[i - 1]];
      }
    }
    RisingUp(at);
    forall p | 0 <= p < |raw| && p !in places ensures !MayBeSpent(raw[p], tip, minConf) {
      assert places[0] == 0 && forall q :: q in Up(at) ==> q in places;
      UpMisses(at, p);
      assert !MayBeSpent(raw[1..][p - 1], tip, minConf);
    }
  }

  /** The listed notes are the raw notes that can be spent, field by field and in order, and no others. */
  lemma {:induction false} ListedPlaces(raw: seq<WalletNote>, tip: int64, minConf: int64) returns (at: seq<nat>)
    requires tip < MAX_I64 && AllPlaceable(raw, tip, minConf)
    ensures ListedAt(Listed(raw, tip, minConf), raw, tip, minConf, at)
    decreases |raw|
  {
    if raw == [] {
      return [];
    }
    var rest := ListedPlaces(raw[1..], tip, minConf);
    if Usable(raw[0], tip, minConf) && raw[0].position.value <= MAX_U32 {
      ToSpendableFields(raw[0], tip, minConf);
      TakenFirst(ToSpendable(raw[0]), Listed(raw[1..], tip, minConf), raw, tip, minConf, rest);
      at := [0] + Up(rest);
    } else {
      PassedOver(Listed(raw[1..], tip, minConf), raw, tip, minConf, rest);
      at := Up(rest);
    }
  }

  /** Listing fails exactly when a note that could be spent has a position beyond uint32. */
  lemma PlaceableIff(raw: seq<WalletNote>, tip: int64, minConf: int64)
    requires tip < MAX_I64
    ensures AllPlaceable(raw, tip, minConf) <==>
      forall n :: n in raw && MayBeSpent(n, tip, minConf) ==> n.position.value <= 0xFFFF_FFFF
  {
  }

  // ---------------------------------------------------------------- actions and witness paths

  /** The path that a table filled in order holds for a position. */
  function PathFor(paths: seq<WitnessPath>, position: uint32): Option<seq<string>> {
    if paths == [] then None
    else
      var last := paths[|paths| - 1];
      if last.position == position then Some(last.path) else PathFor(paths[..|paths| - 1], position)
  }

  /** It is the path listed last for the position. */
  lemma {:induction false} LastPath(paths: seq<WitnessPath>, position: uint32, i: nat)
    requires i < |paths| && paths[i].position == position
    requires forall j :: i < j < |paths| ==> paths[j].position != position
    ensures PathFor(paths, position) == Some(paths[i].path)
    decreases |paths|
  {
    if i < |paths| - 1 {
      LastPath(paths[..|paths| - 1], position, i);
    }
  }

  lemma {:induction false} NoPath(paths: seq<WitnessPath>, position: uint32)
    requires forall j :: 0 <= j < |paths| ==> paths[j].position != position
    ensures PathFor(paths, position).None?
    decreases |paths|
  {
    if paths != [] {
      NoPath(paths[..|paths| - 1], position);
    }
  }

  function Positions(notes: seq<Spendable>): seq<uint32> {
    seq(|notes|, i requires 0 <= i < |notes| => notes[i].position)
  }

  /** The witness is asked for the notes' positions, in their order. */
  lemma PositionsEach(notes: seq<Spendable>)
    ensures |Positions(notes)| == |notes| && forall i :: 0 <= i < |notes| ==> Positions(notes)[i] == notes[i].position
  {
  }

  /** Everything the external services must answer for the notes to be planned. */
  predicate Served(notes: seq<Spendable>, node: Node) {
    var wit := node.witnessFor(Positions(notes));
    && (forall i :: 0 <= i < |notes| ==> node.action(notes[i]).Some?)
    && wit.Some? && wit.value.root != "" && |wit.value.paths| == |notes| && 0 <= wit.value.anchorHeight <= MAX_U32
    && (forall i :: 0 <= i < |notes| ==>
         PathFor(wit.value.paths, notes[i].position).Some? && |PathFor(wit.value.paths, notes[i].position).value| == 32)
  }

  /** The plan spends exactly these notes, each with its own action and the path of its own position. */
  ghost predicate Spends(planned: seq<PlanNote>, notes: seq<Spendable>, node: Node) {
    && Served(notes, node)
    && |planned| == |notes|
    && forall i :: 0 <= i < |notes| ==>
         planned[i] == PlanNote(notes[i].txid, notes[i].action, notes[i].position, node.action(notes[i]).value,
                                PathFor(node.witnessFor(Positions(notes)).value.paths, notes[i].position).value)
  }

  /** The path is one of 32 hashes, listed for the position and last among those listed for it. */
  ghost predicate ListedPath(paths: seq<WitnessPath>, position: uint32, path: seq<string>) {
    |path| == 32 && exists i :: 0 <= i < |paths| && paths[i].position == position && paths[i].path == path
                                && forall j :: i < j < |paths| ==> paths[j].position != position
  }

  ghost predicate HasPath(paths: seq<WitnessPath>, position: uint32) {
    exists path :: ListedPath(paths, position, path)
  }

  lemma ListedPathIff(paths: seq<WitnessPath>, position: uint32)
    ensures HasPath(paths, position) <==> PathFor(paths, position).Some? && |PathFor(paths, position).value| == 32
    ensures forall path :: ListedPath(paths, position, path) ==> PathFor(paths, position) == Some(path)
  {
    forall path | ListedPath(paths, position, path) ensures PathFor(paths, position) == Some(path) {
      var i :| 0 <= i < |paths| && paths[i].position == position && paths[i].path == path
               && forall j :: i < j < |paths| ==> paths[j].position != position;
      LastPath(paths, position, i);
    }
    if PathFor(paths, position).Some? {
      var i := PathPlace(paths, position);
      assert |paths[i].path| == 32 ==> ListedPath(paths, position, paths[i].path);
    }
  }

  lemma {:induction false} PathPlace(paths: seq<WitnessPath>, position: uint32) returns (i: nat)
    requires PathFor(paths, position).Some?
    ensures i < |paths| && paths[i] == WitnessPath(position, PathFor(paths, position).value)
    ensures forall j :: i < j < |paths| ==> paths[j].position != position
    decreases |paths|
  {
    i := |paths| - 1;
    if paths[i].position != position {
      i := PathPlace(paths[..i], position);
    }
  }

  /** When notes can be planned: every note's action is on chain, and the witness for their positions has a
      root, an anchor height of 32 bits, one path for each note asked for, and a listed path for each position. */
  lemma ServedIff(notes: seq<Spendable>, node: Node, positions: seq<uint32>)
    requires |positions| == |notes| && forall i :: 0 <= i < |notes| ==> positions[i] == notes[i].position
    ensures Served(notes, node) <==>
      && (forall i :: 0 <= i < |notes| ==> node.action(notes[i]).Some?)
      && node.witnessFor(positions).Some?
      && var wit := node.witnessFor(positions).value;
        && wit.root != "" && |wit.paths| == |notes| && 0 <= wit.anchorHeight <= 0xFFFF_FFFF
        && forall i :: 0 <= i < |notes| ==> HasPath(wit.paths, notes[i].position)
  {
    assert positions == Positions(notes);
    if node.witnessFor(positions).Some? {
      var paths := node.witnessFor(positions).value.paths;
      forall i | 0 <= i < |notes|
        ensures HasPath(paths, notes[i].position) <==>
          PathFor(paths, notes[i].position).Some? && |PathFor(paths, notes[i].position).value| == 32
      {
        ListedPathIff(paths, notes[i].position);
      }
    }
  }

  /** What a planned note is: its note's txid, action index and position, its own action, its position's path. */
  lemma PlannedFields(planned: seq<PlanNote>, notes: seq<Spendable>, node: Node, positions: seq<uint32>, i: nat)
    requires Spends(planned, notes, node) && i < |notes|
    requires |positions| == |notes| && forall j :: 0 <= j < |notes| ==> positions[j] == notes[j].position
    ensures |planned| == |notes| && node.action(notes[i]).Some? && node.witnessFor(positions).Some?
    ensures planned[i].txid == notes[i].txid && planned[i].index == notes[i].action && planned[i].position == notes[i].position
    ensures planned[i].action == node.action(notes[i]).value
    ensures ListedPath(node.witnessFor(positions).value.paths, notes[i].position, planned[i].path)
  {
    assert positions == Positions(notes);
    ListedPathIff(node.witnessFor(positions).value.paths, notes[i].position);
  }

  /** A plan note before its path is known. */
  function Bare(n: Spendable, node: Node): PlanNote
    requires node.action(n).Some?
  {
    PlanNote(n.txid, n.action, n.position, node.action(n).value, [])
  }

  method BuildPlanNotes(notes: seq<Spendable>, node: Node) returns (res: Option<seq<PlanNote>>)
    ensures res.Some? <==> Served(notes, node)
    ensures res.Some? ==> Spends(res.value, notes, node)
  {
    var positions: seq<uint32> := [];
    var planNotes: seq<PlanNote> := [];
    for i := 0 to |notes|
      invariant |positions| == |planNotes| == i
      invariant forall j :: 0 <= j < i ==> positions[j] == notes[j].position && node.action(notes[j]).Some?
      invariant forall j :: 0 <= j < i ==> planNotes[j] == Bare(notes[j], node)
    {
      var act := node.action(notes[i]);
      if act.None? {
        return None;
      }
      positions := positions + [notes[i].position];
      planNotes := planNotes + [PlanNote(notes[i].txid, notes[i].action, notes[i].position, act.value, [])];
    }
    assert positions == Positions(notes);
    var wit := node.witnessFor(positions);
    if wit.None? || wit.value.root == "" || |wit.value.paths| != |positions| {
      return None;
    }
    if wit.value.anchorHeight < 0 || wit.value.anchorHeight > MAX_U32 {
      return None;
    }
    var pathByPos := PathTable(wit.value.paths);
    for i := 0 to |planNotes|
      invariant |planNotes| == |notes|
      invariant forall j :: 0 <= j < |notes| ==> planNotes[j].(path := []) == Bare(notes[j], node)
      invariant forall j :: 0 <= j < i ==>
        PathFor(wit.value.paths, notes[j].position) == Some(planNotes[j].path) && |planNotes[j].path| == 32
    {
      var pos := planNotes[i].position;
      assert pos == notes[i].position;
      if pos !in pathByPos || |pathByPos[pos]| != 32 {
        return None;
      }
      planNotes := planNotes[i := planNotes[i].(path := pathByPos[pos])];
    }
    return Some(planNotes);
  }

  /** pathByPos: a later path for the same position overwrites an earlier one. */
  method PathTable(paths: seq<WitnessPath>) returns (table: map<uint32, seq<string>>)
    ensures forall p: uint32 :: PathFor(paths, p) == if p in table then Some(table[p]) else None
  {
    table := map[];
    for i := 0 to |paths|
      invariant forall p: uint32 :: PathFor(paths[..i], p) == if p in table then Some(table[p]) else None
    {
      assert paths[..i + 1][..i] == paths[..i];
      table := table[paths[i].position := paths[i].path];
    }
    assert paths[..|paths|] == paths;
  }

  // ---------------------------------------------------------------- sweeps

  lemma {:induction false} ValueAppend(a: seq<Spendable>, b: seq<Spendable>)
    ensures Value(a + b) == Value(a) + Value(b)
    decreases |a|
  {
    if a == [] {
      assert a + b == b;
    } else {
      assert (a + b)[1..] == a[1..] + b;
      ValueAppend(a[1..], b);
    }
  }

  /** The checked running total: the exact sum, or nothing when it exceeds uint64. */
  method SumValues(notes: seq<Spendable>) returns (total: Option<uint64>)
    ensures total == if Value(notes) < TWO_64 then Some(Value(notes)) else None
  {
    var sum: uint64 := 0;
    for i := 0 to |notes|
      invariant sum == Value(notes[..i])
    {
      assert notes[..i + 1] == notes[..i] + [notes[i]];
      ValueAppend(notes[..i], [notes[i]]);
      assert [notes[i]][1..] == [];
      assert notes == notes[..i + 1] + notes[i + 1..];
      ValueAppend(notes[..i + 1], notes[i + 1..]);
      if AddU64(sum, notes[i].value) < sum {
        return None;
      }
      sum := AddU64(sum, notes[i].value);
    }
    assert notes[..|notes|] == notes;
    return Some(sum);
  }

  /** When a sweep of these notes can be planned. */
  ghost predicate Plannable(notes: seq<Spendable>, node: Node) {
    notes != [] && Fee(|notes|, 1) < Value(notes) < TWO_64 && Served(notes, node)
  }

  /** planSweepWithNotes: one output of everything but the fee. The length bound is that no slice holds
      2^64/5000 notes. */
  method PlanSweepWithNotes(notes: seq<Spendable>, node: Node) returns (res: Result<Plan, PlanError>)
    requires Fee(|notes|, 1) < TWO_64
    ensures res.Ok? <==> Plannable(notes, node)
    ensures res.Ok? ==>
      && Spends(res.value.notes, notes, node)
      && res.value.fee == Fee(|notes|, 1)
      && |res.value.outputs| == 1 && res.value.outputs[0] > 0
      && res.value.outputs[0] + res.value.fee == Value(notes)
    ensures notes == [] ==> res == Err(NoSpendableNotes)
    ensures Value(notes) >= TWO_64 ==> res == Err(SumOverflow)
    ensures notes != [] && Value(notes) <= Fee(|notes|, 1) ==> res == Err(PlanError.InsufficientFunds)
    ensures notes != [] && Fee(|notes|, 1) < Value(notes) < TWO_64 && res.Err? ==> res == Err(NodeFailed)
  {
    if |notes| == 0 {
      return Err(NoSpendableNotes);
    }
    var totalIn := SumValues(notes);
    if totalIn.None? {
      return Err(SumOverflow);
    }
    FeeExact(|notes|, 1);
    var fee := RequiredFeeSend(|notes|, 1);
    if totalIn.value <= fee.value {
      return Err(PlanError.InsufficientFunds);
    }
    var amount := totalIn.value - fee.value;
    var planNotes := BuildPlanNotes(notes, node);
    if planNotes.None? {
      return Err(NodeFailed);
    }
    return Ok(Plan(planNotes.value, [amount], fee.value));
  }

  ghost function Paid(plans: seq<Plan>): int {
    if plans == [] then 0
    else (if |plans[0].outputs| == 1 then plans[0].outputs[0] else 0) + plans[0].fee + Paid(plans[1..])
  }

  ghost function ValueOfAll(chunks: Chunks): int {
    if chunks == [] then 0 else Value(chunks[0]) + ValueOfAll(chunks[1..])
  }

  lemma {:induction false} ValueRemove(notes: seq<Spendable>, x: Spendable, i: nat)
    requires i < |notes| && notes[i] == x
    ensures Value(notes) == x.value + Value(notes[..i] + notes[i + 1..])
    ensures multiset(notes) == multiset{x} + multiset(notes[..i] + notes[i + 1..])
  {
    assert notes == notes[..i] + ([x] + notes[i + 1..]);
    ValueAppend(notes[..i], [x] + notes[i + 1..]);
    ValueAppend(notes[..i], notes[i + 1..]);
    assert ([x] + notes[i + 1..])[1..] == notes[i + 1..];
  }

  lemma {:induction false} ValuePermutes(a: seq<Spendable>, b: seq<Spendable>)
    requires multiset(a) == multiset(b)
    ensures Value(a) == Value(b)
    decreases |a|
  {
    assert |a| == |multiset(a)| == |multiset(b)| == |b|;
    if a != [] {
      assert a[0] in multiset(b);
      var i :| 0 <= i < |b| && b[i] == a[0];
      ValueRemove(b, a[0], i);
      assert a == [a[0]] + a[1..];
      assert multiset(a[1..]) == multiset(b[..i] + b[i + 1..]) by {
        assert multiset(a) == multiset(a[1..]) + multiset{a[0]};
        assert multiset(b) == multiset(b[..i] + b[i + 1..]) + multiset{a[0]};
        Cancel(multiset(a[1..]), multiset(b[..i] + b[i + 1..]), multiset{a[0]});
      }
      ValuePermutes(a[1..], b[..i] + b[i + 1..]);
    }
  }

  ghost function Concat(chunks: Chunks): seq<Spendable> {
    if chunks == [] then [] else chunks[0] + Concat(chunks[1..])
  }

  lemma {:induction false} ConcatFlat(chunks: Chunks)
    ensures multiset(Concat(chunks)) == Flat(chunks) && Value(Concat(chunks)) == ValueOfAll(chunks)
    decreases |chunks|
  {
    if chunks != [] {
      ConcatFlat(chunks[1..]);
      ValueAppend(chunks[0], Concat(chunks[1..]));
    }
  }

  /** Chunks that hold the notes hold their value. */
  lemma ChunksConserveValue(chunks: Chunks, notes: seq<Spendable>)
    requires Flat(chunks) == multiset(notes)
    ensures ValueOfAll(chunks) == Value(notes)
  {
    ConcatFlat(chunks);
    ValuePermutes(Concat(chunks), notes);
  }

  lemma {:induction false} PaidAppend(plans: seq<Plan>, p: Plan)
    ensures Paid(plans + [p]) == Paid(plans) + Paid([p])
    decreases |plans|
  {
    if plans == [] {
      assert plans + [p] == [p];
    } else {
      assert (plans + [p])[1..] == plans[1..] + [p];
      PaidAppend(plans[1..], p);
    }
  }

  lemma {:induction false} ValueOfAllTake(chunks: Chunks, i: nat)
    requires i < |chunks|
    ensures ValueOfAll(chunks[..i + 1]) == ValueOfAll(chunks[..i]) + Value(chunks[i])
    decreases i
  {
    assert chunks[..i + 1][1..] == chunks[1..][..i];
    if i > 0 {
      assert chunks[..i][1..] == chunks[1..][..i - 1];
      ValueOfAllTake(chunks[1..], i - 1);
    }
  }

  /** One plan per chunk, in order, spending that chunk. */
  ghost predicate PlansFor(plans: seq<Plan>, fees: seq<uint64>, chunks: Chunks, node: Node) {
    && |plans| == |fees| == |chunks|
    && forall i :: 0 <= i < |plans| ==>
         && Spends(plans[i].notes, chunks[i], node)
         && plans[i].fee == fees[i] == Fee(|chunks[i]|, 1)
         && |plans[i].outputs| == 1 && plans[i].outputs[0] > 0
         && plans[i].outputs[0] + plans[i].fee == Value(chunks[i])
  }

  /** A cap within the signer's limits is taken as it is; 200 stands for none or too large a one, 2 for 1. */
  function ClampSpends(maxSpends: int): (cap: int)
    ensures 2 <= cap <= 200
    ensures 2 <= maxSpends <= 200 ==> cap == maxSpends
    ensures maxSpends <= 0 || maxSpends > 200 ==> cap == 200
    ensures maxSpends == 1 ==> cap == 2
  {
    var capped := if maxSpends <= 0 || maxSpends > MAX_NOTES_PER_TX then MAX_NOTES_PER_TX else maxSpends;
    if capped < 2 then 2 else capped
  }

  /** At least one confirmation is always asked for. */
  function ClampConf(minConf: int64): (conf: int64)
    ensures conf >= 1 && (minConf >= 1 ==> conf == minConf) && (minConf < 1 ==> conf == 1)
  {
    if minConf <= 0 then 1 else minConf
  }

  /** The chain height is usable and some note can be listed. */
  predicate Sweepable(raw: seq<WalletNote>, tip: int64, minConf: int64) {
    0 <= tip <= MAX_U32 && AllPlaceable(raw, tip, minConf) && Listed(raw, tip, minConf) != []
  }

  ghost predicate AllPlannable(chunks: Chunks, node: Node) {
    forall i :: 0 <= i < |chunks| ==> Plannable(chunks[i], node)
  }

  /** One plan per chunk of a split of the notes, and no way of grouping them under the cap is cheaper. */
  ghost predicate Sweeps(plans: seq<Plan>, fees: seq<uint64>, notes: seq<Spendable>, cap: int, node: Node) {
    cap >= 0 && exists chunks ::
      SplitOf(chunks, notes, cap) && Cheapest(chunks, multiset(notes), cap) && PlansFor(plans, fees, chunks, node)
  }

  /** PlanSweepMany: when it succeeds, every listed note is spent in exactly one plan, no plan has more
      than the capped number of notes, every output is positive, and outputs and fees add up to the value
      of the listed notes; no way of grouping the notes under the cap pays lower fees in total. */
  method PlanSweepMany(raw: seq<WalletNote>, tip: int64, minConf: int64, maxSpends: int, node: Node)
    returns (res: Result<(seq<Plan>, seq<uint64>), PlanError>)
    ensures res.Ok? ==>
      var notes := Listed(raw, tip, ClampConf(minConf));
      && Sweeps(res.value.0, res.value.1, notes, ClampSpends(maxSpends), node)
      && Paid(res.value.0) == Value(notes)
    ensures tip < 0 || tip > MAX_U32 ==> res == Err(InvalidHeight)
    ensures 0 <= tip <= MAX_U32 && !AllPlaceable(raw, tip, ClampConf(minConf)) ==> res == Err(PositionTooLarge)
    ensures 0 <= tip <= MAX_U32 && AllPlaceable(raw, tip, ClampConf(minConf)) && Listed(raw, tip, ClampConf(minConf)) == [] ==>
      res == Err(NoSpendableNotes)
    ensures res.Ok? ==> Sweepable(raw, tip, ClampConf(minConf)) && AllCarried(res.value.0, raw)
    ensures Sweepable(raw, tip, ClampConf(minConf)) ==>
      exists chunks :: SplitOf(chunks, Listed(raw, tip, ClampConf(minConf)), ClampSpends(maxSpends))
        && (res.Ok? <==> AllPlannable(chunks, node))
  {
    var conf := if minConf <= 0 then 1 else minConf;
    var cap := maxSpends;
    if cap <= 0 || cap > MAX_NOTES_PER_TX {
      cap := MAX_NOTES_PER_TX;
    }
    if cap < 2 {
      cap := 2;
    }
    if tip < 0 || tip > MAX_U32 {
      return Err(InvalidHeight);
    }
    var listed := ListSpendableNotes(raw, tip, conf);
    if listed.Err? {
      return Err(listed.error);
    }
    var notes := listed.value;
    if |notes| == 0 {
      return Err(NoSpendableNotes);
    }
    var chunks := SplitNotesBalanced(notes, cap);
    var plans, fees, failed := PlanChunks(chunks, node);
    if failed.Some? {
      return Err(failed.value);
    }
    ChunksConserveValue(chunks, notes);
    PlannedCarried(plans, fees, chunks, node, raw, tip, conf);
    return Ok((plans, fees));
  }

  /** The planned note has the txid, the action index and the position of the wallet's note. */
  ghost predicate Carries(planned: PlanNote, n: WalletNote) {
    && planned.txid == n.txid && n.position.Some? && planned.position == n.position.value
    && (n.action - planned.index) % 0x1_0000_0000 == 0
  }

  ghost predicate AllCarried(plans: seq<Plan>, raw: seq<WalletNote>) {
    forall i, j :: 0 <= i < |plans| && 0 <= j < |plans[i].notes| ==> exists n :: n in raw && Carries(plans[i].notes[j], n)
  }

  lemma {:induction false} InChunk(chunks: Chunks, i: nat, x: Spendable)
    requires i < |chunks| && x in chunks[i]
    ensures x in Flat(chunks)
    decreases i
  {
    if i > 0 {
      InChunk(chunks[1..], i - 1, x);
    }
  }

  lemma ListedInRaw(x: Spendable, raw: seq<WalletNote>, tip: int64, minConf: int64) returns (n: WalletNote)
    requires tip < MAX_I64 && AllPlaceable(raw, tip, minConf) && x in Listed(raw, tip, minConf)
    ensures n in raw && ListedFrom(x, n, tip, minConf)
  {
    var listed := Listed(raw, tip, minConf);
    var at := ListedPlaces(raw, tip, minConf);
    var p :| 0 <= p < |listed| && listed[p] == x;
    n := raw[at[p]];
  }

  lemma NoteCarried(planned: seq<PlanNote>, notes: seq<Spendable>, node: Node, j: nat, n: WalletNote, tip: int64, minConf: int64)
    requires Spends(planned, notes, node) && j < |planned| && ListedFrom(notes[j], n, tip, minConf)
    ensures Carries(planned[j], n)
  {
  }

  lemma PlannedCarried(plans: seq<Plan>, fees: seq<uint64>, chunks: Chunks, node: Node, raw: seq<WalletNote>, tip: int64, minConf: int64)
    requires PlansFor(plans, fees, chunks, node) && Flat(chunks) == multiset(Listed(raw, tip, minConf))
    requires tip < MAX_I64 && AllPlaceable(raw, tip, minConf)
    ensures AllCarried(plans, raw)
  {
    forall i, j | 0 <= i < |plans| && 0 <= j < |plans[i].notes|
      ensures exists n :: n in raw && Carries(plans[i].notes[j], n)
    {
      InChunk(chunks, i, chunks[i][j]);
      assert chunks[i][j] in multiset(Listed(raw, tip, minConf));
      var n := ListedInRaw(chunks[i][j], raw, tip, minConf);
      NoteCarried(plans[i].notes, chunks[i], node, j, n, tip, minConf);
    }
  }

  lemma PlansForNext(plans: seq<Plan>, fees: seq<uint64>, split: Chunks, i: nat, node: Node, plan: Plan)
    requires i < |split| && PlansFor(plans, fees, split[..i], node)
    requires Spends(plan.notes, split[i], node) && plan.fee == Fee(|split[i]|, 1)
    requires |plan.outputs| == 1 && plan.outputs[0] > 0 && plan.outputs[0] + plan.fee == Value(split[i])
    ensures PlansFor(plans + [plan], fees + [plan.fee], split[..i + 1], node)
  {
    assert split[..i + 1] == split[..i] + [split[i]];
  }

  /** The loop that plans one sweep per chunk. */
  method PlanChunks(split: Chunks, node: Node) returns (plans: seq<Plan>, fees: seq<uint64>, failed: Option<PlanError>)
    requires forall i :: 0 <= i < |split| ==> Fee(|split[i]|, 1) < TWO_64
    ensures failed.None? <==> AllPlannable(split, node)
    ensures failed.None? ==> PlansFor(plans, fees, split, node) && Paid(plans) == ValueOfAll(split)
  {
    plans, fees, failed := [], [], None;
    for i := 0 to |split|
      invariant PlansFor(plans, fees, split[..i], node) && failed.None?
      invariant Paid(plans) == ValueOfAll(split[..i])
      invariant forall j :: 0 <= j < i ==> Plannable(split[j], node)
    {
      var plan := PlanSweepWithNotes(split[i], node);
      if plan.Err? {
        failed := Some(plan.error);
        return;
      }
      PaidAppend(plans, plan.value);
      ValueOfAllTake(split, i);
      PlansForNext(plans, fees, split, i, node, plan.value);
      plans := plans + [plan.value];
      fees := fees + [plan.value.fee];
    }
    assert split[..|split|] == split;
  }
}
