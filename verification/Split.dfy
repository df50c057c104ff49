/** splitNotesBalanced, and why no other split is cheaper. */
module Split {
  import opened Ints
  import opened Sorting
  import opened Notes
  import opened Selection
  import opened Sweep

  // ---------------------------------------------------------------- fees

  ghost function TotalFee(chunks: Chunks): int {
    if chunks == [] then 0 else Fee(|chunks[0]|, 1) + TotalFee(chunks[1..])
  }

  /** The notes dealt into non-empty groups of at most m. */
  ghost predicate Partition(groups: Chunks, notes: multiset<Spendable>, m: nat) {
    && Flat(groups) == notes
    && forall g :: 0 <= g < |groups| ==> 1 <= |groups[g]| <= m
  }

  ghost predicate Cheapest(chunks: Chunks, notes: multiset<Spendable>, m: nat) {
    && Partition(chunks, notes, m)
    && forall groups :: Partition(groups, notes, m) ==> TotalFee(chunks) <= TotalFee(groups)
  }

  /** A group of one pays for two actions, every other group for its notes. */
  lemma {:induction false} FeesCount(chunks: Chunks)
    requires forall g :: 0 <= g < |chunks| ==> 1 <= |chunks[g]|
    ensures TotalFee(chunks) == FEE_PER_ACTION * (Count(chunks) + Singles(chunks))
    decreases |chunks|
  {
    if chunks != [] {
      assert forall g :: 0 <= g < |chunks[1..]| ==> chunks[1..][g] == chunks[g + 1];
      FeesCount(chunks[1..]);
    }
  }

  /** Groups of one or two: the singles make up the difference to twice the number of groups. */
  lemma {:induction false} PairsAndSingles(chunks: Chunks)
    requires forall g :: 0 <= g < |chunks| ==> 1 <= |chunks[g]| <= 2
    ensures Count(chunks) + Singles(chunks) == 2 * |chunks|
    decreases |chunks|
  {
    if chunks != [] {
      assert forall g :: 0 <= g < |chunks[1..]| ==> chunks[1..][g] == chunks[g + 1];
      PairsAndSingles(chunks[1..]);
    }
  }

  lemma {:induction false} SingleExists(chunks: Chunks)
    ensures Singles(chunks) > 0 <==> exists c :: 0 <= c < |chunks| && |chunks[c]| == 1
    decreases |chunks|
  {
    if chunks != [] {
      SingleExists(chunks[1..]);
      if c :| 0 < c < |chunks| && |chunks[c]| == 1 {
        assert |chunks[1..][c - 1]| == 1;
      }
      if c :| 0 <= c < |chunks[1..]| && |chunks[1..][c]| == 1 {
        assert |chunks[c + 1]| == 1;
      }
    }
  }

  lemma {:induction false} SizeBelowCount(chunks: Chunks, c: nat)
    requires c < |chunks|
    ensures |chunks[c]| <= Count(chunks)
    decreases |chunks|
  {
    if c > 0 {
      SizeBelowCount(chunks[1..], c - 1);
    }
  }

  /** A deal leaves a single only when an odd number of notes goes into pairs, and then just one. */
  lemma DealtSingles(chunks: Chunks, s: seq<Spendable>, m: nat)
    requires Dealt(chunks, s) && SortedBy(s, SpendableLe) && Flat(chunks) == multiset(s)
    requires 2 <= m < |s| && |chunks| == CeilDiv(|s|, m)
    ensures Singles(chunks) == 0 || (Singles(chunks) == 1 && m == 2 && |s| % 2 == 1)
  {
    DealtShape(chunks, s, m);
    DealtSizes(chunks, s);
    CountIsSize(chunks);
    assert |multiset(s)| == |s|;
    if Singles(chunks) > 0 {
      SingleExists(chunks);
      PairsAndSingles(chunks);
      CeilDivBounds(|s|, m);
      OnlyPairs(|chunks|, m, |s|, Singles(chunks));
    }
  }

  lemma OnlyPairs(k: nat, m: nat, n: nat, singles: nat)
    requires m >= 2 && k >= 2 && (k - 1) * m < n && n + singles == 2 * k && singles > 0
    ensures m == 2 && singles == 1 && n % 2 == 1
  {
    MulMonotone(2, m, k - 1);
    if m > 2 {
      MulMonotone(3, m, k - 1);
    }
  }

  lemma OddNeedsSingle(groups: Chunks, notes: multiset<Spendable>, m: nat)
    requires Partition(groups, notes, m) && |notes| % 2 == 1 && (m <= 2 || |notes| == 1)
    ensures Singles(groups) >= 1
  {
    CountIsSize(groups);
    forall g | 0 <= g < |groups| ensures |groups[g]| <= 2 {
      SizeBelowCount(groups, g);
    }
    PairsAndSingles(groups);
  }

  /** Fee optimality: no partition into non-empty groups of at most m pays less in total. */
  lemma DealIsCheapest(chunks: Chunks, s: seq<Spendable>, m: nat)
    requires Dealt(chunks, s) && SortedBy(s, SpendableLe) && Flat(chunks) == multiset(s)
    requires 2 <= m < |s| && |chunks| == CeilDiv(|s|, m)
    ensures Cheapest(chunks, multiset(s), m)
  {
    DealtShape(chunks, s, m);
    DealtSingles(chunks, s, m);
    assert |multiset(s)| == |s|;
    forall groups | Partition(groups, multiset(s), m) ensures TotalFee(chunks) <= TotalFee(groups) {
      if Singles(chunks) > 0 {
        OddNeedsSingle(groups, multiset(s), m);
      }
      CountIsSize(groups);
      CountIsSize(chunks);
      FeesCount(groups);
      FeesCount(chunks);
    }
  }

  lemma OneGroupIsCheapest(notes: seq<Spendable>, m: nat)
    requires 1 <= |notes| <= m
    ensures Cheapest([notes], multiset(notes), m)
  {
    assert [notes][1..] == [];
    assert Flat([notes]) == multiset(notes);
    assert |multiset(notes)| == |notes|;
    forall groups | Partition(groups, multiset(notes), m) ensures TotalFee([notes]) <= TotalFee(groups) {
      if |notes| == 1 {
        OddNeedsSingle(groups, multiset(notes), m);
      }
      CountIsSize(groups);
      CountIsSize([notes]);
      FeesCount(groups);
      FeesCount([notes]);
    }
  }

  // ---------------------------------------------------------------- value balance

  function Largest(notes: seq<Spendable>): (v: nat)
    ensures forall n :: n in notes ==> n.value <= v
    ensures v > 0 ==> exists n :: n in notes && n.value == v
  {
    if notes == [] then 0 else
    var rest := Largest(notes[1..]);
    if notes[0].value < rest then rest else notes[0].value
  }

  /** Chunk values do not increase with the index and lie within the largest note of each other. */
  ghost predicate ValueBalanced(chunks: Chunks, notes: seq<Spendable>) {
    forall c, d :: 0 <= c < d < |chunks| ==>
      Value(chunks[d]) <= Value(chunks[c]) <= Value(chunks[d]) + Largest(notes)
  }

  lemma DealtBalanced(chunks: Chunks, s: seq<Spendable>, notes: seq<Spendable>)
    requires Dealt(chunks, s) && SortedBy(s, SpendableLe) && multiset(s) == multiset(notes)
    ensures ValueBalanced(chunks, notes)
  {
    var k := |chunks|;
    forall c, d | 0 <= c < d < k
      ensures Value(chunks[d]) <= Value(chunks[c]) <= Value(chunks[d]) + Largest(notes)
    {
      if c < |s| {
        DealBalance(s, k, c, d);
        assert s[c] in multiset(notes);
      }
    }
  }

  // ---------------------------------------------------------------- the borrow loop

  /** Nothing to borrow: no chunk of one, or no chunk of more than two. */
  ghost predicate Settled(chunks: Chunks) {
    Singles(chunks) == 0 || forall c :: 0 <= c < |chunks| ==> |chunks[c]| <= 2
  }

  /** One borrowing: the first chunk of one gets the last note of the first of the longest chunks, which keeps
      two or more. */
  ghost predicate BorrowStep(a: Chunks, b: Chunks) {
    exists one, donor :: BorrowAt(a, b, one, donor)
  }

  ghost predicate BorrowAt(a: Chunks, b: Chunks, one: int, donor: int) {
    && 0 <= one < |a| && |a[one]| == 1 && (forall c :: 0 <= c < one ==> |a[c]| != 1)
    && 0 <= donor < |a| && |a[donor]| > 2 && (forall c :: 0 <= c < donor ==> |a[c]| < |a[donor]|)
    && (forall c :: 0 <= c < |a| ==> |a[c]| <= |a[donor]|)
    && |b| == |a|
    && b[one] == a[one] + [a[donor][|a[donor]| - 1]] && b[donor] == a[donor][..|a[donor]| - 1]
    && forall c :: 0 <= c < |a| && c != one && c != donor ==> b[c] == a[c]
  }

  ghost predicate Borrowed(a: Chunks, b: Chunks, steps: nat)
    decreases steps
  {
    if steps == 0 then a == b else exists mid :: Borrowed(a, mid, steps - 1) && BorrowStep(mid, b)
  }

  lemma BorrowedMore(given: Chunks, mid: Chunks, next: Chunks, steps: nat)
    requires Borrowed(given, mid, steps) && BorrowStep(mid, next)
    ensures Borrowed(given, next, steps + 1)
  {
  }

  lemma MovedIsBorrow(a: Chunks, one: nat, donor: nat)
    requires one < |a| && |a[one]| == 1 && (forall c :: 0 <= c < one ==> |a[c]| != 1)
    requires donor < |a| && |a[donor]| > 2 && (forall c :: 0 <= c < donor ==> |a[c]| < |a[donor]|)
    requires forall c :: 0 <= c < |a| ==> |a[c]| <= |a[donor]|
    ensures BorrowStep(a, a[donor := a[donor][..|a[donor]| - 1]][one := a[one] + [a[donor][|a[donor]| - 1]]])
  {
    assert BorrowAt(a, a[donor := a[donor][..|a[donor]| - 1]][one := a[one] + [a[donor][|a[donor]| - 1]]], one, donor);
  }

  /** One turn of the loop: a borrowing, or nothing when there is nothing to borrow. */
  method BorrowOne(chunks: Chunks) returns (next: Chunks, moved: bool)
    ensures !moved ==> next == chunks && Settled(chunks)
    ensures moved ==> !Settled(chunks) && BorrowStep(chunks, next) && |next| == |chunks|
    ensures moved ==> Flat(next) == Flat(chunks) && Singles(next) < Singles(chunks)
  {
    var oneIdx := FirstSingle(chunks);
    SingleExists(chunks);
    if oneIdx == -1 {
      return chunks, false;
    }
    var donor, maxLen := FirstLongest(chunks);
    if donor == -1 || donor == oneIdx || |chunks[donor]| <= 2 {
      return chunks, false;
    }
    var last := |chunks[donor]| - 1;
    MoveOne(chunks, donor, oneIdx);
    MovedIsBorrow(chunks, oneIdx, donor);
    next := chunks[donor := chunks[donor][..last]];
    next := next[oneIdx := next[oneIdx] + [chunks[donor][last]]];
    moved := true;
  }

  /** From any chunks the loop ends with nothing to borrow, after borrowings alone; each leaves one single
      less. It does nothing to chunks that are settled already. */
  method Borrow(given: Chunks) returns (chunks: Chunks)
    ensures exists steps: nat :: Borrowed(given, chunks, steps)
    ensures |chunks| == |given| && Flat(chunks) == Flat(given)
    ensures Settled(chunks)
    ensures Settled(given) ==> chunks == given
  {
    chunks := given;
    ghost var steps: nat := 0;
    while true
      invariant Borrowed(given, chunks, steps)
      invariant |chunks| == |given| && Flat(chunks) == Flat(given)
      invariant Settled(given) ==> chunks == given
      decreases Singles(chunks)
    {
      var next, moved := BorrowOne(chunks);
      if !moved {
        break;
      }
      BorrowedMore(given, chunks, next, steps);
      chunks, steps := next, steps + 1;
    }
  }

  method FirstSingle(chunks: Chunks) returns (oneIdx: int)
    ensures -1 <= oneIdx < |chunks|
    ensures oneIdx == -1 ==> forall c :: 0 <= c < |chunks| ==> |chunks[c]| != 1
    ensures oneIdx >= 0 ==> |chunks[oneIdx]| == 1 && forall c :: 0 <= c < oneIdx ==> |chunks[c]| != 1
  {
    oneIdx := -1;
    for i := 0 to |chunks|
      invariant oneIdx == -1
      invariant forall c :: 0 <= c < i ==> |chunks[c]| != 1
    {
      if |chunks[i]| == 1 {
        return i;
      }
    }
  }

  method FirstLongest(chunks: Chunks) returns (donor: int, maxLen: nat)
    ensures -1 <= donor < |chunks|
    ensures donor == -1 ==> maxLen == 0
    ensures donor >= 0 ==> |chunks[donor]| == maxLen && forall c :: 0 <= c < donor ==> |chunks[c]| < maxLen
    ensures forall c :: 0 <= c < |chunks| ==> |chunks[c]| <= maxLen
  {
    donor, maxLen := -1, 0;
    for i := 0 to |chunks|
      invariant -1 <= donor < i
      invariant donor == -1 ==> maxLen == 0
      invariant donor >= 0 ==> |chunks[donor]| == maxLen && forall c :: 0 <= c < donor ==> |chunks[c]| < maxLen
      invariant forall c :: 0 <= c < i ==> |chunks[c]| <= maxLen
    {
      if |chunks[i]| > maxLen {
        maxLen := |chunks[i]|;
        donor := i;
      }
    }
  }

  /** Moving the last note of a chunk of three or more to a chunk of one. */
  lemma MoveOne(chunks: Chunks, donor: nat, one: nat)
    requires donor < |chunks| && one < |chunks| && donor != one && |chunks[donor]| > 2 && |chunks[one]| == 1
    ensures var last := |chunks[donor]| - 1;
      var short := chunks[donor := chunks[donor][..last]];
      var moved := short[one := short[one] + [chunks[donor][last]]];
      Flat(moved) == Flat(chunks) && Singles(moved) == Singles(chunks) - 1
  {
    var last := |chunks[donor]| - 1;
    var x := chunks[donor][last];
    var short := chunks[donor := chunks[donor][..last]];
    FlatUpdate(chunks, donor, chunks[donor][..last]);
    FlatUpdate(short, one, short[one] + [x]);
    assert chunks[donor] == chunks[donor][..last] + [x];
    assert multiset(chunks[donor]) == multiset(chunks[donor][..last]) + multiset{x};
    assert multiset(short[one] + [x]) == multiset(short[one]) + multiset{x};
    var moved := Flat(short[one := short[one] + [x]]);
    assert Flat(short) + multiset{x} == Flat(chunks) by {
      Cancel(Flat(short) + multiset{x}, Flat(chunks), multiset(chunks[donor][..last]));
    }
    Cancel(moved, Flat(short) + multiset{x}, multiset(short[one]));
  }

  lemma Cancel<T>(a: multiset<T>, b: multiset<T>, c: multiset<T>)
    requires a + c == b + c
    ensures a == b
  {
    forall x ensures a[x] == b[x] {
      assert (a + c)[x] == (b + c)[x];
    }
  }

  /** The borrow loop never moves a note after a deal: sizes within one of each other are settled. */
  lemma DealtSettled(chunks: Chunks, s: seq<Spendable>)
    requires Dealt(chunks, s) && SortedBy(s, SpendableLe)
    ensures Settled(chunks)
  {
    DealtSizes(chunks, s);
    SingleExists(chunks);
  }

  // ---------------------------------------------------------------- the split

  /** Several chunks: exactly ceil(n/m) of them, a permutation of the notes, each of one to m notes,
      sizes within one of each other, values balanced. */
  ghost predicate WellSplit(chunks: Chunks, notes: seq<Spendable>, m: nat) {
    && m > 0 && |chunks| == CeilDiv(|notes|, m)
    && Partition(chunks, multiset(notes), m)
    && (forall c, d :: 0 <= c < |chunks| && 0 <= d < |chunks| ==> |chunks[c]| <= |chunks[d]| + 1)
    && ValueBalanced(chunks, notes)
  }

  /** What the split of a wallet is, up to the arrangement of notes that the sort leaves tied: one chunk when
      the cap allows it, else the round-robin deal of the sorted notes into ceil(n/m) chunks. */
  ghost predicate SplitOf(chunks: Chunks, notes: seq<Spendable>, maxSpends: int) {
    if maxSpends <= 0 || |notes| <= maxSpends then chunks == [notes]
    else
      && |chunks| == CeilDiv(|notes|, maxSpends)
      && exists s: seq<Spendable> :: SortedBy(s, SpendableLe) && multiset(s) == multiset(notes) && Dealt(chunks, s)
                                     && Flat(chunks) == multiset(s)
  }

  method SplitNotesBalanced(notes: seq<Spendable>, maxSpends: int) returns (chunks: Chunks)
    ensures SplitOf(chunks, notes, maxSpends)
    ensures 0 < maxSpends < |notes| ==> WellSplit(chunks, notes, maxSpends)
    ensures maxSpends >= 2 && |notes| >= 1 ==> Cheapest(chunks, multiset(notes), maxSpends)
  {
    var m := if maxSpends <= 0 then |notes| else maxSpends;
    if |notes| <= m {
      if maxSpends >= 2 && |notes| >= 1 {
        OneGroupIsCheapest(notes, m);
      }
      return [notes];
    }
    var k := (|notes| + m - 1) / m;
    CeilDivBounds(|notes|, m);
    ghost var s;
    chunks, s := DealRoundRobin(notes, k);
    DealtSettled(chunks, s);
    assert |s| == |multiset(s)| == |multiset(notes)| == |notes|;
    DealtFinal(chunks, s, notes, m);
    if m >= 2 {
      DealIsCheapest(chunks, s, m);
    }
    chunks := Borrow(chunks);
  }

  /** Sorts a copy of the notes and deals it out, note i to chunk i mod k. */
  method DealRoundRobin(notes: seq<Spendable>, k: nat) returns (chunks: Chunks, ghost s: seq<Spendable>)
    requires k > 0
    ensures |chunks| == k && Dealt(chunks, s) && SortedBy(s, SpendableLe)
    ensures Flat(chunks) == multiset(s) == multiset(notes)
  {
    var sorted := new Spendable[|notes|](i requires 0 <= i < |notes| => notes[i]);
    assert sorted[..] == notes;
    SpendableOrder();
    SortSlice(sorted, SpendableLe);
    s := sorted[..];

    chunks := seq(k, i => []);
    DealNothing(k);
    FlatEmpty(chunks);
    for i := 0 to sorted.Length
      invariant |chunks| == k && s == sorted[..] && Dealt(chunks, s[..i]) && Flat(chunks) == multiset(s[..i])
    {
      DealOne(chunks, s, i);
      chunks := chunks[i % k := chunks[i % k] + [sorted[i]]];
    }
    assert s[..sorted.Length] == s;
  }

  lemma DealOne(chunks: Chunks, s: seq<Spendable>, i: nat)
    requires i < |s| && Dealt(chunks, s[..i]) && Flat(chunks) == multiset(s[..i])
    ensures var c := i % |chunks|;
      Dealt(chunks[c := chunks[c] + [s[i]]], s[..i + 1]) && Flat(chunks[c := chunks[c] + [s[i]]]) == multiset(s[..i + 1])
  {
    var c := i % |chunks|;
    assert s[..i + 1] == s[..i] + [s[i]];
    DealNext(chunks, s[..i], s[i]);
    FlatUpdate(chunks, c, chunks[c] + [s[i]]);
    var dealt := Flat(chunks[c := chunks[c] + [s[i]]]);
    assert multiset(chunks[c] + [s[i]]) == multiset(chunks[c]) + multiset{s[i]};
    assert multiset(s[..i + 1]) == multiset(s[..i]) + multiset{s[i]};
    Cancel(dealt, Flat(chunks) + multiset{s[i]}, multiset(chunks[c]));
  }

  lemma DealtFinal(chunks: Chunks, s: seq<Spendable>, notes: seq<Spendable>, m: nat)
    requires Dealt(chunks, s) && SortedBy(s, SpendableLe) && Flat(chunks) == multiset(s) == multiset(notes)
    requires 0 < m < |notes| && |s| == |notes| && |chunks| == CeilDiv(|notes|, m)
    ensures WellSplit(chunks, notes, m)
  {
    DealtShape(chunks, s, m);
    DealtSizes(chunks, s);
    DealtBalanced(chunks, s, notes);
  }
}
