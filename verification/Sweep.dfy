/** Splitting a wallet into capped transactions: the deal, the borrow loop, and what they cost. */
module Sweep {
  import opened Ints
  import opened Sorting
  import opened Notes

  /** spendableNote. */
  datatype Spendable = Spendable(txid: string, action: uint32, height: int64, position: uint32, value: uint64)

  function Unspent(n: Spendable): (u: Note)
    ensures u.txid == n.txid && u.action == n.action && u.value == n.value
  {
    Note(n.txid, n.action, n.value)
  }

  /** The comparator ignores height and position, so notes that agree on the rest are tied. */
  predicate SpendableLe(x: Spendable, y: Spendable) { NoteLe(Unspent(x), Unspent(y)) }

  lemma SpendableOrder()
    ensures TotalPreorder(SpendableLe)
  {
    NoteOrder();
  }

  type Chunks = seq<seq<Spendable>>

  // ---------------------------------------------------------------- sums over chunks

  ghost function Flat(chunks: Chunks): multiset<Spendable> {
    if chunks == [] then multiset{} else multiset(chunks[0]) + Flat(chunks[1..])
  }

  ghost function Value(notes: seq<Spendable>): nat {
    if notes == [] then 0 else notes[0].value + Value(notes[1..])
  }

  ghost function Count(chunks: Chunks): nat {
    if chunks == [] then 0 else |chunks[0]| + Count(chunks[1..])
  }

  ghost function Singles(chunks: Chunks): nat {
    if chunks == [] then 0 else (if |chunks[0]| == 1 then 1 else 0) + Singles(chunks[1..])
  }

  lemma {:induction false} CountIsSize(chunks: Chunks)
    ensures |Flat(chunks)| == Count(chunks)
  {
    if chunks != [] {
      CountIsSize(chunks[1..]);
    }
  }

  lemma {:induction false} FlatUpdate(chunks: Chunks, c: nat, d: seq<Spendable>)
    requires c < |chunks|
    ensures Flat(chunks[c := d]) + multiset(chunks[c]) == Flat(chunks) + multiset(d)
    ensures Singles(chunks[c := d]) + (if |chunks[c]| == 1 then 1 else 0) == Singles(chunks) + (if |d| == 1 then 1 else 0)
    decreases |chunks|
  {
    if c == 0 {
      assert chunks[0 := d][1..] == chunks[1..];
    } else {
      assert chunks[c := d][1..] == chunks[1..][c - 1 := d];
      FlatUpdate(chunks[1..], c - 1, d);
      var head, old', new' := multiset(chunks[0]), Flat(chunks[1..]), Flat(chunks[1..][c - 1 := d]);
      assert chunks[1..][c - 1] == chunks[c];
      assert (head + new') + multiset(chunks[c]) == head + (new' + multiset(chunks[c]));
      assert (head + old') + multiset(d) == head + (old' + multiset(d));
    }
  }

  lemma {:induction false} FlatEmpty(chunks: Chunks)
    requires forall i :: 0 <= i < |chunks| ==> chunks[i] == []
    ensures Flat(chunks) == multiset{}
  {
    if chunks != [] {
      FlatEmpty(chunks[1..]);
    }
  }

  // ---------------------------------------------------------------- the round-robin deal

  /** What chunk c of k receives of the list. */
  function Deal(s: seq<Spendable>, k: nat, c: nat): seq<Spendable>
    requires k > 0
    decreases |s| - c
  {
    if c >= |s| then [] else [s[c]] + Deal(s, k, c + k)
  }

  lemma {:induction false} DealAppend(s: seq<Spendable>, x: Spendable, k: nat, c: nat, rounds: int)
    requires k > 0 && |s| == c + rounds * k
    ensures rounds >= 0 ==> Deal(s + [x], k, c) == Deal(s, k, c) + [x]
    ensures rounds < 0 ==> Deal(s + [x], k, c) == Deal(s, k, c)
    decreases |s| - c
  {
    if rounds == 0 {
      assert Deal(s + [x], k, c) == [x] + Deal(s + [x], k, c + k);
    } else if rounds > 0 {
      DealAppend(s, x, k, c + k, rounds - 1);
      assert (s + [x])[c] == s[c];
    }
  }

  lemma {:induction false} DealSkips(s: seq<Spendable>, x: Spendable, k: nat, c: nat, target: nat, rounds: nat)
    requires k > 0 && c < k && target < k && c != target && |s| == target + rounds * k
    ensures Deal(s + [x], k, c) == Deal(s, k, c)
  {
    DealSkipsFrom(s, x, k, c, 0, target, rounds);
  }

  lemma {:induction false} DealSkipsFrom(s: seq<Spendable>, x: Spendable, k: nat, c: nat, round: nat, target: nat, rounds: nat)
    requires k > 0 && c < k && target < k && c != target && |s| == target + rounds * k
    ensures Deal(s + [x], k, c + round * k) == Deal(s, k, c + round * k)
    decreases |s| - (c + round * k)
  {
    var at := c + round * k;
    assert at != |s| by {
      NoTwoRemainders(k, c, round, target, rounds);
    }
    if at < |s| {
      assert (s + [x])[at] == s[at];
      assert at + k == c + (round + 1) * k;
      DealSkipsFrom(s, x, k, c, round + 1, target, rounds);
    }
  }

  lemma MulMonotone(a: nat, b: nat, k: nat)
    requires a <= b
    ensures a * k <= b * k
  {
    assert (b - a) * k >= 0;
    assert b * k == a * k + (b - a) * k;
  }

  lemma NextMultiple(a: int, k: int)
    ensures (a + 1) * k == a * k + k
  {
  }

  lemma NoTwoRemainders(k: nat, c: nat, i: nat, d: nat, j: nat)
    requires c < k && d < k && c != d
    ensures c + i * k != d + j * k
  {
    if i < j {
      MulMonotone(i + 1, j, k);
      NextMultiple(i, k);
    } else if j < i {
      MulMonotone(j + 1, i, k);
      NextMultiple(j, k);
    }
  }

  lemma LargerFirst(s: seq<Spendable>, c: nat, d: nat)
    requires SortedBy(s, SpendableLe) && c <= d < |s|
    ensures s[c].value >= s[d].value
  {
    assert c < d ==> SpendableLe(s[c], s[d]);
  }

  /** A later start receives no more notes and no more value. */
  lemma {:induction false} DealOrder(s: seq<Spendable>, k: nat, c: nat, d: nat)
    requires k > 0 && c <= d <= c + k && SortedBy(s, SpendableLe)
    ensures |Deal(s, k, c)| >= |Deal(s, k, d)| && Value(Deal(s, k, c)) >= Value(Deal(s, k, d))
    decreases |s| - c
  {
    if d < |s| {
      LargerFirst(s, c, d);
      DealOrder(s, k, c + k, d + k);
      assert Deal(s, k, c)[1..] == Deal(s, k, c + k) && Deal(s, k, d)[1..] == Deal(s, k, d + k);
    }
  }

  /** Two chunks of one deal differ by at most one note and by at most the first one's first note. */
  lemma DealBalance(s: seq<Spendable>, k: nat, c: nat, d: nat)
    requires k > 0 && c <= d < k && SortedBy(s, SpendableLe) && c < |s|
    ensures |Deal(s, k, d)| <= |Deal(s, k, c)| <= |Deal(s, k, d)| + 1
    ensures Value(Deal(s, k, d)) <= Value(Deal(s, k, c)) <= Value(Deal(s, k, d)) + s[c].value
  {
    DealOrder(s, k, c, d);
    DealOrder(s, k, d, c + k);
    assert Deal(s, k, c)[1..] == Deal(s, k, c + k);
  }

  ghost predicate Dealt(chunks: Chunks, s: seq<Spendable>) {
    |chunks| > 0 && forall c :: 0 <= c < |chunks| ==> chunks[c] == Deal(s, |chunks|, c)
  }

  /** Appending the next note to chunk i mod k extends the deal. */
  lemma DealNext(chunks: Chunks, s: seq<Spendable>, x: Spendable)
    requires Dealt(chunks, s)
    ensures var c := |s| % |chunks|; Dealt(chunks[c := chunks[c] + [x]], s + [x])
  {
    var k := |chunks|;
    var t, rounds := |s| % k, |s| / k;
    assert |s| == t + rounds * k;
    forall c | 0 <= c < k ensures chunks[t := chunks[t] + [x]][c] == Deal(s + [x], k, c) {
      if c == t {
        DealAppend(s, x, k, c, rounds);
      } else {
        DealSkips(s, x, k, c, t, rounds);
      }
    }
  }

  lemma DealNothing(k: nat)
    requires k > 0
    ensures Dealt(seq(k, i => []), [])
  {
  }

  // ---------------------------------------------------------------- the shape of the deal

  function CeilDiv(n: nat, m: nat): nat
    requires m > 0
  {
    (n + m - 1) / m
  }

  lemma CeilDivBounds(n: nat, m: nat)
    requires m > 0 && n > 0
    ensures (CeilDiv(n, m) - 1) * m < n <= CeilDiv(n, m) * m
    ensures 1 <= CeilDiv(n, m) <= n
    ensures n > m ==> CeilDiv(n, m) >= 2
  {
    var k := CeilDiv(n, m);
    Division(n + m - 1, m);
    NextMultiple(k - 1, m);
    if k > n {
      MulMonotone(n, k - 1, m);
      MulMonotone(1, m, n);
    } else if n > m && k == 1 {
      NextMultiple(0, m);
    }
  }

  lemma Division(a: nat, m: nat)
    requires m > 0
    ensures (a / m) * m <= a < (a / m) * m + m
  {
    assert a == (a / m) * m + a % m;
  }

  ghost predicate SizesWithin(chunks: Chunks, lo: nat) {
    forall c :: 0 <= c < |chunks| ==> lo <= |chunks[c]| <= lo + 1
  }

  lemma {:induction false} CountBounds(chunks: Chunks, lo: nat)
    requires SizesWithin(chunks, lo)
    ensures |chunks| * lo <= Count(chunks) <= |chunks| * (lo + 1)
    ensures (exists c :: 0 <= c < |chunks| && |chunks[c]| == lo + 1) ==> Count(chunks) > |chunks| * lo
    ensures (exists c :: 0 <= c < |chunks| && |chunks[c]| == lo) ==> Count(chunks) < |chunks| * (lo + 1)
  {
    if chunks != [] {
      CountBounds(chunks[1..], lo);
      assert |chunks| * lo == lo + |chunks[1..]| * lo;
      assert |chunks| * (lo + 1) == (lo + 1) + |chunks[1..]| * (lo + 1);
      if c :| 0 < c < |chunks| && |chunks[c]| == lo + 1 {
        assert |chunks[1..][c - 1]| == lo + 1;
      }
      if c :| 0 < c < |chunks| && |chunks[c]| == lo {
        assert |chunks[1..][c - 1]| == lo;
      }
    }
  }

  /** Chunk sizes of a deal lie within one of the smallest, the last. */
  lemma DealtSizes(chunks: Chunks, s: seq<Spendable>)
    requires Dealt(chunks, s) && SortedBy(s, SpendableLe)
    ensures SizesWithin(chunks, |chunks[|chunks| - 1]|)
  {
    var k := |chunks|;
    forall c | 0 <= c < k ensures |chunks[k - 1]| <= |chunks[c]| <= |chunks[k - 1]| + 1 {
      if c < |s| {
        DealBalance(s, k, c, k - 1);
      } else {
        DealOrder(s, k, c, k - 1);
      }
    }
  }

  /** Every chunk of a deal of n notes into ceil(n/m) chunks holds between one and m notes. */
  lemma DealtShape(chunks: Chunks, s: seq<Spendable>, m: nat)
    requires Dealt(chunks, s) && SortedBy(s, SpendableLe) && Flat(chunks) == multiset(s)
    requires 0 < m < |s| && |chunks| == CeilDiv(|s|, m)
    ensures forall c :: 0 <= c < |chunks| ==> 1 <= |chunks[c]| <= m
  {
    var k, lo := |chunks|, |chunks[|chunks| - 1]|;
    DealtSizes(chunks, s);
    CeilDivBounds(|s|, m);
    CountIsSize(chunks);
    CountBounds(chunks, lo);
    assert |multiset(s)| == |s| == Count(chunks);
    forall c | 0 <= c < k ensures 1 <= |chunks[c]| <= m {
      if lo == 0 {
        NextMultiple(0, k);
      }
      FitsCap(k, lo, m, |s|, |chunks[c]|);
    }
  }

  lemma FitsCap(k: nat, lo: nat, m: nat, n: nat, size: nat)
    requires k > 0 && n <= k * m && k * lo <= n
    requires size <= lo + 1 && (size == lo + 1 ==> n > k * lo)
    ensures size <= m
  {
    if m < lo {
      MulMonotone(m + 1, lo, k);
      NextMultiple(m, k);
    }
  }
}
