/** Sorting as sort.Slice promises it, and the order in which the planner spends notes. */
module Sorting {
  ghost predicate TotalPreorder<T(!new)>(le: (T, T) -> bool) {
    && (forall x, y :: le(x, y) || le(y, x))
    && (forall x, y, z :: le(x, y) && le(y, z) ==> le(x, z))
  }

  ghost predicate SortedBy<T>(s: seq<T>, le: (T, T) -> bool) {
    forall i, j :: 0 <= i < j < |s| ==> le(s[i], s[j])
  }

  function Insert<T>(x: T, s: seq<T>, le: (T, T) -> bool): seq<T> {
    if s == [] || le(x, s[0]) then [x] + s else [s[0]] + Insert(x, s[1..], le)
  }

  function Sort<T>(s: seq<T>, le: (T, T) -> bool): seq<T> {
    if s == [] then [] else Insert(s[0], Sort(s[1..], le), le)
  }

  lemma {:induction false} InsertSorts<T(!new)>(x: T, s: seq<T>, le: (T, T) -> bool)
    requires TotalPreorder(le) && SortedBy(s, le)
    ensures SortedBy(Insert(x, s, le), le) && multiset(Insert(x, s, le)) == multiset(s) + multiset{x}
    decreases |s|
  {
    if s != [] && !le(x, s[0]) {
      InsertSorts(x, s[1..], le);
      var rest := Insert(x, s[1..], le);
      assert s == [s[0]] + s[1..];
      forall j | 0 <= j < |rest| ensures le(s[0], rest[j]) {
        assert rest[j] in multiset(rest);
        assert rest[j] == x || rest[j] in s[1..];
      }
    } else if s != [] {
      forall j | 0 <= j < |s| ensures le(x, s[j]) {
        assert j > 0 ==> le(s[0], s[j]);
      }
    }
  }

  lemma {:induction false} SortSorts<T(!new)>(s: seq<T>, le: (T, T) -> bool)
    requires TotalPreorder(le)
    ensures SortedBy(Sort(s, le), le) && multiset(Sort(s, le)) == multiset(s)
    decreases |s|
  {
    if s != [] {
      SortSorts(s[1..], le);
      InsertSorts(s[0], Sort(s[1..], le), le);
      assert s == [s[0]] + s[1..];
    }
  }

  lemma HeadsAgree<T>(s: seq<T>, t: seq<T>, le: (T, T) -> bool)
    requires SortedBy(s, le) && SortedBy(t, le) && s != [] && t != [] && s[0] in t && t[0] in s
    requires forall x, y :: x in s && y in s && le(x, y) && le(y, x) ==> x == y
    ensures s[0] == t[0]
  {
    var i :| 0 <= i < |t| && t[i] == s[0];
    var j :| 0 <= j < |s| && s[j] == t[0];
    assert i > 0 ==> le(t[0], t[i]);
    assert j > 0 ==> le(s[0], s[j]);
  }

  lemma TailMultiset<T>(s: seq<T>)
    requires s != []
    ensures multiset(s[1..]) == multiset(s) - multiset{s[0]}
  {
    assert s == [s[0]] + s[1..];
  }

  /** With an antisymmetric order the sorted arrangement is unique. */
  lemma {:induction false} SortedUnique<T>(s: seq<T>, t: seq<T>, le: (T, T) -> bool)
    requires SortedBy(s, le) && SortedBy(t, le) && multiset(s) == multiset(t)
    requires forall x, y :: x in s && y in s && le(x, y) && le(y, x) ==> x == y
    ensures s == t
    decreases |s|
  {
    assert |s| == |multiset(s)| == |multiset(t)| == |t|;
    if s != [] {
      assert s[0] in multiset(t) && t[0] in multiset(s);
      HeadsAgree(s, t, le);
      TailMultiset(s);
      TailMultiset(t);
      SortedUnique(s[1..], t[1..], le);
      assert s == [s[0]] + s[1..] && t == [t[0]] + t[1..];
    }
  }

  /** sort.Slice: the elements rearranged in place so that none comes after a greater one. Where the order
      has ties their arrangement is not promised, and no caller here relies on it. */
  method SortSlice<T(!new)>(a: array<T>, le: (T, T) -> bool)
    requires TotalPreorder(le)
    modifies a
    ensures SortedBy(a[..], le) && multiset(a[..]) == multiset(old(a[..]))
  {
    var s := Sort(a[..], le);
    SortSorts(a[..], le);
    assert |s| == |multiset(s)| == |multiset(a[..])| == a.Length;
    var i := 0;
    while i < a.Length
      invariant 0 <= i <= a.Length && a[..i] == s[..i]
    {
      a[i] := s[i];
      i := i + 1;
    }
    assert a[..] == s;
  }
}

module Notes {
  import opened Ints
  import opened Sorting

  /** UnspentNote: what selection looks at. */
  datatype Note = Note(txid: string, action: uint32, value: uint64)

  /** Go's < on strings, as <=. */
  predicate StrLe(a: string, b: string) {
    if a == "" then true
    else if b == "" then false
    else if a[0] != b[0] then a[0] < b[0]
    else StrLe(a[1..], b[1..])
  }

  lemma {:induction false} StrLeTotal(a: string, b: string)
    ensures StrLe(a, b) || StrLe(b, a)
    ensures StrLe(a, b) && StrLe(b, a) ==> a == b
    decreases |a|
  {
    if a != "" && b != "" && a[0] == b[0] {
      StrLeTotal(a[1..], b[1..]);
      assert a == [a[0]] + a[1..] && b == [b[0]] + b[1..];
    }
  }

  lemma {:induction false} StrLeTransitive(a: string, b: string, c: string)
    requires StrLe(a, b) && StrLe(b, c)
    ensures StrLe(a, c)
    decreases |a|
  {
    if a != "" && a[0] == b[0] && b[0] == c[0] {
      StrLeTransitive(a[1..], b[1..], c[1..]);
    }
  }

  /** a comes before b exactly when it is a proper prefix, or smaller at the first character that differs. */
  ghost predicate Before(a: string, b: string) {
    || (|a| < |b| && a == b[..|a|])
    || exists i :: 0 <= i < |a| && i < |b| && a[..i] == b[..i] && a[i] < b[i]
  }

  lemma {:induction false} StrLeIff(a: string, b: string)
    ensures StrLe(a, b) <==> a == b || Before(a, b)
    decreases |a|
  {
    if a != "" && b != "" && a[0] == b[0] {
      StrLeIff(a[1..], b[1..]);
      assert a == [a[0]] + a[1..] && b == [b[0]] + b[1..];
      if Before(a[1..], b[1..]) {
        BeforeLonger(a, b);
      }
      if Before(a, b) {
        BeforeShorter(a, b);
      }
    } else if a != "" && b != "" {
      if a[0] < b[0] {
        assert a[..0] == b[..0];
      } else if i :| 0 <= i < |a| && i < |b| && a[..i] == b[..i] && a[i] < b[i] {
        assert i > 0 ==> a[..i][0] == b[..i][0];
      }
    }
  }

  lemma BeforeLonger(a: string, b: string)
    requires a != "" && b != "" && a[0] == b[0] && Before(a[1..], b[1..])
    ensures Before(a, b)
  {
    if !(|a| < |b| && a[1..] == b[1..][..|a| - 1]) {
      var i :| 0 <= i < |a[1..]| && i < |b[1..]| && a[1..][..i] == b[1..][..i] && a[1..][i] < b[1..][i];
      assert a[..i + 1] == [a[0]] + a[1..][..i] && b[..i + 1] == [b[0]] + b[1..][..i];
      assert a[i + 1] < b[i + 1];
    } else {
      assert a == [a[0]] + a[1..] && b[..|a|] == [b[0]] + b[1..][..|a| - 1];
    }
  }

  lemma BeforeShorter(a: string, b: string)
    requires a != "" && b != "" && a[0] == b[0] && Before(a, b)
    ensures Before(a[1..], b[1..])
  {
    if |a| < |b| && a == b[..|a|] {
      assert a[1..] == b[..|a|][1..] == b[1..][..|a| - 1];
    } else {
      var i :| 0 <= i < |a| && i < |b| && a[..i] == b[..i] && a[i] < b[i];
      assert a[1..][..i - 1] == a[..i][1..] == b[..i][1..] == b[1..][..i - 1];
      assert a[1..][i - 1] < b[1..][i - 1];
    }
  }

  /** Which of two notes is spent first: the larger, then the one whose txid comes before, then the one with
      the smaller action index. */
  lemma NoteLeIff(x: Note, y: Note)
    ensures NoteLe(x, y) <==>
      || x.value > y.value
      || (x.value == y.value && Before(x.txid, y.txid) && x.txid != y.txid)
      || (x.value == y.value && x.txid == y.txid && x.action <= y.action)
  {
    StrLeIff(x.txid, y.txid);
  }

  /** Larger values first, then by txid, then by action index. */
  predicate NoteLe(x: Note, y: Note) {
    if x.value != y.value then x.value > y.value
    else if x.txid != y.txid then StrLe(x.txid, y.txid)
    else x.action <= y.action
  }

  lemma NoteOrder()
    ensures TotalPreorder(NoteLe)
    ensures forall x, y :: NoteLe(x, y) && NoteLe(y, x) ==> x == y
  {
    forall x: Note, y: Note
      ensures NoteLe(x, y) || NoteLe(y, x)
      ensures NoteLe(x, y) && NoteLe(y, x) ==> x == y
    {
      StrLeTotal(x.txid, y.txid);
    }
    forall x: Note, y: Note, z: Note | NoteLe(x, y) && NoteLe(y, z) ensures NoteLe(x, z) {
      if x.value == y.value == z.value {
        StrLeTotal(x.txid, y.txid);
        StrLeTotal(y.txid, z.txid);
        if StrLe(x.txid, y.txid) && StrLe(y.txid, z.txid) {
          StrLeTransitive(x.txid, y.txid, z.txid);
        }
      }
    }
  }

  /** The notes in spending order. Equal notes are indistinguishable, so the arrangement is unique. */
  function InOrder(notes: seq<Note>): seq<Note> {
    Sort(notes, NoteLe)
  }

  lemma InOrderSorts(notes: seq<Note>)
    ensures SortedBy(InOrder(notes), NoteLe) && multiset(InOrder(notes)) == multiset(notes)
    ensures |InOrder(notes)| == |notes|
  {
    NoteOrder();
    SortSorts(notes, NoteLe);
    assert |InOrder(notes)| == |multiset(InOrder(notes))| == |multiset(notes)| == |notes|;
  }

  lemma InOrderUnique(notes: seq<Note>, sorted: seq<Note>)
    requires SortedBy(sorted, NoteLe) && multiset(sorted) == multiset(notes)
    ensures sorted == InOrder(notes)
  {
    NoteOrder();
    InOrderSorts(notes);
    SortedUnique(sorted, InOrder(notes), NoteLe);
  }

  ghost function Total(notes: seq<Note>): nat {
    if notes == [] then 0 else notes[0].value + Total(notes[1..])
  }

  lemma {:induction false} TotalAppend(a: seq<Note>, b: seq<Note>)
    ensures Total(a + b) == Total(a) + Total(b)
    decreases |a|
  {
    if a == [] {
      assert a + b == b;
    } else {
      assert (a + b)[1..] == a[1..] + b;
      TotalAppend(a[1..], b);
    }
  }

  lemma TotalTake(s: seq<Note>, i: nat)
    requires i < |s|
    ensures Total(s[..i + 1]) == Total(s[..i]) + s[i].value
  {
    assert s[..i + 1] == s[..i] + [s[i]];
    TotalAppend(s[..i], [s[i]]);
    assert [s[i]][1..] == [];
  }

  function Without(t: seq<Note>, p: nat): seq<Note>
    requires p < |t|
  {
    t[..p] + t[p + 1..]
  }

  lemma WithoutMultiset(t: seq<Note>, p: nat)
    requires p < |t|
    ensures multiset(Without(t, p)) == multiset(t) - multiset{t[p]}
  {
    assert t == t[..p] + [t[p]] + t[p + 1..];
    assert multiset(t) == multiset(t[..p]) + multiset{t[p]} + multiset(t[p + 1..]);
  }

  lemma WithoutTotal(t: seq<Note>, p: nat)
    requires p < |t|
    ensures Total(t) == t[p].value + Total(Without(t, p))
  {
    TotalTake(t, p);
    assert t == t[..p + 1] + t[p + 1..];
    TotalAppend(t[..p + 1], t[p + 1..]);
    TotalAppend(t[..p], t[p + 1..]);
  }

  lemma HeadIsLargest(s: seq<Note>, x: Note)
    requires SortedBy(s, NoteLe) && x in s
    ensures x.value <= s[0].value
  {
    var q :| 0 <= q < |s| && s[q] == x;
    assert q > 0 ==> NoteLe(s[0], s[q]);
  }

  /** No notes taken from a sorted list are worth more than as many from its front. */
  lemma {:induction false} FrontIsBest(s: seq<Note>, t: seq<Note>)
    requires SortedBy(s, NoteLe) && multiset(t) <= multiset(s)
    ensures |t| <= |s| && Total(t) <= Total(s[..|t|])
    decreases |s|
  {
    SubMultisetSize(multiset(t), multiset(s));
    assert |t| == |multiset(t)| && |multiset(s)| == |s|;
    if t != [] {
      var p := if s[0] in t then IndexOf(t, s[0]) else 0;
      WithoutTotal(t, p);
      assert t[p] in multiset(t);
      HeadIsLargest(s, t[p]);
      TailHolds(s, t, p);
      FrontIsBest(s[1..], Without(t, p));
      assert s[..|t|][1..] == s[1..][..|t| - 1];
    }
  }

  lemma TailHolds(s: seq<Note>, t: seq<Note>, p: nat)
    requires s != [] && p < |t| && multiset(t) <= multiset(s) && (s[0] in t ==> t[p] == s[0])
    ensures multiset(Without(t, p)) <= multiset(s[1..])
  {
    WithoutMultiset(t, p);
    WithoutMultiset(s, 0);
    assert Without(s, 0) == s[1..];
    assert t[p] in multiset(t) && (s[0] in multiset(t) ==> s[0] in t);
    RemoveBoth(multiset(t), multiset(s), t[p], s[0]);
  }

  lemma RemoveBoth<T>(a: multiset<T>, b: multiset<T>, x: T, y: T)
    requires a <= b && x in a && (y in a ==> x == y)
    ensures a - multiset{x} <= b - multiset{y}
  {
  }

  function IndexOf(t: seq<Note>, x: Note): (p: nat)
    requires x in t
    ensures p < |t| && t[p] == x
  {
    if t[0] == x then 0 else 1 + IndexOf(t[1..], x)
  }

  lemma SubMultisetSize<T>(a: multiset<T>, b: multiset<T>)
    requires a <= b
    ensures |a| <= |b|
  {
    assert b == a + (b - a);
    assert |a + (b - a)| == |a| + |b - a|;
  }
}
