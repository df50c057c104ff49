/** Success and failure values, standing for the source's (value, error) returns. */
module Results {
  datatype Option<+T> = None | Some(value: T)

  datatype Result<+T, +E> = Ok(value: T) | Err(error: E)
}

/** The fixed-width integers of Go and Rust. Arithmetic that the source leaves unchecked is written
    with the wrapping operations below. */
module Ints {
  const MAX_I64: int := 0x7FFF_FFFF_FFFF_FFFF
  const MIN_I64: int := -0x8000_0000_0000_0000
  const TWO_64: int := 0x1_0000_0000_0000_0000
  const MAX_U32: int := 0xFFFF_FFFF

  type int64 = x: int | -0x8000_0000_0000_0000 <= x <= 0x7FFF_FFFF_FFFF_FFFF
  type uint64 = x: int | 0 <= x < 0x1_0000_0000_0000_0000
  type uint32 = x: int | 0 <= x <= 0xFFFF_FFFF

  /** int64 addition, two's complement. */
  function Add64(a: int64, b: int64): (r: int64)
    ensures r == a + b || r == a + b - 0x1_0000_0000_0000_0000 || r == a + b + 0x1_0000_0000_0000_0000
  {
    if a + b > MAX_I64 then a + b - TWO_64
    else if a + b < MIN_I64 then a + b + TWO_64
    else a + b
  }

  /** uint64 addition without a check. */
  function AddU64(a: uint64, b: uint64): (r: uint64)
    ensures r == a + b || r == a + b - 0x1_0000_0000_0000_0000
  {
    if a + b < TWO_64 then a + b else a + b - TWO_64
  }
}

/** Sums over lists, and over finite sets to state what a table of rows adds up to. */
module Sums {
  function ListSum(v: seq<int>): int {
    if v == [] then 0 else v[0] + ListSum(v[1..])
  }

  lemma {:induction false} ListSumAppend(a: seq<int>, x: int)
    ensures ListSum(a + [x]) == ListSum(a) + x
    decreases |a|
  {
    if a == [] {
      assert a + [x] == [x];
    } else {
      assert (a + [x])[1..] == a[1..] + [x];
      ListSumAppend(a[1..], x);
    }
  }

  lemma {:induction false} ListSumGrows(v: seq<int>, i: nat)
    requires i <= |v| && forall j :: 0 <= j < |v| ==> v[j] >= 0
    ensures 0 <= ListSum(v[..i]) <= ListSum(v)
    decreases |v|
  {
    if v != [] {
      ListSumGrows(v[1..], if i > 0 then i - 1 else 0);
      if i > 0 {
        assert v[..i][1..] == v[1..][..i - 1];
      }
    }
  }

  ghost function Sum<K>(s: set<K>, f: K -> int): int
  {
    if s == {} then 0 else
    var k :| k in s;
    f(k) + Sum(s - {k}, f)
  }

  lemma {:induction false} SumRemove<K>(s: set<K>, f: K -> int, k: K)
    requires k in s
    ensures Sum(s, f) == f(k) + Sum(s - {k}, f)
    decreases |s|
  {
    var p :| p in s && Sum(s, f) == f(p) + Sum(s - {p}, f);
    if p != k {
      SumRemove(s - {p}, f, k);
      SumRemove(s - {k}, f, p);
      assert s - {p} - {k} == s - {k} - {p};
    }
  }

  lemma {:induction false} SumCongruent<K>(s: set<K>, f: K -> int, g: K -> int)
    requires forall k :: k in s ==> f(k) == g(k)
    ensures Sum(s, f) == Sum(s, g)
    decreases |s|
  {
    if s != {} {
      var p :| p in s && Sum(s, f) == f(p) + Sum(s - {p}, f);
      SumCongruent(s - {p}, f, g);
      SumRemove(s, g, p);
    }
  }

  lemma {:induction false} SumNonNegative<K>(s: set<K>, f: K -> int)
    requires forall k :: k in s ==> f(k) >= 0
    ensures Sum(s, f) >= 0
    decreases |s|
  {
    if s != {} {
      var p :| p in s && Sum(s, f) == f(p) + Sum(s - {p}, f);
      SumNonNegative(s - {p}, f);
    }
  }

  /** The sum of a column of a table. */
  ghost function Column<K, R>(m: map<K, R>, f: R -> int): int {
    Sum(m.Keys, k => if k in m then f(m[k]) else 0)
  }

  /** Writing one row replaces the old row's term by the new row's. */
  lemma ColumnUpdate<K, R>(m: map<K, R>, f: R -> int, k: K, r: R)
    ensures Column(m[k := r], f) == Column(m, f) - (if k in m then f(m[k]) else 0) + f(r)
    ensures Column(m[k := r], f) == Column(m - {k}, f) + f(r)
  {
    var m' := m[k := r];
    var g := x => if x in m then f(m[x]) else 0;
    var g' := x => if x in m' then f(m'[x]) else 0;
    var h := x => if x in m - {k} then f((m - {k})[x]) else 0;
    assert m'.Keys - {k} == m.Keys - {k} == (m - {k}).Keys;
    SumRemove(m'.Keys, g', k);
    SumCongruent(m.Keys - {k}, g, g');
    SumCongruent(m.Keys - {k}, h, g');
    if k in m {
      SumRemove(m.Keys, g, k);
    } else {
      assert m.Keys - {k} == m.Keys;
    }
  }

  lemma ColumnNonNegative<K, R>(m: map<K, R>, f: R -> int)
    requires forall k :: k in m ==> f(m[k]) >= 0
    ensures Column(m, f) >= 0
  {
    SumNonNegative(m.Keys, k => if k in m then f(m[k]) else 0);
  }

  lemma ColumnZero<K, R>(m: map<K, R>, f: R -> int)
    requires forall k :: k in m ==> f(m[k]) == 0
    ensures Column(m, f) == 0
  {
    SumCongruent(m.Keys, k => if k in m then f(m[k]) else 0, k => 0);
    SumNonNegative(m.Keys, k => 0);
    SumOfZeros(m.Keys);
  }

  lemma {:induction false} SumOfZeros<K>(s: set<K>)
    ensures Sum(s, (k: K) => 0) == 0
    decreases |s|
  {
    var f := (k: K) => 0;
    if s != {} {
      var p :| p in s && Sum(s, f) == f(p) + Sum(s - {p}, f);
      SumOfZeros(s - {p});
    }
  }
}
