/**
  The shape shared by every loader loop: visit the rows in order and push
  at most one value per row. `FilterMap` is that loop as a function;
  `SourceIndices` names the row each pushed value came from.
 */
module FilterMaps {
  import opened Outcomes

  /** The values pushed for one element: none, or exactly one. */
  function Emit<B>(o: Option<B>): (r: seq<B>)
    ensures |r| == if o.Some? then 1 else 0
    ensures o.Some? ==> r[0] == o.value
  {
    match o
    case None => []
    case Some(b) => [b]
  }

  /** Visit `xs` left to right and keep the value `f` produces for each element, if any. */
  function FilterMap<A, B>(xs: seq<A>, f: A -> Option<B>): (r: seq<B>)
    ensures |r| <= |xs|
  {
    if xs == [] then [] else Emit(f(xs[0])) + FilterMap(xs[1..], f)
  }

  /** Visiting two stretches of rows one after the other pushes the two outputs one after the other. */
  lemma {:induction false} FilterMapAppend<A, B>(xs: seq<A>, ys: seq<A>, f: A -> Option<B>)
    ensures FilterMap(xs + ys, f) == FilterMap(xs, f) + FilterMap(ys, f)
    decreases |xs|
  {
    if xs == [] {
      assert xs + ys == ys;
    } else {
      assert (xs + ys)[1..] == xs[1..] + ys;
      FilterMapAppend(xs[1..], ys, f);
    }
  }

  /** `FilterMap` after one more element appended at the end: its value, if any, is pushed last. */
  lemma FilterMapSnoc<A, B>(xs: seq<A>, x: A, f: A -> Option<B>)
    ensures FilterMap(xs + [x], f) == FilterMap(xs, f) + Emit(f(x))
  {
    FilterMapAppend(xs, [x], f);
    assert [x][1..] == [];
  }

  /**
    When `g` produces, for every element, what `f` produces passed through
    `h`, then `g` pushes what `f` pushes, each value passed through `h`.
   */
  lemma {:induction false} FilterMapThen<A, B, C>(xs: seq<A>, f: A -> Option<B>, g: A -> Option<C>, h: B -> C)
    requires forall k :: 0 <= k < |xs| ==> g(xs[k]) == if f(xs[k]).Some? then Some(h(f(xs[k]).value)) else None
    ensures |FilterMap(xs, g)| == |FilterMap(xs, f)|
    ensures forall k :: 0 <= k < |FilterMap(xs, g)| ==> FilterMap(xs, g)[k] == h(FilterMap(xs, f)[k])
    decreases |xs|
  {
    if xs != [] {
      var tail := xs[1..];
      forall k | 0 <= k < |tail|
        ensures g(tail[k]) == if f(tail[k]).Some? then Some(h(f(tail[k]).value)) else None
      {
        assert tail[k] == xs[k + 1];
      }
      FilterMapThen(tail, f, g, h);
      assert g(xs[0]) == if f(xs[0]).Some? then Some(h(f(xs[0]).value)) else None;
    }
  }

  /** Everything below the header row: `rawData[1]` onward, nothing for an empty sheet. */
  function DataRows<A>(table: seq<A>): (rows: seq<A>)
    ensures |rows| == if table == [] then 0 else |table| - 1
    ensures forall i :: 0 <= i < |rows| ==> rows[i] == table[i + 1]
  {
    if table == [] then [] else table[1..]
  }

  /** One more element of a slice. */
  lemma SliceSnoc<A>(xs: seq<A>, lo: nat, hi: nat)
    requires lo <= hi < |xs|
    ensures xs[lo..hi + 1] == xs[lo..hi] + [xs[hi]]
  {
  }

  /** Rows appended below a non-empty table are appended to its data rows. */
  lemma DataRowsAppend<A>(table: seq<A>, later: seq<A>)
    requires table != []
    ensures DataRows(table + later) == DataRows(table) + later
  {
    assert (table + later)[1..] == table[1..] + later;
  }

  /**
    `rows` lists, in increasing order, the positions from `i` on whose
    values `FilterMap` pushed when scanning `table[i..]`: every pushed value
    comes from the element at its position, and every element from `i` on
    that produces a value is listed.
   */
  ghost predicate IsNumberingFrom<A, B>(table: seq<A>, f: A -> Option<B>, i: nat, rows: seq<nat>) {
    && i <= |table|
    && |rows| == |FilterMap(table[i..], f)|
    && (forall k :: 0 <= k < |rows| ==> i <= rows[k] < |table|)
    && (forall k :: 0 <= k < |rows| ==> f(table[rows[k]]) == Some(FilterMap(table[i..], f)[k]))
    && (forall k, l :: 0 <= k < l < |rows| ==> rows[k] < rows[l])
    && (forall j :: i <= j < |table| ==> (f(table[j]).Some? <==> j in rows))
  }

  /** The element at `i` produces a value: it comes first, ahead of the positions after it. */
  lemma NumberingKeep<A, B>(table: seq<A>, f: A -> Option<B>, i: nat, rest: seq<nat>)
    requires i < |table| && f(table[i]).Some? && IsNumberingFrom(table, f, i + 1, rest)
    ensures IsNumberingFrom(table, f, i, [i] + rest)
  {
    var tail := FilterMap(table[i + 1..], f);
    var out := FilterMap(table[i..], f);
    var rows := [i] + rest;
    assert table[i..][1..] == table[i + 1..];
    assert out == [f(table[i]).value] + tail;
    forall k | 0 <= k < |rows| ensures i <= rows[k] < |table| && f(table[rows[k]]) == Some(out[k]) {
      if k > 0 {
        assert rows[k] == rest[k - 1] && out[k] == tail[k - 1];
      }
    }
    forall k, l | 0 <= k < l < |rows| ensures rows[k] < rows[l] {
      assert rows[l] == rest[l - 1];
    }
    forall j | i <= j < |table| ensures f(table[j]).Some? <==> j in rows {
      assert j in rows <==> j == i || j in rest;
    }
  }

  /** The element at `i` produces nothing: the positions after it are all there is. */
  lemma NumberingSkip<A, B>(table: seq<A>, f: A -> Option<B>, i: nat, rest: seq<nat>)
    requires i < |table| && f(table[i]).None? && IsNumberingFrom(table, f, i + 1, rest)
    ensures IsNumberingFrom(table, f, i, rest)
  {
    assert table[i..][1..] == table[i + 1..];
    assert FilterMap(table[i..], f) == FilterMap(table[i + 1..], f);
  }

  /** The positions from `i` on that produce a value, in increasing order. */
  function NumbersFrom<A, B>(table: seq<A>, f: A -> Option<B>, i: nat): (rows: seq<nat>)
    requires i <= |table|
    ensures IsNumberingFrom(table, f, i, rows)
    decreases |table| - i
  {
    if i == |table| then
      assert table[i..] == [];
      []
    else
      var rest := NumbersFrom(table, f, i + 1);
      if f(table[i]).Some? then
        NumberingKeep(table, f, i, rest);
        [i] + rest
      else
        NumberingSkip(table, f, i, rest);
        rest
  }

  /**
    `rows` lists, in increasing order, the table rows (never the header row
    0) whose values `FilterMap` pushed for the data rows, and every data row
    that produces a value is listed.
   */
  ghost predicate IsRowNumbering<A, B>(table: seq<A>, f: A -> Option<B>, rows: seq<nat>) {
    && |rows| == |FilterMap(DataRows(table), f)|
    && (forall k :: 0 <= k < |rows| ==> 1 <= rows[k] < |table|)
    && (forall k :: 0 <= k < |rows| ==> f(table[rows[k]]) == Some(FilterMap(DataRows(table), f)[k]))
    && (forall k, l :: 0 <= k < l < |rows| ==> rows[k] < rows[l])
    && (forall i :: 1 <= i < |table| ==> (f(table[i]).Some? <==> i in rows))
  }

  /** The table row numbers of the values pushed while scanning the data rows. */
  function RowNumbers<A, B>(table: seq<A>, f: A -> Option<B>): (rows: seq<nat>)
    ensures IsRowNumbering(table, f, rows)
  {
    if table == [] then [] else NumbersFrom(table, f, 1)
  }

  /** The scan pushes nothing exactly when no data row produces a value. */
  lemma FilterMapEmptyIffNone<A, B>(table: seq<A>, f: A -> Option<B>)
    ensures FilterMap(DataRows(table), f) == [] <==> forall i :: 1 <= i < |table| ==> f(table[i]).None?
  {
    var data := DataRows(table);
    NothingPushedIffNone(data, f);
    if exists i :: 1 <= i < |table| && f(table[i]).Some? {
      var i :| 1 <= i < |table| && f(table[i]).Some?;
      assert f(data[i - 1]).Some?;
    }
  }

  /** `FilterMap` pushes nothing exactly when no element produces a value. */
  lemma {:induction false} NothingPushedIffNone<A, B>(xs: seq<A>, f: A -> Option<B>)
    ensures FilterMap(xs, f) == [] <==> forall i :: 0 <= i < |xs| ==> f(xs[i]).None?
    decreases |xs|
  {
    if xs != [] {
      NothingPushedIffNone(xs[1..], f);
      assert forall i :: 1 <= i < |xs| ==> xs[i] == xs[1..][i - 1];
    }
  }

  /** The first value pushed comes from the first data row that produces one. */
  lemma FilterMapFirst<A, B>(table: seq<A>, f: A -> Option<B>, i: nat)
    requires 1 <= i < |table| && f(table[i]).Some?
    requires forall j :: 1 <= j < i ==> f(table[j]).None?
    ensures FilterMap(DataRows(table), f) != []
    ensures FilterMap(DataRows(table), f)[0] == f(table[i]).value
  {
    var rows := RowNumbers(table, f);
    assert i in rows;
    var k :| 0 <= k < |rows| && rows[k] == i;
    assert rows[0] <= rows[k];
    assert f(table[rows[0]]).Some?;
  }

  /** The number of elements of `xs` that satisfy `p`. */
  function Count<A>(xs: seq<A>, p: A -> bool): (n: nat)
    ensures n <= |xs|
  {
    if xs == [] then 0 else (if p(xs[0]) then 1 else 0) + Count(xs[1..], p)
  }

  /** Nothing is counted exactly when no element satisfies `p`. */
  lemma {:induction false} CountZeroIffNone<A>(xs: seq<A>, p: A -> bool)
    ensures Count(xs, p) == 0 <==> forall i :: 0 <= i < |xs| ==> !p(xs[i])
    decreases |xs|
  {
    if xs != [] {
      CountZeroIffNone(xs[1..], p);
      assert forall i :: 1 <= i < |xs| ==> xs[i] == xs[1..][i - 1];
    }
  }

  /** Every element is counted exactly when every element satisfies `p`. */
  lemma {:induction false} CountFullIffAll<A>(xs: seq<A>, p: A -> bool)
    ensures Count(xs, p) == |xs| <==> forall i :: 0 <= i < |xs| ==> p(xs[i])
    decreases |xs|
  {
    if xs != [] {
      CountFullIffAll(xs[1..], p);
      assert forall i :: 1 <= i < |xs| ==> xs[i] == xs[1..][i - 1];
    }
  }

  lemma {:induction false} CountSnoc<A>(xs: seq<A>, x: A, p: A -> bool)
    ensures Count(xs + [x], p) == Count(xs, p) + (if p(x) then 1 else 0)
    decreases |xs|
  {
    if xs == [] {
      assert xs + [x] == [x];
    } else {
      assert (xs + [x])[1..] == xs[1..] + [x];
      CountSnoc(xs[1..], x, p);
    }
  }

  /** `Count` is monotone in the predicate. */
  lemma {:induction false} CountMonotone<A>(xs: seq<A>, p: A -> bool, q: A -> bool)
    requires forall x :: p(x) ==> q(x)
    ensures Count(xs, p) <= Count(xs, q)
    decreases |xs|
  {
    if xs != [] {
      CountMonotone(xs[1..], p, q);
    }
  }

  /** The first `n` elements, or all of them when there are fewer. */
  function Take<B>(xs: seq<B>, n: nat): (r: seq<B>)
    ensures |r| == if |xs| < n then |xs| else n
    ensures r <= xs
  {
    if |xs| <= n then xs else xs[..n]
  }

  /** Keeping at most `n` values while pushing: once `n` are kept, later pushes change nothing. */
  lemma TakeSnoc<B>(xs: seq<B>, e: seq<B>, n: nat)
    requires |e| <= 1
    ensures Take(xs + e, n) == if |xs| < n then xs + e else Take(xs, n)
  {
    if |xs| >= n {
      assert (xs + e)[..n] == xs[..n];
    }
  }

  /** When `p` holds exactly where `f` produces a value, counting and `FilterMap` agree in size. */
  lemma {:induction false} CountIsFilterMapLength<A, B>(xs: seq<A>, p: A -> bool, f: A -> Option<B>)
    requires forall x :: p(x) <==> f(x).Some?
    ensures Count(xs, p) == |FilterMap(xs, f)|
    decreases |xs|
  {
    if xs != [] {
      CountIsFilterMapLength(xs[1..], p, f);
    }
  }

  /** The scan for the leftmost element from position `i` on that satisfies `p`, or -1. */
  function FirstFrom<A>(xs: seq<A>, p: A -> bool, i: nat): (r: int)
    requires i <= |xs|
    ensures r == -1 || i <= r < |xs|
    ensures r == -1 ==> forall j :: i <= j < |xs| ==> !p(xs[j])
    ensures r != -1 ==> p(xs[r]) && forall j :: i <= j < r ==> !p(xs[j])
    decreases |xs| - i
  {
    if i == |xs| then -1
    else if p(xs[i]) then i
    else FirstFrom(xs, p, i + 1)
  }

  /** A property every produced value has is had by every value pushed. */
  lemma {:induction false} FilterMapKeeps<A, B>(xs: seq<A>, f: A -> Option<B>, P: B -> bool)
    requires forall x :: f(x).Some? ==> P(f(x).value)
    ensures forall k :: 0 <= k < |FilterMap(xs, f)| ==> P(FilterMap(xs, f)[k])
    decreases |xs|
  {
    if xs != [] {
      FilterMapKeeps(xs[1..], f, P);
      assert FilterMap(xs, f) == Emit(f(xs[0])) + FilterMap(xs[1..], f);
    }
  }
}
