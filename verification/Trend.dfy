/** The memory trend of the leak gate: a least-squares slope of memory plus the part of the heap that
    is mapped but not yet resident. Arithmetic is exact.
 */
module Trend {
  import opened Prelude

  ghost function Sum<T(!new)>(f: T -> real, s: seq<T>): real {
    if s == [] then 0.0 else f(s[0]) + Sum(f, s[1..])
  }

  ghost function Mean<T(!new)>(f: T -> real, s: seq<T>): real
    requires s != []
  {
    Sum(f, s) / |s| as real
  }

  ghost function Cross<T(!new)>(x: T -> real, y: T -> real, xm: real, ym: real): T -> real {
    r => (x(r) - xm) * (y(r) - ym)
  }

  ghost function Cov<T(!new)>(s: seq<T>, x: T -> real, y: T -> real): real
    requires s != []
  {
    Sum(Cross(x, y, Mean(x, s), Mean(y, s)), s)
  }

  /** `_slope` of the series x(row), y(row): none with fewer than two rows or without spread. */
  ghost function Slope<T(!new)>(s: seq<T>, x: T -> real, y: T -> real): Option<real> {
    if |s| < 2 || Cov(s, x, x) == 0.0 then None else Some(Cov(s, x, y) / Cov(s, x, x))
  }

  ghost function Plus<T(!new)>(y: T -> real, z: T -> real): T -> real { r => y(r) + z(r) }

  ghost predicate SameOn<T(!new)>(s: seq<T>, y: T -> real, z: T -> real) {
    forall r :: r in s ==> y(r) == z(r)
  }

  // ----- sums -----

  lemma {:induction false} SumSame<T(!new)>(f: T -> real, g: T -> real, s: seq<T>)
    requires SameOn(s, f, g)
    ensures Sum(f, s) == Sum(g, s)
  {
    if s != [] {
      assert s[0] in s;
      assert forall r :: r in s[1..] ==> r in s;
      SumSame(f, g, s[1..]);
    }
  }

  lemma {:induction false} SumPlus<T(!new)>(f: T -> real, g: T -> real, s: seq<T>)
    ensures Sum(Plus(f, g), s) == Sum(f, s) + Sum(g, s)
  {
    if s != [] { SumPlus(f, g, s[1..]); }
  }

  ghost function Times<T(!new)>(k: real, f: T -> real): T -> real { r => k * f(r) }

  lemma {:induction false} SumTimes<T(!new)>(k: real, f: T -> real, s: seq<T>)
    ensures Sum(Times(k, f), s) == k * Sum(f, s)
  {
    if s != [] { SumTimes(k, f, s[1..]); }
  }

  ghost function Constant<T(!new)>(c: real): T -> real { r => c }

  lemma {:induction false} SumConstant<T(!new)>(c: real, s: seq<T>)
    ensures Sum(Constant<T>(c), s) == c * |s| as real
  {
    if s != [] { SumConstant(c, s[1..]); }
  }

  lemma {:induction false} SumSplit<T(!new)>(f: T -> real, a: seq<T>, b: seq<T>)
    ensures Sum(f, a + b) == Sum(f, a) + Sum(f, b)
  {
    if a == [] {
      assert a + b == b;
    } else {
      assert (a + b)[1..] == a[1..] + b;
      SumSplit(f, a[1..], b);
    }
  }

  // ----- laws of the slope -----

  lemma MeanPlus<T(!new)>(y: T -> real, z: T -> real, s: seq<T>)
    requires s != []
    ensures Mean(Plus(y, z), s) == Mean(y, s) + Mean(z, s)
  {
    SumPlus(y, z, s);
    Distribute(Sum(y, s), Sum(z, s), |s| as real);
  }

  lemma Distribute(a: real, b: real, n: real)
    requires n != 0.0
    ensures (a + b) / n == a / n + b / n
  {
  }

  lemma CovPlus<T(!new)>(s: seq<T>, x: T -> real, y: T -> real, z: T -> real)
    requires s != []
    ensures Cov(s, x, Plus(y, z)) == Cov(s, x, y) + Cov(s, x, z)
  {
    var xm, ym, zm := Mean(x, s), Mean(y, s), Mean(z, s);
    MeanPlus(y, z, s);
    var f, g := Cross(x, y, xm, ym), Cross(x, z, xm, zm);
    forall r | r in s
      ensures Cross(x, Plus(y, z), xm, ym + zm)(r) == Plus(f, g)(r)
    {
      Product(x(r) - xm, y(r), z(r), ym, zm);
    }
    SumSame(Cross(x, Plus(y, z), xm, ym + zm), Plus(f, g), s);
    SumPlus(f, g, s);
  }

  lemma Product(d: real, y: real, z: real, ym: real, zm: real)
    ensures d * (y + z - (ym + zm)) == d * (y - ym) + d * (z - zm)
  {
  }

  /** The slope of a sum of series is the sum of their slopes. */
  lemma SlopePlus<T(!new)>(s: seq<T>, x: T -> real, y: T -> real, z: T -> real)
    requires Slope(s, x, y).Some?
    ensures Slope(s, x, z).Some?
    ensures Slope(s, x, Plus(y, z)) == Some(Slope(s, x, y).value + Slope(s, x, z).value)
  {
    CovPlus(s, x, y, z);
    Distribute(Cov(s, x, y), Cov(s, x, z), Cov(s, x, x));
  }

  /** Only the values on the rows matter. */
  lemma {:induction false} SlopeSame<T(!new)>(s: seq<T>, x: T -> real, y: T -> real, z: T -> real)
    requires SameOn(s, y, z)
    ensures Slope(s, x, y) == Slope(s, x, z)
  {
    if s != [] {
      SumSame(y, z, s);
      SumOfCross(s, x, y, z, Mean(x, s), Mean(y, s));
      assert Cov(s, x, y) == Cov(s, x, z);
    }
  }

  lemma {:induction false} SumOfCross<T(!new)>(s: seq<T>, x: T -> real, y: T -> real, z: T -> real, xm: real, ym: real)
    requires SameOn(s, y, z)
    ensures Sum(Cross(x, y, xm, ym), s) == Sum(Cross(x, z, xm, ym), s)
  {
    forall r | r in s
      ensures Cross(x, y, xm, ym)(r) == Cross(x, z, xm, ym)(r)
    {
      assert y(r) == z(r);
    }
    SumSame(Cross(x, y, xm, ym), Cross(x, z, xm, ym), s);
  }

  lemma MeanConstant<T(!new)>(c: real, s: seq<T>)
    requires s != []
    ensures Mean(Constant<T>(c), s) == c
  {
    SumConstant(c, s);
    Cancel(c, |s| as real);
  }

  lemma Cancel(c: real, n: real)
    requires n != 0.0
    ensures c * n / n == c
  {
  }

  lemma MeanTimes<T(!new)>(k: real, x: T -> real, s: seq<T>)
    requires s != []
    ensures Mean(Times(k, x), s) == k * Mean(x, s)
  {
    SumTimes(k, x, s);
    var n := |s| as real;
    var m := Sum(x, s) / n;
    assert k * Sum(x, s) / n == k * m by {
      assert Sum(x, s) == m * n;
      assert k * (m * n) == (k * m) * n;
      Cancel(k * m, n);
    }
  }

  /** Data that is affine in the switch count with coefficient k has slope k. */
  lemma {:induction false} SlopeAffine<T(!new)>(s: seq<T>, x: T -> real, c: real, k: real)
    requires |s| >= 2 && Cov(s, x, x) != 0.0
    ensures Slope(s, x, Plus(Constant(c), Times(k, x))) == Some(k)
  {
    var y := Plus(Constant(c), Times(k, x));
    MeanPlus(Constant(c), Times(k, x), s);
    MeanConstant(c, s);
    MeanTimes(k, x, s);
    CovAffine(s, x, c, k, Mean(x, s), Mean(y, s));
    Ratio(Cov(s, x, y), k, Cov(s, x, x));
  }

  lemma {:induction false} CovAffine<T(!new)>(s: seq<T>, x: T -> real, c: real, k: real, xm: real, ym: real)
    requires ym == c + k * xm
    ensures Sum(Cross(x, Plus(Constant(c), Times(k, x)), xm, ym), s) == k * Sum(Cross(x, x, xm, xm), s)
  {
    var y, f := Plus(Constant(c), Times(k, x)), Cross(x, x, xm, xm);
    forall r | r in s
      ensures Cross(x, y, xm, ym)(r) == Times(k, f)(r)
    {
      AffineRow(x, c, k, xm, ym, r);
    }
    SumSame(Cross(x, y, xm, ym), Times(k, f), s);
    SumTimes(k, f, s);
  }

  lemma {:induction false} AffineRow<T(!new)>(x: T -> real, c: real, k: real, xm: real, ym: real, r: T)
    requires ym == c + k * xm
    ensures Cross(x, Plus(Constant(c), Times(k, x)), xm, ym)(r) == Times(k, Cross(x, x, xm, xm))(r)
  {
    var y := Plus(Constant<T>(c), Times(k, x));
    Affine(x(r), y(r), xm, ym, c, k, Cross(x, y, xm, ym)(r), Times(k, Cross(x, x, xm, xm))(r));
  }

  /** One row of an affine series: the product of deviations `p` is `k` times the squared one. */
  lemma Affine(v: real, w: real, vm: real, wm: real, c: real, k: real, p: real, q: real)
    requires w == c + k * v && wm == c + k * vm
    requires p == (v - vm) * (w - wm) && q == k * ((v - vm) * (v - vm))
    ensures p == q
  {
    var d := v - vm;
    Scaled(v, vm, k);
    assert w - wm == k * d;
    Swap(d, k);
  }

  lemma Scaled(v: real, m: real, k: real)
    ensures k * v - k * m == k * (v - m)
  {
  }

  lemma Swap(d: real, k: real)
    ensures d * (k * d) == k * (d * d)
  {
  }

  lemma Ratio(a: real, k: real, b: real)
    requires b != 0.0 && a == k * b
    ensures a / b == k
  {
    Cancel(k, b);
  }

  /** There is no spread exactly when all x are equal. */
  lemma {:induction false} NoSpread<T(!new)>(s: seq<T>, x: T -> real)
    requires s != []
    ensures Cov(s, x, x) == 0.0 <==> forall i, j :: 0 <= i < |s| && 0 <= j < |s| ==> x(s[i]) == x(s[j])
  {
    var m := Mean(x, s);
    SquaresVanish(s, x, m);
    if forall i, j :: 0 <= i < |s| && 0 <= j < |s| ==> x(s[i]) == x(s[j]) {
      assert SameOn(s, x, Constant(x(s[0])));
      SumSame(x, Constant(x(s[0])), s);
      MeanConstant(x(s[0]), s);
    }
  }

  lemma {:induction false} SquaresVanish<T(!new)>(s: seq<T>, x: T -> real, m: real)
    ensures Sum(Cross(x, x, m, m), s) >= 0.0
    ensures Sum(Cross(x, x, m, m), s) == 0.0 <==> forall i :: 0 <= i < |s| ==> x(s[i]) == m
  {
    if s != [] {
      SquaresVanish(s[1..], x, m);
      Square(x(s[0]) - m, Cross(x, x, m, m)(s[0]));
      assert forall i :: 0 < i < |s| ==> s[i] == s[1..][i - 1];
    }
  }

  lemma Square(d: real, q: real)
    requires q == d * d
    ensures q >= 0.0 && (q == 0.0 <==> d == 0.0)
  {
    if d < 0.0 {
      PositiveProduct(-d, -d, q);
    } else if d > 0.0 {
      PositiveProduct(d, d, q);
    }
  }

  lemma PositiveProduct(a: real, b: real, q: real)
    requires a > 0.0 && b > 0.0 && q == a * b
    ensures q > 0.0
  {
  }

  // ----- row order -----

  ghost function Insert<T(!new)>(r: T, x: T -> real, s: seq<T>): seq<T> {
    if s == [] || x(r) < x(s[0]) then [r] + s else [s[0]] + Insert(r, x, s[1..])
  }

  /** `sorted(rows, key=x)`. */
  ghost function Sorted<T(!new)>(s: seq<T>, x: T -> real): seq<T> {
    if s == [] then [] else Insert(s[|s| - 1], x, Sorted(s[..|s| - 1], x))
  }

  lemma {:induction false} SumInsert<T(!new)>(f: T -> real, r: T, x: T -> real, s: seq<T>)
    ensures Sum(f, Insert(r, x, s)) == f(r) + Sum(f, s) && |Insert(r, x, s)| == |s| + 1
  {
    if s == [] || x(r) < x(s[0]) {
      assert ([r] + s)[1..] == s;
    } else {
      SumInsert(f, r, x, s[1..]);
      assert ([s[0]] + Insert(r, x, s[1..]))[1..] == Insert(r, x, s[1..]);
    }
  }

  lemma {:induction false} SumSorted<T(!new)>(f: T -> real, s: seq<T>, x: T -> real)
    ensures Sum(f, Sorted(s, x)) == Sum(f, s) && |Sorted(s, x)| == |s|
  {
    if s != [] {
      var n := |s| - 1;
      SumSorted(f, s[..n], x);
      SumInsert(f, s[n], x, Sorted(s[..n], x));
      assert s == s[..n] + [s[n]];
      SumSplit(f, s[..n], [s[n]]);
    }
  }

  /** The order of the rows does not matter. */
  lemma SlopeIgnoresOrder<T(!new)>(s: seq<T>, x: T -> real, y: T -> real)
    ensures Slope(Sorted(s, x), x, y) == Slope(s, x, y)
  {
    SumSorted(x, s, x);
    SumSorted(y, s, x);
    if s != [] {
      SumSorted(Cross(x, y, Mean(x, s), Mean(y, s)), s, x);
      SumSorted(Cross(x, x, Mean(x, s), Mean(x, s)), s, x);
    }
  }

  // ----- the corrected trend -----

  datatype Sample = Sample(id: string, switches: real, memory: real)

  /** One `heapReserve` row; `None` where a field is missing or not a finite number. */
  datatype HeapRow = HeapRow(id: Option<string>, size: Option<real>, rss: Option<real>)

  predicate Usable(row: HeapRow) {
    row.id.Some? && row.size.Some? && row.rss.Some? && 0.0 <= row.rss.value <= row.size.value
  }

  /** Heap mapped but not resident in the last usable row of a sample. */
  ghost function LastReserve(rows: seq<HeapRow>, id: string): Option<real> {
    if rows == [] then None
    else
      var row := rows[|rows| - 1];
      if row.id == Some(id) && row.size.Some? && row.rss.Some? && 0.0 <= row.rss.value <= row.size.value
      then Some(row.size.value - row.rss.value)
      else LastReserve(rows[..|rows| - 1], id)
  }

  /** `_heap_untouched`. */
  method HeapUntouched(rows: seq<HeapRow>) returns (out: map<string, real>)
    ensures forall id :: LastReserve(rows, id) == if id in out then Some(out[id]) else None
  {
    out := map[];
    for i := 0 to |rows|
      invariant forall id :: LastReserve(rows[..i], id) == if id in out then Some(out[id]) else None
    {
      var row := rows[i];
      assert rows[..i + 1][..i] == rows[..i];
      if Usable(row) {
        out := out[row.id.value := row.size.value - row.rss.value];
      }
    }
    assert rows[..|rows|] == rows;
  }

  ghost function Switches(): Sample -> real { (s: Sample) => s.switches }

  ghost function Memory(): Sample -> real { (s: Sample) => s.memory }

  ghost function Untouched(untouched: map<string, real>): Sample -> real {
    (s: Sample) => if s.id in untouched then untouched[s.id] else 0.0
  }

  /** `_trend_slope`. */
  ghost function TrendSlope(samples: seq<Sample>, untouched: map<string, real>): Option<real> {
    if exists s :: s in samples && s.id !in untouched then None
    else Slope(Sorted(samples, Switches()), Switches(), Plus(Memory(), Untouched(untouched)))
  }

  /** The trend is the slope of memory plus the slope of untouched heap, in any row order. */
  lemma TrendIsSum(samples: seq<Sample>, untouched: map<string, real>)
    requires TrendSlope(samples, untouched).Some?
    ensures Slope(samples, Switches(), Memory()).Some? && Slope(samples, Switches(), Untouched(untouched)).Some?
    ensures TrendSlope(samples, untouched).value ==
            Slope(samples, Switches(), Memory()).value + Slope(samples, Switches(), Untouched(untouched)).value
  {
    SlopeIgnoresOrder(samples, Switches(), Plus(Memory(), Untouched(untouched)));
    SlopePlus(samples, Switches(), Memory(), Untouched(untouched));
  }

  /** With a constant heap span the trend is the slope of everything but the heap, however the heap
      pages become resident. */
  lemma ConstantHeapSpan(samples: seq<Sample>, untouched: map<string, real>, heapRss: Sample -> real,
                         other: Sample -> real, span: real)
    requires TrendSlope(samples, untouched).Some?
    requires forall s :: s in samples ==> s.memory == heapRss(s) + other(s) && untouched[s.id] == span - heapRss(s)
    ensures TrendSlope(samples, untouched) == Slope(samples, Switches(), other)
  {
    var x, total := Switches(), Plus(Memory(), Untouched(untouched));
    SlopeIgnoresOrder(samples, x, total);
    assert SameOn(samples, total, Plus(other, Constant(span)));
    SlopeSame(samples, x, total, Plus(other, Constant(span)));
    SlopePlus(samples, x, other, Constant(span));
    SlopeAffine(samples, x, span, 0.0);
    assert SameOn(samples, Constant(span), Plus(Constant(span), Times(0.0, x)));
    SlopeSame(samples, x, Constant(span), Plus(Constant(span), Times(0.0, x)));
  }

  /** A steady leak of k per switch shows as exactly k, wherever the leak lives. */
  lemma LeakShowsAsItsRate(samples: seq<Sample>, untouched: map<string, real>, c: real, k: real)
    requires TrendSlope(samples, untouched).Some?
    requires forall s :: s in samples ==> s.memory + untouched[s.id] == c + k * s.switches
    ensures TrendSlope(samples, untouched) == Some(k)
  {
    LeakRows(samples, untouched, c, k);
    TrendOfLine(samples, untouched, c, k);
  }

  lemma TrendOfLine(samples: seq<Sample>, untouched: map<string, real>, c: real, k: real)
    requires TrendSlope(samples, untouched).Some?
    requires SameOn(samples, Plus(Memory(), Untouched(untouched)), Plus(Constant<Sample>(c), Times(k, Switches())))
    ensures TrendSlope(samples, untouched) == Some(k)
  {
    var x, total := Switches(), Plus(Memory(), Untouched(untouched));
    var line := Plus(Constant<Sample>(c), Times(k, Switches()));
    SlopeIgnoresOrder(samples, x, total);
    SlopeSame(samples, x, total, line);
    SpreadOfSlope(samples, x, line);
    SlopeAffine(samples, x, c, k);
  }

  lemma SpreadOfSlope<T(!new)>(s: seq<T>, x: T -> real, y: T -> real)
    requires Slope(s, x, y).Some?
    ensures |s| >= 2 && Cov(s, x, x) != 0.0
  {
  }

  lemma LeakRows(samples: seq<Sample>, untouched: map<string, real>, c: real, k: real)
    requires forall s :: s in samples ==> s.id in untouched && s.memory + untouched[s.id] == c + k * s.switches
    ensures SameOn(samples, Plus(Memory(), Untouched(untouched)), Plus(Constant<Sample>(c), Times(k, Switches())))
  {
    forall s | s in samples
      ensures Plus(Memory(), Untouched(untouched))(s) == Plus(Constant<Sample>(c), Times(k, Switches()))(s)
    {
      assert Times(k, Switches())(s) == k * s.switches;
    }
  }

  /** There is a trend exactly when every sample has its heap row and two samples differ in switches. */
  lemma TrendExists(samples: seq<Sample>, untouched: map<string, real>)
    ensures TrendSlope(samples, untouched).Some? <==>
            && (forall s :: s in samples ==> s.id in untouched)
            && exists i, j :: 0 <= i < |samples| && 0 <= j < |samples| && samples[i].switches != samples[j].switches
  {
    SlopeIgnoresOrder(samples, Switches(), Plus(Memory(), Untouched(untouched)));
    if samples != [] {
      NoSpread(samples, Switches());
      assert forall i :: 0 <= i < |samples| ==> Switches()(samples[i]) == samples[i].switches;
    }
  }
}
