/** The rolling-average filter that smooths the frame interval: a fixed-capacity circular buffer of
    `int` samples with a running sum, a wrapping write cursor and a saturating count. This module is
    the value-level model; `RaFilterObject` holds the same filter as an object over an array. */
module RollingAverage {
  import opened CInt
  import opened Optional

  /** Capacity the server gives the process-wide filter at start-up. */
  const StreamFilterSize: nat := 20

  /** The filter record. `values == None` is the NULL sample buffer: no storage. */
  datatype Filter = Filter(size: nat, index: nat, count: nat, sum: int, values: Option<seq<int>>)

  /** What one `run` call leaves behind and returns. */
  datatype Step = Step(filter: Filter, average: int)

  function Sum(s: seq<int>): int
  {
    if |s| == 0 then 0 else Sum(s[..|s| - 1]) + s[|s| - 1]
  }

  function Min(a: int, b: int): int
  {
    if a < b then a else b
  }

  /** The filter invariant: with storage, `sum` is the sum of all `size` slots, the cursor is a slot
      and the count never exceeds the capacity; without storage, the record is all zero. */
  predicate Valid(f: Filter)
  {
    match f.values
    case None => f.size == 0 && f.index == 0 && f.count == 0 && f.sum == 0
    case Some(vs) => 0 < f.size == |vs| && f.index < f.size && f.count <= f.size && f.sum == Sum(vs)
  }

  /** `ra_filter_init`: zero the record, then allocate and zero `sampleSize` slots. `mallocOk` is the
      outcome of `malloc`; on failure the record stays zeroed with no storage (the C returns NULL).
      `malloc(0)` is taken to return NULL: a non-NULL block of no slots would make the next `run`
      write out of bounds and divide by zero. */
  function Init(sampleSize: nat, mallocOk: bool): (f: Filter)
    requires sampleSize == 0 ==> !mallocOk
    ensures Valid(f)
    ensures mallocOk <==> f.values.Some?
    ensures mallocOk ==> f.size == sampleSize && f.index == 0 && f.count == 0 && f.sum == 0
    ensures mallocOk ==> forall j :: 0 <= j < sampleSize ==> f.values.value[j] == 0
  {
    if mallocOk then
      SumOfZeros(sampleSize);
      Filter(sampleSize, 0, 0, 0, Some(seq(sampleSize, _ => 0)))
    else
      Filter(0, 0, 0, 0, None)
  }

  /** `ra_filter_run`: without storage the sample passes through and nothing changes. Otherwise the
      slot under the cursor is swapped out of the sum for the new sample, the cursor advances modulo
      the capacity, the count grows until it reaches the capacity, and the result is `sum / count`
      (C division, truncating toward zero). */
  function Run(f: Filter, value: int): (r: Step)
    requires Valid(f)
    ensures Valid(r.filter)
    ensures f.values.None? ==> r == Step(f, value)
    ensures f.values.Some? ==>
      && r.filter.size == f.size
      && r.filter.values.value == f.values.value[f.index := value]
      && r.filter.index == (f.index + 1) % f.size
      && r.filter.count == Min(f.count + 1, f.size)
      && 1 <= r.filter.count
      && r.average == TruncDiv(r.filter.sum, r.filter.count)
  {
    match f.values
    case None => Step(f, value)
    case Some(vs) =>
      var evicted := f.sum - vs[f.index];
      var vs' := vs[f.index := value];
      var sum' := evicted + vs'[f.index];
      var index' := (f.index + 1) % f.size;
      var count' := if f.count < f.size then f.count + 1 else f.count;
      SumOfUpdate(vs, f.index, value);
      Step(Filter(f.size, index', count', sum', Some(vs')), TruncDiv(sum', count'))
  }

  /** Successive `run` calls: the filter after feeding `xs` in order, and the averages returned. */
  function Feed(f: Filter, xs: seq<int>): (r: (Filter, seq<int>))
    requires Valid(f)
    ensures Valid(r.0) && |r.1| == |xs|
    decreases |xs|
  {
    if |xs| == 0 then (f, [])
    else
      var (g, averages) := Feed(f, xs[..|xs| - 1]);
      var s := Run(g, xs[|xs| - 1]);
      (s.filter, averages + [s.average])
  }

  /** The samples a full-history filter would average: the last `min(|xs|, n)` of them. */
  function Window(xs: seq<int>, n: nat): seq<int>
  {
    xs[|xs| - Min(|xs|, n)..]
  }

  /** What slot `j` of a capacity-`n` filter holds after `xs`: the latest sample written at a position
      congruent to `j` modulo `n`, or the initial zero if none was. */
  function Slot(xs: seq<int>, n: nat, j: nat): int
    requires 0 < n
  {
    if j < |xs| then xs[|xs| - 1 - (|xs| - 1 - j) % n] else 0
  }

  // ---------------------------------------------------------------- sums

  lemma {:induction false} SumOfZeros(n: nat)
    ensures Sum(seq(n, _ => 0)) == 0
  {
    if n > 0 {
      assert seq(n, _ => 0)[..n - 1] == seq(n - 1, _ => 0);
      SumOfZeros(n - 1);
    }
  }

  lemma {:induction false} SumOfUpdate(s: seq<int>, i: nat, x: int)
    requires i < |s|
    ensures Sum(s[i := x]) == Sum(s) - s[i] + x
    decreases |s|
  {
    var t := s[i := x];
    if i < |s| - 1 {
      assert t[..|t| - 1] == s[..|s| - 1][i := x];
      SumOfUpdate(s[..|s| - 1], i, x);
    } else {
      assert t[..|t| - 1] == s[..|s| - 1];
    }
  }

  lemma {:induction false} SumDropFirst(s: seq<int>)
    requires 0 < |s|
    ensures Sum(s) == s[0] + Sum(s[1..])
    decreases |s|
  {
    if |s| > 1 {
      assert s[..|s| - 1][1..] == s[1..][..|s| - 2];
      SumDropFirst(s[..|s| - 1]);
    } else {
      assert s[..|s| - 1] == [];
    }
  }

  lemma {:induction false} SumOfConstant(c: int, k: nat)
    ensures Sum(seq(k, _ => c)) == c * k
  {
    if k > 0 {
      assert seq(k, _ => c)[..k - 1] == seq(k - 1, _ => c);
      SumOfConstant(c, k - 1);
    }
  }

  // ---------------------------------------------------------------- cursor arithmetic

  lemma MulBetween(d: int, n: int)
    requires 0 < n && -n < d * n < n
    ensures d == 0
  {
    assert d >= 1 ==> d * n >= 1 * n;
    assert d <= -1 ==> (-d) * n >= 1 * n;
  }

  /** The remainder is determined by any quotient-remainder decomposition. */
  lemma ModOf(a: int, n: int, q: int, r: int)
    requires 0 < n && 0 <= r < n && a == q * n + r
    ensures a % n == r
  {
    var q0 := a / n;
    var r0 := a % n;
    assert a == q0 * n + r0;
    assert (q - q0) * n == r0 - r;
    MulBetween(q - q0, n);
  }

  lemma ModSucc(m: nat, n: nat)
    requires 0 < n
    ensures (m % n + 1) % n == (m + 1) % n
  {
    var q, i := m / n, m % n;
    assert m == q * n + i;
    if i + 1 < n {
      ModOf(m + 1, n, q, i + 1);
      ModOf(i + 1, n, 0, i + 1);
    } else {
      ModOf(m + 1, n, q + 1, 0);
      ModOf(i + 1, n, 1, 0);
    }
  }

  /** Positions congruent to the cursor land on it. */
  lemma ModAtCursor(m: nat, n: nat)
    requires 0 < n
    ensures (m - m % n) % n == 0
  {
    var q := m / n;
    assert m == q * n + m % n;
    ModOf(m - m % n, n, q, 0);
  }

  /** Once the buffer has wrapped, the slot under the cursor holds the sample written `n` steps ago. */
  lemma ModOldest(m: nat, n: nat)
    requires 0 < n <= m
    ensures (m - 1 - m % n) % n == n - 1
  {
    var q := m / n;
    assert m == q * n + m % n;
    assert q >= 1 by {
      assert q <= 0 ==> q * n <= 0;
    }
    ModOf(m - 1 - m % n, n, q - 1, n - 1);
  }

  /** Any other written slot keeps its latest writer when one more sample arrives. */
  lemma ModShift(m: nat, n: nat, j: nat)
    requires 0 < n && j < n && j < m && j != m % n
    ensures (m - j) % n == (m - 1 - j) % n + 1
  {
    var a := m - 1 - j;
    var p, r := a / n, a % n;
    assert a == p * n + r;
    if r + 1 < n {
      ModOf(a + 1, n, p, r + 1);
    } else {
      assert m == (p + 1) * n + j;
      ModOf(m, n, p + 1, j);
    }
  }

  // ---------------------------------------------------------------- history

  /** `g` is the capacity-`n` filter that has been fed exactly `xs` since initialisation: the cursor is
      `|xs| mod n`, the count is `min(|xs|, n)`, every slot holds its latest writer (so the oldest
      sample is the one overwritten next), and the running sum is the sum of the last `min(|xs|, n)`
      samples. */
  predicate Describes(g: Filter, xs: seq<int>, n: nat)
    requires 0 < n
  {
    && g.values.Some? && g.size == n && |g.values.value| == n
    && g.index == |xs| % n
    && g.count == Min(|xs|, n)
    && (forall j :: 0 <= j < n ==> g.values.value[j] == Slot(xs, n, j))
    && g.sum == Sum(Window(xs, n))
  }

  lemma SlotsAfterRun(vs: seq<int>, ys: seq<int>, n: nat, x: int)
    requires 0 < n == |vs|
    requires forall j :: 0 <= j < n ==> vs[j] == Slot(ys, n, j)
    ensures forall j :: 0 <= j < n ==> vs[|ys| % n := x][j] == Slot(ys + [x], n, j)
  {
    var m, i := |ys|, |ys| % n;
    var xs := ys + [x];
    forall j | 0 <= j < n
      ensures vs[i := x][j] == Slot(xs, n, j)
    {
      if j == i {
        ModAtCursor(m, n);
      } else if j < m {
        ModShift(m, n, j);
      } else if j == m {
        ModOf(m, n, 0, m);
      }
    }
  }

  lemma SumAfterRun(vs: seq<int>, ys: seq<int>, n: nat, x: int)
    requires 0 < n == |vs|
    requires forall j :: 0 <= j < n ==> vs[j] == Slot(ys, n, j)
    ensures Sum(Window(ys, n)) - vs[|ys| % n] + x == Sum(Window(ys + [x], n))
  {
    var m, i := |ys|, |ys| % n;
    var xs := ys + [x];
    if m < n {
      ModOf(m, n, 0, m);
      assert Window(xs, n) == xs;
      assert Window(ys, n) == ys;
      assert xs[..|xs| - 1] == ys;
    } else {
      ModOldest(m, n);
      assert vs[i] == ys[m - n];
      var w := Window(ys, n);
      assert w == ys[m - n..];
      assert Window(xs, n) == w[1..] + [x];
      assert (w[1..] + [x])[..n - 1] == w[1..];
      SumDropFirst(w);
    }
  }

  lemma HistoryStep(g: Filter, ys: seq<int>, n: nat, x: int)
    requires 0 < n && Valid(g) && Describes(g, ys, n)
    ensures Describes(Run(g, x).filter, ys + [x], n)
  {
    SlotsAfterRun(g.values.value, ys, n, x);
    SumAfterRun(g.values.value, ys, n, x);
    ModSucc(|ys|, n);
  }

  /** Feeding `xs` to a freshly initialised filter leaves the state `Describes` characterises. */
  lemma {:induction false} History(n: nat, xs: seq<int>)
    requires 0 < n
    ensures Describes(Feed(Init(n, true), xs).0, xs, n)
    decreases |xs|
  {
    if |xs| == 0 {
      ModOf(0, n, 0, 0);
    } else {
      var ys, x := xs[..|xs| - 1], xs[|xs| - 1];
      assert xs == ys + [x];
      History(n, ys);
      HistoryStep(Feed(Init(n, true), ys).0, ys, n, x);
    }
  }

  /** Without storage (never initialised, or `malloc` failed) every sample comes back unchanged and the
      record is never touched. */
  lemma {:induction false} PassThrough(f: Filter, xs: seq<int>)
    requires Valid(f) && f.values.None?
    ensures Feed(f, xs) == (f, xs)
    decreases |xs|
  {
    if |xs| > 0 {
      PassThrough(f, xs[..|xs| - 1]);
      assert xs[..|xs| - 1] + [xs[|xs| - 1]] == xs;
    }
  }

  /** When `malloc` fails the record is left zeroed without storage, and every later sample passes
      through it unchanged. */
  lemma InitFailurePassesThrough(n: nat, xs: seq<int>)
    ensures Init(n, false) == Filter(0, 0, 0, 0, None)
    ensures Feed(Init(n, false), xs) == (Init(n, false), xs)
  {
    PassThrough(Init(n, false), xs);
  }

  /** Earlier averages do not depend on later samples. */
  lemma {:induction false} FeedPrefix(f: Filter, xs: seq<int>, k: nat)
    requires Valid(f) && k <= |xs|
    ensures Feed(f, xs[..k]).1 == Feed(f, xs).1[..k]
    decreases |xs|
  {
    if k < |xs| {
      assert xs[..k] == xs[..|xs| - 1][..k];
      FeedPrefix(f, xs[..|xs| - 1], k);
    } else {
      assert xs[..k] == xs;
    }
  }

  /** The value the latest `run` returns is the truncated mean of the last `min(|xs|, n)` samples. */
  lemma {:induction false} LatestAverage(n: nat, xs: seq<int>)
    requires 0 < n && 0 < |xs|
    ensures Feed(Init(n, true), xs).1[|xs| - 1] == TruncDiv(Sum(Window(xs, n)), Min(|xs|, n))
  {
    var ys, x := xs[..|xs| - 1], xs[|xs| - 1];
    assert xs == ys + [x];
    var g := Feed(Init(n, true), ys).0;
    var step := Run(g, x);
    assert Feed(Init(n, true), xs).1 == Feed(Init(n, true), ys).1 + [step.average];
    History(n, ys);
    HistoryStep(g, ys, n, x);
    assert step.average == TruncDiv(step.filter.sum, step.filter.count);
  }

  /** Every value `run` returns, from a successfully initialised filter, is the truncated mean of the
      last `min(k + 1, n)` samples fed so far. */
  lemma AverageOfWindow(n: nat, xs: seq<int>, k: nat)
    requires 0 < n && k < |xs|
    ensures Feed(Init(n, true), xs).1[k] == TruncDiv(Sum(Window(xs[..k + 1], n)), Min(k + 1, n))
  {
    FeedPrefix(Init(n, true), xs, k + 1);
    LatestAverage(n, xs[..k + 1]);
  }

  /** A constant input `c` always yields `c`, from the first call on. */
  lemma ConstantInput(n: nat, c: int, m: nat)
    requires 0 < n
    ensures Feed(Init(n, true), seq(m, _ => c)).1 == seq(m, _ => c)
  {
    var xs := seq(m, _ => c);
    var averages := Feed(Init(n, true), xs).1;
    forall k | 0 <= k < m
      ensures averages[k] == c
    {
      AverageOfWindow(n, xs, k);
      var w := Window(xs[..k + 1], n);
      assert w == seq(Min(k + 1, n), _ => c);
      SumOfConstant(c, Min(k + 1, n));
      TruncDivOfMultiple(c, Min(k + 1, n));
    }
  }

  // ---------------------------------------------------------------- the division as written

  /** `sum / count` as `ra_filter_run` evaluates it on the 32-bit target: `count` is a `size_t`, so the
      `int` sum is converted to `unsigned int`, divided without sign, and the quotient converted back
      to `int` on return. It agrees with truncating division whenever the sum is not negative. */
  function AverageAsWritten(sum: I32, count: U32): (r: I32)
    requires 0 < count
    ensures 0 <= sum ==> r == TruncDiv(sum, count)
  {
    ToI32(ToU32(sum) / count)
  }

  /** With a negative sum and two or more samples, the average as written comes out positive, while
      the mean of negative samples is never positive. */
  lemma AsWrittenNegativeSum(sum: I32, count: U32)
    requires sum < 0 && 2 <= count <= I32Bound
    ensures AverageAsWritten(sum, count) > 0
    ensures TruncDiv(sum, count) <= 0
  {
    var u := ToU32(sum);
    assert I32Bound <= u;
    var q := u / count;
    assert u == count * q + u % count;
    assert q < I32Bound by {
      assert q >= I32Bound ==> count * q >= 2 * I32Bound;
    }
    assert q >= 1 by {
      assert q <= 0 ==> count * q <= 0;
    }
  }

  /** The filter fed the samples -5 and -5: `sum` is -10 and `count` is 2, so the average returned as
      written is 2147483643 instead of -5. */
  lemma NegativeConstantAsWritten()
    ensures Feed(Init(StreamFilterSize, true), [-5, -5]).0.sum == -10
    ensures Feed(Init(StreamFilterSize, true), [-5, -5]).0.count == 2
    ensures AverageAsWritten(-10, 2) == 2147483643
    ensures Feed(Init(StreamFilterSize, true), [-5, -5]).1 == [-5, -5]
  {
    History(StreamFilterSize, [-5, -5]);
    assert Window([-5, -5], StreamFilterSize) == [-5, -5];
    ConstantInput(StreamFilterSize, -5, 2);
    assert seq(2, _ => -5) == [-5, -5];
  }
}
