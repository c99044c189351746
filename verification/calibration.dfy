/** Expected calibration error, over the reals, and what it lies between. */
module Calibration {
  function Abs(x: real): real {
    if x < 0.0 then -x else x
  }

  predicate Unit(x: real) {
    0.0 <= x <= 1.0
  }

  function Sum(xs: seq<real>): real {
    if xs == [] then 0.0 else Sum(xs[..|xs| - 1]) + xs[|xs| - 1]
  }

  function Mean(xs: seq<real>): real
    requires xs != []
  {
    Sum(xs) / |xs| as real
  }

  /******* Bins *******/

  /** The bin of probability `p` among `n` of equal width; `p == 1` joins the last one. */
  function Bin(p: real, n: nat): int
    requires n >= 1
  {
    var k := (p * n as real).Floor;
    if k < n - 1 then k else n - 1
  }

  /** Every probability has exactly one bin: the one whose range it lies in. */
  lemma BinIsItsRange(p: real, n: nat, b: nat)
    requires n >= 1 && Unit(p)
    ensures Bin(p, n) == b <==> b < n && b as real <= p * n as real && (p * n as real < (b + 1) as real || b == n - 1)
    ensures 0 <= Bin(p, n) < n
  {
    var x := p * n as real;
    assert 0.0 <= x <= n as real by {
      ScaledUnit(p, n as real);
    }
    assert x.Floor as real <= x < x.Floor as real + 1.0;
  }

  lemma ScaledUnit(p: real, n: real)
    requires Unit(p) && n >= 0.0
    ensures 0.0 <= p * n <= n
  {
  }

  function CountIn(ps: seq<real>, n: nat, b: int): nat
    requires n >= 1
  {
    if ps == [] then 0 else CountIn(ps[..|ps| - 1], n, b) + if Bin(ps[|ps| - 1], n) == b then 1 else 0
  }

  /** The sum of those `xs` whose probability is in bin `b`. */
  function SumIn(xs: seq<real>, ps: seq<real>, n: nat, b: int): real
    requires n >= 1 && |xs| == |ps|
  {
    if xs == [] then 0.0
    else
      var k := |xs| - 1;
      SumIn(xs[..k], ps[..k], n, b) + if Bin(ps[k], n) == b then xs[k] else 0.0
  }

  function SumOverBins(xs: seq<real>, ps: seq<real>, n: nat, upTo: nat): real
    requires n >= 1 && |xs| == |ps|
  {
    if upTo == 0 then 0.0 else SumOverBins(xs, ps, n, upTo - 1) + SumIn(xs, ps, n, upTo - 1)
  }

  lemma {:induction false} OneMoreSample(xs: seq<real>, ps: seq<real>, n: nat, upTo: nat)
    requires n >= 1 && |xs| == |ps| && xs != []
    ensures var k := |xs| - 1;
            SumOverBins(xs, ps, n, upTo)
            == SumOverBins(xs[..k], ps[..k], n, upTo) + if 0 <= Bin(ps[k], n) < upTo then xs[k] else 0.0
  {
    if upTo > 0 {
      OneMoreSample(xs, ps, n, upTo - 1);
    }
  }

  lemma {:induction false} NoSamples(n: nat, upTo: nat)
    requires n >= 1
    ensures SumOverBins([], [], n, upTo) == 0.0
  {
    if upTo > 0 {
      NoSamples(n, upTo - 1);
    }
  }

  /** The bins partition the samples: summing bin by bin is summing. */
  lemma {:induction false} BinsPartition(xs: seq<real>, ps: seq<real>, n: nat)
    requires n >= 1 && |xs| == |ps| && forall p <- ps :: Unit(p)
    ensures SumOverBins(xs, ps, n, n) == Sum(xs)
  {
    if xs == [] {
      NoSamples(n, n);
    } else {
      var k := |xs| - 1;
      assert ps[k] in ps && forall p <- ps[..k] :: p in ps;
      BinsPartition(xs[..k], ps[..k], n);
      OneMoreSample(xs, ps, n, n);
      BinIsItsRange(ps[k], n, 0);
    }
  }

  /******* The error *******/

  /** What bin `b` contributes: its share of the samples times the gap of its means. */
  function Term(ys: seq<real>, ps: seq<real>, n: nat, b: int): real
    requires n >= 1 && |ys| == |ps| > 0
  {
    var count := CountIn(ps, n, b) as real;
    if count == 0.0 then 0.0
    else Weighted(count, |ys| as real, SumIn(ys, ps, n, b), SumIn(ps, ps, n, b))
  }

  function Weighted(count: real, total: real, y: real, p: real): real
    requires count > 0.0 && total > 0.0
  {
    (count / total) * Abs(y / count - p / count)
  }

  function EceUpTo(ys: seq<real>, ps: seq<real>, n: nat, upTo: nat): real
    requires n >= 1 && |ys| == |ps| > 0
  {
    if upTo == 0 then 0.0 else EceUpTo(ys, ps, n, upTo - 1) + Term(ys, ps, n, upTo - 1)
  }

  /** `expected_calibration_error`. */
  method ExpectedCalibrationError(ys: seq<real>, ps: seq<real>, n: nat) returns (total: real)
    requires n >= 1 && |ys| == |ps|
    ensures total == if ys == [] then 0.0 else EceUpTo(ys, ps, n, n)
    ensures ys != [] && (forall y <- ys :: Unit(y)) && (forall p <- ps :: Unit(p)) ==>
              Abs(Mean(ys) - Mean(ps)) <= total <= Mean(Distances(ys, ps)) <= 1.0
    ensures ys != [] && (forall y <- ys :: Unit(y)) && (forall p <- ps :: Unit(p)) ==>
              -total <= Mean(ys) - Mean(ps) <= total <= 1.0
  {
    if ys == [] {
      return 0.0;
    }
    total := 0.0;
    for b := 0 to n
      invariant total == EceUpTo(ys, ps, n, b)
    {
      var count := CountIn(ps, n, b) as real;
      if count != 0.0 {
        total := total + Weighted(count, |ys| as real, SumIn(ys, ps, n, b), SumIn(ps, ps, n, b));
      }
    }
    if (forall y <- ys :: Unit(y)) && (forall p <- ps :: Unit(p)) {
      EceIsBetween(ys, ps, n);
    }
  }

  function Differences(ys: seq<real>, ps: seq<real>): seq<real>
    requires |ys| == |ps|
  {
    seq(|ys|, i requires 0 <= i < |ys| => ys[i] - ps[i])
  }

  function Distances(ys: seq<real>, ps: seq<real>): seq<real>
    requires |ys| == |ps|
  {
    seq(|ys|, i requires 0 <= i < |ys| => Abs(ys[i] - ps[i]))
  }

  lemma {:induction false} EmptyBin(xs: seq<real>, ps: seq<real>, n: nat, b: int)
    requires n >= 1 && |xs| == |ps| && CountIn(ps, n, b) == 0
    ensures SumIn(xs, ps, n, b) == 0.0
  {
    if xs != [] {
      EmptyBin(xs[..|xs| - 1], ps[..|ps| - 1], n, b);
    }
  }

  lemma AbsOfQuotient(a: real, b: real, c: real)
    requires c > 0.0
    ensures Abs(a / c - b / c) == Abs(a - b) / c
  {
    var d := a - b;
    assert a / c - b / c == d / c;
    if d < 0.0 {
      assert d / c < 0.0 && -(d / c) == (-d) / c;
    } else {
      assert d / c >= 0.0;
    }
  }

  lemma Cancel(a: real, b: real, c: real)
    requires a > 0.0 && b > 0.0
    ensures (a / b) * (c / a) == c / b
  {
  }

  lemma WeightedIsGap(count: real, total: real, y: real, p: real)
    requires count > 0.0 && total > 0.0
    ensures Weighted(count, total, y, p) == Abs(y - p) / total
  {
    AbsOfQuotient(y, p, count);
    Cancel(count, total, Abs(y - p));
  }

  lemma {:induction false} GapOfSums(ys: seq<real>, ps: seq<real>, n: nat, b: int)
    requires n >= 1 && |ys| == |ps|
    ensures SumIn(ys, ps, n, b) - SumIn(ps, ps, n, b) == SumIn(Differences(ys, ps), ps, n, b)
  {
    if ys != [] {
      var k := |ys| - 1;
      GapOfSums(ys[..k], ps[..k], n, b);
      assert Differences(ys, ps)[..k] == Differences(ys[..k], ps[..k]);
    }
  }

  /** A bin contributes the size of its summed differences, over the number of samples. */
  lemma TermIsGap(ys: seq<real>, ps: seq<real>, n: nat, b: int)
    requires n >= 1 && |ys| == |ps| > 0
    ensures Term(ys, ps, n, b) == Abs(SumIn(Differences(ys, ps), ps, n, b)) / |ys| as real
  {
    GapOfSums(ys, ps, n, b);
    if CountIn(ps, n, b) == 0 {
      EmptyBin(ys, ps, n, b);
      EmptyBin(ps, ps, n, b);
    } else {
      WeightedIsGap(CountIn(ps, n, b) as real, |ys| as real, SumIn(ys, ps, n, b), SumIn(ps, ps, n, b));
    }
  }

  lemma {:induction false} SumInAbs(ys: seq<real>, ps: seq<real>, n: nat, b: int)
    requires n >= 1 && |ys| == |ps|
    ensures Abs(SumIn(Differences(ys, ps), ps, n, b)) <= SumIn(Distances(ys, ps), ps, n, b)
  {
    if ys != [] {
      var k := |ys| - 1;
      SumInAbs(ys[..k], ps[..k], n, b);
      assert Differences(ys, ps)[..k] == Differences(ys[..k], ps[..k]);
      assert Distances(ys, ps)[..k] == Distances(ys[..k], ps[..k]);
    }
  }

  /** The sizes of the bins' summed differences, added up. */
  function GapsOverBins(xs: seq<real>, ps: seq<real>, n: nat, upTo: nat): real
    requires n >= 1 && |xs| == |ps|
  {
    if upTo == 0 then 0.0 else GapsOverBins(xs, ps, n, upTo - 1) + Abs(SumIn(xs, ps, n, upTo - 1))
  }

  lemma AddQuotients(a: real, b: real, c: real)
    requires c > 0.0
    ensures a / c + b / c == (a + b) / c
  {
  }

  lemma {:induction false} EceIsGaps(ys: seq<real>, ps: seq<real>, n: nat, upTo: nat)
    requires n >= 1 && |ys| == |ps| > 0
    ensures EceUpTo(ys, ps, n, upTo) == GapsOverBins(Differences(ys, ps), ps, n, upTo) / |ys| as real
  {
    if upTo > 0 {
      EceIsGaps(ys, ps, n, upTo - 1);
      TermIsGap(ys, ps, n, upTo - 1);
      AddQuotients(GapsOverBins(Differences(ys, ps), ps, n, upTo - 1),
                   Abs(SumIn(Differences(ys, ps), ps, n, upTo - 1)), |ys| as real);
    }
  }

  lemma {:induction false} GapsAreBetween(ys: seq<real>, ps: seq<real>, n: nat, upTo: nat)
    requires n >= 1 && |ys| == |ps|
    ensures Abs(SumOverBins(Differences(ys, ps), ps, n, upTo)) <= GapsOverBins(Differences(ys, ps), ps, n, upTo)
    ensures GapsOverBins(Differences(ys, ps), ps, n, upTo) <= SumOverBins(Distances(ys, ps), ps, n, upTo)
  {
    if upTo > 0 {
      GapsAreBetween(ys, ps, n, upTo - 1);
      SumInAbs(ys, ps, n, upTo - 1);
    }
  }

  lemma {:induction false} SumOfDifferences(ys: seq<real>, ps: seq<real>)
    requires |ys| == |ps|
    ensures Sum(Differences(ys, ps)) == Sum(ys) - Sum(ps)
  {
    if ys != [] {
      var k := |ys| - 1;
      SumOfDifferences(ys[..k], ps[..k]);
      assert Differences(ys, ps)[..k] == Differences(ys[..k], ps[..k]);
    }
  }

  lemma {:induction false} SumOfUnits(xs: seq<real>)
    requires forall x <- xs :: Unit(x)
    ensures 0.0 <= Sum(xs) <= |xs| as real
  {
    if xs != [] {
      assert xs[|xs| - 1] in xs && forall x <- xs[..|xs| - 1] :: x in xs;
      SumOfUnits(xs[..|xs| - 1]);
    }
  }

  lemma DivideChain(low: real, mid: real, high: real, total: real)
    requires total > 0.0 && low <= mid <= high <= total
    ensures low / total <= mid / total <= high / total <= 1.0
  {
  }

  /**
   For any number of bins the error lies between the gap of the overall means and the mean
   distance of label and probability, which is at most one.
   */
  lemma EceIsBetween(ys: seq<real>, ps: seq<real>, n: nat)
    requires n >= 1 && |ys| == |ps| > 0 && (forall y <- ys :: Unit(y)) && (forall p <- ps :: Unit(p))
    ensures Abs(Mean(ys) - Mean(ps)) <= EceUpTo(ys, ps, n, n) <= Mean(Distances(ys, ps)) <= 1.0
  {
    var differences, distances := Differences(ys, ps), Distances(ys, ps);
    EceIsGaps(ys, ps, n, n);
    GapsAreBetween(ys, ps, n, n);
    BinsPartition(differences, ps, n);
    BinsPartition(distances, ps, n);
    SumOfDifferences(ys, ps);
    AbsOfQuotient(Sum(ys), Sum(ps), |ys| as real);
    forall i | 0 <= i < |distances| ensures Unit(distances[i]) {
      assert ys[i] in ys && ps[i] in ps;
    }
    SumOfUnits(distances);
    DivideChain(Abs(Sum(ys) - Sum(ps)), GapsOverBins(differences, ps, n, n), Sum(distances), |ys| as real);
  }

  /** With one bin the error is the gap of the means: the lower bound is attained. */
  lemma OneBinIsTheGapOfMeans(ys: seq<real>, ps: seq<real>)
    requires |ys| == |ps| > 0 && forall p <- ps :: Unit(p)
    ensures EceUpTo(ys, ps, 1, 1) == Abs(Mean(ys) - Mean(ps))
  {
    var differences := Differences(ys, ps);
    BinsPartition(differences, ps, 1);
    SumOfDifferences(ys, ps);
    EceIsGaps(ys, ps, 1, 1);
    AbsOfQuotient(Sum(ys), Sum(ps), |ys| as real);
    assert SumOverBins(differences, ps, 1, 1) == SumOverBins(differences, ps, 1, 0) + SumIn(differences, ps, 1, 0);
    assert GapsOverBins(differences, ps, 1, 1) == GapsOverBins(differences, ps, 1, 0) + Abs(SumIn(differences, ps, 1, 0));
  }
}
