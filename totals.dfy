/** The dashboard figures the app derives afresh from the student list, the
    library log and the pass list. */
module Totals {
  import opened Wrappers
  import opened Text
  import opened Records
  import opened Ledger

  /** The number of hostel beds the dashboard assumes. */
  const HostelCapacity: int := 40

  /** The sum of `f` over the students, folded left to right as `reduce` does. */
  function SumBy(ss: seq<Student>, f: Student -> int): int {
    if ss == [] then 0 else SumBy(ss[..|ss| - 1], f) + f(ss[|ss| - 1])
  }

  /** One student's shortfall, `max(0, totalFee - totalPaid)`. */
  function Due(s: Student): (d: int)
    ensures d >= 0 && d >= s.totalFee - s.totalPaid
    ensures d == 0 <==> s.totalPaid >= s.totalFee
  {
    if s.totalFee - s.totalPaid > 0 then s.totalFee - s.totalPaid else 0
  }

  /** Whether a student holds a bed: the label is neither "-" nor blank. */
  predicate Occupied(s: Student) {
    s.hostel != Unassigned && Trim(s.hostel) != ""
  }

  function Paid(s: Student): int {
    s.totalPaid
  }

  function Fee(s: Student): int {
    s.totalFee
  }

  function OccupiedCount(s: Student): int {
    if Occupied(s) then 1 else 0
  }

  function PassingCount(s: Student): int {
    if s.backlogs == 0 then 1 else 0
  }

  /** `feesCollected`: the sum of `totalPaid`. */
  function FeesCollected(ss: seq<Student>): int {
    SumBy(ss, Paid)
  }

  /** `dues`: the sum of every student's shortfall. */
  function Dues(ss: seq<Student>): int {
    SumBy(ss, Due)
  }

  /** `hostelOccupied`: how many students hold a bed. */
  function HostelOccupied(ss: seq<Student>): int {
    SumBy(ss, OccupiedCount)
  }

  /** `hostelFree`: beds left of the 40, not clamped at zero. */
  function HostelFree(ss: seq<Student>): int {
    HostelCapacity - HostelOccupied(ss)
  }

  /** How many students have no backlog. */
  function Passing(ss: seq<Student>): int {
    SumBy(ss, PassingCount)
  }

  /** `passRate`: the percentage of students without a backlog, rounded to
      the nearest integer with halves rounded up as `Math.round` does. With
      no students the source divides by zero; the model answers None. */
  function PassRate(ss: seq<Student>): (r: Option<int>)
    ensures r.None? <==> ss == []
    ensures r.Some? ==> 0 <= r.value <= 100
    ensures r.Some? ==>
      2 * |ss| * r.value <= 200 * Passing(ss) + |ss| < 2 * |ss| * (r.value + 1)
  {
    if ss == [] then None
    else
      CountBounded(ss, PassingCount);
      Some(RoundedPercent(Passing(ss), |ss|))
  }

  /** `Math.round(p / t * 100)` in exact arithmetic: the nearest integer to
      100p/t, a half rounding up. */
  function RoundedPercent(p: int, t: int): (r: int)
    requires 0 < t && 0 <= p <= t
    ensures 0 <= r <= 100
    ensures 2 * t * r <= 200 * p + t < 2 * t * (r + 1)
  {
    var x, d := 200 * p + t, 2 * t;
    var q := x / d;
    assert d * q <= x < d * q + d;
    assert d * (q + 1) == d * q + d;
    assert x < d * 101;
    MulCancel(d, q, 101);
    q
  }

  /** `activePasses`: passes whose validity date falls on or after `now`.
      `instant` stands for `new Date(...)`; None is an unparseable date, which
      compares false. */
  function ActivePasses(passes: seq<TransportPass>, now: int, instant: string -> Option<int>): int {
    if passes == [] then 0
    else
      var p := passes[|passes| - 1];
      ActivePasses(passes[..|passes| - 1], now, instant)
        + (if instant(p.validTill).Some? && instant(p.validTill).value >= now then 1 else 0)
  }

  // ---------------------------------------------------------------------------
  // Sums over students

  /** A sum of non-negative terms is non-negative. */
  lemma {:induction false} SumByNonNegative(ss: seq<Student>, f: Student -> int)
    requires forall i :: 0 <= i < |ss| ==> f(ss[i]) >= 0
    ensures SumBy(ss, f) >= 0
    decreases |ss|
  {
    if ss != [] {
      var n := |ss| - 1;
      assert forall i :: 0 <= i < n ==> ss[..n][i] == ss[i];
      SumByNonNegative(ss[..n], f);
    }
  }

  /** A sum of 0/1 terms lies between 0 and the number of students. */
  lemma {:induction false} CountBounded(ss: seq<Student>, f: Student -> int)
    requires forall s :: 0 <= f(s) <= 1
    ensures 0 <= SumBy(ss, f) <= |ss|
    decreases |ss|
  {
    if ss != [] {
      CountBounded(ss[..|ss| - 1], f);
    }
  }

  /** Replacing one student changes a sum by the change in that student's term. */
  lemma {:induction false} SumByUpdate(ss: seq<Student>, k: nat, s: Student, f: Student -> int)
    requires k < |ss|
    ensures SumBy(ss[k := s], f) == SumBy(ss, f) - f(ss[k]) + f(s)
    decreases |ss|
  {
    var n := |ss| - 1;
    var u := ss[k := s];
    if k < n {
      assert u[..n] == ss[..n][k := s];
      SumByUpdate(ss[..n], k, s, f);
    } else {
      assert u[..n] == ss[..n];
    }
  }

  /** Appending a student adds its term. */
  lemma SumByAppend(ss: seq<Student>, s: Student, f: Student -> int)
    ensures SumBy(ss + [s], f) == SumBy(ss, f) + f(s)
  {
    assert (ss + [s])[..|ss|] == ss;
  }

  /** `dues` is never negative, and it is zero exactly when every student has
      paid in full or more. */
  lemma {:induction false} DuesZeroIff(ss: seq<Student>)
    ensures Dues(ss) >= 0
    ensures Dues(ss) == 0 <==> forall i :: 0 <= i < |ss| ==> ss[i].totalPaid >= ss[i].totalFee
    decreases |ss|
  {
    if ss != [] {
      var n := |ss| - 1;
      assert forall i :: 0 <= i < n ==> ss[..n][i] == ss[i];
      DuesZeroIff(ss[..n]);
    }
  }

  /** Fees collected plus dues cover the fees charged. */
  lemma {:induction false} CollectedPlusDuesCoverFees(ss: seq<Student>)
    ensures FeesCollected(ss) + Dues(ss) >= SumBy(ss, Fee)
    decreases |ss|
  {
    if ss != [] {
      CollectedPlusDuesCoverFees(ss[..|ss| - 1]);
    }
  }

  /** A label counts as a held bed exactly when it is not "-" and has a
      character other than whitespace. */
  lemma OccupiedIff(s: Student)
    ensures Occupied(s) <==>
      s.hostel != Unassigned && exists k :: 0 <= k < |s.hostel| && !IsJsWhitespace(s.hostel[k])
  {
    TrimBlankIff(s.hostel);
  }

  /** Occupancy is between 0 and the number of students; free beds are the
      40 less occupancy, whatever its size. */
  lemma HostelBounds(ss: seq<Student>)
    ensures 0 <= HostelOccupied(ss) <= |ss|
    ensures HostelFree(ss) + HostelOccupied(ss) == HostelCapacity
    ensures HostelFree(ss) >= HostelCapacity - |ss|
  {
    CountBounded(ss, OccupiedCount);
  }

  /** With more students in beds than the 40, `hostelFree` goes negative. */
  lemma {:induction false} HostelFreeNotClamped(ss: seq<Student>)
    requires forall i :: 0 <= i < |ss| ==> Occupied(ss[i])
    ensures HostelOccupied(ss) == |ss|
    ensures |ss| > HostelCapacity ==> HostelFree(ss) < 0
    decreases |ss|
  {
    if ss != [] {
      var n := |ss| - 1;
      assert forall i :: 0 <= i < n ==> ss[..n][i] == ss[i];
      HostelFreeNotClamped(ss[..n]);
    }
  }

  lemma MulCancel(a: int, b: int, c: int)
    requires a > 0 && a * b < a * c
    ensures b < c
  {
    if b >= c {
      MulMonotone(a, c, b);
    }
  }

  lemma MulMonotone(a: int, b: int, c: int)
    requires a > 0 && b <= c
    ensures a * b <= a * c
  {
    assert a * c == a * b + a * (c - b);
  }

  /** With every student at zero backlogs the rate is 100, with none it is 0. */
  lemma PassRateExtremes(ss: seq<Student>)
    requires ss != []
    ensures Passing(ss) == |ss| ==> PassRate(ss) == Some(100)
    ensures Passing(ss) == 0 ==> PassRate(ss) == Some(0)
  {
    var t := |ss|;
    var r := PassRate(ss).value;
    if Passing(ss) == t {
      if r < 100 {
        MulMonotone(2 * t, r + 1, 100);
      }
    } else if Passing(ss) == 0 {
      if r > 0 {
        MulMonotone(2 * t, 1, r);
      }
    }
  }

  // ---------------------------------------------------------------------------
  // Passes

  /** An issued pass is prepended; the count grows by one exactly when the new
      pass is still valid. */
  lemma {:induction false} ActivePassesPrepend(p: TransportPass, passes: seq<TransportPass>, now: int, instant: string -> Option<int>)
    ensures ActivePasses([p] + passes, now, instant)
         == ActivePasses(passes, now, instant) + (if instant(p.validTill).Some? && instant(p.validTill).value >= now then 1 else 0)
    decreases |passes|
  {
    if passes != [] {
      var n := |passes| - 1;
      var l := [p] + passes;
      assert l[..|l| - 1] == [p] + passes[..n];
      ActivePassesPrepend(p, passes[..n], now, instant);
    } else {
      assert ([p] + passes)[..0] == [];
    }
  }

  /** The same, for every instant and every date reading at once. */
  lemma IssuedPassEffect(p: TransportPass, passes: seq<TransportPass>)
    ensures forall now: int, instant: string -> Option<int> ::
      ActivePasses([p] + passes, now, instant)
      == ActivePasses(passes, now, instant) + (if instant(p.validTill).Some? && instant(p.validTill).value >= now then 1 else 0)
  {
    forall now: int, instant: string -> Option<int>
      ensures ActivePasses([p] + passes, now, instant)
           == ActivePasses(passes, now, instant) + (if instant(p.validTill).Some? && instant(p.validTill).value >= now then 1 else 0)
    {
      ActivePassesPrepend(p, passes, now, instant);
    }
  }

  /** No more passes are active than exist. */
  lemma {:induction false} ActivePassesBounded(passes: seq<TransportPass>, now: int, instant: string -> Option<int>)
    ensures 0 <= ActivePasses(passes, now, instant) <= |passes|
    decreases |passes|
  {
    if passes != [] {
      ActivePassesBounded(passes[..|passes| - 1], now, instant);
    }
  }

  // ---------------------------------------------------------------------------
  // The whole dashboard

  datatype Dashboard = Dashboard(
    totalStudents: int,
    feesCollected: int,
    dues: int,
    hostelOccupied: int,
    hostelFree: int,
    passRate: Option<int>,
    booksOut: int,
    activePasses: int)

  /** The `totals` derivation: every tile computed from the current lists. */
  method ComputeTotals(students: seq<Student>, libTxns: seq<LibraryTxn>, passes: seq<TransportPass>,
                       now: int, instant: string -> Option<int>)
    returns (d: Dashboard)
    ensures d.totalStudents == |students|
    ensures d.feesCollected == FeesCollected(students)
    ensures d.dues == Dues(students) && d.dues >= 0
    ensures d.hostelOccupied == HostelOccupied(students) && 0 <= d.hostelOccupied <= d.totalStudents
    ensures d.hostelFree == HostelCapacity - d.hostelOccupied
    ensures d.passRate == PassRate(students)
    ensures d.booksOut == BooksOutSpec(libTxns) && d.booksOut >= 0
    ensures d.activePasses == ActivePasses(passes, now, instant) && 0 <= d.activePasses <= |passes|
  {
    var booksOut := BooksOut(libTxns);
    DuesZeroIff(students);
    HostelBounds(students);
    BooksOutNonNegative(libTxns);
    ActivePassesBounded(passes, now, instant);
    d := Dashboard(|students|, FeesCollected(students), Dues(students), HostelOccupied(students),
                   HostelFree(students), PassRate(students), booksOut, ActivePasses(passes, now, instant));
  }
}
