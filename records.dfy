/** The records the campus app keeps in memory: students, library
    transactions and transport passes, and the sequential student ids. */
module Records {
  import opened Wrappers
  import opened Text

  /** The transport assignment a student record mirrors from its latest pass. */
  datatype TransportInfo = TransportInfo(route: string, stop: string, busNo: string, validTill: string)

  /** A student record. Fees are whole amounts; `cgpaTenths` is the cgpa on
      the 0-10 scale times ten (7.8 is 78). */
  datatype Student = Student(
    id: string,
    name: string,
    program: string,
    year: string,
    phone: string,
    email: string,
    totalFee: int,
    totalPaid: int,
    hostel: string,
    cgpaTenths: int,
    backlogs: nat,
    transport: Option<TransportInfo>)

  datatype TxnAction = Borrow | Return

  /** One entry of the append-only library log. */
  datatype LibraryTxn = LibraryTxn(id: string, studentId: string, bookId: string, action: TxnAction, date: string)

  /** One issued transport pass. */
  datatype TransportPass = TransportPass(
    id: string,
    studentId: string,
    route: string,
    stop: string,
    busNo: string,
    validTill: string,
    issuedOn: string)

  /** The hostel label of a student without a bed. */
  const Unassigned: string := "-"

  /** The fee every new admission is charged. */
  const DefaultTotalFee: int := 20000

  /** The id `nextId` gives the `n`-th student: "STU" and `n` zero-padded to
      three digits (STU001, STU042, STU1000). */
  function StudentId(n: nat): string {
    "STU" + PadStart(Decimal(n), 3, '0')
  }

  /** Reads back the number in a student id. */
  function IdNumber(id: string): nat {
    if |id| < 3 then 0 else DigitsValue(id[3..])
  }

  /** Student ids read back as the number they were made from. */
  lemma StudentIdRoundTrip(n: nat)
    ensures IdNumber(StudentId(n)) == n
  {
    var id := StudentId(n);
    assert id[3..] == PadStart(Decimal(n), 3, '0');
    PaddedDecimalRoundTrip(n, 3);
  }

  /** Different numbers give different ids, so sequential ids are unique. */
  lemma StudentIdInjective(a: nat, b: nat)
    requires StudentId(a) == StudentId(b)
    ensures a == b
  {
    StudentIdRoundTrip(a);
    StudentIdRoundTrip(b);
  }

  /** A student id is "STU" followed by at least three digits. */
  lemma StudentIdDigits(n: nat)
    ensures |StudentId(n)| >= 6 && StudentId(n)[..3] == "STU"
    ensures forall k :: 3 <= k < |StudentId(n)| ==> IsDigit(StudentId(n)[k])
  {
    var p := PadStart(Decimal(n), 3, '0');
    DecimalShape(n);
    PadStartShape(Decimal(n), 3, '0');
    assert StudentId(n)[3..] == p;
    forall k | 3 <= k < |StudentId(n)|
      ensures IsDigit(StudentId(n)[k])
    {
      assert StudentId(n)[k] == p[k - 3];
      if k - 3 >= |p| - |Decimal(n)| {
        assert p[k - 3] == p[|p| - |Decimal(n)|..][k - 3 - (|p| - |Decimal(n)|)];
      }
    }
  }

  /** A student id is its own trim and contains no '|'. */
  lemma StudentIdShape(n: nat)
    ensures Trim(StudentId(n)) == StudentId(n)
    ensures '|' !in StudentId(n)
  {
    StudentIdDigits(n);
    var id := StudentId(n);
    assert id[0] == 'S';
    assert IsDigit(id[|id| - 1]);
    TrimOfTrimmed(id);
  }
}
