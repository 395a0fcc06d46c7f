/** The campus app's in-memory state and the six guarded actions on it. Each
    action checks the role's edit right on its section, validates its input,
    and then either leaves every list as it was or changes it: an admission
    appends a student, a library entry appends to the log, a payment, a bed
    or a marks upload replaces the matching student record, and issuing a
    pass changes two lists, prepending the pass and replacing the records
    whose id equals the id as typed. */
module Campus {
  import opened Wrappers
  import opened Text
  import opened Permissions
  import opened Records
  import opened Ledger
  import opened Totals

  /** Why an action was refused. PermissionDenied and BlankName are silent in
      the app; the others raise an alert. */
  datatype Rejection =
    | PermissionDenied
    | BlankName
    | StudentNotFound
    | InvalidAmount
    | MissingIds
    | NoOpenBorrow
    | MissingStudentId

  datatype Status = Accepted | Rejected(reason: Rejection)

  /** The admission form's fields. */
  datatype AdmissionForm = AdmissionForm(name: string, program: string, year: string, phone: string, email: string)

  /** The fee receipt shown after a payment. */
  datatype Receipt = Receipt(id: string, name: string, amount: int, term: string, receiptNo: string, date: string)

  // ---------------------------------------------------------------------------
  // Student lookup and record updates

  /** `students.find(s => s.id === id)`: the index of the first student with
      that id, or None. */
  function FindStudent(ss: seq<Student>, id: string): (r: Option<nat>)
    ensures r.Some? ==> r.value < |ss| && ss[r.value].id == id
    ensures r.Some? ==> forall j :: 0 <= j < r.value ==> ss[j].id != id
    ensures r.None? <==> forall j :: 0 <= j < |ss| ==> ss[j].id != id
  {
    if ss == [] then None
    else if ss[0].id == id then Some(0)
    else match FindStudent(ss[1..], id)
      case None => None
      case Some(k) => Some(k + 1)
  }

  /** `prev.map(s => s.id === id ? f(s) : s)`: every student with the id is
      replaced by `f` of itself, every other one kept. */
  method MapMatching(ss: seq<Student>, id: string, f: Student -> Student) returns (r: seq<Student>)
    ensures |r| == |ss|
    ensures forall i :: 0 <= i < |ss| ==> r[i] == if ss[i].id == id then f(ss[i]) else ss[i]
  {
    r := [];
    var i := 0;
    while i < |ss|
      invariant 0 <= i <= |ss| && |r| == i
      invariant forall j :: 0 <= j < i ==> r[j] == if ss[j].id == id then f(ss[j]) else ss[j]
    {
      r := r + [if ss[i].id == id then f(ss[i]) else ss[i]];
      i := i + 1;
    }
  }

  /** Student ids are the sequence STU001, STU002, ... in list order. */
  ghost predicate SequentialIds(ss: seq<Student>) {
    forall i :: 0 <= i < |ss| ==> ss[i].id == StudentId(i + 1)
  }

  /** `nextId`: the id of the next admission. */
  function NextId(ss: seq<Student>): string {
    StudentId(|ss| + 1)
  }

  /** Sequential ids are unique. */
  lemma SequentialIdsDistinct(ss: seq<Student>, i: nat, j: nat)
    requires SequentialIds(ss)
    requires i < |ss| && j < |ss| && ss[i].id == ss[j].id
    ensures i == j
  {
    StudentIdInjective(i + 1, j + 1);
  }

  /** `nextId` is the id of no student yet. */
  lemma NextIdFresh(ss: seq<Student>, i: nat)
    requires SequentialIds(ss)
    requires i < |ss|
    ensures ss[i].id != NextId(ss)
  {
    if ss[i].id == NextId(ss) {
      StudentIdInjective(i + 1, |ss| + 1);
    }
  }

  /** An admission keeps the ids sequential. */
  lemma AdmissionKeepsIdsSequential(ss: seq<Student>, s: Student)
    requires SequentialIds(ss)
    requires s.id == NextId(ss)
    ensures SequentialIds(ss + [s])
  {
  }

  /** With unique ids, replacing every record with a given student's id
      replaces that student's record alone. */
  lemma MatchingIsPointUpdate(ss: seq<Student>, k: nat, f: Student -> Student, r: seq<Student>)
    requires SequentialIds(ss) && k < |ss|
    requires |r| == |ss|
    requires forall i :: 0 <= i < |ss| ==> r[i] == if ss[i].id == ss[k].id then f(ss[i]) else ss[i]
    ensures r == ss[k := f(ss[k])]
  {
    forall i | 0 <= i < |ss| && ss[i].id == ss[k].id
      ensures i == k
    {
      SequentialIdsDistinct(ss, i, k);
    }
  }

  /** A record update that keeps the id keeps the ids sequential. */
  lemma PointUpdateKeepsIdsSequential(ss: seq<Student>, k: nat, s: Student)
    requires SequentialIds(ss) && k < |ss| && s.id == ss[k].id
    ensures SequentialIds(ss[k := s])
  {
  }

  /** A padded id (one that `trim` changes) is the id of no student. */
  lemma UntrimmedIdMatchesNoStudent(ss: seq<Student>, id: string)
    requires SequentialIds(ss)
    requires Trim(id) != id
    ensures forall i :: 0 <= i < |ss| ==> ss[i].id != id
  {
    forall i | 0 <= i < |ss|
      ensures ss[i].id != id
    {
      StudentIdShape(i + 1);
    }
  }

  /** The fee payment's record change. */
  function WithPayment(s: Student, amount: int): (r: Student)
    ensures r.totalPaid - s.totalPaid == amount
    ensures r == s.(totalPaid := r.totalPaid)
  {
    s.(totalPaid := s.totalPaid + amount)
  }

  /** `Math.max(0, Math.min(100, marks))`. */
  function ClampMarks(marks: int): (m: int)
    ensures 0 <= m <= 100
    ensures 0 <= marks <= 100 ==> m == marks
    ensures marks < 0 ==> m == 0
    ensures marks > 100 ==> m == 100
  {
    if marks < 0 then 0 else if marks > 100 then 100 else marks
  }

  /** The new cgpa, in tenths: `Math.round((cgpa + marks / 10) / 2 * 10) / 10`
      computed exactly, the mean of the old cgpa and marks/10 with a half
      rounding up. */
  function BlendCgpa(cgpaTenths: int, marks: int): (r: int)
    ensures cgpaTenths + marks <= 2 * r <= cgpaTenths + marks + 1
    ensures 0 <= cgpaTenths <= 100 && 0 <= marks <= 100 ==> 0 <= r <= 100
  {
    (cgpaTenths + marks + 1) / 2
  }

  /** The marks upload's record change: the cgpa blend, and one more backlog
      exactly when the clamped marks are below the pass mark of 40. */
  function WithMarks(s: Student, marks: int): (r: Student)
    ensures r.backlogs == s.backlogs + 1 <==> ClampMarks(marks) < 40
    ensures r.backlogs == s.backlogs <==> ClampMarks(marks) >= 40
    ensures r.cgpaTenths == BlendCgpa(s.cgpaTenths, ClampMarks(marks))
    ensures 0 <= s.cgpaTenths <= 100 ==> 0 <= r.cgpaTenths <= 100
    ensures r == s.(cgpaTenths := r.cgpaTenths, backlogs := r.backlogs)
  {
    var m := ClampMarks(marks);
    s.(cgpaTenths := BlendCgpa(s.cgpaTenths, m), backlogs := if m >= 40 then s.backlogs else s.backlogs + 1)
  }

  /** The hostel slot label `${hostel}/${room}/${bed}`. */
  function HostelSlot(hostel: string, room: string, bed: string): string {
    hostel + "/" + room + "/" + bed
  }

  /** Every allocated slot counts as occupied: it holds a '/'. */
  lemma SlotIsOccupied(s: Student, hostel: string, room: string, bed: string)
    ensures Occupied(s.(hostel := HostelSlot(hostel, room, bed)))
  {
    var slot := HostelSlot(hostel, room, bed);
    assert slot[|hostel|] == '/';
    TrimKeepsNonWhitespace(slot, '/');
  }

  // ---------------------------------------------------------------------------
  // The effect of one record change on the dashboard

  /** A payment adds its amount to fees collected and takes from dues the
      part of it that the student still owed. */
  lemma PaymentEffect(ss: seq<Student>, k: nat, amount: int)
    requires k < |ss| && amount > 0
    ensures var u := ss[k := WithPayment(ss[k], amount)];
      FeesCollected(u) == FeesCollected(ss) + amount
      && Dues(u) == Dues(ss) - (if amount < Due(ss[k]) then amount else Due(ss[k]))
      && HostelOccupied(u) == HostelOccupied(ss)
      && Passing(u) == Passing(ss)
  {
    var s := WithPayment(ss[k], amount);
    SumByUpdate(ss, k, s, Paid);
    SumByUpdate(ss, k, s, Due);
    SumByUpdate(ss, k, s, OccupiedCount);
    SumByUpdate(ss, k, s, PassingCount);
  }

  /** Allocating a bed fills one more bed unless the student already had one. */
  lemma AllocationEffect(ss: seq<Student>, k: nat, slot: string)
    requires k < |ss| && Occupied(ss[k].(hostel := slot))
    ensures var u := ss[k := ss[k].(hostel := slot)];
      HostelOccupied(u) == HostelOccupied(ss) + (if Occupied(ss[k]) then 0 else 1)
      && FeesCollected(u) == FeesCollected(ss) && Dues(u) == Dues(ss)
  {
    var s := ss[k].(hostel := slot);
    SumByUpdate(ss, k, s, OccupiedCount);
    SumByUpdate(ss, k, s, Paid);
    SumByUpdate(ss, k, s, Due);
  }

  /** A failed upload takes a student with no backlog out of the pass count;
      nothing else on the dashboard moves. */
  lemma MarksEffect(ss: seq<Student>, k: nat, marks: int)
    requires k < |ss|
    ensures var u := ss[k := WithMarks(ss[k], marks)];
      Passing(u) == Passing(ss) - (if ss[k].backlogs == 0 && ClampMarks(marks) < 40 then 1 else 0)
      && FeesCollected(u) == FeesCollected(ss) && Dues(u) == Dues(ss)
      && HostelOccupied(u) == HostelOccupied(ss)
  {
    var s := WithMarks(ss[k], marks);
    SumByUpdate(ss, k, s, PassingCount);
    SumByUpdate(ss, k, s, Paid);
    SumByUpdate(ss, k, s, Due);
    SumByUpdate(ss, k, s, OccupiedCount);
  }

  /** An accepted library entry: the student id names a student, and a
      RETURN has an open borrow. Appending it keeps the log covered and free of
      '|' in student ids, moves its pair's balance by one, and a RETURN takes
      one book off `booksOut`. */
  lemma LibraryEntryEffect(ss: seq<Student>, log: seq<LibraryTxn>, t: LibraryTxn, k: nat)
    requires SequentialIds(ss) && ReturnsCovered(log) && StudentIdsUnpiped(log)
    requires k < |ss| && ss[k].id == Trim(t.studentId)
    requires t.action == Return ==> Balance(log, t.studentId, t.bookId) > 0
    ensures ReturnsCovered(log + [t]) && StudentIdsUnpiped(log + [t])
    ensures Balance(log + [t], t.studentId, t.bookId) == Balance(log, t.studentId, t.bookId) + Delta(t.action) >= 0
    ensures t.action == Return ==> BooksOutSpec(log + [t]) == BooksOutSpec(log) - 1
    ensures t.action == Borrow ==> BooksOutSpec(log + [t]) == BooksOutSpec(log) + 1
  {
    AppendKeepsCovered(log, t);
    StudentIdShape(k + 1);
    TrimKeepsNonWhitespace(t.studentId, '|');
    CoveredBalanceNonNegative(log, t.studentId, t.bookId);
    BalanceAppend(log, t, t.studentId, t.bookId);
    KeyBalanceIsPairBalance(log, t.studentId, t.bookId);
    BooksOutAfterBorrowOrReturn(log, t);
  }

  /** A new admission owes the default fee and holds no bed. */
  lemma AdmissionEffect(ss: seq<Student>, s: Student)
    requires s.totalFee == DefaultTotalFee && s.totalPaid == 0 && s.hostel == Unassigned && s.backlogs == 0
    ensures FeesCollected(ss + [s]) == FeesCollected(ss)
    ensures Dues(ss + [s]) == Dues(ss) + DefaultTotalFee
    ensures HostelOccupied(ss + [s]) == HostelOccupied(ss)
    ensures Passing(ss + [s]) == Passing(ss) + 1
  {
    SumByAppend(ss, s, Paid);
    SumByAppend(ss, s, Due);
    SumByAppend(ss, s, OccupiedCount);
    SumByAppend(ss, s, PassingCount);
  }

  // ---------------------------------------------------------------------------
  // The initial demo data

  const SeedStudents: seq<Student> := [
    Student("STU001", "Anita Sharma", "B.Sc.", "1", "9876543210", "anita@example.com",
            20000, 8000, "-", 0, 0, None),
    Student("STU002", "Ravi Verma", "B.A.", "2", "9898989898", "ravi@example.com",
            18000, 18000, "A/101/2", 78, 1,
            Some(TransportInfo("R1", "Central Gate", "RJ-14-1234", "2026-03-31")))
  ]

  /** Fees, payments, cgpa and backlogs are within their ranges. */
  ghost predicate AmountsInRange(ss: seq<Student>) {
    forall i :: 0 <= i < |ss| ==>
      0 <= ss[i].totalFee && 0 <= ss[i].totalPaid && 0 <= ss[i].cgpaTenths <= 100
  }

  class Campus {
    var students: seq<Student>
    var libTxns: seq<LibraryTxn>
    var passes: seq<TransportPass>

    /** The state invariant: ids sequential (hence unique), amounts in range,
        every RETURN in the log covered by an open borrow, and no '|' in the
        student id of a log entry (so `booksOut`'s joined keys are the pairs). */
    ghost predicate Valid()
      reads this
    {
      SequentialIds(students) && AmountsInRange(students)
      && ReturnsCovered(libTxns) && StudentIdsUnpiped(libTxns)
    }

    /** The demo data the page starts with; `now` and `today` stand for the
        timestamps the page takes from the clock. */
    constructor (now: string, today: string)
      ensures Valid()
      ensures students == SeedStudents
      ensures libTxns == [LibraryTxn("LTX-001", "STU002", "BK1001", Borrow, now)]
      ensures passes == [TransportPass("PASS-001", "STU002", "R1", "Central Gate", "RJ-14-1234", "2026-03-31", today)]
    {
      assert Decimal(1) == "1" && Decimal(2) == "2";
      assert StudentId(1) == "STU001" && StudentId(2) == "STU002";
      var log := [LibraryTxn("LTX-001", "STU002", "BK1001", Borrow, now)];
      assert log[..0] == [];
      students := SeedStudents;
      libTxns := log;
      passes := [TransportPass("PASS-001", "STU002", "R1", "Central Gate", "RJ-14-1234", "2026-03-31", today)];
    }

    /** `addAdmission`: with the admissions edit right and a name that is not
        blank, append one new student under the next id, with the trimmed name,
        the default fee, nothing paid, no bed, cgpa 0 and no backlog. */
    method AddAdmission(role: Role, form: AdmissionForm) returns (status: Status)
      requires Valid()
      modifies this
      ensures Valid()
      ensures status ==
        if !CanEdit(Admissions, role) then Rejected(PermissionDenied)
        else if Trim(form.name) == "" then Rejected(BlankName)
        else Accepted
      ensures status.Rejected? ==> students == old(students)
      ensures status.Accepted? ==> students == old(students) + [Student(
        StudentId(|old(students)| + 1), Trim(form.name), form.program, form.year, form.phone, form.email,
        DefaultTotalFee, 0, Unassigned, 0, 0, None)]
      ensures status.Accepted? ==>
        FeesCollected(students) == old(FeesCollected(students))
        && Dues(students) == old(Dues(students)) + DefaultTotalFee
        && HostelOccupied(students) == old(HostelOccupied(students))
      ensures libTxns == old(libTxns) && passes == old(passes)
    {
      if !CanEdit(Admissions, role) {
        return Rejected(PermissionDenied);
      }
      if Trim(form.name) == "" {
        return Rejected(BlankName);
      }
      var id := NextId(students);
      var s := Student(id, Trim(form.name), form.program, form.year, form.phone, form.email,
                       DefaultTotalFee, 0, Unassigned, 0, 0, None);
      AdmissionKeepsIdsSequential(students, s);
      AdmissionEffect(students, s);
      students := students + [s];
      status := Accepted;
    }

    /** `payFees`: with the fees edit right, a student found by the trimmed id
        and a positive amount, add the amount to that student's payments alone
        and return a receipt for it. */
    method PayFees(role: Role, id: string, amount: int, term: string, receiptNo: string, date: string)
      returns (status: Status, receipt: Option<Receipt>)
      requires Valid()
      modifies this
      ensures Valid()
      ensures status ==
        if !CanEdit(Fees, role) then Rejected(PermissionDenied)
        else if FindStudent(old(students), Trim(id)).None? then Rejected(StudentNotFound)
        else if amount <= 0 then Rejected(InvalidAmount)
        else Accepted
      ensures status.Rejected? ==> students == old(students) && receipt == None
      ensures status.Accepted? ==>
        FindStudent(old(students), Trim(id)).Some? &&
          var k := FindStudent(old(students), Trim(id)).value;
          var s := old(students)[k];
          students == old(students)[k := WithPayment(s, amount)]
          && receipt == Some(Receipt(s.id, s.name, amount, term, receiptNo, date))
          && FeesCollected(students) == old(FeesCollected(students)) + amount
          && Dues(students) == old(Dues(students)) - (if amount < Due(s) then amount else Due(s))
      ensures libTxns == old(libTxns) && passes == old(passes)
    {
      receipt := None;
      if !CanEdit(Fees, role) {
        return Rejected(PermissionDenied), None;
      }
      var found := FindStudent(students, Trim(id));
      if found.None? {
        return Rejected(StudentNotFound), None;
      }
      var k := found.value;
      var st := students[k];
      if amount <= 0 {
        return Rejected(InvalidAmount), None;
      }
      var f := (s: Student) => WithPayment(s, amount);
      var updated := MapMatching(students, st.id, f);
      MatchingIsPointUpdate(students, k, f, updated);
      PaymentEffect(students, k, amount);
      students := updated;
      receipt := Some(Receipt(st.id, st.name, amount, term, receiptNo, date));
      status := Accepted;
    }

    /** `allocateHostel`: with the hostel edit right and a student found by the
        trimmed id, overwrite that student's label with the slot. No bed count
        is checked. */
    method AllocateHostel(role: Role, id: string, hostel: string, room: string, bed: string)
      returns (status: Status)
      requires Valid()
      modifies this
      ensures Valid()
      ensures status ==
        if !CanEdit(Hostel, role) then Rejected(PermissionDenied)
        else if FindStudent(old(students), Trim(id)).None? then Rejected(StudentNotFound)
        else Accepted
      ensures status.Rejected? ==> students == old(students)
      ensures status.Accepted? ==>
        FindStudent(old(students), Trim(id)).Some? &&
          var k := FindStudent(old(students), Trim(id)).value;
          var s := old(students)[k];
          students == old(students)[k := s.(hostel := HostelSlot(hostel, room, bed))]
          && HostelOccupied(students) == old(HostelOccupied(students)) + (if Occupied(s) then 0 else 1)
      ensures libTxns == old(libTxns) && passes == old(passes)
    {
      if !CanEdit(Hostel, role) {
        return Rejected(PermissionDenied);
      }
      var found := FindStudent(students, Trim(id));
      if found.None? {
        return Rejected(StudentNotFound);
      }
      var k := found.value;
      var st := students[k];
      var slot := HostelSlot(hostel, room, bed);
      var f := (s: Student) => s.(hostel := slot);
      var updated := MapMatching(students, st.id, f);
      MatchingIsPointUpdate(students, k, f, updated);
      SlotIsOccupied(st, hostel, room, bed);
      AllocationEffect(students, k, slot);
      students := updated;
      status := Accepted;
    }

    /** `uploadMarks`: with the exams edit right and a student found by the
        trimmed id, clamp the marks to [0, 100], blend them into the cgpa and
        add a backlog exactly when they are below 40. */
    method UploadMarks(role: Role, id: string, marks: int) returns (status: Status)
      requires Valid()
      modifies this
      ensures Valid()
      ensures status ==
        if !CanEdit(Exams, role) then Rejected(PermissionDenied)
        else if FindStudent(old(students), Trim(id)).None? then Rejected(StudentNotFound)
        else Accepted
      ensures status.Rejected? ==> students == old(students)
      ensures status.Accepted? ==>
        FindStudent(old(students), Trim(id)).Some? &&
          var k := FindStudent(old(students), Trim(id)).value;
          var s := old(students)[k];
          students == old(students)[k := WithMarks(s, marks)]
          && students[k].backlogs == s.backlogs + (if ClampMarks(marks) < 40 then 1 else 0)
          && Passing(students) == old(Passing(students)) - (if s.backlogs == 0 && ClampMarks(marks) < 40 then 1 else 0)
      ensures |students| == |old(students)|
      ensures forall i :: 0 <= i < |students| ==> students[i].backlogs >= old(students)[i].backlogs
      ensures libTxns == old(libTxns) && passes == old(passes)
    {
      if !CanEdit(Exams, role) {
        return Rejected(PermissionDenied);
      }
      var found := FindStudent(students, Trim(id));
      if found.None? {
        return Rejected(StudentNotFound);
      }
      var k := found.value;
      var st := students[k];
      var f := (s: Student) => WithMarks(s, marks);
      var updated := MapMatching(students, st.id, f);
      MatchingIsPointUpdate(students, k, f, updated);
      MarksEffect(students, k, marks);
      students := updated;
      status := Accepted;
    }

    /** `submitLibrary`: with the library edit right, both ids not blank and a
        student found by the trimmed student id, append one entry holding the
        ids as typed. A RETURN is refused unless the pair, compared as typed,
        has a positive balance. */
    method SubmitLibrary(role: Role, studentId: string, bookId: string, action: TxnAction,
                         txnId: string, now: string)
      returns (status: Status)
      requires Valid()
      modifies this
      ensures Valid()
      ensures status ==
        if !CanEdit(Library, role) then Rejected(PermissionDenied)
        else if Trim(studentId) == "" || Trim(bookId) == "" then Rejected(MissingIds)
        else if FindStudent(old(students), Trim(studentId)).None? then Rejected(StudentNotFound)
        else if action == Return && Balance(old(libTxns), studentId, bookId) <= 0 then Rejected(NoOpenBorrow)
        else Accepted
      ensures status.Rejected? ==> libTxns == old(libTxns)
      ensures status.Accepted? ==> libTxns == old(libTxns) + [LibraryTxn(txnId, studentId, bookId, action, now)]
      ensures status.Accepted? ==>
        Balance(libTxns, studentId, bookId) == old(Balance(libTxns, studentId, bookId)) + Delta(action) >= 0
      ensures status.Accepted? && action == Return ==> BooksOutSpec(libTxns) == old(BooksOutSpec(libTxns)) - 1
      ensures status.Accepted? && action == Borrow ==> BooksOutSpec(libTxns) == old(BooksOutSpec(libTxns)) + 1
      ensures forall sid, bid :: Balance(libTxns, sid, bid) >= 0
      ensures students == old(students) && passes == old(passes)
    {
      if !CanEdit(Library, role) {
        status := Rejected(PermissionDenied);
      } else if Trim(studentId) == "" || Trim(bookId) == "" {
        status := Rejected(MissingIds);
      } else if FindStudent(students, Trim(studentId)).None? {
        status := Rejected(StudentNotFound);
      } else if action == Return && Balance(libTxns, studentId, bookId) <= 0 {
        status := Rejected(NoOpenBorrow);
      } else {
        var t := LibraryTxn(txnId, studentId, bookId, action, now);
        LibraryEntryEffect(students, libTxns, t, FindStudent(students, Trim(studentId)).value);
        libTxns := libTxns + [t];
        status := Accepted;
      }
      CoveredBalancesNonNegative(libTxns);
    }

    /** `issuePass` as the page has it: with the transport edit right, a
        student id that is not blank and a student found by the trimmed id,
        prepend the pass, then copy its details onto every student whose id
        equals the id AS TYPED. A padded id thus issues a pass that no student
        record reflects. */
    method IssuePass(role: Role, studentId: string, route: string, stop: string, busNo: string,
                     validTill: string, passId: string, today: string)
      returns (status: Status)
      requires Valid()
      modifies this
      ensures Valid()
      ensures status ==
        if !CanEdit(TabKey.Transport, role) then Rejected(PermissionDenied)
        else if Trim(studentId) == "" then Rejected(MissingStudentId)
        else if FindStudent(old(students), Trim(studentId)).None? then Rejected(StudentNotFound)
        else Accepted
      ensures status.Rejected? ==> students == old(students) && passes == old(passes)
      ensures status.Accepted? ==>
        passes == [TransportPass(passId, studentId, route, stop, busNo, validTill, today)] + old(passes)
      ensures status.Accepted? ==>
        forall now: int, instant: string -> Option<int> ::
          ActivePasses(passes, now, instant)
          == ActivePasses(old(passes), now, instant) + (if instant(validTill).Some? && instant(validTill).value >= now then 1 else 0)
      ensures status.Accepted? ==>
        |students| == |old(students)| &&
          forall i :: 0 <= i < |students| ==>
            students[i] == if old(students)[i].id == studentId
                           then old(students)[i].(transport := Some(TransportInfo(route, stop, busNo, validTill)))
                           else old(students)[i]
      ensures status.Accepted? && Trim(studentId) != studentId ==> students == old(students)
      ensures libTxns == old(libTxns)
    {
      if !CanEdit(TabKey.Transport, role) {
        return Rejected(PermissionDenied);
      }
      if Trim(studentId) == "" {
        return Rejected(MissingStudentId);
      }
      var found := FindStudent(students, Trim(studentId));
      if found.None? {
        return Rejected(StudentNotFound);
      }
      var pass := TransportPass(passId, studentId, route, stop, busNo, validTill, today);
      IssuedPassEffect(pass, passes);
      passes := [pass] + passes;
      var info := TransportInfo(route, stop, busNo, validTill);
      var f := (s: Student) => s.(transport := Some(info));
      var updated := MapMatching(students, studentId, f);
      if Trim(studentId) != studentId {
        UntrimmedIdMatchesNoStudent(students, studentId);
        assert updated == students;
      } else {
        MatchingIsPointUpdate(students, found.value, f, updated);
      }
      students := updated;
      status := Accepted;
    }

    /** `issuePass` as evidently intended: the same checks and the same pass,
        with the details copied onto the student the trimmed id found. */
    method IssuePassToFoundStudent(role: Role, studentId: string, route: string, stop: string, busNo: string,
                                   validTill: string, passId: string, today: string)
      returns (status: Status)
      requires Valid()
      modifies this
      ensures Valid()
      ensures status ==
        if !CanEdit(TabKey.Transport, role) then Rejected(PermissionDenied)
        else if Trim(studentId) == "" then Rejected(MissingStudentId)
        else if FindStudent(old(students), Trim(studentId)).None? then Rejected(StudentNotFound)
        else Accepted
      ensures status.Rejected? ==> students == old(students) && passes == old(passes)
      ensures status.Accepted? ==>
        passes == [TransportPass(passId, studentId, route, stop, busNo, validTill, today)] + old(passes)
      ensures status.Accepted? ==>
        forall now: int, instant: string -> Option<int> ::
          ActivePasses(passes, now, instant)
          == ActivePasses(old(passes), now, instant) + (if instant(validTill).Some? && instant(validTill).value >= now then 1 else 0)
      ensures status.Accepted? ==>
        FindStudent(old(students), Trim(studentId)).Some? &&
          var k := FindStudent(old(students), Trim(studentId)).value;
          students == old(students)[k := old(students)[k].(transport := Some(TransportInfo(route, stop, busNo, validTill)))]
          && students[k].id == Trim(studentId)
          && students[k].transport == Some(TransportInfo(passes[0].route, passes[0].stop, passes[0].busNo, passes[0].validTill))
      ensures libTxns == old(libTxns)
    {
      if !CanEdit(TabKey.Transport, role) {
        return Rejected(PermissionDenied);
      }
      if Trim(studentId) == "" {
        return Rejected(MissingStudentId);
      }
      var found := FindStudent(students, Trim(studentId));
      if found.None? {
        return Rejected(StudentNotFound);
      }
      var k := found.value;
      var st := students[k];
      var pass := TransportPass(passId, studentId, route, stop, busNo, validTill, today);
      IssuedPassEffect(pass, passes);
      passes := [pass] + passes;
      var info := TransportInfo(route, stop, busNo, validTill);
      var f := (s: Student) => s.(transport := Some(info));
      var updated := MapMatching(students, st.id, f);
      MatchingIsPointUpdate(students, k, f, updated);
      students := updated;
      status := Accepted;
    }
  }
}
