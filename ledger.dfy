/** The library log as the sole source of loan state: the net open-borrow
    balance of a (student, book) pair, the rule that a RETURN needs an open
    borrow, and the dashboard's count of books out. */
module Ledger {
  import opened Records

  /** +1 for a BORROW, -1 for a RETURN. */
  function Delta(a: TxnAction): int {
    if a == Borrow then 1 else -1
  }

  /** The positive part of a balance. */
  function Pos(v: int): nat {
    if v > 0 then v else 0
  }

  /** The net balance of the pair (sid, bid), folding the log in append order
      and comparing both ids exactly as stored. */
  function Balance(log: seq<LibraryTxn>, sid: string, bid: string): int {
    if log == [] then 0
    else
      var t := log[|log| - 1];
      Balance(log[..|log| - 1], sid, bid) + (if t.studentId == sid && t.bookId == bid then Delta(t.action) else 0)
  }

  /** Every RETURN in the log found an open borrow of its pair among the
      entries before it: the condition under which the app appends one. */
  ghost predicate ReturnsCovered(log: seq<LibraryTxn>) {
    log == [] ||
      var t := log[|log| - 1];
      ReturnsCovered(log[..|log| - 1])
      && (t.action == Return ==> Balance(log[..|log| - 1], t.studentId, t.bookId) > 0)
  }

  /** Appending one entry changes only its own pair's balance, by its delta. */
  lemma BalanceAppend(log: seq<LibraryTxn>, t: LibraryTxn, sid: string, bid: string)
    ensures Balance(log + [t], sid, bid)
         == Balance(log, sid, bid) + (if t.studentId == sid && t.bookId == bid then Delta(t.action) else 0)
  {
    assert (log + [t])[..|log|] == log;
  }

  /** A covered log may be extended by `t` keeping every RETURN covered
      exactly when `t` is a BORROW or its pair has a positive balance. */
  lemma AppendKeepsCovered(log: seq<LibraryTxn>, t: LibraryTxn)
    requires ReturnsCovered(log)
    ensures ReturnsCovered(log + [t]) <==> (t.action == Return ==> Balance(log, t.studentId, t.bookId) > 0)
  {
    assert (log + [t])[..|log|] == log;
  }

  /** The quantified reading: every RETURN in a covered log, at its own
      position, met a positive balance of its pair. */
  lemma {:induction false} CoveredAt(log: seq<LibraryTxn>, i: nat)
    requires ReturnsCovered(log)
    requires i < |log| && log[i].action == Return
    ensures Balance(log[..i], log[i].studentId, log[i].bookId) > 0
    decreases |log|
  {
    var n := |log| - 1;
    if i < n {
      assert log[..n][..i] == log[..i] && log[..n][i] == log[i];
      CoveredAt(log[..n], i);
    }
  }

  /** A prefix of a covered log is covered. */
  lemma {:induction false} CoveredPrefix(log: seq<LibraryTxn>, k: nat)
    requires k <= |log|
    requires ReturnsCovered(log)
    ensures ReturnsCovered(log[..k])
    decreases |log|
  {
    if k < |log| {
      var n := |log| - 1;
      assert log[..n][..k] == log[..k];
      CoveredPrefix(log[..n], k);
    } else {
      assert log[..k] == log;
    }
  }

  /** In a covered log no pair's balance is negative. */
  lemma {:induction false} CoveredBalanceNonNegative(log: seq<LibraryTxn>, sid: string, bid: string)
    requires ReturnsCovered(log)
    ensures Balance(log, sid, bid) >= 0
    decreases |log|
  {
    if log != [] {
      var n := |log| - 1;
      var t := log[n];
      CoveredPrefix(log, n);
      CoveredBalanceNonNegative(log[..n], sid, bid);
      assert log[..n] + [t] == log;
      BalanceAppend(log[..n], t, sid, bid);
    }
  }

  /** In a covered log no pair has a negative balance. */
  lemma CoveredBalancesNonNegative(log: seq<LibraryTxn>)
    requires ReturnsCovered(log)
    ensures forall sid, bid :: Balance(log, sid, bid) >= 0
  {
    forall sid, bid
      ensures Balance(log, sid, bid) >= 0
    {
      CoveredBalanceNonNegative(log, sid, bid);
    }
  }

  /** The running balance of every pair, read at every point of a covered log,
      is non-negative. */
  lemma RunningBalanceNonNegative(log: seq<LibraryTxn>, k: nat, sid: string, bid: string)
    requires k <= |log|
    requires ReturnsCovered(log)
    ensures Balance(log[..k], sid, bid) >= 0
  {
    CoveredPrefix(log, k);
    CoveredBalanceNonNegative(log[..k], sid, bid);
  }

  /** Starting from non-negative balances, appending a BORROW, or a RETURN
      whose pair has a positive balance, keeps every balance non-negative. */
  lemma AcceptedAppendKeepsBalances(log: seq<LibraryTxn>, t: LibraryTxn)
    requires forall sid, bid :: Balance(log, sid, bid) >= 0
    requires t.action == Return ==> Balance(log, t.studentId, t.bookId) > 0
    ensures forall sid, bid :: Balance(log + [t], sid, bid) >= 0
  {
    forall sid, bid
      ensures Balance(log + [t], sid, bid) >= 0
    {
      BalanceAppend(log, t, sid, bid);
    }
  }

  // ---------------------------------------------------------------------------
  // booksOut: the dashboard folds the log into a map keyed by the joined string
  // `${studentId}|${bookId}` and adds up the positive part of every value.

  /** The map key of a pair. */
  function Key(sid: string, bid: string): string {
    sid + "|" + bid
  }

  function TxnKey(t: LibraryTxn): string {
    Key(t.studentId, t.bookId)
  }

  /** The net balance stored under a map key. */
  function KeyBalance(log: seq<LibraryTxn>, key: string): int {
    if log == [] then 0
    else
      var t := log[|log| - 1];
      KeyBalance(log[..|log| - 1], key) + (if TxnKey(t) == key then Delta(t.action) else 0)
  }

  predicate NoDuplicates(s: seq<string>) {
    forall i, j :: 0 <= i < j < |s| ==> s[i] != s[j]
  }

  /** The map's keys in insertion order: each key where it first occurs. */
  function DistinctKeys(log: seq<LibraryTxn>): (keys: seq<string>)
    ensures NoDuplicates(keys)
    ensures forall i :: 0 <= i < |log| ==> TxnKey(log[i]) in keys
  {
    if log == [] then []
    else
      var keys := DistinctKeys(log[..|log| - 1]);
      var k := TxnKey(log[|log| - 1]);
      assert forall i :: 0 <= i < |log| - 1 ==> log[i] == log[..|log| - 1][i];
      if k in keys then keys else keys + [k]
  }

  /** Every key in the insertion order is the key of some entry. */
  lemma {:induction false} DistinctKeysFromEntries(log: seq<LibraryTxn>)
    ensures forall k :: k in DistinctKeys(log) ==> exists i :: 0 <= i < |log| && TxnKey(log[i]) == k
    decreases |log|
  {
    if log != [] {
      var n := |log| - 1;
      DistinctKeysFromEntries(log[..n]);
      forall k | k in DistinctKeys(log)
        ensures exists i :: 0 <= i < |log| && TxnKey(log[i]) == k
      {
        if k in DistinctKeys(log[..n]) {
          var i :| 0 <= i < n && TxnKey(log[..n][i]) == k;
          assert TxnKey(log[i]) == k;
        } else {
          assert TxnKey(log[n]) == k;
        }
      }
    }
  }

  /** The sum of the positive balances of the given keys. */
  function SumPositive(keys: seq<string>, log: seq<LibraryTxn>): int {
    if keys == [] then 0
    else SumPositive(keys[..|keys| - 1], log) + Pos(KeyBalance(log, keys[|keys| - 1]))
  }

  /** `booksOut` as defined: over the distinct keys of the log, the sum of
      the positive part of each key's net balance. */
  function BooksOutSpec(log: seq<LibraryTxn>): int {
    SumPositive(DistinctKeys(log), log)
  }

  lemma KeyBalanceAppend(log: seq<LibraryTxn>, t: LibraryTxn, key: string)
    ensures KeyBalance(log + [t], key) == KeyBalance(log, key) + (if TxnKey(t) == key then Delta(t.action) else 0)
  {
    assert (log + [t])[..|log|] == log;
  }

  /** A key that never occurs in the log has balance 0 (the `|| 0` default). */
  lemma {:induction false} AbsentKeyBalance(log: seq<LibraryTxn>, key: string)
    requires key !in DistinctKeys(log)
    ensures KeyBalance(log, key) == 0
    decreases |log|
  {
    if log != [] {
      var n := |log| - 1;
      assert key !in DistinctKeys(log[..n]);
      assert TxnKey(log[n]) != key;
      AbsentKeyBalance(log[..n], key);
    }
  }

  /** The dashboard's `forEach`: fold the log into a map from key to net
      balance, kept with its insertion order as a JavaScript `Map` is. */
  method TallyOpenBorrows(log: seq<LibraryTxn>) returns (openBorrows: map<string, int>, order: seq<string>)
    ensures order == DistinctKeys(log)
    ensures forall k :: k in openBorrows <==> k in order
    ensures forall k :: k in openBorrows ==> openBorrows[k] == KeyBalance(log, k)
    ensures forall k :: k in openBorrows ==> exists i :: 0 <= i < |log| && TxnKey(log[i]) == k
  {
    openBorrows := map[];
    order := [];
    var i := 0;
    while i < |log|
      invariant 0 <= i <= |log|
      invariant order == DistinctKeys(log[..i])
      invariant forall k :: k in openBorrows <==> k in order
      invariant forall k :: k in openBorrows ==> openBorrows[k] == KeyBalance(log[..i], k)
    {
      var t := log[i];
      var k := Key(t.studentId, t.bookId);
      if k !in openBorrows {
        AbsentKeyBalance(log[..i], k);
        order := order + [k];
      }
      var prev := if k in openBorrows then openBorrows[k] else 0;
      openBorrows := openBorrows[k := prev + Delta(t.action)];
      assert log[..i + 1] == log[..i] + [t];
      forall key | key in openBorrows
        ensures openBorrows[key] == KeyBalance(log[..i + 1], key)
      {
        KeyBalanceAppend(log[..i], t, key);
      }
      i := i + 1;
    }
    assert log[..i] == log;
    DistinctKeysFromEntries(log);
  }

  /** `booksOut`: the tally's values, in insertion order, with the positive
      ones added up. */
  method BooksOut(log: seq<LibraryTxn>) returns (booksOut: int)
    ensures booksOut == BooksOutSpec(log)
  {
    var openBorrows, order := TallyOpenBorrows(log);
    booksOut := 0;
    var j := 0;
    while j < |order|
      invariant 0 <= j <= |order|
      invariant booksOut == SumPositive(order[..j], log)
    {
      var v := openBorrows[order[j]];
      booksOut := booksOut + (if v > 0 then v else 0);
      assert order[..j + 1][..j] == order[..j];
      j := j + 1;
    }
    assert order[..j] == order;
  }

  /** `booksOut` is never negative. */
  lemma {:induction false} SumPositiveNonNegative(keys: seq<string>, log: seq<LibraryTxn>)
    ensures SumPositive(keys, log) >= 0
    decreases |keys|
  {
    if keys != [] {
      SumPositiveNonNegative(keys[..|keys| - 1], log);
    }
  }

  lemma BooksOutNonNegative(log: seq<LibraryTxn>)
    ensures BooksOutSpec(log) >= 0
  {
    SumPositiveNonNegative(DistinctKeys(log), log);
  }

  /** Appending `t` leaves the sum over keys other than its own unchanged. */
  lemma {:induction false} SumPositiveOtherKeys(keys: seq<string>, log: seq<LibraryTxn>, t: LibraryTxn)
    requires TxnKey(t) !in keys
    ensures SumPositive(keys, log + [t]) == SumPositive(keys, log)
    decreases |keys|
  {
    if keys != [] {
      var n := |keys| - 1;
      assert TxnKey(t) !in keys[..n];
      SumPositiveOtherKeys(keys[..n], log, t);
      KeyBalanceAppend(log, t, keys[n]);
    }
  }

  /** Appending `t` changes the sum over a duplicate-free key list holding
      its key by the change in that key's positive part alone. */
  lemma {:induction false} SumPositiveOwnKey(keys: seq<string>, log: seq<LibraryTxn>, t: LibraryTxn)
    requires NoDuplicates(keys)
    requires TxnKey(t) in keys
    ensures var b := KeyBalance(log, TxnKey(t));
            SumPositive(keys, log + [t]) == SumPositive(keys, log) - Pos(b) + Pos(b + Delta(t.action))
    decreases |keys|
  {
    var n := |keys| - 1;
    var k := TxnKey(t);
    KeyBalanceAppend(log, t, keys[n]);
    if keys[n] == k {
      assert k !in keys[..n];
      SumPositiveOtherKeys(keys[..n], log, t);
    } else {
      assert k in keys[..n];
      SumPositiveOwnKey(keys[..n], log, t);
    }
  }

  /** How one appended entry moves `booksOut`: by the change in the positive
      part of its own key's balance. */
  lemma BooksOutAppend(log: seq<LibraryTxn>, t: LibraryTxn)
    ensures var b := KeyBalance(log, TxnKey(t));
            BooksOutSpec(log + [t]) == BooksOutSpec(log) - Pos(b) + Pos(b + Delta(t.action))
  {
    var l := log + [t];
    var k := TxnKey(t);
    assert l[..|l| - 1] == log;
    var keys := DistinctKeys(log);
    if k in keys {
      SumPositiveOwnKey(keys, log, t);
    } else {
      AbsentKeyBalance(log, k);
      SumPositiveOtherKeys(keys, log, t);
      var keys' := keys + [k];
      assert keys'[..|keys'| - 1] == keys;
      KeyBalanceAppend(log, t, k);
    }
  }

  /** A BORROW adds one book out exactly when its key's balance was not
      negative; a RETURN of a pair with an open borrow takes one away. */
  lemma BooksOutAfterBorrowOrReturn(log: seq<LibraryTxn>, t: LibraryTxn)
    ensures t.action == Borrow ==>
      BooksOutSpec(log + [t]) == BooksOutSpec(log) + (if KeyBalance(log, TxnKey(t)) >= 0 then 1 else 0)
    ensures t.action == Return && KeyBalance(log, TxnKey(t)) > 0 ==>
      BooksOutSpec(log + [t]) == BooksOutSpec(log) - 1
  {
    BooksOutAppend(log, t);
  }

  /** A BORROW immediately followed by a RETURN of the same pair leaves
      `booksOut` where it was. */
  lemma BorrowThenReturnNeutral(log: seq<LibraryTxn>, b: LibraryTxn, r: LibraryTxn)
    requires b.action == Borrow && r.action == Return
    requires b.studentId == r.studentId && b.bookId == r.bookId
    ensures BooksOutSpec(log + [b] + [r]) == BooksOutSpec(log)
    ensures KeyBalance(log + [b] + [r], TxnKey(r)) == KeyBalance(log, TxnKey(r))
  {
    BooksOutAppend(log, b);
    BooksOutAppend(log + [b], r);
    KeyBalanceAppend(log, b, TxnKey(b));
    KeyBalanceAppend(log + [b], r, TxnKey(r));
  }

  // ---------------------------------------------------------------------------
  // The joined key and the pair agree while no student id holds a '|'.

  /** Joining with '|' loses nothing when the student ids contain no '|'. */
  lemma KeyInjective(s1: string, b1: string, s2: string, b2: string)
    requires '|' !in s1 && '|' !in s2
    ensures Key(s1, b1) == Key(s2, b2) <==> s1 == s2 && b1 == b2
  {
    if Key(s1, b1) == Key(s2, b2) {
      var k1, k2 := Key(s1, b1), Key(s2, b2);
      assert k1[|s1|] == '|' && k2[|s2|] == '|';
      assert |s1| == |s2|;
      assert s1 == k1[..|s1|] && s2 == k2[..|s2|];
      assert b1 == k1[|s1| + 1..] && b2 == k2[|s2| + 1..];
    }
  }

  /** No student id in the log contains '|'. */
  ghost predicate StudentIdsUnpiped(log: seq<LibraryTxn>) {
    forall i :: 0 <= i < |log| ==> '|' !in log[i].studentId
  }

  /** The balance under the joined key is the pair's balance. */
  lemma {:induction false} KeyBalanceIsPairBalance(log: seq<LibraryTxn>, sid: string, bid: string)
    requires '|' !in sid
    requires StudentIdsUnpiped(log)
    ensures KeyBalance(log, Key(sid, bid)) == Balance(log, sid, bid)
    decreases |log|
  {
    if log != [] {
      var n := |log| - 1;
      var t := log[n];
      assert forall i :: 0 <= i < n ==> log[..n][i] == log[i];
      KeyBalanceIsPairBalance(log[..n], sid, bid);
      KeyInjective(t.studentId, t.bookId, sid, bid);
    }
  }
}
