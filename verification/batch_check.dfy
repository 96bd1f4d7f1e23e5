/** `validateTasksData`: all rows of one upload, checked against one shared
    seen-set of phone numbers, accepted all together or not at all. */
module BatchCheck {
  import opened Text
  import opened RowCheck

  /** A rejected row: its 1-based row number in the file (the header is
      row 1), the row as parsed, and its errors. */
  datatype FailedRecord = FailedRecord(rowNumber: nat, data: Row, errors: seq<RowError>)

  /** The batch `warnings` list only collects row warnings, which are always
      empty, so it is not carried. */
  datatype BatchVerdict = BatchVerdict(
    isValid: bool,
    errors: seq<BatchError>,
    validTasks: seq<Sanitized>,
    failedRecords: seq<FailedRecord>)

  datatype BatchError = NoTasksFound | SomeRecordsFailed

  function BatchErrorMessage(e: BatchError): string {
    match e
    case NoTasksFound => "No tasks found in file"
    case SomeRecordsFailed => "Some records failed validation"
  }

  /** The phones, whitespace removed, of the rows before row `i` that have
      one: the seen-set as row `i` finds it. */
  function PhonesBefore(rows: seq<Row>, i: nat): set<string>
    requires i <= |rows|
  {
    set j | 0 <= j < i && HasField(rows[j], "Phone") :: StripSpaces(rows[j]["Phone"])
  }

  /** The verdict on row `i` within its batch. */
  function VerdictAt(rows: seq<Row>, i: nat): RowVerdict
    requires i < |rows|
  {
    ValidateRow(rows[i], PhonesBefore(rows, i)).0
  }

  /** The verdicts on the first `n` rows, each against the phones before it. */
  function Verdicts(rows: seq<Row>, n: nat): (vs: seq<RowVerdict>)
    requires n <= |rows|
    ensures |vs| == n
  {
    if n == 0 then [] else Verdicts(rows, n - 1) + [VerdictAt(rows, n - 1)]
  }

  lemma {:induction false} VerdictsAt(rows: seq<Row>, n: nat, i: nat)
    requires i < n <= |rows|
    ensures Verdicts(rows, n)[i] == VerdictAt(rows, i)
  {
    var before, last := Verdicts(rows, n - 1), VerdictAt(rows, n - 1);
    assert Verdicts(rows, n) == before + [last];
    if i < n - 1 {
      VerdictsAt(rows, n - 1, i);
      assert (before + [last])[i] == before[i];
    } else {
      assert (before + [last])[i] == last;
    }
  }

  /** The accepted rows among the first `n` verdicts, sanitized, in file order. */
  function ValidPrefix(vs: seq<RowVerdict>, n: nat): seq<Sanitized>
    requires n <= |vs|
  {
    if n == 0 then []
    else ValidPrefix(vs, n - 1) + (if vs[n - 1].isValid then [vs[n - 1].sanitized] else [])
  }

  /** The rejected rows among the first `n`, in file order; row index `i`
      is reported as row number `i + 2`. */
  function FailedPrefix(rows: seq<Row>, vs: seq<RowVerdict>, n: nat): seq<FailedRecord>
    requires n <= |rows| == |vs|
  {
    if n == 0 then []
    else
      FailedPrefix(rows, vs, n - 1)
      + (if vs[n - 1].isValid then [] else [FailedRecord(n + 1, rows[n - 1], vs[n - 1].errors)])
  }

  /** Adding row `i`'s phone to the phones before it gives the phones
      before row `i + 1`. */
  lemma PhonesBeforeStep(rows: seq<Row>, i: nat)
    requires i < |rows|
    ensures PhonesBefore(rows, i + 1) ==
      if HasField(rows[i], "Phone") then PhonesBefore(rows, i) + {StripSpaces(rows[i]["Phone"])} else PhonesBefore(rows, i)
  {
    var before, after := PhonesBefore(rows, i), PhonesBefore(rows, i + 1);
    if HasField(rows[i], "Phone") {
      assert StripSpaces(rows[i]["Phone"]) in after;
      assert after == before + {StripSpaces(rows[i]["Phone"])};
    } else {
      assert after == before;
    }
  }

  /** One step of the loop: validating row `i` against the phones before it
      gives row `i`'s verdict and the phones before row `i + 1`. */
  lemma RowStep(rows: seq<Row>, i: nat, seen: set<string>)
    requires i < |rows|
    requires seen == PhonesBefore(rows, i)
    ensures ValidateRow(rows[i], seen).0 == Verdicts(rows, |rows|)[i]
    ensures ValidateRow(rows[i], seen).1 == PhonesBefore(rows, i + 1)
  {
    PhonesBeforeStep(rows, i);
    SeenAfterSpec(rows[i], seen);
    VerdictsAt(rows, |rows|, i);
  }

  lemma PrefixStep(rows: seq<Row>, vs: seq<RowVerdict>, i: nat)
    requires i < |rows| == |vs|
    ensures ValidPrefix(vs, i + 1) == ValidPrefix(vs, i) + if vs[i].isValid then [vs[i].sanitized] else []
    ensures FailedPrefix(rows, vs, i + 1) ==
      FailedPrefix(rows, vs, i) + if vs[i].isValid then [] else [FailedRecord(i + 2, rows[i], vs[i].errors)]
  {
  }

  /** `validateTaskData(tasks[i], existingPhoneNumbers)` inside the loop:
      row `i`'s verdict, and the seen-set as row `i + 1` finds it. */
  method CheckRow(rows: seq<Row>, i: nat, seen: set<string>) returns (verdict: RowVerdict, seen': set<string>)
    requires i < |rows| && seen == PhonesBefore(rows, i)
    ensures verdict == Verdicts(rows, |rows|)[i]
    ensures seen' == PhonesBefore(rows, i + 1)
  {
    var out := ValidateRow(rows[i], seen);
    RowStep(rows, i, seen);
    verdict, seen' := out.0, out.1;
  }

  /** The loop of `validateTasksData`: every row is checked in file order
      against one seen-set that collects the phones of all rows so far. */
  method ScanRows(rows: seq<Row>) returns (valid: seq<Sanitized>, failed: seq<FailedRecord>)
    ensures valid == ValidPrefix(Verdicts(rows, |rows|), |rows|)
    ensures failed == FailedPrefix(rows, Verdicts(rows, |rows|), |rows|)
  {
    ghost var vs := Verdicts(rows, |rows|);
    var seen: set<string> := {};
    valid := [];
    failed := [];
    var i := 0;
    while i < |rows|
      invariant 0 <= i <= |rows|
      invariant seen == PhonesBefore(rows, i)
      invariant valid == ValidPrefix(vs, i)
      invariant failed == FailedPrefix(rows, vs, i)
    {
      var verdict, seen' := CheckRow(rows, i, seen);
      PrefixStep(rows, vs, i);
      if verdict.isValid {
        valid := valid + [verdict.sanitized];
      } else {
        failed := failed + [FailedRecord(i + 2, rows[i], verdict.errors)];
      }
      seen := seen';
      i := i + 1;
    }
  }

  /** `validateTasksData(tasks)`: no rows is an error of its own; otherwise
      the batch is usable only when no row failed. */
  method ValidateBatch(rows: seq<Row>) returns (r: BatchVerdict)
    ensures |rows| == 0 ==> r == BatchVerdict(false, [NoTasksFound], [], [])
    ensures |rows| > 0 ==> r.validTasks == ValidPrefix(Verdicts(rows, |rows|), |rows|)
    ensures |rows| > 0 ==> r.failedRecords == FailedPrefix(rows, Verdicts(rows, |rows|), |rows|)
    ensures |rows| > 0 ==> r.errors == if r.failedRecords == [] then [] else [SomeRecordsFailed]
    ensures r.isValid <==> |rows| > 0 && r.failedRecords == []
  {
    if |rows| == 0 {
      return BatchVerdict(false, [NoTasksFound], [], []);
    }
    var valid, failed := ScanRows(rows);
    r := BatchVerdict(failed == [], if failed == [] then [] else [SomeRecordsFailed], valid, failed);
  }

  /** Every row lands in exactly one of the two lists. */
  lemma {:induction false} EveryRowAccountedFor(rows: seq<Row>, vs: seq<RowVerdict>, n: nat)
    requires n <= |rows| == |vs|
    ensures |ValidPrefix(vs, n)| + |FailedPrefix(rows, vs, n)| == n
  {
    if n > 0 {
      EveryRowAccountedFor(rows, vs, n - 1);
      PrefixStep(rows, vs, n - 1);
    }
  }

  /** What a failed record says: a row number between 2 and `n + 1`, the row
      it names, that row's errors, and that the row did fail. */
  lemma {:induction false} FailedRecordsDescribeTheirRows(rows: seq<Row>, vs: seq<RowVerdict>, n: nat)
    requires n <= |rows| == |vs|
    ensures var f := FailedPrefix(rows, vs, n);
      forall k :: 0 <= k < |f| ==>
        && 2 <= f[k].rowNumber <= n + 1
        && f[k].data == rows[f[k].rowNumber - 2]
        && !vs[f[k].rowNumber - 2].isValid
        && f[k].errors == vs[f[k].rowNumber - 2].errors
  {
    if n > 0 {
      FailedRecordsDescribeTheirRows(rows, vs, n - 1);
      PrefixStep(rows, vs, n - 1);
      var f, f' := FailedPrefix(rows, vs, n), FailedPrefix(rows, vs, n - 1);
      forall k | 0 <= k < |f|
        ensures 2 <= f[k].rowNumber <= n + 1
        ensures f[k].data == rows[f[k].rowNumber - 2]
        ensures !vs[f[k].rowNumber - 2].isValid
        ensures f[k].errors == vs[f[k].rowNumber - 2].errors
      {
        if k < |f'| {
          assert f[k] == f'[k];
        } else {
          assert f[k] == FailedRecord(n + 1, rows[n - 1], vs[n - 1].errors);
        }
      }
    }
  }

  /** Failed records come in file order: row numbers strictly increase. */
  lemma {:induction false} FailedRecordsInFileOrder(rows: seq<Row>, vs: seq<RowVerdict>, n: nat)
    requires n <= |rows| == |vs|
    ensures var f := FailedPrefix(rows, vs, n);
      forall k, l :: 0 <= k < l < |f| ==> f[k].rowNumber < f[l].rowNumber
  {
    if n > 0 {
      FailedRecordsInFileOrder(rows, vs, n - 1);
      FailedRecordsDescribeTheirRows(rows, vs, n - 1);
      PrefixStep(rows, vs, n - 1);
      var f, f' := FailedPrefix(rows, vs, n), FailedPrefix(rows, vs, n - 1);
      forall k, l | 0 <= k < l < |f|
        ensures f[k].rowNumber < f[l].rowNumber
      {
        assert f[k] == f'[k];
        if l < |f'| {
          assert f[l] == f'[l];
        } else {
          assert f[l].rowNumber == n + 1;
        }
      }
    }
  }

  /** The reported row numbers are exactly the failed rows' indexes plus 2. */
  lemma {:induction false} FailedRowNumbers(rows: seq<Row>, vs: seq<RowVerdict>, n: nat)
    requires n <= |rows| == |vs|
    ensures var f := FailedPrefix(rows, vs, n);
      (set k | 0 <= k < |f| :: f[k].rowNumber) == (set i | 0 <= i < n && !vs[i].isValid :: i + 2)
  {
    if n > 0 {
      FailedRowNumbers(rows, vs, n - 1);
      PrefixStep(rows, vs, n - 1);
      var f, f' := FailedPrefix(rows, vs, n), FailedPrefix(rows, vs, n - 1);
      var lhs, lhs' := (set k | 0 <= k < |f| :: f[k].rowNumber), (set k | 0 <= k < |f'| :: f'[k].rowNumber);
      var rhs, rhs' := (set i | 0 <= i < n && !vs[i].isValid :: i + 2), (set i | 0 <= i < n - 1 && !vs[i].isValid :: i + 2);
      if vs[n - 1].isValid {
        assert f == f';
        assert rhs == rhs';
      } else {
        assert |f| == |f'| + 1;
        assert f[|f'|].rowNumber == n + 1;
        forall x | x in lhs
          ensures x in lhs' + {n + 1}
        {
          var k :| 0 <= k < |f| && f[k].rowNumber == x;
          if k < |f'| {
            assert f[k] == f'[k];
          }
        }
        forall x | x in lhs' + {n + 1}
          ensures x in lhs
        {
          if x in lhs' {
            var k :| 0 <= k < |f'| && f'[k].rowNumber == x;
            assert f[k] == f'[k];
          } else {
            assert f[|f'|].rowNumber == x;
          }
        }
        assert lhs == lhs' + {n + 1};
        assert rhs == rhs' + {n + 1};
      }
    }
  }

  /** No failed record exactly when every verdict is a pass. */
  lemma {:induction false} NoFailuresIffAllRowsValid(rows: seq<Row>, vs: seq<RowVerdict>, n: nat)
    requires n <= |rows| == |vs|
    ensures FailedPrefix(rows, vs, n) == [] <==> forall i :: 0 <= i < n ==> vs[i].isValid
  {
    if n > 0 {
      NoFailuresIffAllRowsValid(rows, vs, n - 1);
      PrefixStep(rows, vs, n - 1);
    }
  }

  /** When every row passed, the valid list is every row, sanitized, in
      file order. */
  lemma {:induction false} AllValidKeepsEveryRow(vs: seq<RowVerdict>, n: nat)
    requires n <= |vs|
    requires forall i :: 0 <= i < n ==> vs[i].isValid
    ensures |ValidPrefix(vs, n)| == n
    ensures forall i :: 0 <= i < n ==> ValidPrefix(vs, n)[i] == vs[i].sanitized
  {
    if n > 0 {
      AllValidKeepsEveryRow(vs, n - 1);
    }
  }

  /** All or nothing: a verdict built from the row verdicts `vs` as
      `ValidateBatch` builds it is usable exactly when there are rows and
      every one passed, and then its tasks are all the rows, sanitized, in
      file order. */
  lemma BatchValidIffEveryRowValid(rows: seq<Row>, vs: seq<RowVerdict>, r: BatchVerdict)
    requires |vs| == |rows|
    requires |rows| > 0 ==> r.validTasks == ValidPrefix(vs, |rows|)
    requires |rows| > 0 ==> r.failedRecords == FailedPrefix(rows, vs, |rows|)
    requires r.isValid <==> |rows| > 0 && r.failedRecords == []
    ensures r.isValid <==> |rows| > 0 && forall i :: 0 <= i < |rows| ==> vs[i].isValid
    ensures r.isValid ==> |r.validTasks| == |rows|
    ensures r.isValid ==> forall i :: 0 <= i < |rows| ==> r.validTasks[i] == vs[i].sanitized
  {
    NoFailuresIffAllRowsValid(rows, vs, |rows|);
    if r.isValid {
      AllValidKeepsEveryRow(vs, |rows|);
    }
  }

  /** One seen-set for the whole batch: a row gets the duplicate error
      exactly when an earlier row has the same phone once whitespace is
      removed, so the first occurrence passes and every later one fails. */
  lemma DuplicateIffEarlierOccurrence(rows: seq<Row>, i: nat)
    requires i < |rows|
    ensures DuplicatePhone in VerdictAt(rows, i).errors <==>
      && HasField(rows[i], "Phone")
      && exists j :: 0 <= j < i && HasField(rows[j], "Phone") && StripSpaces(rows[j]["Phone"]) == StripSpaces(rows[i]["Phone"])
  {
    RowErrorsFlagEachRule(rows[i], PhonesBefore(rows, i));
  }
}
