/** internal/findings/rsconstraint.go: telling whether a VALIDATE runs in the transaction
    that added its constraint NOT VALID, and whether a CHECK conflicts with the profiled data,
    over a whole migration. */
module Epochs {
  import opened Text
  import opened Wrappers

  /** What the parsers make of a statement: its file, its text in upper case, the NOT
      VALID constraint it adds with its table, the comparison of a CHECK it adds with what the
      fixture knows of the compared column, and the constraint it validates. */
  datatype Statement =
    Statement(file: string, upper: string, adds: Option<Add>, check: Option<Comparison>, validates: Option<string>)

  datatype Add = Add(name: string, table: string)

  datatype Operator = Greater | AtLeast | Less | AtMost

  /** A recorded range: the ends that are numbers, and whether they come from a sample. */
  datatype Range = Range(lo: Option<real>, hi: Option<real>, sampled: bool)

  /** A comparison of a column with a number, and the column's range if it has one. */
  datatype Comparison = Comparison(table: string, op: Operator, k: real, range: Option<Range>)

  predicate HasPrefix(s: string, p: string) {
    p <= s
  }

  predicate IsTxEnd(upper: string) {
    HasPrefix(upper, "COMMIT") || HasPrefix(upper, "ROLLBACK") || HasPrefix(upper, "END")
  }

  /** The statements that end a transaction begin with one of three words. */
  lemma TxEndWords(s: string, rest: string)
    ensures IsTxEnd("COMMIT" + rest) && IsTxEnd("ROLLBACK" + rest) && IsTxEnd("END" + rest)
    ensures IsTxEnd(s) ==> s != "" && (s[0] == 'C' || s[0] == 'R' || s[0] == 'E')
  {
    assert "COMMIT"[0] == 'C' && "ROLLBACK"[0] == 'R' && "END"[0] == 'E';
  }

  type Statements = seq<Statement>

  // ----- the transaction of two statements -----

  /** Statement k stands in another file than the one before it, which is named. */
  predicate LeavesFile(ss: Statements, k: nat)
    requires k < |ss|
  {
    k > 0 && ss[k - 1].file != "" && ss[k].file != ss[k - 1].file
  }

  /** No transaction ends between j and i, by a statement or by the end of a file. */
  ghost predicate SameTx(ss: Statements, j: nat, i: nat)
    requires i < |ss|
  {
    && j <= i
    && (forall k :: j <= k < i ==> !IsTxEnd(ss[k].upper))
    && (forall k :: j < k <= i ==> !LeavesFile(ss, k))
  }

  /** The statement adds the constraint of that upper-case name NOT VALID. */
  predicate AddsKey(s: Statement, key: string) {
    s.adds.Some? && Upper(s.adds.value.name) == key
  }

  /** Statement i validates a constraint that some statement of its transaction added NOT VALID. */
  ghost predicate Reportable(ss: Statements, i: nat)
    requires i < |ss|
  {
    ss[i].validates.Some?
    && exists j: nat :: j <= i && AddsKey(ss[j], Upper(ss[i].validates.value)) && SameTx(ss, j, i)
  }

  // ----- counting transactions -----

  /** The transaction count when statement i is looked at. */
  function Epoch(ss: Statements, i: nat): nat
    requires i < |ss|
  {
    if i == 0 then 0
    else Epoch(ss, i - 1) + (if IsTxEnd(ss[i - 1].upper) then 1 else 0) + (if LeavesFile(ss, i) then 1 else 0)
  }

  /** Equal counts mean one transaction. */
  lemma {:induction false} EpochTellsTx(ss: Statements, j: nat, i: nat)
    requires j <= i < |ss|
    ensures Epoch(ss, j) <= Epoch(ss, i)
    ensures Epoch(ss, j) == Epoch(ss, i) <==> SameTx(ss, j, i)
    decreases i
  {
    if j < i {
      EpochTellsTx(ss, j, i - 1);
      if SameTx(ss, j, i) {
        assert !IsTxEnd(ss[i - 1].upper) && !LeavesFile(ss, i);
      }
    }
  }

  /** The last statement below n that adds the constraint. */
  function LastAdd(ss: Statements, n: nat, key: string): (r: Option<nat>)
    requires n <= |ss|
    ensures r.Some? ==> r.value < n && AddsKey(ss[r.value], key)
                        && forall k :: r.value < k < n ==> !AddsKey(ss[k], key)
    ensures r.None? ==> forall k :: 0 <= k < n ==> !AddsKey(ss[k], key)
  {
    if n == 0 then None else if AddsKey(ss[n - 1], key) then Some(n - 1) else LastAdd(ss, n - 1, key)
  }

  /** Keeping only the last add of each name loses nothing. */
  lemma LastAddSuffices(ss: Statements, i: nat)
    requires i < |ss| && ss[i].validates.Some?
    ensures var last := LastAdd(ss, i + 1, Upper(ss[i].validates.value));
            Reportable(ss, i) <==> last.Some? && Epoch(ss, last.value) == Epoch(ss, i)
  {
    var last := LastAdd(ss, i + 1, Upper(ss[i].validates.value));
    if last.Some? {
      EpochTellsTx(ss, last.value, i);
      forall j: nat | j <= last.value && SameTx(ss, j, i)
        ensures SameTx(ss, last.value, i)
      {
      }
    }
  }

  // ----- checkConflict -----

  datatype Conflict = NoConflict | Conflicting | Unconfirmed

  /** checkConflict: an error where a recorded extreme violates the comparison, a warning where
      the extreme it turns on was only sampled. */
  function CheckConflict(c: Comparison): Conflict {
    if c.range.None? then NoConflict
    else
      var r := c.range.value;
      var upward := c.op.Greater? || c.op.AtLeast?;
      var violated :=
        match c.op
        case Greater => r.lo.Some? && r.lo.value <= c.k
        case AtLeast => r.lo.Some? && r.lo.value < c.k
        case Less => r.hi.Some? && r.hi.value >= c.k
        case AtMost => r.hi.Some? && r.hi.value > c.k;
      if violated then Conflicting
      else if r.sampled && (if upward then r.lo.Some? else r.hi.Some?) then Unconfirmed
      else NoConflict
  }

  /** A value satisfies the comparison. */
  predicate Passes(c: Comparison, v: real) {
    match c.op
    case Greater => v > c.k
    case AtLeast => v >= c.k
    case Less => v < c.k
    case AtMost => v <= c.k
  }

  /** The range was recorded for these values: each end is one of them, and of the whole
      column the least and the greatest. */
  ghost predicate RecordedFor(r: Range, values: seq<real>) {
    && (r.lo.Some? ==> r.lo.value in values && (!r.sampled ==> forall v :: v in values ==> r.lo.value <= v))
    && (r.hi.Some? ==> r.hi.value in values && (!r.sampled ==> forall v :: v in values ==> v <= r.hi.value))
  }

  /** The column may hold these values: any, where no range is recorded. */
  ghost predicate MayHold(c: Comparison, values: seq<real>) {
    c.range.Some? ==> RecordedFor(c.range.value, values)
  }

  /** Some of the values violates the comparison. */
  ghost predicate Violated(c: Comparison, values: seq<real>) {
    exists v :: v in values && !Passes(c, v)
  }

  /** Whatever the column may hold, some value violates the comparison. */
  ghost predicate MustViolate(c: Comparison) {
    forall values :: MayHold(c, values) ==> Violated(c, values)
  }

  /** The least value, if the comparison is one from below, and the greatest otherwise. */
  function DecisiveEnd(c: Comparison): Option<real> {
    if c.range.None? then None
    else if c.op.Greater? || c.op.AtLeast? then c.range.value.lo else c.range.value.hi
  }

  function OtherEnd(c: Comparison): Option<real> {
    if c.range.None? then None
    else if c.op.Greater? || c.op.AtLeast? then c.range.value.hi else c.range.value.lo
  }

  /** A range that some list of values has. */
  predicate Coherent(c: Comparison) {
    c.range.Some? && c.range.value.lo.Some? && c.range.value.hi.Some? ==>
      c.range.value.lo.value <= c.range.value.hi.value
  }

  /** The values that the range itself names. */
  function NamedValues(c: Comparison): seq<real> {
    (if DecisiveEnd(c).Some? then [DecisiveEnd(c).value] else [])
    + (if OtherEnd(c).Some? then [OtherEnd(c).value] else [])
  }

  lemma NamedMayStand(c: Comparison)
    requires Coherent(c)
    ensures MayHold(c, NamedValues(c))
  {
  }

  /** The comparison is violated for certain exactly when a recorded end violates it. */
  lemma MustViolateIff(c: Comparison)
    requires Coherent(c)
    ensures MustViolate(c) <==> Violated(c, NamedValues(c))
  {
    NamedMayStand(c);
    if v :| v in NamedValues(c) && !Passes(c, v) {
      forall values | MayHold(c, values)
        ensures Violated(c, values)
      {
        assert v in values;
      }
    }
  }

  /** An error is reported exactly when a violation is certain and the decisive end was recorded;
      a certain violation is missed exactly when it was not, and the other end violates the
      comparison. */
  lemma ConflictIff(c: Comparison)
    requires Coherent(c)
    ensures CheckConflict(c) == Conflicting <==> DecisiveEnd(c).Some? && MustViolate(c)
    ensures MustViolate(c) && CheckConflict(c) != Conflicting
            <==> DecisiveEnd(c).None? && OtherEnd(c).Some? && !Passes(c, OtherEnd(c).value)
  {
    MustViolateIff(c);
    if DecisiveEnd(c).Some? && Passes(c, DecisiveEnd(c).value) {
      assert forall v :: v in NamedValues(c) ==> Passes(c, v);
    } else if DecisiveEnd(c).Some? {
      assert DecisiveEnd(c).value in NamedValues(c);
    } else if OtherEnd(c).Some? {
      assert OtherEnd(c).value in NamedValues(c);
    }
  }

  /** CHECK (c >= 10) over a column of which only the greatest value, 3, was recorded: every row
      violates it, and nothing is reported. */
  lemma CertainConflictMissed(table: string)
    ensures var c := Comparison(table, AtLeast, 10.0, Some(Range(None, Some(3.0), false)));
            MustViolate(c) && CheckConflict(c) == NoConflict
  {
    ConflictIff(Comparison(table, AtLeast, 10.0, Some(Range(None, Some(3.0), false))));
  }

  /** A warning is given exactly for a decisive end that was sampled and passes, and nothing for
      one that was not recorded or was read from the whole column and passes. */
  lemma UnconfirmedIff(c: Comparison)
    ensures CheckConflict(c) == Unconfirmed
            <==> DecisiveEnd(c).Some? && c.range.value.sampled && Passes(c, DecisiveEnd(c).value)
    ensures CheckConflict(c) == NoConflict
            <==> DecisiveEnd(c).None? || (!c.range.value.sampled && Passes(c, DecisiveEnd(c).value))
  {
  }

  /** An error always means a violating row; over a column read as a whole whose decisive end was
      recorded it is reported exactly when there is one, and over a sample silence never stands
      for the absence of one. */
  lemma ConflictMeansViolation(c: Comparison, values: seq<real>)
    requires MayHold(c, values)
    ensures CheckConflict(c) == Conflicting ==> Violated(c, values)
    ensures DecisiveEnd(c).Some? && !c.range.value.sampled ==>
              (CheckConflict(c) == Conflicting <==> Violated(c, values)) && CheckConflict(c) != Unconfirmed
    ensures DecisiveEnd(c).Some? && c.range.value.sampled ==> CheckConflict(c) != NoConflict
    ensures DecisiveEnd(c).None? ==> CheckConflict(c) == NoConflict
  {
    if DecisiveEnd(c).Some? {
      assert !Passes(c, DecisiveEnd(c).value) <==> CheckConflict(c) == Conflicting;
    }
  }

  /** A sample's warning claims no more than it knows: the values may violate the comparison or not. */
  lemma UnconfirmedIsOpen(c: Comparison)
    requires CheckConflict(c) == Unconfirmed && Coherent(c)
    ensures exists values :: MayHold(c, values) && !Violated(c, values)
    ensures exists values :: MayHold(c, values) && Violated(c, values)
  {
    var bad := if c.op.Greater? || c.op.AtLeast? then c.k - 1.0 else c.k + 1.0;
    NamedMayStand(c);
    assert MayHold(c, NamedValues(c)) && !Violated(c, NamedValues(c));
    assert bad in NamedValues(c) + [bad] && !Passes(c, bad);
    assert MayHold(c, NamedValues(c) + [bad]) && Violated(c, NamedValues(c) + [bad]);
  }

  // ----- Analyze -----

  datatype AddInfo = AddInfo(table: string, epoch: nat)

  /** A finding: a CHECK at odds with the data, or a VALIDATE with the table of the add it answers. */
  datatype Finding =
    | Conflicts(statement: nat, table: string, proven: bool)
    | Validated(statement: nat, table: string)

  /** What one statement is reported for: its CHECK first, then its VALIDATE. */
  ghost function FindingsAt(ss: Statements, i: nat): seq<Finding>
    requires i < |ss|
  {
    ConflictAt(ss[i], i) + (if Reportable(ss, i) then [Validated(i, ReportedTable(ss, i))] else [])
  }

  function ConflictAt(st: Statement, i: nat): seq<Finding> {
    if st.check.None? || CheckConflict(st.check.value) == NoConflict then []
    else [Conflicts(i, st.check.value.table, CheckConflict(st.check.value) == Conflicting)]
  }

  ghost function At(ss: Statements): nat -> seq<Finding> {
    (i: nat) => if i < |ss| then FindingsAt(ss, i) else []
  }

  ghost function Concat(at: nat -> seq<Finding>, n: nat): seq<Finding> {
    if n == 0 then [] else Concat(at, n - 1) + at(n - 1)
  }

  /** The findings of the first n statements, in order. */
  ghost function Findings(ss: Statements, n: nat): seq<Finding> {
    Concat(At(ss), n)
  }

  /** The table of the last add of the validated name. */
  ghost function ReportedTable(ss: Statements, i: nat): string
    requires i < |ss| && Reportable(ss, i)
  {
    ss[LastAdd(ss, i + 1, Upper(ss[i].validates.value)).value].adds.value.table
  }

  /** The map holds the last add of every constraint. */
  ghost predicate Remembers(ss: Statements, n: nat, adds: map<string, AddInfo>)
    requires n <= |ss|
  {
    forall key: string ::
      var last := LastAdd(ss, n, key);
      if last.None? then key !in adds
      else key in adds && adds[key] == AddInfo(ss[last.value].adds.value.table, Epoch(ss, last.value))
  }

  /** The map after n statements. */
  ghost function Memory(ss: Statements, n: nat): map<string, AddInfo>
    requires n <= |ss|
  {
    if n == 0 then map[]
    else if ss[n - 1].adds.None? then Memory(ss, n - 1)
    else
      var add := ss[n - 1].adds.value;
      Memory(ss, n - 1)[Upper(add.name) := AddInfo(add.table, Epoch(ss, n - 1))]
  }

  lemma {:induction false} MemoryRemembers(ss: Statements, n: nat)
    requires n <= |ss|
    ensures Remembers(ss, n, Memory(ss, n))
  {
    if n > 0 {
      MemoryRemembers(ss, n - 1);
      forall key: string
        ensures var last := LastAdd(ss, n, key);
                if last.None? then key !in Memory(ss, n)
                else key in Memory(ss, n)
                     && Memory(ss, n)[key] == AddInfo(ss[last.value].adds.value.table, Epoch(ss, last.value))
      {
        var last := LastAdd(ss, n - 1, key);
      }
    }
  }

  /** What the map says about the constraint a statement validates. */
  predicate Answered(st: Statement, adds: map<string, AddInfo>, epoch: nat) {
    st.validates.Some? && Upper(st.validates.value) in adds && adds[Upper(st.validates.value)].epoch == epoch
  }

  lemma AnsweredIsReportable(ss: Statements, i: nat, adds: map<string, AddInfo>)
    requires i < |ss| && Remembers(ss, i + 1, adds)
    ensures Answered(ss[i], adds, Epoch(ss, i)) <==> Reportable(ss, i)
    ensures Reportable(ss, i) ==> adds[Upper(ss[i].validates.value)].table == ReportedTable(ss, i)
  {
    if ss[i].validates.Some? {
      LastAddSuffices(ss, i);
      var last := LastAdd(ss, i + 1, Upper(ss[i].validates.value));
    }
  }

  lemma FindingsNext(ss: Statements, i: nat, found: seq<Finding>)
    requires i < |ss| && found == Reported(ss[i], i, Memory(ss, i + 1), Epoch(ss, i))
    ensures Findings(ss, i + 1) == Findings(ss, i) + found
  {
    MemoryRemembers(ss, i + 1);
    AnsweredIsReportable(ss, i, Memory(ss, i + 1));
  }

  function Reported(st: Statement, i: nat, adds: map<string, AddInfo>, epoch: nat): seq<Finding> {
    ConflictAt(st, i)
    + (if Answered(st, adds, epoch) then [Validated(i, adds[Upper(st.validates.value)].table)] else [])
  }

  /** What one statement adds to the findings. */
  method Report(st: Statement, i: nat, adds: map<string, AddInfo>, epoch: nat) returns (found: seq<Finding>)
    ensures found == Reported(st, i, adds, epoch)
  {
    found := [];
    if st.check.Some? {
      var conflict := CheckConflict(st.check.value);
      if conflict != NoConflict {
        found := [Conflicts(i, st.check.value.table, conflict == Conflicting)];
      }
    }
    if Answered(st, adds, epoch) {
      found := found + [Validated(i, adds[Upper(st.validates.value)].table)];
    }
  }

  /** The findings of every statement, in order. */
  method Analyze(ss: Statements) returns (out: seq<Finding>)
    ensures out == Findings(ss, |ss|)
  {
    out := [];
    var notValidAdds: map<string, AddInfo> := map[];
    var epoch, file := 0, "";
    for i := 0 to |ss|
      invariant file == if i == 0 then "" else ss[i - 1].file
      invariant i < |ss| ==> epoch + (if LeavesFile(ss, i) then 1 else 0) == Epoch(ss, i)
      invariant notValidAdds == Memory(ss, i)
      invariant out == Findings(ss, i)
    {
      var st := ss[i];
      if st.file != file {
        if file != "" {
          epoch := epoch + 1;
        }
        file := st.file;
      }
      if st.adds.Some? {
        notValidAdds := notValidAdds[Upper(st.adds.value.name) := AddInfo(st.adds.value.table, epoch)];
      }
      var found := Report(st, i, notValidAdds, epoch);
      FindingsNext(ss, i, found);
      out := out + found;
      if IsTxEnd(st.upper) {
        epoch := epoch + 1;
      }
    }
  }

  /** A VALIDATE in the transaction of a NOT VALID add, with the last add's table, or a CHECK
      whose comparison the decisive end violates, or passes without the whole column being read. */
  ghost predicate Deserved(ss: Statements, x: Finding)
    requires x.statement < |ss|
  {
    if x.Validated? then Reportable(ss, x.statement) && x.table == ReportedTable(ss, x.statement)
    else
      var check := ss[x.statement].check;
      && check.Some? && x.table == check.value.table
      && DecisiveEnd(check.value).Some?
      && if x.proven then !Passes(check.value, DecisiveEnd(check.value).value)
         else Passes(check.value, DecisiveEnd(check.value).value) && check.value.range.value.sampled
  }

  /** The findings are exactly the deserved ones. */
  lemma FindingsAreExact(ss: Statements, x: Finding)
    ensures x in Findings(ss, |ss|) <==> x.statement < |ss| && Deserved(ss, x)
  {
    FoundAtStatement(ss, |ss|, x);
    if x.statement < |ss| {
      DeservedAt(ss, x);
    }
  }

  lemma DeservedAt(ss: Statements, x: Finding)
    requires x.statement < |ss|
    ensures x in FindingsAt(ss, x.statement) <==> Deserved(ss, x)
  {
  }

  lemma StandsAt(ss: Statements, i: nat, x: Finding)
    requires i < |ss|
    ensures x in FindingsAt(ss, i) ==> x.statement == i
  {
  }

  lemma FoundAtStatement(ss: Statements, n: nat, x: Finding)
    requires n <= |ss|
    ensures x in Findings(ss, n) <==> x.statement < n && x in FindingsAt(ss, x.statement)
  {
    forall i: nat, y | y in At(ss)(i)
      ensures y.statement == i
    {
      StandsAt(ss, i, y);
    }
    InConcat(At(ss), n, x);
  }

  ghost predicate Stands(at: nat -> seq<Finding>) {
    forall i: nat, y :: y in at(i) ==> y.statement == i
  }

  lemma {:induction false} InConcat(at: nat -> seq<Finding>, n: nat, x: Finding)
    requires Stands(at)
    ensures x in Concat(at, n) <==> x.statement < n && x in at(x.statement)
  {
    if n > 0 {
      InConcat(at, n - 1, x);
    }
  }

  /** The findings follow the statements. */
  lemma FindingsOrdered(ss: Statements, n: nat)
    requires n <= |ss|
    ensures forall f, g :: 0 <= f < g < |Findings(ss, n)| ==>
              Findings(ss, n)[f].statement <= Findings(ss, n)[g].statement
  {
    forall i: nat, y | y in At(ss)(i)
      ensures y.statement == i
    {
      StandsAt(ss, i, y);
    }
    ConcatOrdered(At(ss), n);
  }

  lemma {:induction false} ConcatOrdered(at: nat -> seq<Finding>, n: nat)
    requires Stands(at)
    ensures forall f :: 0 <= f < |Concat(at, n)| ==> Concat(at, n)[f].statement < n
    ensures forall f, g :: 0 <= f < g < |Concat(at, n)| ==> Concat(at, n)[f].statement <= Concat(at, n)[g].statement
  {
    if n > 0 {
      ConcatOrdered(at, n - 1);
      var last := at(n - 1);
      forall f | 0 <= f < |last|
        ensures last[f].statement == n - 1
      {
        assert last[f] in last;
      }
    }
  }

  // ----- migrations in named files -----

  /** Every statement has a named file, and each file's statements stand together. */
  ghost predicate FileByFile(ss: Statements) {
    && (forall i :: 0 <= i < |ss| ==> ss[i].file != "")
    && (forall j, k, i :: 0 <= j <= k <= i < |ss| && ss[j].file == ss[i].file ==> ss[k].file == ss[i].file)
  }

  lemma {:induction false} SameFileStays(ss: Statements, j: nat, i: nat)
    requires j <= i < |ss| && FileByFile(ss)
    ensures ss[j].file == ss[i].file <==> forall k :: j < k <= i ==> !LeavesFile(ss, k)
    decreases i
  {
    if j < i {
      SameFileStays(ss, j, i - 1);
      if ss[j].file == ss[i].file {
        assert ss[i - 1].file == ss[i].file;
      }
      if forall k :: j < k <= i ==> !LeavesFile(ss, k) {
        assert !LeavesFile(ss, i);
      }
    }
  }

  /** Run file by file, a VALIDATE is reported exactly when its own file adds the constraint
      NOT VALID at or before it with no transaction end since: splitting the two over
      files is never reported. */
  lemma ReportableWithinFile(ss: Statements, i: nat)
    requires i < |ss| && FileByFile(ss) && ss[i].validates.Some?
    ensures Reportable(ss, i) <==>
            exists j: nat :: j <= i && AddsKey(ss[j], Upper(ss[i].validates.value)) && ss[j].file == ss[i].file
                             && forall k :: j <= k < i ==> !IsTxEnd(ss[k].upper)
  {
    forall j: nat | j <= i
      ensures SameTx(ss, j, i) <==> ss[j].file == ss[i].file && forall k :: j <= k < i ==> !IsTxEnd(ss[k].upper)
    {
      SameFileStays(ss, j, i);
    }
  }
}
