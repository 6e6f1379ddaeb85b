/** Error values and fault injection shared by both store models.

    The relational engine is not modelled: every SQL statement becomes an abstract
    operation whose effect is a function of the store, and whether the engine rejects
    it (disk error, busy database, ...) is decided by an oracle, `fault`, which names
    the statement of a transaction that fails. */
module Sqlite {

  datatype Option<T> = None | Some(value: T)

  /** The rusqlite errors the modelled code can observe. */
  datatype SqliteError =
    | QueryReturnedNoRows
    | InvalidColumnIndex(index: nat)
    | InvalidColumnType(index: nat)
    | IntegralValueOutOfRange(index: nat)
    | NotNullConstraint
    | EngineFailure

  /** critic's `DbError`, whose only variant wraps a rusqlite error. */
  datatype DbError = Sqlite(cause: SqliteError)

  datatype Result<T> = Ok(value: T) | Err(error: DbError) {
    predicate IsFailure() {
      Err?
    }

    function PropagateFailure<U>(): Result<U>
      requires Err?
    {
      Err(error)
    }

    function Extract(): T
      requires Ok?
    {
      value
    }
  }

  const I32_MIN: int := -0x8000_0000
  const I32_MAX: int := 0x7fff_ffff
  const USIZE_MAX: int := 0xffff_ffff_ffff_ffff

  /** The engine rejects step `step` of the current transaction (steps count from 0). */
  predicate FailsAt(fault: Option<nat>, step: nat) {
    fault == Some(step)
  }

  /** A transaction of `n` statements reaches and passes its commit (step `n`). */
  predicate Commits(n: nat, fault: Option<nat>) {
    fault.None? || fault.value > n
  }

  /** A column value as SQLite stores it (blobs do not occur in the modelled tables). */
  datatype Value = Integer(i: int) | Real(r: real) | Text(s: string) | Null

  /** `row.get::<_, i32>(idx)`: an INTEGER that fits in 32 bits. */
  function GetI32(row: seq<Value>, idx: nat): (r: Result<int>)
    ensures r.Ok? <==> idx < |row| && row[idx].Integer? && I32_MIN <= row[idx].i <= I32_MAX
    ensures r.Ok? ==> r.value == row[idx].i
    ensures idx < |row| && row[idx].Integer? && r.Err? ==> r.error == Sqlite(IntegralValueOutOfRange(idx))
  {
    if idx >= |row| then Err(Sqlite(InvalidColumnIndex(idx)))
    else match row[idx]
      case Integer(i) => if I32_MIN <= i <= I32_MAX then Ok(i) else Err(Sqlite(IntegralValueOutOfRange(idx)))
      case _ => Err(Sqlite(InvalidColumnType(idx)))
  }

  /** `row.get::<_, f32>(idx)`: an INTEGER or a REAL (the narrowing to `f32` is not modelled). */
  function GetF32(row: seq<Value>, idx: nat): (r: Result<real>)
    ensures r.Ok? <==> idx < |row| && (row[idx].Integer? || row[idx].Real?)
    ensures r.Ok? && row[idx].Integer? ==> r.value == row[idx].i as real
    ensures r.Ok? && row[idx].Real? ==> r.value == row[idx].r
  {
    if idx >= |row| then Err(Sqlite(InvalidColumnIndex(idx)))
    else match row[idx]
      case Integer(i) => Ok(i as real)
      case Real(x) => Ok(x)
      case _ => Err(Sqlite(InvalidColumnType(idx)))
  }

  /** `row.get::<_, String>(idx)`: TEXT only. */
  function GetString(row: seq<Value>, idx: nat): (r: Result<string>)
    ensures r.Ok? <==> idx < |row| && row[idx].Text?
    ensures r.Ok? ==> r.value == row[idx].s
  {
    if idx >= |row| then Err(Sqlite(InvalidColumnIndex(idx)))
    else match row[idx]
      case Text(t) => Ok(t)
      case _ => Err(Sqlite(InvalidColumnType(idx)))
  }

  const I64_MIN: int := -0x8000_0000_0000_0000
  const I64_MAX: int := 0x7fff_ffff_ffff_ffff

  /** The affinity of a column, which decides how a value written to it is stored. */
  datatype Affinity = IntegerAffinity | TextAffinity | BlobAffinity | RealAffinity | NumericAffinity {
    /** Text that looks like a number is stored as one. */
    predicate Converts() {
      IntegerAffinity? || RealAffinity? || NumericAffinity?
    }
  }

  /** `part` occurs in `s` as a contiguous run of characters. */
  predicate HasInfix(s: string, part: string)
    decreases |s|
  {
    |part| <= |s| && (s[..|part|] == part || HasInfix(s[1..], part))
  }

  /** The affinity of a declared column type, by the five rules of section 3.1 of
      "Datatypes In SQLite Version 3", applied in order. Declared types are compared
      as written (the schemas modelled here are upper case). */
  function AffinityOf(declared: string): (a: Affinity)
    ensures HasInfix(declared, "INT") ==> a == IntegerAffinity
    ensures a == TextAffinity <==>
      !HasInfix(declared, "INT") && (HasInfix(declared, "CHAR") || HasInfix(declared, "CLOB") || HasInfix(declared, "TEXT"))
    ensures a == NumericAffinity ==>
      forall part :: part in ["INT", "CHAR", "CLOB", "TEXT", "BLOB", "REAL", "FLOA", "DOUB"] ==> !HasInfix(declared, part)
  {
    if HasInfix(declared, "INT") then IntegerAffinity
    else if HasInfix(declared, "CHAR") || HasInfix(declared, "CLOB") || HasInfix(declared, "TEXT") then TextAffinity
    else if HasInfix(declared, "BLOB") || declared == "" then BlobAffinity
    else if HasInfix(declared, "REAL") || HasInfix(declared, "FLOA") || HasInfix(declared, "DOUB") then RealAffinity
    else NumericAffinity
  }

  /** `part` does not occur in `s` when one of its characters occurs nowhere in `s`. */
  lemma {:induction false} MissingChar(s: string, part: string, k: nat)
    requires k < |part| && part[k] !in s
    ensures !HasInfix(s, part)
    decreases |s|
  {
    if |part| <= |s| {
      assert s[..|part|][k] == s[k];
      assert s == [s[0]] + s[1..];
      MissingChar(s[1..], part, k);
    }
  }

  lemma StringHasNoInt()
    ensures !HasInfix("STRING", "INT")
  {
    var s := "STRING";
    assert s[..3][0] == 'S';
    assert s[1..][..3][0] == 'T';
    assert s[2..][..3][0] == 'R';
    assert s[3..][..3][2] == 'G';
    assert s[1..][1..] == s[2..] && s[2..][1..] == s[3..] && s[3..][1..] == s[4..];
    assert !HasInfix(s[4..], "INT");
  }

  /** The declared type `STRING` contains none of the substrings of rules 1-4, so by
      rule 5 it has NUMERIC affinity. */
  lemma StringIsNumeric()
    ensures AffinityOf("STRING") == NumericAffinity
  {
    StringHasNoInt();
    StringHasNoTextPart();
    StringHasNoOtherPart();
  }

  lemma StringHasNoTextPart()
    ensures !HasInfix("STRING", "CHAR") && !HasInfix("STRING", "CLOB") && !HasInfix("STRING", "TEXT")
  {
    MissingChar("STRING", "CHAR", 0);
    MissingChar("STRING", "CLOB", 0);
    MissingChar("STRING", "TEXT", 1);
  }

  lemma StringHasNoOtherPart()
    ensures !HasInfix("STRING", "BLOB") && !HasInfix("STRING", "REAL")
    ensures !HasInfix("STRING", "FLOA") && !HasInfix("STRING", "DOUB")
  {
    MissingChar("STRING", "BLOB", 0);
    MissingChar("STRING", "REAL", 1);
    MissingChar("STRING", "FLOA", 0);
    MissingChar("STRING", "DOUB", 0);
  }

  /** `TEXT` has TEXT affinity by rule 2. */
  lemma DeclaredAffinities()
    ensures AffinityOf("STRING") == NumericAffinity
    ensures AffinityOf("TEXT") == TextAffinity
  {
    StringIsNumeric();
    MissingChar("TEXT", "INT", 0);
    assert "TEXT"[..4] == "TEXT";
  }

  predicate IsDigit(c: char) {
    '0' <= c <= '9'
  }

  predicate AllDigits(s: string) {
    forall i :: 0 <= i < |s| ==> IsDigit(s[i])
  }

  /** The number a run of decimal digits denotes, read from the back: the last digit
      counts once and the digits before it ten times their own value. Leading zeros add
      nothing; `DigitsValueFront` reads the same number from the front. */
  function DigitsValue(s: string): (n: nat)
    requires AllDigits(s)
    ensures |s| > 0 && s[0] == '0' ==> n == DigitsValue(s[1..])
    decreases |s|
  {
    if |s| == 0 then 0
    else
      var init := s[..|s| - 1];
      assert AllDigits(init) by {
        forall i | 0 <= i < |init| ensures IsDigit(init[i]) {
          assert init[i] == s[i];
        }
      }
      var n := DigitsValue(init) * 10 + (s[|s| - 1] as int - '0' as int);
      if |s| > 1 && s[0] == '0' then
        assert AllDigits(s[1..]) by {
          forall i | 0 <= i < |s[1..]| ensures IsDigit(s[1..][i]) {
            assert s[1..][i] == s[i + 1];
          }
        }
        assert init[0] == '0' && init[1..] == s[1..][..|s[1..]| - 1];
        n
      else n
  }

  /** `d * 10^k`, written without multiplying two unknowns. */
  function Shifted(d: int, k: nat): int {
    if k == 0 then d else 10 * Shifted(d, k - 1)
  }

  /** Read from the front, the first of `|s|` digits counts `10^(|s|-1)` times, and
      `|s|` digits denote a number below `10^|s|`. */
  /** Dropping the first or the last of a run of digits leaves a run of digits. */
  lemma DigitsSlices(s: string)
    requires AllDigits(s) && |s| > 0
    ensures AllDigits(s[..|s| - 1]) && AllDigits(s[1..])
  {
    forall i | 0 <= i < |s| - 1 ensures IsDigit(s[..|s| - 1][i]) && IsDigit(s[1..][i]) {
      assert s[..|s| - 1][i] == s[i] && s[1..][i] == s[i + 1];
    }
  }

  lemma {:induction false} DigitsValueFront(s: string)
    requires AllDigits(s)
    ensures |s| > 0 ==>
      (AllDigits(s[1..]) && DigitsValue(s) == Shifted(s[0] as int - '0' as int, |s| - 1) + DigitsValue(s[1..]))
    ensures DigitsValue(s) < Shifted(1, |s|)
    decreases |s|
  {
    if |s| > 0 {
      var init := s[..|s| - 1];
      DigitsSlices(s);
      DigitsValueFront(init);
      var last := s[|s| - 1] as int - '0' as int;
      assert IsDigit(s[|s| - 1]);
      assert 0 <= last <= 9;
      assert DigitsValue(s) == 10 * DigitsValue(init) + last;
      assert Shifted(1, |s|) == 10 * Shifted(1, |init|);
      if |s| == 1 {
        assert init == [] && s[1..] == [];
      } else {
        var head := s[0] as int - '0' as int;
        assert init[0] == s[0] && init[1..] == s[1..][..|s[1..]| - 1];
        var body := DigitsValue(init[1..]);
        assert DigitsValue(init) == Shifted(head, |s| - 2) + body;
        assert DigitsValue(s[1..]) == 10 * body + last;
        assert Shifted(head, |s| - 1) == 10 * Shifted(head, |s| - 2);
      }
    }
  }

  /** The digits after an optional leading sign. */
  function Unsigned(s: string): string {
    if |s| > 0 && (s[0] == '+' || s[0] == '-') then s[1..] else s
  }

  /** A well-formed integer literal: an optional sign and at least one decimal digit. */
  predicate IsIntegerLiteral(s: string) {
    |Unsigned(s)| > 0 && AllDigits(Unsigned(s))
  }

  function IntegerLiteralValue(s: string): int
    requires IsIntegerLiteral(s)
  {
    var magnitude: int := DigitsValue(Unsigned(s));
    if s[0] == '-' then -magnitude else magnitude
  }

  /** How a TEXT parameter is stored in a column of affinity `a`, and what it is compared
      as against that column (section 4.2 applies the column's affinity to the parameter).
      Under INTEGER or NUMERIC affinity an integer literal becomes an INTEGER, or a REAL
      beyond the 64-bit range; under REAL affinity it becomes a REAL; anything else, and
      everything under TEXT or BLOB affinity, stays TEXT. */
  function Stored(a: Affinity, s: string): (v: Value)
    ensures !v.Text? <==> a.Converts() && IsIntegerLiteral(s)
    ensures v.Text? ==> v.s == s
    ensures v.Integer? ==> v.i == IntegerLiteralValue(s) && I64_MIN <= v.i <= I64_MAX
    ensures v.Real? ==> v.r == IntegerLiteralValue(s) as real
  {
    if !a.Converts() || !IsIntegerLiteral(s) then Text(s)
    else
      var n := IntegerLiteralValue(s);
      if a == RealAffinity || !(I64_MIN <= n <= I64_MAX) then Real(n as real) else Integer(n)
  }

  /** Under NUMERIC affinity the title "1984" is stored as the INTEGER 1984, and so is
      "01984": the two collide. */
  lemma NumericLiterals()
    ensures Stored(NumericAffinity, "1984") == Integer(1984)
    ensures Stored(NumericAffinity, "01984") == Integer(1984)
  {
    var s := "1984";
    assert Unsigned(s) == s && AllDigits(s);
    assert s[..3] == "198" && s[..3][..2] == "19" && s[..3][..2][..1] == "1" && "1"[..0] == "";
    assert DigitsValue("1") == 1;
    assert DigitsValue("19") == 19;
    assert DigitsValue("198") == 198;
    assert DigitsValue(s) == 1984;
    var z := "01984";
    assert Unsigned(z) == z && AllDigits(z) && z[1..] == s;
  }

  /** Under TEXT affinity distinct parameters stay distinct. */
  lemma TextStoredInjective(s: string, t: string)
    ensures Stored(TextAffinity, s) == Stored(TextAffinity, t) <==> s == t
  {
  }

  predicate IsI32(n: int) {
    I32_MIN <= n <= I32_MAX
  }

  /** A transaction that has not failed before `step` and passes `step` has not failed before `step + 1`. */
  lemma PassStep(fault: Option<nat>, step: nat)
    requires fault.None? || fault.value >= step
    requires !FailsAt(fault, step)
    ensures fault.None? || fault.value >= step + 1
  {
  }

  /** The statements sent to the engine by a transaction running `stmts` and then
      `commit`, which stops at the first statement the engine rejects. */
  function Issued<S>(stmts: seq<S>, commit: S, fault: Option<nat>): (log: seq<S>)
    ensures Commits(|stmts|, fault) ==> log == stmts + [commit]
    ensures !Commits(|stmts|, fault) ==> |log| == fault.value + 1
  {
    if fault.Some? && fault.value < |stmts| then stmts[..fault.value + 1]
    else stmts + [commit]
  }

  /** What is sent before the failing statement, or before the commit, is a prefix of the
      transaction's statements: nothing out of order and nothing made up. */
  lemma IssuedPrefix<S>(stmts: seq<S>, commit: S, fault: Option<nat>)
    ensures var log := Issued(stmts, commit, fault);
      |log| > 0 && log[..|log| - 1] <= stmts
  {
  }
}
