/**
 * The amount migrations: XLM held as doubles becomes whole stroops and back. Double arithmetic is
 * any arithmetic whose division and multiplication have relative error at most 2^-53 and whose
 * ROUND reaches a nearest integer.
 */
module Stroops {
  import opened Text

  const STROOPS_PER_XLM: int := 10_000_000
  const UNIT: real := 1.0 / 9007199254740992.0
  const EXACT: int := 0x20_0000_0000_0000
  const SAFE: int := 0x8_0000_0000_0000

  function Abs(x: real): real { if x < 0.0 then -x else x }

  datatype Arithmetic = Arithmetic(div: (real, real) -> real, mul: (real, real) -> real,
                                   cast: int -> real, round: real -> int)

  predicate Close(exact: real, got: real) { Abs(got - exact) <= UNIT * Abs(exact) }

  ghost predicate Divides(f: Arithmetic) { forall x, y :: y != 0.0 ==> Close(x / y, f.div(x, y)) }

  ghost predicate Multiplies(f: Arithmetic) { forall x, y :: Close(x * y, f.mul(x, y)) }

  ghost predicate Casts(f: Arithmetic) {
    forall n :: Close(n as real, f.cast(n)) && (-EXACT <= n <= EXACT ==> f.cast(n) == n as real)
  }

  ghost predicate Rounds(f: Arithmetic) { forall x :: Abs(f.round(x) as real - x) <= 0.5 }

  ghost predicate Admissible(f: Arithmetic) { Divides(f) && Multiplies(f) && Casts(f) && Rounds(f) }

  /** CAST(amount AS REAL) / STROOPS_PER_XLM */
  function ToXlm(f: Arithmetic, n: int): real { f.div(f.cast(n), STROOPS_PER_XLM as real) }

  /** CAST(ROUND(amount * STROOPS_PER_XLM) AS INTEGER) of a REAL amount */
  function ToStroops(f: Arithmetic, x: real): int { f.round(f.mul(x, STROOPS_PER_XLM as real)) }

  /** In every admissible arithmetic an amount of lumens becomes the number of stroops nearest to ten
      million times it, but for one rounding of the product. */
  lemma ToStroopsScales(f: Arithmetic, x: real)
    requires Admissible(f)
    ensures Abs(ToStroops(f, x) as real - x * 10000000.0) <= 0.5 + Abs(x * 10000000.0) / 9007199254740992.0
  {
    var p := f.mul(x, 10000000.0);
    assert Close(x * 10000000.0, p);
    assert Abs(f.round(p) as real - p) <= 0.5;
  }

  /** And a number of stroops up to 2^53 becomes its ten-millionth part, but for one rounding of the
      quotient. */
  lemma ToXlmScales(f: Arithmetic, n: int)
    requires Admissible(f) && -0x20_0000_0000_0000 <= n <= 0x20_0000_0000_0000
    ensures Abs(ToXlm(f, n) - n as real / 10000000.0) <= Abs(n as real / 10000000.0) / 9007199254740992.0
  {
    assert f.cast(n) == n as real;
    assert Close(n as real / 10000000.0, f.div(n as real, 10000000.0));
  }

  // --------------------------------------------------------- one amount: down, then up

  lemma RoundTripWithin(f: Arithmetic, n: int)
    requires Admissible(f) && -SAFE < n < SAFE
    ensures ToStroops(f, ToXlm(f, n)) == n
  {
    var x, s := n as real, STROOPS_PER_XLM as real;
    var q := f.div(x, s);
    assert f.cast(n) == x;
    assert Close(x / s, q);
    var p := f.mul(q, s);
    assert Close(q * s, p);
    assert Abs(q * s - x) <= UNIT * Abs(x);
    assert Abs(p - x) < 0.5;
    assert Abs(f.round(p) as real - p) <= 0.5;
  }

  function NearestInt(x: real): (n: int)
    ensures Abs(n as real - x) <= 0.5
  {
    if x >= 0.0 then (x + 0.5).Floor else -((-x + 0.5).Floor)
  }

  function Inflated(z: real): (r: real)
    ensures Close(z, r)
  {
    z * (1.0 + UNIT)
  }

  function DivUp(x: real, y: real): (r: real)
    ensures y != 0.0 ==> r == Inflated(x / y)
  {
    if y == 0.0 then 0.0 else Inflated(x / y)
  }

  function MulUp(x: real, y: real): real { Inflated(x * y) }

  function Widen(n: int): (r: real)
    ensures Close(n as real, r)
  {
    n as real
  }

  /** An admissible arithmetic whose division and multiplication err upwards by the full unit. */
  function Upward(): Arithmetic { Arithmetic(DivUp, MulUp, Widen, NearestInt) }

  lemma UpwardIsAdmissible()
    ensures Admissible(Upward())
  {
    UpwardDivides();
    UpwardMultiplies();
    assert Casts(Upward());
    assert Rounds(Upward());
  }

  lemma UpwardDivides()
    ensures Divides(Upward())
  {
    forall x: real, y: real | y != 0.0 ensures Close(x / y, Upward().div(x, y)) {
      var z := Inflated(x / y);
      assert Upward().div(x, y) == z;
    }
  }

  lemma UpwardMultiplies()
    ensures Multiplies(Upward())
  {
    forall x: real, y: real ensures Close(x * y, Upward().mul(x, y)) {
      var z := Inflated(x * y);
      assert Upward().mul(x, y) == z;
    }
  }

  lemma UpwardMisses(n: int)
    requires n <= -SAFE || SAFE <= n
    ensures ToStroops(Upward(), ToXlm(Upward(), n)) != n
  {
    var x, s := n as real, STROOPS_PER_XLM as real;
    var p := x / s * (1.0 + UNIT) * s * (1.0 + UNIT);
    assert ToStroops(Upward(), ToXlm(Upward(), n)) == NearestInt(p);
    assert p == x + x * (2.0 * UNIT + UNIT * UNIT);
    assert Abs(p - x) > 0.5;
  }

  /** Rolling down and up returns n for every admissible arithmetic exactly when |n| < 2^51. */
  lemma RoundTripIff(n: int)
    ensures (forall f :: Admissible(f) ==> ToStroops(f, ToXlm(f, n)) == n) <==> -SAFE < n < SAFE
  {
    if -SAFE < n < SAFE {
      forall f | Admissible(f) ensures ToStroops(f, ToXlm(f, n)) == n {
        RoundTripWithin(f, n);
      }
    } else {
      UpwardIsAdmissible();
      UpwardMisses(n);
    }
  }

  // ------------------------------------------------------------- the table and its statements

  datatype Amount = Xlm(x: real) | Whole(n: int)

  datatype Row<C> = Row(columns: C, amount: Amount, stroops: Option<int>)

  datatype Table<C> = Table(hasStroops: bool, rows: seq<Row<C>>)

  /** The table being migrated and the one it is rebuilt into. */
  datatype Db<C> = Db(main: Option<Table<C>>, spare: Option<Table<C>>)

  datatype Statement = AddColumn | Fill | DropSpare | CreateSpare | CopyStroops | CopyXlm | DropMain | Rename | Index

  const UP: seq<Statement> := [AddColumn, Fill, DropSpare, CreateSpare, CopyStroops, DropMain, Rename, Index]
  const DOWN: seq<Statement> := [DropSpare, CreateSpare, CopyXlm, DropMain, Rename, Index]

  /** ROUND(amount * STROOPS_PER_XLM): an INTEGER amount is multiplied as an integer. */
  function Scaled(f: Arithmetic, a: Amount): int {
    match a
    case Xlm(x) => ToStroops(f, x)
    case Whole(n) => f.round(f.cast(n * STROOPS_PER_XLM))
  }

  function Unscaled(f: Arithmetic, a: Amount): real {
    match a
    case Xlm(x) => f.div(x, STROOPS_PER_XLM as real)
    case Whole(n) => ToXlm(f, n)
  }

  /** The two conversions of a column, which holds either unit, scale what is in it by ten million. */
  lemma ScaledMeans(f: Arithmetic, a: Amount)
    requires Admissible(f)
    ensures var was := match a case Xlm(x) => x case Whole(n) => n as real;
            Abs(Scaled(f, a) as real - was * 10000000.0) <= 0.5 + Abs(was * 10000000.0) / 9007199254740992.0
  {
    match a
    case Xlm(x) => ToStroopsScales(f, x);
    case Whole(n) =>
      assert Close((n * 10000000) as real, f.cast(n * 10000000));
      assert (n * 10000000) as real == n as real * 10000000.0;
      assert Abs(f.round(f.cast(n * 10000000)) as real - f.cast(n * 10000000)) <= 0.5;
  }

  lemma UnscaledMeans(f: Arithmetic, a: Amount)
    requires Admissible(f) && (a.Whole? ==> -0x20_0000_0000_0000 <= a.n <= 0x20_0000_0000_0000)
    ensures var was := match a case Xlm(x) => x case Whole(n) => n as real;
            Abs(Unscaled(f, a) - was / 10000000.0) <= Abs(was / 10000000.0) / 9007199254740992.0
  {
    match a
    case Xlm(x) => assert Close(x / 10000000.0, f.div(x, 10000000.0));
    case Whole(n) => ToXlmScales(f, n);
  }

  function Filled<C>(f: Arithmetic, rows: seq<Row<C>>): seq<Row<C>> {
    seq(|rows|, i requires 0 <= i < |rows| => rows[i].(stroops := Some(Scaled(f, rows[i].amount))))
  }

  predicate NoNulls<C>(rows: seq<Row<C>>) { forall i :: 0 <= i < |rows| ==> rows[i].stroops.Some? }

  function Rebuilt<C>(rows: seq<Row<C>>): seq<Row<C>>
    requires NoNulls(rows)
  {
    seq(|rows|, i requires 0 <= i < |rows| => Row(rows[i].columns, Whole(rows[i].stroops.value), None))
  }

  function RolledBack<C>(f: Arithmetic, rows: seq<Row<C>>): seq<Row<C>> {
    seq(|rows|, i requires 0 <= i < |rows| => Row(rows[i].columns, Xlm(Unscaled(f, rows[i].amount)), None))
  }

  /** One statement; None when it fails. Adding a column that exists, or to no table, is swallowed. */
  function Execute<C>(f: Arithmetic, db: Db<C>, s: Statement): Option<Db<C>> {
    match s
    case AddColumn => Some(if db.main.Some? then db.(main := Some(db.main.value.(hasStroops := true))) else db)
    case Fill =>
      if db.main.Some? && db.main.value.hasStroops
      then Some(db.(main := Some(Table(true, Filled(f, db.main.value.rows))))) else None
    case DropSpare => Some(db.(spare := None))
    case CreateSpare => if db.spare.Some? then None else Some(db.(spare := Some(Table(false, []))))
    case CopyStroops =>
      if db.main.Some? && db.main.value.hasStroops && db.spare.Some? && NoNulls(db.main.value.rows)
      then Some(db.(spare := Some(Table(false, db.spare.value.rows + Rebuilt(db.main.value.rows))))) else None
    case CopyXlm =>
      if db.main.Some? && db.spare.Some?
      then Some(db.(spare := Some(Table(false, db.spare.value.rows + RolledBack(f, db.main.value.rows))))) else None
    case DropMain => if db.main.Some? then Some(db.(main := None)) else None
    case Rename => if db.spare.Some? && db.main.None? then Some(Db(db.spare, None)) else None
    case Index => if db.main.Some? then Some(db) else None
  }

  /** A script stops at its first failing statement, keeping what ran before it. */
  function Script<C>(f: Arithmetic, db: Db<C>, script: seq<Statement>): (Db<C>, bool)
    decreases |script|
  {
    if script == [] then (db, true)
    else match Execute(f, db, script[0])
      case None => (db, false)
      case Some(next) => Script(f, next, script[1..])
  }

  lemma {:induction false} ScriptConcat<C>(f: Arithmetic, db: Db<C>, a: seq<Statement>, b: seq<Statement>)
    ensures Script(f, db, a + b) == if Script(f, db, a).1 then Script(f, Script(f, db, a).0, b) else Script(f, db, a)
    decreases |a|
  {
    if a == [] {
      assert a + b == b;
    } else {
      assert (a + b)[1..] == a[1..] + b;
      match Execute(f, db, a[0])
      case None =>
      case Some(next) => ScriptConcat(f, next, a[1..], b);
    }
  }

  // -------------------------------------------------------------------- whole scripts

  function Converted<C>(f: Arithmetic, rows: seq<Row<C>>): (r: seq<Row<C>>)
    ensures |r| == |rows|
  {
    seq(|rows|, i requires 0 <= i < |rows| => Row(rows[i].columns, Whole(Scaled(f, rows[i].amount)), None))
  }

  lemma RebuiltFilled<C>(f: Arithmetic, rows: seq<Row<C>>)
    ensures NoNulls(Filled(f, rows)) && Rebuilt(Filled(f, rows)) == Converted(f, rows)
  {
  }

  /** What the first k statements of `up` leave behind, statement by statement. */
  function UpTo<C>(f: Arithmetic, db: Db<C>, k: nat): Db<C>
    requires db.main.Some? && k <= |UP|
  {
    var filled := Some(Table(true, Filled(f, db.main.value.rows)));
    var done := Some(Table(false, Converted(f, db.main.value.rows)));
    if k == 0 then db
    else if k == 1 then db.(main := Some(db.main.value.(hasStroops := true)))
    else if k == 2 then Db(filled, db.spare)
    else if k == 3 then Db(filled, None)
    else if k == 4 then Db(filled, Some(Table(false, [])))
    else if k == 5 then Db(filled, done)
    else if k == 6 then Db(None, done)
    else Db(done, None)
  }

  lemma UpStep<C>(f: Arithmetic, db: Db<C>, k: nat)
    requires db.main.Some? && k < |UP|
    ensures Execute(f, UpTo(f, db, k), UP[k]) == Some(UpTo(f, db, k + 1))
  {
    var rows := db.main.value.rows;
    RebuiltFilled(f, rows);
    assert [] + Converted(f, rows) == Converted(f, rows);
  }

  lemma {:induction false} UpPrefix<C>(f: Arithmetic, db: Db<C>, k: nat)
    requires db.main.Some? && k <= |UP|
    ensures Script(f, db, UP[..k]) == (UpTo(f, db, k), true)
  {
    if k > 0 {
      UpPrefix(f, db, k - 1);
      UpStep(f, db, k - 1);
      ScriptConcat(f, db, UP[..k - 1], [UP[k - 1]]);
      assert UP[..k] == UP[..k - 1] + [UP[k - 1]];
      SingleStatement(f, UpTo(f, db, k - 1), UP[k - 1]);
    }
  }

  lemma SingleStatement<C>(f: Arithmetic, db: Db<C>, s: Statement)
    ensures Script(f, db, [s]) == match Execute(f, db, s) case None => (db, false) case Some(next) => (next, true)
  {
    assert [s][1..] == [];
  }

  /** `up` turns every amount into stroops, keeps every other column and row, and drops the spare. */
  lemma UpConverts<C>(f: Arithmetic, db: Db<C>)
    requires db.main.Some?
    ensures Script(f, db, UP) == (Db(Some(Table(false, Converted(f, db.main.value.rows))), None), true)
  {
    UpPrefix(f, db, |UP|);
    assert UP[..|UP|] == UP;
  }

  lemma FilledKeepsAmounts<C>(f: Arithmetic, rows: seq<Row<C>>)
    ensures Converted(f, Filled(f, rows)) == Converted(f, rows)
  {
  }

  /** Running `up` again after it stopped anywhere before the old table is dropped gives exactly
      what one full run gives. */
  lemma RerunIsTolerated<C>(f: Arithmetic, db: Db<C>, k: nat)
    requires db.main.Some? && k <= 5
    ensures Script(f, db, UP[..k]).1
    ensures Script(f, Script(f, db, UP[..k]).0, UP) == Script(f, db, UP)
  {
    UpPrefix(f, db, k);
    UpConverts(f, db);
    UpConverts(f, UpTo(f, db, k));
    FilledKeepsAmounts(f, db.main.value.rows);
  }

  /** Stopped between dropping the old table and renaming the new one, every further run fails on the
      missing table, and the converted rows stay in the spare table. */
  lemma RerunIsStuck<C>(f: Arithmetic, db: Db<C>)
    requires db.main.Some?
    ensures var stopped := Script(f, db, UP[..6]).0;
            stopped.spare == Some(Table(false, Converted(f, db.main.value.rows)))
            && Script(f, stopped, UP) == (stopped, false)
  {
    UpPrefix(f, db, 6);
    var stopped := UpTo(f, db, 6);
    assert Execute(f, stopped, UP[0]) == Some(stopped);
    assert UP[1..][0] == Fill;
    assert Execute(f, stopped, Fill) == None;
  }

  function AmountAt<C>(db: Db<C>, i: nat): Option<Amount> {
    if db.main.Some? && i < |db.main.value.rows| then Some(db.main.value.rows[i].amount) else None
  }

  /** Stopped after the rename, a second run succeeds and keeps an amount exactly when it is zero. */
  lemma RerunAfterRenameScalesAgain<C>(f: Arithmetic, db: Db<C>, k: nat, i: nat)
    requires Admissible(f) && db.main.Some? && 7 <= k <= 8 && i < |db.main.value.rows|
    ensures var once, twice := AmountAt(Script(f, db, UP).0, i), AmountAt(Script(f, Script(f, db, UP[..k]).0, UP).0, i);
            once.Some? && twice.Some? && (twice == once <==> once == Some(Whole(0)))
  {
    UpPrefix(f, db, k);
    UpConverts(f, db);
    UpConverts(f, UpTo(f, db, k));
    var n := Scaled(f, db.main.value.rows[i].amount);
    ScalingMoves(f, n);
  }

  lemma ScalingMoves(f: Arithmetic, n: int)
    requires Admissible(f)
    ensures Scaled(f, Whole(n)) == n <==> n == 0
  {
    var m := n * STROOPS_PER_XLM;
    var x := f.cast(m);
    assert Close(m as real, x);
    assert m as real == n as real * 10000000.0;
    assert Abs(f.round(x) as real - x) <= 0.5;
    if n != 0 {
      assert Abs(n as real) >= 1.0;
      assert Abs(x - n as real) > 0.5;
    }
  }

  /** `down` divides every amount and keeps every other column and row. */
  lemma DownConverts<C>(f: Arithmetic, db: Db<C>)
    requires db.main.Some?
    ensures Script(f, db, DOWN) == (Db(Some(Table(false, RolledBack(f, db.main.value.rows))), None), true)
  {
    var rows := db.main.value.rows;
    assert [] + RolledBack(f, rows) == RolledBack(f, rows);
    var done := Some(Table(false, RolledBack(f, rows)));
    var d1 := db.(spare := None);
    var d2 := d1.(spare := Some(Table(false, [])));
    var d3 := d2.(spare := done);
    assert Execute(f, db, DOWN[0]) == Some(d1);
    assert Execute(f, d1, DOWN[1]) == Some(d2);
    assert Execute(f, d2, DOWN[2]) == Some(d3);
    assert Execute(f, d3, DOWN[3]) == Some(Db(None, done));
    assert Execute(f, Db(None, done), DOWN[4]) == Some(Db(done, None));
    assert Execute(f, Db(done, None), DOWN[5]) == Some(Db(done, None));
    ScriptSix(f, db, d1, d2, d3, Db(None, done), Db(done, None));
  }

  lemma ScriptSix<C>(f: Arithmetic, d0: Db<C>, d1: Db<C>, d2: Db<C>, d3: Db<C>, d4: Db<C>, d5: Db<C>)
    requires Execute(f, d0, DOWN[0]) == Some(d1) && Execute(f, d1, DOWN[1]) == Some(d2)
    requires Execute(f, d2, DOWN[2]) == Some(d3) && Execute(f, d3, DOWN[3]) == Some(d4)
    requires Execute(f, d4, DOWN[4]) == Some(d5) && Execute(f, d5, DOWN[5]) == Some(d5)
    ensures Script(f, d0, DOWN) == (d5, true)
  {
    assert Script(f, d5, DOWN[6..]) == (d5, true);
    assert DOWN[5..][1..] == DOWN[6..];
    assert Script(f, d5, DOWN[5..]) == (d5, true);
    assert DOWN[4..][1..] == DOWN[5..];
    assert Script(f, d4, DOWN[4..]) == (d5, true);
    assert DOWN[3..][1..] == DOWN[4..];
    assert Script(f, d3, DOWN[3..]) == (d5, true);
    assert DOWN[2..][1..] == DOWN[3..];
    assert Script(f, d2, DOWN[2..]) == (d5, true);
    assert DOWN[1..][1..] == DOWN[2..];
    assert Script(f, d1, DOWN[1..]) == (d5, true);
  }

  /** A migrated table: whole amounts and no leftover column. */
  predicate Migrated<C>(t: Table<C>) {
    !t.hasStroops && forall i :: 0 <= i < |t.rows| ==> t.rows[i].amount.Whole? && t.rows[i].stroops.None?
  }

  function DownThenUp<C>(f: Arithmetic, db: Db<C>): (Db<C>, bool) { Script(f, Script(f, db, DOWN).0, UP) }

  lemma DownThenUpRow<C>(f: Arithmetic, db: Db<C>)
    requires db.main.Some? && Migrated(db.main.value)
    ensures var r := DownThenUp(f, db);
            r.1 && r.0.spare == None && r.0.main.Some? && !r.0.main.value.hasStroops
            && |r.0.main.value.rows| == |db.main.value.rows|
            && forall i :: 0 <= i < |db.main.value.rows| ==>
                 r.0.main.value.rows[i] == Row(db.main.value.rows[i].columns,
                                               Whole(ToStroops(f, ToXlm(f, db.main.value.rows[i].amount.n))), None)
  {
    DownConverts(f, db);
    UpConverts(f, Script(f, db, DOWN).0);
  }

  predicate AllSafe<C>(rows: seq<Row<C>>)
    requires forall i :: 0 <= i < |rows| ==> rows[i].amount.Whole?
  {
    forall i :: 0 <= i < |rows| ==> -SAFE < rows[i].amount.n < SAFE
  }

  /** Rolling a whole table down and up gives the same table back, under every admissible
      arithmetic, exactly when all its amounts are below 2^51 in size. */
  lemma TableRoundTripIff<C>(db: Db<C>)
    requires db.main.Some? && Migrated(db.main.value)
    ensures (forall f :: Admissible(f) ==> DownThenUp(f, db) == (Db(db.main, None), true))
            <==> AllSafe(db.main.value.rows)
  {
    var rows := db.main.value.rows;
    if AllSafe(rows) {
      forall f | Admissible(f) ensures DownThenUp(f, db) == (Db(db.main, None), true) {
        TableRoundTrip(f, db);
      }
    } else {
      var i :| 0 <= i < |rows| && !(-SAFE < rows[i].amount.n < SAFE);
      UpwardIsAdmissible();
      UpwardMisses(rows[i].amount.n);
      DownThenUpRow(Upward(), db);
      assert DownThenUp(Upward(), db).0.main.value.rows[i] != rows[i];
    }
  }

  lemma TableRoundTrip<C>(f: Arithmetic, db: Db<C>)
    requires Admissible(f) && db.main.Some? && Migrated(db.main.value) && AllSafe(db.main.value.rows)
    ensures DownThenUp(f, db) == (Db(db.main, None), true)
  {
    var rows := db.main.value.rows;
    DownThenUpRow(f, db);
    var got := DownThenUp(f, db).0.main.value.rows;
    forall i | 0 <= i < |rows| ensures got[i] == rows[i] {
      RoundTripWithin(f, rows[i].amount.n);
    }
    assert got == rows;
  }

  // --------------------------------------------------------------- the migration in place

  class Migration<C> {
    var main: Option<Table<C>>
    var spare: Option<Table<C>>

    ghost function State(): Db<C>
      reads this
    {
      Db(main, spare)
    }

    constructor (db: Db<C>)
      ensures State() == db
    {
      main, spare := db.main, db.spare;
    }

    /** UPDATE … SET amount_stroops, row by row. */
    method FillRows(f: Arithmetic)
      requires main.Some? && main.value.hasStroops
      modifies this
      ensures Some(State()) == Execute(f, old(State()), Fill)
    {
      var rows := main.value.rows;
      for i := 0 to |rows|
        invariant |rows| == |main.value.rows|
        invariant rows == Filled(f, main.value.rows)[..i] + main.value.rows[i..]
      {
        rows := rows[i := rows[i].(stroops := Some(Scaled(f, rows[i].amount)))];
      }
      assert rows == Filled(f, main.value.rows);
      main := Some(Table(true, rows));
    }

    /** INSERT INTO the new table … SELECT, row by row. */
    method CopyRows(f: Arithmetic, up: bool)
      requires main.Some? && spare.Some? && (up ==> main.value.hasStroops && NoNulls(main.value.rows))
      modifies this
      ensures Some(State()) == Execute(f, old(State()), if up then CopyStroops else CopyXlm)
    {
      var rows, copied := main.value.rows, spare.value.rows;
      ghost var all := if up then Rebuilt(rows) else RolledBack(f, rows);
      for i := 0 to |rows|
        invariant main == old(main) && spare == old(spare)
        invariant copied == spare.value.rows + all[..i]
      {
        var amount := if up then Whole(rows[i].stroops.value) else Xlm(Unscaled(f, rows[i].amount));
        copied := copied + [Row(rows[i].columns, amount, None)];
        assert all[..i + 1] == all[..i] + [all[i]];
      }
      assert all[..|rows|] == all;
      spare := Some(Table(false, copied));
    }

    /** Run one statement; false when it throws, leaving the database as it was. */
    method Perform(f: Arithmetic, s: Statement) returns (ok: bool)
      modifies this
      ensures ok <==> Execute(f, old(State()), s).Some?
      ensures State() == if ok then Execute(f, old(State()), s).value else old(State())
    {
      ok := true;
      match s
      case AddColumn => if main.Some? { main := Some(main.value.(hasStroops := true)); }
      case Fill => ok := main.Some? && main.value.hasStroops; if ok { FillRows(f); }
      case DropSpare => spare := None;
      case CreateSpare => ok := spare.None?; if ok { spare := Some(Table(false, [])); }
      case CopyStroops =>
        ok := main.Some? && main.value.hasStroops && spare.Some? && NoNulls(main.value.rows);
        if ok { CopyRows(f, true); }
      case CopyXlm => ok := main.Some? && spare.Some?; if ok { CopyRows(f, false); }
      case DropMain => ok := main.Some?; main := None;
      case Rename => ok := spare.Some? && main.None?; if ok { main, spare := spare, None; }
      case Index => ok := main.Some?;
    }

    /** Run a script to its end or to the first statement that throws. */
    method Apply(f: Arithmetic, script: seq<Statement>) returns (ok: bool)
      modifies this
      ensures (State(), ok) == Script(f, old(State()), script)
    {
      ok := true;
      var i := 0;
      while i < |script| && ok
        invariant 0 <= i <= |script|
        invariant ok ==> Script(f, State(), script[i..]) == Script(f, old(State()), script)
        invariant !ok ==> (State(), false) == Script(f, old(State()), script)
        decreases |script| - i, ok
      {
        ok := Perform(f, script[i]);
        assert script[i..][1..] == script[i + 1..];
        i := i + 1;
      }
    }
  }
}
