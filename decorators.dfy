/** The pure parts of decorators.py: `factorial`, what the `profile`
    wrapper hands back to its caller, and the duplicate check's wrapper. */
module Decorators {
  import opened Wrappers
  import opened Strings

  // ---------------------------------------------------------------------
  // factorial

  /** `factorial(n)` for a non-negative `n`. */
  function Factorial(n: nat): (r: nat)
    ensures r >= 1 && r >= n
    ensures n <= 1 ==> r == 1
  {
    if n == 0 || n == 1 then 1
    else
      var f := Factorial(n - 1);
      assert n * f >= n;
      n * f
  }

  /** The product `lo * (lo + 1) * ... * hi`, 1 when empty. */
  function Product(lo: nat, hi: nat): nat
    decreases hi - lo
  {
    if lo > hi then 1 else lo * Product(lo + 1, hi)
  }

  lemma {:induction false} ProductSplit(lo: nat, hi: nat)
    requires 1 <= lo <= hi
    ensures Product(lo, hi) == Product(lo, hi - 1) * hi
    decreases hi - lo
  {
    if lo < hi {
      ProductSplit(lo + 1, hi);
      var p := Product(lo + 1, hi - 1);
      assert Product(lo, hi) == lo * (p * hi);
      assert Product(lo, hi - 1) == lo * p;
      MulAssoc(lo, p, hi);
    } else {
      assert Product(lo, hi) == lo * 1;
    }
  }

  lemma MulAssoc(a: int, b: int, c: int)
    ensures a * (b * c) == (a * b) * c
    ensures a * (b * c) == b * (a * c)
  {
  }

  /** `factorial(n)` is `n!`, the product `1 * 2 * ... * n`. */
  lemma {:induction false} FactorialIsProduct(n: nat)
    ensures Factorial(n) == Product(1, n)
  {
    if n >= 2 {
      FactorialIsProduct(n - 1);
      ProductSplit(1, n);
    } else if n == 1 {
      assert Product(1, 1) == 1 * Product(2, 1);
    }
  }

  /** Every `k` from 1 to `n` divides `factorial(n)`. */
  lemma {:induction false} FactorialDivisible(n: nat, k: nat)
    requires 1 <= k <= n
    ensures exists m :: Factorial(n) == k * m
  {
    if k == n {
      if n == 1 {
        assert Factorial(n) == k * 1;
      } else {
        assert Factorial(n) == k * Factorial(n - 1);
      }
    } else {
      FactorialDivisible(n - 1, k);
      var m :| Factorial(n - 1) == k * m;
      assert Factorial(n) == n * (k * m);
      MulAssoc(n, k, m);
    }
  }

  // ---------------------------------------------------------------------
  // profile

  /** What the wrapper returns: the wrapped function's own result, or, in
      'return' mode without `return_result`, the report dictionary (here
      only the function's name and result; the measurements are left out). */
  datatype Profiled<R> = Plain(value: R) | Report(functionName: string, returned: R)

  /** `inner_wrapper` after the call: an exception of the wrapped function is
      raised again; otherwise the mode decides what comes back. In 'file'
      mode and for an unknown mode the result is returned after the output. */
  function Profile<R>(outputMode: string, returnResult: bool, name: string, call: Result<R>): (r: Result<Profiled<R>>)
    ensures call.Failure? ==> r == Failure(call.error)
    ensures call.Success? && outputMode == "return" && !returnResult ==>
      r == Success(Report(name, call.value))
    ensures call.Success? && (outputMode != "return" || returnResult) ==>
      r == Success(Plain(call.value))
  {
    match call
    case Failure(e) => Failure(e)
    case Success(v) =>
      if outputMode == "return" && !returnResult then Success(Report(name, v)) else Success(Plain(v))
  }

  /** In 'stdout' mode the wrapper is transparent: the caller gets exactly
      what the wrapped function returned or raised. */
  lemma StdoutTransparent<R>(returnResult: bool, name: string, call: Result<R>)
    ensures Profile("stdout", returnResult, name, call) ==
      match call
      case Success(v) => Success(Plain(v))
      case Failure(e) => Failure(e)
  {
    assert "stdout" != "return" by {
      assert "stdout"[0] != "return"[0];
    }
  }

  // ---------------------------------------------------------------------
  // check_duplicate_data

  /** `f"{col} = ?"` for every column. */
  function Conditions(cols: seq<string>): (cs: seq<string>)
    ensures |cs| == |cols|
    ensures forall i :: 0 <= i < |cols| ==> cs[i] == cols[i] + " = ?"
  {
    if cols == [] then [] else [cols[0] + " = ?"] + Conditions(cols[1..])
  }

  /** `" AND ".join(f"{col} = ?" for col in unique_columns)` */
  function WhereClause(cols: seq<string>): string
  {
    Join(Conditions(cols), " AND ")
  }

  function Query(table: string, cols: seq<string>): string
  {
    "SELECT COUNT(*) FROM " + table + " WHERE " + WhereClause(cols)
  }

  /** The number of occurrences of `c` in `s`. */
  function Occurrences(s: string, c: char): nat
  {
    if s == [] then 0 else (if s[0] == c then 1 else 0) + Occurrences(s[1..], c)
  }

  lemma {:induction false} OccurrencesAppend(a: string, b: string, c: char)
    ensures Occurrences(a + b, c) == Occurrences(a, c) + Occurrences(b, c)
    decreases |a|
  {
    if a == [] {
      assert a + b == b;
    } else {
      assert (a + b)[1..] == a[1..] + b;
      OccurrencesAppend(a[1..], b, c);
    }
  }

  /** Joining strings with a separator free of `c` adds up their counts. */
  lemma {:induction false} OccurrencesJoin(ws: seq<string>, sep: string, c: char)
    requires Occurrences(sep, c) == 0
    ensures Occurrences(Join(ws, sep), c) ==
      (if ws == [] then 0 else Occurrences(ws[0], c) + Occurrences(Join(ws[1..], sep), c))
    decreases |ws|
  {
    if |ws| >= 2 {
      OccurrencesAppend(ws[0] + sep, Join(ws[1..], sep), c);
      OccurrencesAppend(ws[0], sep, c);
    } else if |ws| == 1 {
      assert ws[1..] == [];
    }
  }

  /** Without `'?'` in the column names, the WHERE clause has one placeholder
      per column, as many as the values passed to `cursor.execute`. */
  lemma {:induction false} Placeholders(cols: seq<string>)
    requires forall i :: 0 <= i < |cols| ==> Occurrences(cols[i], '?') == 0
    ensures Occurrences(WhereClause(cols), '?') == |cols|
    decreases |cols|
  {
    if cols != [] {
      assert Occurrences(" AND ", '?') == 0;
      assert Occurrences(" = ?", '?') == 1;
      OccurrencesJoin(Conditions(cols), " AND ", '?');
      OccurrencesAppend(cols[0], " = ?", '?');
      assert Conditions(cols)[1..] == Conditions(cols[1..]);
      Placeholders(cols[1..]);
    }
  }

  /** `[kwargs[col] for col in unique_columns]`, or the `KeyError` of the
      first column without a keyword argument. */
  function UniqueValues<V>(kwargs: map<string, V>, cols: seq<string>): (r: Result<seq<V>>)
    ensures r.Failure? <==> exists i :: 0 <= i < |cols| && cols[i] !in kwargs
    ensures r.Failure? ==> r.error == KeyError
    ensures r.Success? ==> |r.value| == |cols|
    ensures r.Success? ==> forall i :: 0 <= i < |cols| ==> r.value[i] == kwargs[cols[i]]
  {
    if cols == [] then Success([])
    else if cols[0] !in kwargs then Failure(KeyError)
    else
      match UniqueValues(kwargs, cols[1..])
      case Failure(e) => Failure(e)
      case Success(vs) =>
        assert forall i :: 1 <= i < |cols| ==> cols[i] == cols[1..][i - 1];
        Success([kwargs[cols[0]]] + vs)
  }

  /** Every column has a keyword argument, so the values can be gathered. */
  predicate AllGiven<V>(kwargs: map<string, V>, cols: seq<string>)
  {
    forall i :: 0 <= i < |cols| ==> cols[i] in kwargs
  }

  /** The `wrapper` of `check_duplicate_data(table, cols)` around a call
      whose outcome is `call`. The database is `countRows`: the number that
      `SELECT COUNT(*)` reports for a query and its parameters. */
  function CheckDuplicateData<V, R>(table: string, cols: seq<string>, kwargs: map<string, V>,
                                    countRows: (string, seq<V>) -> nat, call: Result<R>): (r: Result<R>)
    ensures !AllGiven(kwargs, cols) ==> r == Failure(KeyError)
    ensures AllGiven(kwargs, cols) ==>
      var n := countRows(Query(table, cols), UniqueValues(kwargs, cols).value);
      (n > 0 ==> r == Failure(ValueError)) && (n == 0 ==> r == call)
  {
    match UniqueValues(kwargs, cols)
    case Failure(e) => Failure(e)
    case Success(values) =>
      var count := countRows(Query(table, cols), values);
      if count > 0 then Failure(ValueError) else call
  }

  /** The wrapped call's outcome comes back for every wrapped call exactly
      when every column has a keyword argument and no row matches them;
      otherwise the wrapper raises, whatever the call would have done. */
  lemma CallGoesThrough<V, R>(table: string, cols: seq<string>, kwargs: map<string, V>,
                              countRows: (string, seq<V>) -> nat, call: Result<R>, other: Result<R>)
    requires call != other
    ensures (CheckDuplicateData(table, cols, kwargs, countRows, call) == call &&
             CheckDuplicateData(table, cols, kwargs, countRows, other) == other) <==>
            (AllGiven(kwargs, cols) && countRows(Query(table, cols), UniqueValues(kwargs, cols).value) == 0)
    ensures CheckDuplicateData(table, cols, kwargs, countRows, call) != call ==>
            CheckDuplicateData(table, cols, kwargs, countRows, call) in {Failure(KeyError), Failure(ValueError)}
  {
  }

  /** The query the wrapper sends has one placeholder per value it passes,
      and the values are the columns' keyword arguments in column order. */
  lemma {:induction false} QueryMatchesValues<V>(table: string, cols: seq<string>, kwargs: map<string, V>)
    requires AllGiven(kwargs, cols)
    requires Occurrences(table, '?') == 0
    requires forall i :: 0 <= i < |cols| ==> Occurrences(cols[i], '?') == 0
    ensures Occurrences(Query(table, cols), '?') == |UniqueValues(kwargs, cols).value|
    ensures forall i :: 0 <= i < |cols| ==> UniqueValues(kwargs, cols).value[i] == kwargs[cols[i]]
  {
    QueryOccurrences(table, cols);
    Placeholders(cols);
  }

  /** Only the table name and the WHERE clause can hold placeholders. */
  lemma QueryOccurrences(table: string, cols: seq<string>)
    ensures Occurrences(Query(table, cols), '?') == Occurrences(table, '?') + Occurrences(WhereClause(cols), '?')
  {
    QueryTextFree();
    OccurrencesOfFour("SELECT COUNT(*) FROM ", table, " WHERE ", WhereClause(cols), '?');
  }

  lemma OccurrencesOfFour(a: string, b: string, c: string, d: string, ch: char)
    ensures Occurrences(a + b + c + d, ch) ==
      Occurrences(a, ch) + Occurrences(b, ch) + Occurrences(c, ch) + Occurrences(d, ch)
  {
    OccurrencesAppend(a, b, ch);
    OccurrencesAppend(a + b, c, ch);
    OccurrencesAppend(a + b + c, d, ch);
  }

  /** The fixed text of the query holds no placeholder. */
  lemma QueryTextFree()
    ensures Occurrences("SELECT COUNT(*) FROM ", '?') == 0
    ensures Occurrences(" WHERE ", '?') == 0
  {
    SelectFree();
    NoOccurrences("SELECT COUNT(*) FROM ", '?');
    WhereFree();
    NoOccurrences(" WHERE ", '?');
  }

  lemma SelectFree()
    ensures '?' !in "SELECT COUNT(*) FROM "
  {
  }

  lemma WhereFree()
    ensures '?' !in " WHERE "
  {
  }

  lemma {:induction false} NoOccurrences(s: string, c: char)
    requires c !in s
    ensures Occurrences(s, c) == 0
    decreases |s|
  {
    if s != [] {
      assert c !in s[1..];
      NoOccurrences(s[1..], c);
    }
  }
}
