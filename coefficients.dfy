/**
 * A coefficient table: rows keyed by genetic line (RAZA) and sex (SEXO),
 * each holding the five coefficients `coef_0 .. coef_4` of a degree-4
 * regression polynomial, where `coef_k` multiplies `x^k`. The table keeps
 * the order of its source, and it may hold a key more than once.
 */
module CoefficientTable {
  import opened Wrappers
  import opened Polynomial

  datatype Row = Row(
    raza: string,
    sexo: string,
    coef0: real,
    coef1: real,
    coef2: real,
    coef3: real,
    coef4: real)

  type Table = seq<Row>

  /** The column `coef_k` of a row. */
  function Coef(row: Row, k: nat): real
    requires k <= 4
  {
    match k
    case 0 => row.coef0
    case 1 => row.coef1
    case 2 => row.coef2
    case 3 => row.coef3
    case _ => row.coef4
  }

  /** The row filter: both RAZA and SEXO equal the requested pair. */
  predicate Matches(row: Row, raza: string, sexo: string)
  {
    row.raza == raza && row.sexo == sexo
  }

  /**
   * The coefficients of a row as a list for `np.polyval`: `coef_4` first,
   * `coef_0` last, so position `4 - k` holds `coef_k`.
   */
  function Coeffs(row: Row): (c: seq<real>)
    ensures |c| == 5
    ensures forall k :: 0 <= k <= 4 ==> c[4 - k] == Coef(row, k)
  {
    [row.coef4, row.coef3, row.coef2, row.coef1, row.coef0]
  }

  /**
   * Because of that order, evaluating the list multiplies each `coef_k`
   * by `x^k`.
   */
  lemma CoeffsPowers(row: Row, x: real)
    ensures Horner(Coeffs(row), x)
         == Coef(row, 4) * Pow(x, 4) + Coef(row, 3) * Pow(x, 3) + Coef(row, 2) * Pow(x, 2)
            + Coef(row, 1) * Pow(x, 1) + Coef(row, 0) * Pow(x, 0)
  {
    HornerDegree4(row.coef4, row.coef3, row.coef2, row.coef1, row.coef0, x);
    assert Pow(x, 1) == x;
  }

  /**
   * The rows of the table that match the pair, in table order: the
   * boolean-mask selection the lookup starts from. Its head is the first
   * matching row, and it is no longer than the table.
   */
  function Selection(table: Table, raza: string, sexo: string): (s: Table)
    ensures forall r :: r in s ==> r in table && Matches(r, raza, sexo)
    ensures forall i :: 0 <= i < |table| && Matches(table[i], raza, sexo) ==> table[i] in s
    ensures |s| <= |table|
    ensures forall i :: IsFirstMatch(table, raza, sexo, i) ==> |s| > 0 && s[0] == table[i]
    decreases |table|
  {
    if |table| == 0 then []
    else if Matches(table[0], raza, sexo) then [table[0]] + Selection(table[1..], raza, sexo)
    else
      var rest := Selection(table[1..], raza, sexo);
      assert forall i :: IsFirstMatch(table, raza, sexo, i) ==> IsFirstMatch(table[1..], raza, sexo, i - 1);
      rest
  }

  /**
   * The selection of two tables laid end to end is the selection of the
   * first followed by that of the second. With the membership and length
   * clauses of `Selection` (which settle a one-row table), this fixes the
   * selection's order and the number of times each row appears.
   */
  lemma {:induction false} SelectionAppend(table: Table, more: Table, raza: string, sexo: string)
    ensures Selection(table + more, raza, sexo) == Selection(table, raza, sexo) + Selection(more, raza, sexo)
    decreases |table|
  {
    if |table| == 0 {
      assert table + more == more;
    } else {
      assert (table + more)[1..] == table[1..] + more;
      SelectionAppend(table[1..], more, raza, sexo);
    }
  }

  /** `i` is the position of the first row that matches the pair. */
  predicate IsFirstMatch(table: Table, raza: string, sexo: string, i: int)
  {
    && 0 <= i < |table|
    && Matches(table[i], raza, sexo)
    && forall j :: 0 <= j < i ==> !Matches(table[j], raza, sexo)
  }

  /**
   * The coefficient lookup: the coefficients of the first matching row, or
   * `None` when no row matches (taking the first row of an empty selection
   * raises in the source).
   */
  function Lookup(table: Table, raza: string, sexo: string): (r: Option<seq<real>>)
    ensures r.None? <==> forall i :: 0 <= i < |table| ==> !Matches(table[i], raza, sexo)
    ensures r.Some? ==> |r.value| == 5
    decreases |table|
  {
    if |table| == 0 then None
    else if Matches(table[0], raza, sexo) then Some(Coeffs(table[0]))
    else
      var rest := Lookup(table[1..], raza, sexo);
      assert forall i :: 1 <= i < |table| ==> table[i] == table[1..][i - 1];
      rest
  }

  /** The lookup returns exactly the coefficients of the first matching row. */
  lemma {:induction false} LookupFirstMatch(table: Table, raza: string, sexo: string, i: int)
    requires IsFirstMatch(table, raza, sexo, i)
    ensures Lookup(table, raza, sexo) == Some(Coeffs(table[i]))
    decreases i
  {
    if i > 0 {
      assert !Matches(table[0], raza, sexo);
      LookupFirstMatch(table[1..], raza, sexo, i - 1);
    }
  }

  /** Conversely, a successful lookup comes from a first matching row. */
  lemma {:induction false} LookupFound(table: Table, raza: string, sexo: string)
    requires Lookup(table, raza, sexo).Some?
    ensures exists i :: IsFirstMatch(table, raza, sexo, i)
                     && Lookup(table, raza, sexo).value == Coeffs(table[i])
    decreases |table|
  {
    if !Matches(table[0], raza, sexo) {
      LookupFound(table[1..], raza, sexo);
      var i :| IsFirstMatch(table[1..], raza, sexo, i)
            && Lookup(table[1..], raza, sexo).value == Coeffs(table[1..][i]);
      assert IsFirstMatch(table, raza, sexo, i + 1);
    } else {
      assert IsFirstMatch(table, raza, sexo, 0);
    }
  }

  /**
   * The lookup takes the head of the selection (`iloc[0]`): `None` exactly
   * when the selection is empty.
   */
  lemma {:induction false} LookupIsHeadOfSelection(table: Table, raza: string, sexo: string)
    ensures Lookup(table, raza, sexo)
         == if |Selection(table, raza, sexo)| == 0 then None
            else Some(Coeffs(Selection(table, raza, sexo)[0]))
    decreases |table|
  {
    if |table| > 0 && !Matches(table[0], raza, sexo) {
      LookupIsHeadOfSelection(table[1..], raza, sexo);
    }
  }

  /**
   * Rows after a match never influence the lookup: appending rows, even
   * further rows with the same key, leaves a successful lookup unchanged.
   */
  lemma {:induction false} LookupIgnoresLaterRows(table: Table, more: Table, raza: string, sexo: string)
    requires Lookup(table, raza, sexo).Some?
    ensures Lookup(table + more, raza, sexo) == Lookup(table, raza, sexo)
    decreases |table|
  {
    if !Matches(table[0], raza, sexo) {
      assert (table + more)[1..] == table[1..] + more;
      LookupIgnoresLaterRows(table[1..], more, raza, sexo);
    }
  }
}
