/**
 * The choices offered by the two selectors: the distinct genetic lines and
 * the distinct sexes of the consumption-to-weight table, each sorted in
 * ascending string order (character code by character code, a proper
 * prefix first).
 */
module SelectorOptions {
  import opened CoefficientTable
  import opened Wrappers

  /** Lexicographic strict order on strings. */
  predicate Less(a: string, b: string)
    decreases |a|
  {
    if |a| == 0 then |b| > 0
    else if |b| == 0 then false
    else a[0] < b[0] || (a[0] == b[0] && Less(a[1..], b[1..]))
  }

  lemma {:induction false} LessIrreflexive(a: string)
    ensures !Less(a, a)
    decreases |a|
  {
    if |a| > 0 {
      LessIrreflexive(a[1..]);
    }
  }

  lemma {:induction false} LessTransitive(a: string, b: string, c: string)
    requires Less(a, b) && Less(b, c)
    ensures Less(a, c)
    decreases |a|
  {
    if |a| > 0 && a[0] == b[0] && b[0] == c[0] {
      LessTransitive(a[1..], b[1..], c[1..]);
    }
  }

  /** Any two different strings are ordered one way or the other. */
  lemma {:induction false} LessTotal(a: string, b: string)
    requires a != b
    ensures Less(a, b) || Less(b, a)
    decreases |a|
  {
    if |a| > 0 && |b| > 0 && a[0] == b[0] {
      assert a == [a[0]] + a[1..] && b == [b[0]] + b[1..];
      LessTotal(a[1..], b[1..]);
    }
  }

  lemma {:induction false} LessAsymmetric(a: string, b: string)
    requires Less(a, b)
    ensures !Less(b, a)
  {
    if Less(b, a) {
      LessTransitive(a, b, a);
      LessIrreflexive(a);
    }
  }

  /** Ascending with no value twice. */
  predicate StrictlySorted(s: seq<string>)
  {
    forall i, j :: 0 <= i < j < |s| ==> Less(s[i], s[j])
  }

  /**
   * Adds `x` to a strictly sorted list at its place, unless it is already
   * there.
   */
  function Insert(x: string, s: seq<string>): (r: seq<string>)
    requires StrictlySorted(s)
    ensures StrictlySorted(r)
    ensures forall v :: v in r <==> v == x || v in s
    decreases |s|
  {
    if |s| == 0 then [x]
    else if x == s[0] then s
    else if Less(x, s[0]) then
      InsertBefore(x, s);
      [x] + s
    else
      LessTotal(x, s[0]);
      var rest := Insert(x, s[1..]);
      assert forall v :: v in rest ==> Less(s[0], v);
      [s[0]] + rest
  }

  /** Helper for `Insert`: a value below the head of a sorted list is below all of it. */
  lemma InsertBefore(x: string, s: seq<string>)
    requires StrictlySorted(s) && |s| > 0 && Less(x, s[0])
    ensures StrictlySorted([x] + s)
  {
    forall j | 0 < j < |s| ensures Less(x, s[j]) {
      LessTransitive(x, s[0], s[j]);
    }
  }

  /** `sorted(unique(values))`: the distinct values in ascending order. */
  function SortedUnique(values: seq<string>): (r: seq<string>)
    ensures StrictlySorted(r)
    ensures forall v :: v in r <==> v in values
    decreases |values|
  {
    if |values| == 0 then []
    else
      var r := Insert(values[|values| - 1], SortedUnique(values[..|values| - 1]));
      assert values == values[..|values| - 1] + [values[|values| - 1]];
      r
  }

  /** In a strictly sorted list, the tail holds every value but the head. */
  lemma TailMembers(s: seq<string>, v: string)
    requires StrictlySorted(s) && |s| > 0
    ensures v in s[1..] <==> v in s && v != s[0]
  {
    if v in s[1..] {
      var k :| 0 <= k < |s[1..]| && s[1..][k] == v;
      assert Less(s[0], s[k + 1]);
      LessIrreflexive(v);
    }
    if v in s && v != s[0] {
      var k :| 0 <= k < |s| && s[k] == v;
      assert s[1..][k - 1] == v;
    }
  }

  /** Two strictly sorted lists with the same values are the same list. */
  lemma {:induction false} StrictlySortedUnique(s: seq<string>, t: seq<string>)
    requires StrictlySorted(s) && StrictlySorted(t)
    requires forall v :: v in s <==> v in t
    ensures s == t
    decreases |s|
  {
    assert |s| > 0 ==> s[0] in s;
    assert |t| > 0 ==> t[0] in t;
    if |s| > 0 && |t| > 0 {
      // each head is the least value of its list, and both lists hold both heads
      assert t[0] == s[0] || Less(s[0], t[0]);
      assert s[0] == t[0] || Less(t[0], s[0]);
      if s[0] != t[0] {
        LessAsymmetric(s[0], t[0]);
        assert false;
      }
      forall v ensures v in s[1..] <==> v in t[1..] {
        TailMembers(s, v);
        TailMembers(t, v);
      }
      StrictlySortedUnique(s[1..], t[1..]);
    }
  }

  /** The genetic lines offered: each line in the table once, ascending. */
  function Razas(table: Table): (r: seq<string>)
    ensures StrictlySorted(r)
    ensures forall v :: v in r <==> exists i :: 0 <= i < |table| && table[i].raza == v
  {
    var col := seq(|table|, i requires 0 <= i < |table| => table[i].raza);
    assert forall i :: 0 <= i < |table| ==> col[i] == table[i].raza;
    assert forall v :: v in col <==> exists i :: 0 <= i < |table| && table[i].raza == v by {
      forall v | v in col ensures exists i :: 0 <= i < |table| && table[i].raza == v {
        var i :| 0 <= i < |col| && col[i] == v;
      }
    }
    SortedUnique(col)
  }

  /** The sexes offered: each sex in the table once, ascending. */
  function Sexos(table: Table): (r: seq<string>)
    ensures StrictlySorted(r)
    ensures forall v :: v in r <==> exists i :: 0 <= i < |table| && table[i].sexo == v
  {
    var col := seq(|table|, i requires 0 <= i < |table| => table[i].sexo);
    assert forall i :: 0 <= i < |table| ==> col[i] == table[i].sexo;
    assert forall v :: v in col <==> exists i :: 0 <= i < |table| && table[i].sexo == v by {
      forall v | v in col ensures exists i :: 0 <= i < |table| && table[i].sexo == v {
        var i :| 0 <= i < |col| && col[i] == v;
      }
    }
    SortedUnique(col)
  }

  /**
   * The option lists are determined by the set of values alone: any
   * strictly sorted list holding exactly the table's genetic lines is the
   * list offered, whatever the row order of the table.
   */
  lemma RazasCanonical(table: Table, s: seq<string>)
    requires StrictlySorted(s)
    requires forall v :: v in s <==> exists i :: 0 <= i < |table| && table[i].raza == v
    ensures Razas(table) == s
  {
    StrictlySortedUnique(Razas(table), s);
  }

  /**
   * The two lists are offered independently, so a line and a sex that are
   * both on offer need not form a key of the table: with rows (A, H) and
   * (B, M), choosing A and M finds no coefficients.
   */
  lemma SelectablePairMayBeMissing()
    ensures var table := [Row("A", "H", 0.0, 0.0, 0.0, 0.0, 1.0), Row("B", "M", 0.0, 0.0, 0.0, 0.0, 2.0)];
            && "A" in Razas(table) && "M" in Sexos(table)
            && Lookup(table, "A", "M") == None
  {
    var table := [Row("A", "H", 0.0, 0.0, 0.0, 0.0, 1.0), Row("B", "M", 0.0, 0.0, 0.0, 0.0, 2.0)];
    assert table[0].raza == "A";
    assert table[1].sexo == "M";
    assert !Matches(table[0], "A", "M") && !Matches(table[1], "A", "M");
  }
}
