/** The Fibonacci-variant circuit: one advice column holding the sequence
    x_{i+3} = x_i * x_{i+1} + x_{i+1} * x_{i+2}, one selector switching the
    gate that checks it, and one instance column carrying the three seeds and
    the final term. */
module Fibonacci {
  import opened Wrappers
  import opened Field
  import opened Plonk

  /** Three consecutive advice cells: the rolling `a_cell`, `b_cell`, `c_cell`. */
  datatype Window = Window(a: Fe, b: Fe, c: Fe)

  /** The term that follows `a`, `b`, `c`. */
  function Next(a: Fe, b: Fe, c: Fe): Fe {
    Add(Mul(a, b), Mul(b, c))
  }

  /** The window one row further down. */
  function Shift(w: Window): Window {
    Window(w.b, w.c, Next(w.a, w.b, w.c))
  }

  /** The window after `k` applications of the recurrence to the seeds `w`. */
  function Iterate(w: Window, k: nat): Window {
    if k == 0 then w else Shift(Iterate(w, k - 1))
  }

  /** The seeds followed by the next `k` terms, built row after row as the
      table is filled. */
  function Terms(w: Window, k: nat): (t: seq<Fe>)
    ensures |t| == k + 3
  {
    if k == 0 then [w.a, w.b, w.c]
    else
      var t := Terms(w, k - 1);
      t + [Next(t[k - 1], t[k], t[k + 1])]
  }

  // ---------------------------------------------------------------------
  // Configuration: the gate `s * (a*b + b*c - d)`

  /** `FibonacciChip::configure`: the single gate "add", reading the advice
      column at rotations 0, 1, 2 and 3. */
  function Configure(): (g: Gate)
    ensures Queries(g.poly) == {0, 1, 2, 3}
  {
    Gate("add",
      Product(Selector,
        Sum(Sum(Product(Advice(0), Advice(1)), Product(Advice(1), Advice(2))),
            Negated(Advice(3)))))
  }

  /** The four cells the gate reads from `row` on are all assigned. */
  predicate WindowAssigned(advice: seq<Option<Fe>>, row: nat) {
    && Assigned(advice, row) && Assigned(advice, row + 1)
    && Assigned(advice, row + 2) && Assigned(advice, row + 3)
  }

  /** The four cells the gate reads from `row` on are assigned and the last
      one follows the other three by the recurrence. */
  ghost predicate RecurrenceAt(advice: seq<Option<Fe>>, row: nat) {
    && WindowAssigned(advice, row)
    && advice[row + 3].value == Next(advice[row].value, advice[row + 1].value, advice[row + 2].value)
  }

  /** The value of the gate on a row whose four cells are assigned. */
  lemma GateValue(advice: seq<Option<Fe>>, row: nat, on: bool)
    requires WindowAssigned(advice, row)
    ensures Eval(Configure().poly, advice, row, on)
         == Some(Mul(if on then One else Zero,
                     Add(Next(advice[row].value, advice[row + 1].value, advice[row + 2].value),
                         Neg(advice[row + 3].value))))
  {
    var a, b, c, d := advice[row].value, advice[row + 1].value, advice[row + 2].value, advice[row + 3].value;
    var ab, bc := Product(Advice(0), Advice(1)), Product(Advice(1), Advice(2));
    assert Eval(ab, advice, row, on) == Some(Mul(a, b));
    assert Eval(bc, advice, row, on) == Some(Mul(b, c));
    assert Eval(Sum(ab, bc), advice, row, on) == Some(Next(a, b, c));
    assert Eval(Negated(Advice(3)), advice, row, on) == Some(Neg(d));
  }

  /** On an active row the gate vanishes exactly when the recurrence holds
      there; a query of an unassigned cell is a failure either way. */
  lemma GateVanishesIff(advice: seq<Option<Fe>>, row: nat)
    ensures Eval(Configure().poly, advice, row, true) == Some(Zero) <==> RecurrenceAt(advice, row)
  {
    var poly := Configure().poly;
    if WindowAssigned(advice, row) {
      GateValue(advice, row, true);
      var x := Add(Next(advice[row].value, advice[row + 1].value, advice[row + 2].value), Neg(advice[row + 3].value));
      assert Mul(One, x) == x;
      AddNegZeroIff(Next(advice[row].value, advice[row + 1].value, advice[row + 2].value), advice[row + 3].value);
    } else {
      EvalDefinedIff(poly, advice, row, true);
      if !Assigned(advice, row) {
        assert 0 in Queries(poly);
      } else if !Assigned(advice, row + 1) {
        assert 1 in Queries(poly);
      } else if !Assigned(advice, row + 2) {
        assert 2 in Queries(poly);
      } else {
        assert 3 in Queries(poly);
      }
    }
  }

  /** Where the selector is off the gate is zero whenever its cells are
      assigned: the constraint only binds on active rows. */
  lemma GateIdleWhenOff(advice: seq<Option<Fe>>, row: nat)
    requires WindowAssigned(advice, row)
    ensures Eval(Configure().poly, advice, row, false) == Some(Zero)
  {
    GateValue(advice, row, false);
  }

  // ---------------------------------------------------------------------
  // The recurrence

  /** Filling the table one more row keeps every earlier row. */
  lemma {:induction false} TermsPrefix(w: Window, j: nat, k: nat)
    requires j <= k
    ensures Terms(w, k)[..j + 3] == Terms(w, j)
  {
    if j < k {
      TermsPrefix(w, j, k - 1);
      assert Terms(w, k)[..k + 2] == Terms(w, k - 1);
      assert Terms(w, k)[..j + 3] == Terms(w, k)[..k + 2][..j + 3];
    }
  }

  /** Every term after the seeds follows the three before it. */
  lemma TermsRecurrence(w: Window, k: nat, r: nat)
    requires 3 <= r < k + 3
    ensures Terms(w, k)[r] == Next(Terms(w, k)[r - 3], Terms(w, k)[r - 2], Terms(w, k)[r - 1])
  {
    TermsPrefix(w, r - 2, k);
    var t := Terms(w, r - 2);
    assert Terms(w, k)[..r + 1] == t;
    assert t[r] == Terms(w, k)[r] && t[r - 1] == Terms(w, k)[r - 1];
    assert t[r - 2] == Terms(w, k)[r - 2] && t[r - 3] == Terms(w, k)[r - 3];
  }

  /** Rows `j`, `j+1`, `j+2` of the filled column hold the window after `j`
      steps: the table and the rolling cells agree. */
  lemma {:induction false} TermsWindow(w: Window, k: nat, j: nat)
    requires j <= k
    ensures Window(Terms(w, k)[j], Terms(w, k)[j + 1], Terms(w, k)[j + 2]) == Iterate(w, j)
  {
    TermsPrefix(w, j, k);
    assert Terms(w, k)[..j + 3] == Terms(w, j);
    assert Terms(w, k)[j] == Terms(w, j)[j];
    assert Terms(w, k)[j + 1] == Terms(w, j)[j + 1];
    assert Terms(w, k)[j + 2] == Terms(w, j)[j + 2];
    if j > 0 {
      TermsWindow(w, j - 1, j - 1);
      TermsPrefix(w, j - 1, j);
      assert Terms(w, j)[..j + 2] == Terms(w, j - 1);
      assert Terms(w, j)[j - 1] == Terms(w, j - 1)[j - 1];
      assert Terms(w, j)[j] == Terms(w, j - 1)[j];
      assert Terms(w, j)[j + 1] == Terms(w, j - 1)[j + 1];
    }
  }

  /** The last filled row holds the recurrence applied `k` times to the seeds. */
  lemma TermsLast(w: Window, k: nat)
    ensures Terms(w, k)[k + 2] == Iterate(w, k).c
  {
    TermsWindow(w, k, k);
  }

  /** Row `r` of `t` follows the three rows before it. */
  predicate StepAt(t: seq<Fe>, r: nat) {
    3 <= r < |t| && t[r] == Next(t[r - 3], t[r - 2], t[r - 1])
  }

  /** Every term of `t` after the first three follows the three before it. */
  ghost predicate FollowsRecurrence(t: seq<Fe>) {
    forall r :: 3 <= r < |t| ==> StepAt(t, r)
  }

  /** A prefix of a column that obeys the recurrence obeys it too. */
  lemma RecurrencePrefix(t: seq<Fe>, m: nat)
    requires m <= |t| && FollowsRecurrence(t)
    ensures FollowsRecurrence(t[..m])
  {
    var u := t[..m];
    forall r | 3 <= r < m ensures StepAt(u, r) {
      assert StepAt(t, r);
      assert u[r] == t[r] && u[r - 1] == t[r - 1] && u[r - 2] == t[r - 2] && u[r - 3] == t[r - 3];
    }
  }

  /** Any column that starts with three seeds and obeys the recurrence on
      every later row is the filled column: the recurrence leaves nothing to
      choose. */
  lemma {:induction false} RecurrenceDetermines(t: seq<Fe>)
    requires |t| >= 3 && FollowsRecurrence(t)
    ensures t == Terms(Window(t[0], t[1], t[2]), |t| - 3)
  {
    if |t| > 3 {
      var k := |t| - 3;
      var s := t[..k + 2];
      RecurrencePrefix(t, k + 2);
      RecurrenceDetermines(s);
      var w := Window(t[0], t[1], t[2]);
      assert Window(s[0], s[1], s[2]) == w;
      assert Terms(w, k - 1) == s;
      assert Terms(w, k) == s + [Next(s[k - 1], s[k], s[k + 1])];
      assert StepAt(t, k + 2);
      assert t == s + [t[k + 2]];
    }
  }

  // ---------------------------------------------------------------------
  // The table `assign` produces

  /** Rows of the region `assign` touches: the three seeds always, then up to
      `nrows`. */
  function Height(nrows: nat): nat {
    if nrows < 3 then 3 else nrows
  }

  /** The seeds read from instance rows 0, 1 and 2. */
  function Seeds(instance: seq<Fe>): Window {
    Window(InstanceAt(instance, 0), InstanceAt(instance, 1), InstanceAt(instance, 2))
  }

  /** Row 0 is switched on unconditionally, the others where `row < nrows - 3`. */
  predicate SelectorOn(nrows: nat, row: int) {
    row == 0 || row + 3 < nrows
  }

  function Selectors(nrows: nat, n: nat): seq<bool> {
    seq(n, r => SelectorOn(nrows, r))
  }

  /** The selector column part way through the enabling loop. */
  ghost function SelectorsBefore(nrows: nat, row: nat, n: nat): seq<bool> {
    seq(n, r => r == 0 || (r < row && r + 3 < nrows))
  }

  /** The advice column with its first `rows` rows filled from the seeds `w`. */
  function Column(w: Window, rows: nat, n: nat): seq<Option<Fe>>
    requires 3 <= rows
  {
    seq(n, i => if 0 <= i < rows then Some(Terms(w, rows - 3)[i]) else None)
  }

  const SeedCopies: seq<Copy> := [Copy(0, 0), Copy(1, 1), Copy(2, 2)]

  /** One more row of the column, holding the window's next term. */
  lemma ColumnStep(w: Window, row: nat, n: nat)
    requires 3 <= row < n
    ensures Column(w, row, n)[row := Some(Iterate(w, row - 2).c)] == Column(w, row + 1, n)
  {
    TermsPrefix(w, row - 3, row - 2);
    TermsLast(w, row - 2);
    var lhs := Column(w, row, n)[row := Some(Iterate(w, row - 2).c)];
    forall i | 0 <= i < n ensures lhs[i] == Column(w, row + 1, n)[i] {
      if i < row {
        assert Terms(w, row - 2)[..row] == Terms(w, row - 3);
        assert Terms(w, row - 2)[i] == Terms(w, row - 3)[i];
      }
    }
  }

  /** The three seeds written into a blank advice column. */
  lemma SeedsColumn(blank: seq<Option<Fe>>, w: Window)
    requires |blank| >= 3 && forall i :: 0 <= i < |blank| ==> blank[i] == None
    ensures blank[0 := Some(w.a)][1 := Some(w.b)][2 := Some(w.c)] == Column(w, 3, |blank|)
  {
    assert Terms(w, 0) == [w.a, w.b, w.c];
  }

  /** The selector column before the enabling loop: only row 0 is on. */
  lemma SelectorsFirst(blank: seq<bool>, nrows: nat)
    requires |blank| >= 1 && forall i :: 0 <= i < |blank| ==> !blank[i]
    ensures blank[0 := true] == SelectorsBefore(nrows, 1, |blank|)
  {
  }

  /** One iteration of the enabling loop. */
  lemma SelectorsStep(nrows: nat, row: nat, n: nat)
    requires 1 <= row
    ensures row + 3 < nrows && row < n ==>
      SelectorsBefore(nrows, row, n)[row := true] == SelectorsBefore(nrows, row + 1, n)
    ensures row + 3 >= nrows ==> SelectorsBefore(nrows, row, n) == SelectorsBefore(nrows, row + 1, n)
  {
  }

  /** After the enabling loop the selector column is the circuit's. */
  lemma SelectorsDone(nrows: nat, row: nat, n: nat)
    requires nrows <= row
    ensures SelectorsBefore(nrows, row, n) == Selectors(nrows, n)
  {
  }

  /** The selector loop of `assign`: for each row in `1..nrows`, switch the
      selector on when `row < nrows - 3`, that subtraction being on `usize`. */
  method EnableSelectors(t: Table, nrows: nat) returns (r: Result<(), Error>)
    requires t.Valid() && 1 <= t.n
    requires t.enabled[..] == SelectorsBefore(nrows, 1, t.n)
    modifies t.enabled
    ensures r.Success? <==> nrows != 2 && nrows <= t.n + 3
    ensures r.Failure? ==> r.error == if nrows == 2 then UsizeUnderflow else NotEnoughRowsAvailable
    ensures r.Success? ==> t.enabled[..] == Selectors(nrows, t.n)
  {
    var row := 1;
    while row < nrows
      invariant 1 <= row && (1 <= nrows ==> row <= nrows)
      invariant nrows < 3 ==> row == 1
      invariant nrows > t.n + 3 ==> row <= t.n
      invariant t.enabled[..] == SelectorsBefore(nrows, row, t.n)
    {
      if nrows < 3 {
        return Failure(UsizeUnderflow);
      }
      SelectorsStep(nrows, row, t.n);
      if row < nrows - 3 {
        var u :- t.EnableSelector(row);
      }
      row := row + 1;
    }
    SelectorsDone(nrows, row, t.n);
    return Success(());
  }

  /** The filling loop of `assign`: each row from 3 up to `nrows` gets the
      next term of the window held by the three rolling cells. */
  method FillRows(t: Table, ghost w: Window, nrows: nat, a: Cell, b: Cell, c: Cell) returns (r: Result<Cell, Error>)
    requires t.Valid() && 3 <= t.n
    requires t.advice[..] == Column(w, 3, t.n)
    requires a == Cell(0, w.a) && b == Cell(1, w.b) && c == Cell(2, w.c)
    modifies t.advice
    ensures r.Success? <==> nrows <= t.n
    ensures r.Failure? ==> r.error == NotEnoughRowsAvailable
    ensures r.Success? ==>
      && t.advice[..] == Column(w, Height(nrows), t.n)
      && r.value == Cell(Height(nrows) - 1, Iterate(w, Height(nrows) - 3).c)
  {
    var aCell, bCell, cCell := a, b, c;
    assert Terms(w, 0) == [w.a, w.b, w.c];
    var row := 3;
    while row < nrows
      invariant 3 <= row <= Height(nrows) && row <= t.n
      invariant t.advice[..] == Column(w, row, t.n)
      invariant aCell.row == row - 3 && bCell.row == row - 2 && cCell.row == row - 1
      invariant t.advice[aCell.row] == Some(aCell.value) && t.advice[bCell.row] == Some(bCell.value)
      invariant t.advice[cCell.row] == Some(cCell.value)
      invariant Window(aCell.value, bCell.value, cCell.value) == Iterate(w, row - 3)
    {
      var dCell :- t.AssignAdvice(row, Next(aCell.value, bCell.value, cCell.value));
      ColumnStep(w, row, t.n);
      aCell, bCell, cCell := bCell, cCell, dCell;
      row := row + 1;
    }
    return Success(cCell);
  }

  /** `FibonacciChip::assign` on a blank table of `t.n` usable rows: switch
      the selector on, copy the seeds from the instance column, and fill rows
      3 up to `nrows` with the recurrence. Returns the last cell written. */
  method Assign(t: Table, instance: seq<Fe>, nrows: nat) returns (r: Result<Cell, Error>)
    requires t.Valid() && t.Blank()
    modifies t, t.advice, t.enabled
    ensures r.Success? <==> 3 <= t.n && nrows != 2 && nrows <= t.n
    ensures r.Failure? ==> r.error == if 3 <= t.n && nrows == 2 then UsizeUnderflow else NotEnoughRowsAvailable
    ensures r.Success? ==>
      && t.advice[..] == Column(Seeds(instance), Height(nrows), t.n)
      && t.enabled[..] == Selectors(nrows, t.n)
      && t.copies == SeedCopies
      && r.value == Cell(Height(nrows) - 1, Iterate(Seeds(instance), Height(nrows) - 3).c)
  {
    ghost var w := Seeds(instance);
    ghost var blank, off := t.advice[..], t.enabled[..];
    var u :- t.EnableSelector(0);
    SelectorsFirst(off, nrows);
    // Row 0 exists, as enabling its selector succeeded, so this `?` never fails.
    var first := t.AssignAdviceFromInstance(instance, 0, 0);
    var aCell := first.value;
    var bCell :- t.AssignAdviceFromInstance(instance, 1, 1);
    var cCell :- t.AssignAdviceFromInstance(instance, 2, 2);
    SeedsColumn(blank, w);
    u :- EnableSelectors(t, nrows);
    r := FillRows(t, w, nrows, aCell, bCell, cCell);
  }

  /** `FibonacciChip::expose_public`: bind `cell` to instance row `row`. */
  method ExposePublic(t: Table, cell: Cell, row: nat) returns (r: Result<(), Error>)
    modifies t
    ensures r.Success? <==> cell.row < t.n && row < t.n
    ensures r.Failure? ==> r.error == NotEnoughRowsAvailable
    ensures t.copies == if r.Success? then old(t.copies) + [Copy(cell.row, row)] else old(t.copies)
  {
    r := t.ConstrainInstance(cell, row);
  }

  /** The copy constraints of a synthesized table: the seeds and the output
      at instance row 3. */
  const CircuitCopies: seq<Copy> := SeedCopies + [Copy(5, 3)]

  /** `MyCircuit::synthesize`: a table of six rows whose last cell is bound
      to instance row 3. */
  method Synthesize(t: Table, instance: seq<Fe>) returns (r: Result<(), Error>)
    requires t.Valid() && t.Blank()
    modifies t, t.advice, t.enabled
    ensures r.Success? <==> 6 <= t.n
    ensures r.Failure? ==> r.error == NotEnoughRowsAvailable
    ensures r.Success? ==>
      && t.advice[..] == Column(Seeds(instance), 6, t.n)
      && t.enabled[..] == Selectors(6, t.n)
      && t.copies == CircuitCopies
  {
    var out :- Assign(t, instance, 6);
    r := ExposePublic(t, out, 3);
  }
}
