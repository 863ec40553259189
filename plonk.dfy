/** The slice of the halo2 constraint system that the Fibonacci-variant circuit
    relies on: gate expressions over one advice column, a selector column, an
    instance column given as the public-input vector, copy constraints, and the
    condition the mock prover checks on a finished table. */
module Plonk {
  import opened Wrappers
  import opened Field

  /** A gate polynomial, as built by `create_gate`: queries of the selector
      and of the advice column at a forward rotation, combined with the field
      operations. */
  datatype Expr =
    | Constant(v: Fe)
    | Selector
    | Advice(rotation: nat)
    | Negated(e: Expr)
    | Sum(l: Expr, r: Expr)
    | Product(l: Expr, r: Expr)

  datatype Gate = Gate(name: string, poly: Expr)

  /** The rotations at which a polynomial reads the advice column. */
  function Queries(e: Expr): set<nat> {
    match e
    case Constant(_) => {}
    case Selector => {}
    case Advice(rot) => {rot}
    case Negated(x) => Queries(x)
    case Sum(x, y) => Queries(x) + Queries(y)
    case Product(x, y) => Queries(x) + Queries(y)
  }

  /** Whether the advice cell at `row` holds an assigned value. */
  predicate Assigned(advice: seq<Option<Fe>>, row: nat) {
    row < |advice| && advice[row].Some?
  }

  /** Evaluates a polynomial at `row`, the selector being on or off there.
      A query of a cell outside the table or not yet assigned gives None,
      which the mock prover reports as an unassigned cell. */
  function Eval(e: Expr, advice: seq<Option<Fe>>, row: nat, on: bool): Option<Fe> {
    match e
    case Constant(v) => Some(v)
    case Selector => Some(if on then One else Zero)
    case Advice(rot) => if Assigned(advice, row + rot) then advice[row + rot] else None
    case Negated(x) =>
      var vx := Eval(x, advice, row, on);
      if vx.Some? then Some(Neg(vx.value)) else None
    case Sum(x, y) =>
      var vx, vy := Eval(x, advice, row, on), Eval(y, advice, row, on);
      if vx.Some? && vy.Some? then Some(Add(vx.value, vy.value)) else None
    case Product(x, y) =>
      var vx, vy := Eval(x, advice, row, on), Eval(y, advice, row, on);
      if vx.Some? && vy.Some? then Some(Mul(vx.value, vy.value)) else None
  }

  /** Every advice cell at one of the rotations `qs` from `row` is assigned. */
  ghost predicate AllAssigned(qs: set<nat>, advice: seq<Option<Fe>>, row: nat) {
    forall q :: q in qs ==> Assigned(advice, row + q)
  }

  /** A polynomial has a value at `row` exactly when every advice cell it
      queries from there is assigned. */
  lemma {:induction false} EvalDefinedIff(e: Expr, advice: seq<Option<Fe>>, row: nat, on: bool)
    ensures Eval(e, advice, row, on).Some? <==> AllAssigned(Queries(e), advice, row)
  {
    match e
    case Constant(_) =>
      assert Queries(e) == {};
    case Selector =>
      assert Queries(e) == {};
    case Advice(rot) =>
      assert Queries(e) == {rot};
      assert Eval(e, advice, row, on).Some? <==> Assigned(advice, row + rot);
      assert AllAssigned({rot}, advice, row) <==> Assigned(advice, row + rot);
    case Negated(x) =>
      EvalDefinedIff(x, advice, row, on);
      assert Queries(e) == Queries(x);
    case Sum(x, y) =>
      EvalDefinedIff(x, advice, row, on);
      EvalDefinedIff(y, advice, row, on);
      assert Queries(e) == Queries(x) + Queries(y);
      assert AllAssigned(Queries(x) + Queries(y), advice, row)
        <==> AllAssigned(Queries(x), advice, row) && AllAssigned(Queries(y), advice, row);
    case Product(x, y) =>
      EvalDefinedIff(x, advice, row, on);
      EvalDefinedIff(y, advice, row, on);
      assert Queries(e) == Queries(x) + Queries(y);
      assert AllAssigned(Queries(x) + Queries(y), advice, row)
        <==> AllAssigned(Queries(x), advice, row) && AllAssigned(Queries(y), advice, row);
  }

  /** An equality between an advice cell and a row of the instance column. */
  datatype Copy = Copy(adviceRow: nat, instanceRow: nat)

  /** An assigned advice cell: its row and the value written there. */
  datatype Cell = Cell(row: nat, value: Fe)

  /** The instance column at a row inside the table: the public-input
      vector, padded with zeros (the mock prover pads every instance column
      to the table height; rows past the height are refused by the callers). */
  function InstanceAt(instance: seq<Fe>, row: nat): (v: Fe)
    ensures row < |instance| ==> v == instance[row]
    ensures row >= |instance| ==> v == Zero
  {
    if row < |instance| then instance[row] else Zero
  }

  /** The gate vanishes on every row where its selector is on. */
  ghost predicate GatesHold(gate: Gate, advice: seq<Option<Fe>>, enabled: seq<bool>) {
    forall r :: 0 <= r < |enabled| && enabled[r] ==> Eval(gate.poly, advice, r, true) == Some(Zero)
  }

  /** Both ends of a copy constraint carry the same value. */
  predicate CopyHolds(advice: seq<Option<Fe>>, instance: seq<Fe>, c: Copy) {
    c.adviceRow < |advice| && advice[c.adviceRow] == Some(InstanceAt(instance, c.instanceRow))
  }

  ghost predicate CopiesHold(advice: seq<Option<Fe>>, copies: seq<Copy>, instance: seq<Fe>) {
    forall i :: 0 <= i < |copies| ==> CopyHolds(advice, instance, copies[i])
  }

  /** What the mock prover demands of a finished table before it reports
      success: every active gate evaluates to zero and every copy constraint
      holds. */
  ghost predicate Satisfied(gate: Gate, advice: seq<Option<Fe>>, enabled: seq<bool>, copies: seq<Copy>, instance: seq<Fe>) {
    GatesHold(gate, advice, enabled) && CopiesHold(advice, copies, instance)
  }

  /** The mock prover's verification of a finished table: evaluate the gate
      on every active row and compare both ends of every copy constraint,
      going through all of them rather than stopping at the first failure. */
  method Verify(t: Table, gate: Gate, instance: seq<Fe>) returns (ok: bool)
    requires t.Valid()
    ensures ok <==> Satisfied(gate, t.advice[..], t.enabled[..], t.copies, instance)
  {
    var gatesOk, copiesOk := true, true;
    var row := 0;
    while row < t.n
      invariant row <= t.n
      invariant gatesOk <==> forall r :: 0 <= r < row && t.enabled[r] ==> Eval(gate.poly, t.advice[..], r, true) == Some(Zero)
    {
      if t.enabled[row] && Eval(gate.poly, t.advice[..], row, true) != Some(Zero) {
        gatesOk := false;
      }
      row := row + 1;
    }
    var i := 0;
    while i < |t.copies|
      invariant i <= |t.copies|
      invariant copiesOk <==> forall j :: 0 <= j < i ==> CopyHolds(t.advice[..], instance, t.copies[j])
    {
      if !CopyHolds(t.advice[..], instance, t.copies[i]) {
        copiesOk := false;
      }
      i := i + 1;
    }
    ok := gatesOk && copiesOk;
  }

  datatype Error =
    | NotEnoughRowsAvailable  // a row at or past the table height
    | UsizeUnderflow          // the panic of a debug build on `usize` subtraction below zero

  /** The witness table of one proof: `n` usable rows of the advice and
      selector columns, and the copy constraints recorded so far. */
  class Table {
    const n: nat
    const advice: array<Option<Fe>>
    const enabled: array<bool>
    var copies: seq<Copy>

    ghost predicate Valid()
      reads this
    {
      advice.Length == n && enabled.Length == n
    }

    /** Nothing assigned, no selector on, no copy recorded. */
    ghost predicate Blank()
      reads this, advice, enabled
      requires Valid()
    {
      && (forall r :: 0 <= r < n ==> advice[r] == None)
      && (forall r :: 0 <= r < n ==> !enabled[r])
      && copies == []
    }

    constructor (height: nat)
      ensures Valid() && Blank() && n == height
      ensures fresh(advice) && fresh(enabled)
    {
      n := height;
      advice := new Option<Fe>[height](_ => None);
      enabled := new bool[height](_ => false);
      copies := [];
    }

    /** `Selector::enable`: switch the selector on at `row`. */
    method EnableSelector(row: nat) returns (r: Result<(), Error>)
      requires Valid()
      modifies enabled
      ensures r.Success? <==> row < n
      ensures r.Failure? ==> r.error == NotEnoughRowsAvailable
      ensures enabled[..] == if r.Success? then old(enabled[..])[row := true] else old(enabled[..])
    {
      if row >= n {
        return Failure(NotEnoughRowsAvailable);
      }
      enabled[row] := true;
      return Success(());
    }

    /** `Region::assign_advice`: write `v` into the advice cell at `row`. */
    method AssignAdvice(row: nat, v: Fe) returns (r: Result<Cell, Error>)
      requires Valid()
      modifies advice
      ensures r.Success? <==> row < n
      ensures r.Failure? ==> r.error == NotEnoughRowsAvailable
      ensures r.Success? ==> r.value == Cell(row, v)
      ensures advice[..] == if r.Success? then old(advice[..])[row := Some(v)] else old(advice[..])
    {
      if row >= n {
        return Failure(NotEnoughRowsAvailable);
      }
      advice[row] := Some(v);
      return Success(Cell(row, v));
    }

    /** `Region::assign_advice_from_instance`: copy the instance cell at
        `instanceRow` into the advice cell at `row`, recording the copy. Both
        rows must lie in the table, whose height the instance column shares. */
    method AssignAdviceFromInstance(instance: seq<Fe>, instanceRow: nat, row: nat) returns (r: Result<Cell, Error>)
      requires Valid()
      modifies this, advice
      ensures r.Success? <==> instanceRow < n && row < n
      ensures r.Failure? ==> r.error == NotEnoughRowsAvailable
      ensures r.Success? ==> r.value == Cell(row, InstanceAt(instance, instanceRow))
      ensures advice[..] == if r.Success? then old(advice[..])[row := Some(InstanceAt(instance, instanceRow))] else old(advice[..])
      ensures copies == if r.Success? then old(copies) + [Copy(row, instanceRow)] else old(copies)
    {
      if instanceRow >= n || row >= n {
        return Failure(NotEnoughRowsAvailable);
      }
      var v := InstanceAt(instance, instanceRow);
      advice[row] := Some(v);
      copies := copies + [Copy(row, instanceRow)];
      return Success(Cell(row, v));
    }

    /** `Layouter::constrain_instance`: bind an assigned cell to a row of the
        instance column; both ends must lie in the table. */
    method ConstrainInstance(cell: Cell, instanceRow: nat) returns (r: Result<(), Error>)
      modifies this
      ensures r.Success? <==> cell.row < n && instanceRow < n
      ensures r.Failure? ==> r.error == NotEnoughRowsAvailable
      ensures copies == if r.Success? then old(copies) + [Copy(cell.row, instanceRow)] else old(copies)
    {
      if cell.row >= n || instanceRow >= n {
        return Failure(NotEnoughRowsAvailable);
      }
      copies := copies + [Copy(cell.row, instanceRow)];
      return Success(());
    }
  }
}
