/** What the mock prover concludes about the Fibonacci-variant circuit: the
    table `assign` fills passes exactly when the public output is the
    recurrence applied to the public seeds, no other table can pass with any
    other output, and the two public-input vectors of the `fibonacci_example3`
    test are accepted and rejected accordingly. */
module Satisfaction {
  import opened Wrappers
  import opened Field
  import opened Plonk
  import opened Fibonacci

  /** The gate holds on every active row of the column `assign` fills exactly
      when `nrows >= 4`: row 0 is switched on unconditionally, and its window
      reaches row 3, which a shorter region never assigns. */
  lemma AssignedGatesHoldIff(w: Window, nrows: nat, n: nat)
    requires Height(nrows) <= n
    ensures GatesHold(Configure(), Column(w, Height(nrows), n), Selectors(nrows, n)) <==> 4 <= nrows
  {
    var advice := Column(w, Height(nrows), n);
    var enabled := Selectors(nrows, n);
    if 4 <= nrows {
      forall r | 0 <= r < |enabled| && enabled[r]
        ensures Eval(Configure().poly, advice, r, true) == Some(Zero)
      {
        assert r + 3 < nrows;
        var terms := Terms(w, nrows - 3);
        TermsRecurrence(w, nrows - 3, r + 3);
        assert advice[r] == Some(terms[r]) && advice[r + 1] == Some(terms[r + 1]);
        assert advice[r + 2] == Some(terms[r + 2]) && advice[r + 3] == Some(terms[r + 3]);
        assert RecurrenceAt(advice, r);
        GateVanishesIff(advice, r);
      }
    } else {
      assert enabled[0] && !Assigned(advice, 3);
      GateVanishesIff(advice, 0);
    }
  }

  /** The copies of the three seeds hold in the column `assign` fills. */
  lemma SeedCopiesHold(instance: seq<Fe>, rows: nat, n: nat)
    requires 3 <= rows <= n
    ensures CopiesHold(Column(Seeds(instance), rows, n), SeedCopies, instance)
  {
    var w := Seeds(instance);
    TermsPrefix(w, 0, rows - 3);
    assert Terms(w, rows - 3)[..3] == [w.a, w.b, w.c];
    assert Terms(w, rows - 3)[0] == w.a && Terms(w, rows - 3)[1] == w.b && Terms(w, rows - 3)[2] == w.c;
  }

  /** The table `assign` fills, with its last cell bound to instance row
      `outRow`, satisfies the circuit exactly when `nrows >= 4` and that
      instance row holds the recurrence applied `nrows - 3` times to the seeds. */
  lemma AssignedSatisfiedIff(instance: seq<Fe>, nrows: nat, n: nat, outRow: nat)
    requires Height(nrows) <= n
    ensures Satisfied(Configure(), Column(Seeds(instance), Height(nrows), n), Selectors(nrows, n),
                      SeedCopies + [Copy(Height(nrows) - 1, outRow)], instance)
        <==> 4 <= nrows && InstanceAt(instance, outRow) == Iterate(Seeds(instance), Height(nrows) - 3).c
  {
    var w, h := Seeds(instance), Height(nrows);
    var advice := Column(w, h, n);
    var copies := SeedCopies + [Copy(h - 1, outRow)];
    AssignedGatesHoldIff(w, nrows, n);
    SeedCopiesHold(instance, h, n);
    TermsLast(w, h - 3);
    assert advice[h - 1] == Some(Iterate(w, h - 3).c);
    assert CopiesHold(advice, copies, instance) <==> CopyHolds(advice, instance, copies[3]) by {
      forall j | 0 <= j < 3 ensures copies[j] == SeedCopies[j] { }
    }
  }

  /** `MyCircuit::synthesize` yields a table that satisfies the circuit
      exactly when instance row 3 holds the third term after the seeds. */
  lemma SynthesizedSatisfiedIff(instance: seq<Fe>, n: nat)
    requires 6 <= n
    ensures Satisfied(Configure(), Column(Seeds(instance), 6, n), Selectors(6, n), CircuitCopies, instance)
        <==> InstanceAt(instance, 3) == Iterate(Seeds(instance), 3).c
  {
    AssignedSatisfiedIff(instance, 6, n, 3);
  }

  /** In any advice column that satisfies the circuit, the rows from `k` on
      hold the window after `k` steps from the public seeds. */
  lemma {:induction false} SatisfiedWindows(advice: seq<Option<Fe>>, nrows: nat, copies: seq<Copy>, instance: seq<Fe>, k: nat)
    requires 4 <= nrows <= |advice| && k <= nrows - 3
    requires GatesHold(Configure(), advice, Selectors(nrows, |advice|))
    requires CopiesHold(advice, copies, instance) && |copies| >= 3 && copies[..3] == SeedCopies
    ensures Assigned(advice, k) && Assigned(advice, k + 1) && Assigned(advice, k + 2)
    ensures Window(advice[k].value, advice[k + 1].value, advice[k + 2].value) == Iterate(Seeds(instance), k)
  {
    if k == 0 {
      assert copies[0] == Copy(0, 0) && copies[1] == Copy(1, 1) && copies[2] == Copy(2, 2);
      assert CopyHolds(advice, instance, copies[0]);
      assert CopyHolds(advice, instance, copies[1]);
      assert CopyHolds(advice, instance, copies[2]);
    } else {
      SatisfiedWindows(advice, nrows, copies, instance, k - 1);
      assert Selectors(nrows, |advice|)[k - 1];
      GateVanishesIff(advice, k - 1);
    }
  }

  /** Soundness of the circuit: whatever advice column a prover supplies,
      the mock check passes only if the bound instance row holds the
      recurrence applied `nrows - 3` times to the public seeds. */
  lemma CircuitSound(advice: seq<Option<Fe>>, nrows: nat, instance: seq<Fe>, outRow: nat)
    requires 4 <= nrows <= |advice|
    requires Satisfied(Configure(), advice, Selectors(nrows, |advice|), SeedCopies + [Copy(nrows - 1, outRow)], instance)
    ensures InstanceAt(instance, outRow) == Iterate(Seeds(instance), nrows - 3).c
  {
    var copies := SeedCopies + [Copy(nrows - 1, outRow)];
    assert copies[..3] == SeedCopies;
    SatisfiedWindows(advice, nrows, copies, instance, nrows - 3);
    assert CopyHolds(advice, instance, copies[3]);
  }

  /** The witness is forced: any advice column that satisfies the circuit
      agrees with the column `assign` fills on every row of the region. */
  lemma WitnessUnique(advice: seq<Option<Fe>>, nrows: nat, instance: seq<Fe>, outRow: nat, r: nat)
    requires 4 <= nrows <= |advice| && r < nrows
    requires Satisfied(Configure(), advice, Selectors(nrows, |advice|), SeedCopies + [Copy(nrows - 1, outRow)], instance)
    ensures advice[r] == Column(Seeds(instance), nrows, |advice|)[r]
  {
    var w := Seeds(instance);
    var copies := SeedCopies + [Copy(nrows - 1, outRow)];
    assert copies[..3] == SeedCopies;
    var k := if r <= nrows - 3 then r else nrows - 3;
    SatisfiedWindows(advice, nrows, copies, instance, k);
    TermsWindow(w, nrows - 3, k);
  }

  /** `fibonacci_example3`: seeds 1, 2, 3 and output 264 pass the mock check. */
  lemma TestInputAccepted(n: nat)
    requires 6 <= n
    ensures Satisfied(Configure(), Column(Seeds([1, 2, 3, 264]), 6, n), Selectors(6, n), CircuitCopies, [1, 2, 3, 264])
  {
    var instance: seq<Fe> := [1, 2, 3, 264];
    assert Seeds(instance) == Window(1, 2, 3) && InstanceAt(instance, 3) == 264;
    assert Iterate(Window(1, 2, 3), 1) == Window(2, 3, 8);
    assert Iterate(Window(1, 2, 3), 2) == Window(3, 8, 30);
    assert Iterate(Window(1, 2, 3), 3) == Window(8, 30, 264);
    SynthesizedSatisfiedIff(instance, n);
  }

  /** The commented-out half of `fibonacci_example3`: with `public_input[2]`
      incremented the seeds 1, 2, 4 lead to 520, not 264, so no advice
      column whatever passes the mock check. */
  lemma IncrementedSeedRejected(advice: seq<Option<Fe>>)
    requires 6 <= |advice|
    ensures !Satisfied(Configure(), advice, Selectors(6, |advice|), CircuitCopies, [1, 2, 4, 264])
  {
    var instance: seq<Fe> := [1, 2, 4, 264];
    assert Iterate(Window(1, 2, 4), 1) == Window(2, 4, 10);
    assert Iterate(Window(1, 2, 4), 2) == Window(4, 10, 48);
    assert Iterate(Window(1, 2, 4), 3) == Window(10, 48, 520);
    if Satisfied(Configure(), advice, Selectors(6, |advice|), CircuitCopies, instance) {
      CircuitSound(advice, 6, instance, 3);
      assert false;
    }
  }

  /** `MockProver::run` followed by `verify` on a table of `n` usable rows:
      refuse a public input longer than the instance column, synthesize the
      circuit for `instance`, then check it. */
  method MockProverRun(instance: seq<Fe>, n: nat) returns (ok: bool)
    ensures ok <==> |instance| <= n && 6 <= n && InstanceAt(instance, 3) == Iterate(Seeds(instance), 3).c
  {
    if |instance| > n {
      return false;  // InstanceTooLarge
    }
    var t := new Table(n);
    var r := Synthesize(t, instance);
    if r.Failure? {
      return false;
    }
    ok := Verify(t, Configure(), instance);
    SynthesizedSatisfiedIff(instance, n);
  }
}
