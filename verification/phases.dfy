/** The two phases of a traffic light and the table that toggles between them. */
module Phases {

  datatype Phase = Red | Green

  /** The toggle table: the phase that follows each phase. */
  const NextPhaseAfter: map<Phase, Phase> := map[Red := Green, Green := Red]

  /** The table has an entry for every phase, so a lookup never misses. */
  lemma TableIsTotal()
    ensures forall p: Phase :: p in NextPhaseAfter
    ensures |NextPhaseAfter| == 2
  {
    forall p: Phase ensures p in NextPhaseAfter {
      match p
      case Red =>
      case Green =>
    }
    assert NextPhaseAfter.Keys == {Red, Green};
  }

  /** Looks the successor of `p` up in the toggle table. */
  function Toggle(p: Phase): (r: Phase)
    ensures r != p
  {
    TableIsTotal();
    NextPhaseAfter[p]
  }

  /** Red becomes green and green becomes red. */
  lemma ToggleSwaps()
    ensures Toggle(Red) == Green
    ensures Toggle(Green) == Red
  {
  }

  /** Toggling twice returns to the starting phase. */
  lemma ToggleIsInvolution(p: Phase)
    ensures Toggle(Toggle(p)) == p
  {
  }

  /** The phase a light shows after `n` toggles from red. */
  function PhaseAfterToggles(n: nat): (p: Phase)
  {
    if n == 0 then Red else Toggle(PhaseAfterToggles(n - 1))
  }

  /** After an even number of toggles the light is red, after an odd number green. */
  lemma {:induction false} PhaseAfterTogglesParity(n: nat)
    ensures PhaseAfterToggles(n) == (if n % 2 == 0 then Red else Green)
  {
    if n > 0 {
      PhaseAfterTogglesParity(n - 1);
    }
  }
}
