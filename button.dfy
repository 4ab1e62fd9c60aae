/** The push button on EIC line 15 and the TC3 long-press counter, as the
    edge interrupt handler drives them. */
module Button {

  /** The edge the EIC line is configured to detect. */
  datatype Edge = Rise | Fall

  /** `button_pressed`, the edge polarity of line 15 and TC3's enable bit. */
  datatype ButtonState = ButtonState(pressed: bool, polarity: Edge, counterEnabled: bool)

  /** Pressed exactly when the line waits for the release (rising) edge, and
      exactly when the long-press counter runs. */
  predicate Consistent(b: ButtonState) {
    (b.pressed <==> b.polarity == Rise) && (b.pressed <==> b.counterEnabled)
  }

  /** After start-up: not pressed, falling edge selected, counter stopped. */
  const Initial: ButtonState := ButtonState(false, Fall, false)

  /** One run of `eic_isr`: it flips the pressed flag, and configures the edge
      and the counter to match the new state. */
  function EicStep(b: ButtonState): (r: ButtonState)
    ensures r.pressed == !b.pressed
    ensures Consistent(r)
  {
    if !b.pressed then ButtonState(true, Rise, true) else ButtonState(false, Fall, false)
  }

  /** The state after `n` edge interrupts since start-up. */
  function Reached(n: nat): ButtonState {
    if n == 0 then Initial else EicStep(Reached(n - 1))
  }

  lemma InitialConsistent()
    ensures Consistent(Initial) && !Initial.pressed
  {
  }

  /** From a consistent state, two edge interrupts restore it. */
  lemma EicStepTwice(b: ButtonState)
    requires Consistent(b)
    ensures EicStep(EicStep(b)) == b
  {
  }

  /** After `n` edge interrupts the button reads pressed exactly when `n` is
      odd, and the invariant holds. */
  lemma {:induction false} ReachedState(n: nat)
    ensures Consistent(Reached(n))
    ensures Reached(n).pressed <==> n % 2 == 1
    ensures Reached(n).counterEnabled <==> n % 2 == 1
  {
    if n > 0 {
      ReachedState(n - 1);
    }
  }
}
