/**
 * A stream of inputs driven through a step function one input at a time,
 * each step producing a new state and a run of outputs. The terminal (fed
 * characters) and the navigator sessions (fed button and line reads) are
 * such machines; the facts here hold for any step function.
 */
module Streams {

  /** The state after every input of `s`, and the outputs in order. */
  function Run<S, I, E>(step: (S, I) -> (S, seq<E>), t: S, s: seq<I>): (S, seq<E>)
  {
    if s == [] then (t, [])
    else
      var before := Run(step, t, s[..|s| - 1]);
      var last := step(before.0, s[|s| - 1]);
      (last.0, before.1 + last.1)
  }

  /** One more input is one more step. */
  lemma {:induction false} RunSnoc<S, I, E>(step: (S, I) -> (S, seq<E>), t: S, s: seq<I>, c: I)
    ensures Run(step, t, s + [c]).0 == step(Run(step, t, s).0, c).0
    ensures Run(step, t, s + [c]).1 == Run(step, t, s).1 + step(Run(step, t, s).0, c).1
  {
    assert (s + [c])[..|s|] == s;
  }

  /** Running two streams one after the other is running their concatenation. */
  lemma {:induction false} RunAppend<S, I, E>(step: (S, I) -> (S, seq<E>), t: S, a: seq<I>, b: seq<I>)
    ensures Run(step, t, a + b).0 == Run(step, Run(step, t, a).0, b).0
    ensures Run(step, t, a + b).1 == Run(step, t, a).1 + Run(step, Run(step, t, a).0, b).1
    decreases |b|
  {
    if b == [] {
      assert a + b == a;
    } else {
      var b' := b[..|b| - 1];
      var c := b[|b| - 1];
      assert a + b == (a + b') + [c];
      assert b == b' + [c];
      RunAppend(step, t, a, b');
      RunSnoc(step, t, a + b', c);
      RunSnoc(step, Run(step, t, a).0, b', c);
    }
  }
}
