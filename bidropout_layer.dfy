/** The rate rule of the always-on dropout layer, `BiDropout.call`
    (concise/effects/dropout.py:19-36). The random masking itself (`K.dropout`)
    is the parameter `drop`: one draw of the backend's masking for this call. */
module BiDropoutLayer {

  /** One call of the layer on `inputs`. With a rate strictly between 0 and 1 the
      always-on layer masks whatever the learning phase; the plain layer masks only
      in the learning phase. Any other rate leaves the input untouched. */
  function Call<X>(inputs: X, rate: real, biDropout: bool, learning: bool, drop: X -> X): (y: X)
    ensures !(0.0 < rate < 1.0) ==> y == inputs
    ensures 0.0 < rate < 1.0 && (biDropout || learning) ==> y == drop(inputs)
    ensures 0.0 < rate < 1.0 && !biDropout && !learning ==> y == inputs
  {
    if 0.0 < rate && rate < 1.0 then
      if biDropout then drop(inputs)
      else if learning then drop(inputs) else inputs
    else inputs
  }

  /** The always-on layer gives the same output in and out of the learning phase,
      and in the learning phase it behaves like the plain layer. */
  lemma AlwaysOnIgnoresLearningPhase<X>(inputs: X, rate: real, drop: X -> X)
    ensures Call(inputs, rate, true, false, drop) == Call(inputs, rate, true, true, drop)
    ensures Call(inputs, rate, true, true, drop) == Call(inputs, rate, false, true, drop)
  {
  }
}
