// Math.random() draws, supplied from outside the model.
//
// Every place where the source calls Math.random() takes a stream of draws
// `nat -> real` instead; the stream is indexed by the tile or the text
// position the draw is made for. A draw lies in [0, 1), as Math.random()
// promises.
module Randomness {

  /** One value Math.random() may return. */
  predicate IsUnitDraw(r: real)
  {
    0.0 <= r < 1.0
  }

  /** Every draw of the stream is a value Math.random() may return. */
  ghost predicate AllUnitDraws(draws: nat -> real)
  {
    forall k :: IsUnitDraw(draws(k))
  }

  /** `Math.floor(r * n)`: the index a draw selects among `n` choices. */
  function PickIndex(r: real, n: nat): (i: nat)
    requires IsUnitDraw(r)
    requires n > 0
    ensures i < n
    ensures (i as real) <= r * (n as real) < (i as real) + 1.0
  {
    var i := (r * (n as real)).Floor;
    assert r * (n as real) < n as real by {
      assert (n as real) - r * (n as real) == (1.0 - r) * (n as real);
      assert (1.0 - r) * (n as real) > 0.0;
    }
    i
  }

  /** `alphabet[Math.floor(Math.random() * alphabet.length)]`. */
  function Pick(alphabet: string, r: real): (c: char)
    requires IsUnitDraw(r)
    requires |alphabet| > 0
    ensures c in alphabet
  {
    alphabet[PickIndex(r, |alphabet|)]
  }
}
