// The navigation bar's local text-scramble effect.
//
// A frame counter runs through 0..20 on an interval. On every tick the
// displayed string is rebuilt from the text: positions before a growing
// cut-off show the real character, the others a random symbol.
module NavbarScramble {
  import Randomness

  /** The symbols shown at positions not yet revealed (26 characters). */
  const Alphabet: string := "!<>-_\\/[]{}\U{2014}=+*^?#________"

  /** `totalFrames`: the frame at which the whole text is revealed. */
  const TotalFrames: nat := 20

  /** Position `i` of a text of length `len` shows its real character at `frame`:
      `i < (frame / totalFrames) * len`, in exact arithmetic. The rule needs
      no division: it is `i * 20 < frame * len` on integers. */
  predicate Revealed(i: int, frame: int, len: nat): (r: bool)
    ensures r <==> i * TotalFrames < frame * len
  {
    var f, n := frame as real, len as real;
    assert (f / 20.0) * n == (f * n) / 20.0;
    assert (frame * len) as real == f * n;
    assert (i * TotalFrames) as real == (i as real) * 20.0;
    (i as real) < (f / TotalFrames as real) * n
  }

  /** The string one tick displays: `text.split("").map(...).join("")`. */
  function ScrambleFrame(text: string, frame: int, noise: nat -> real): (out: string)
    requires Randomness.AllUnitDraws(noise)
    ensures |out| == |text|
    ensures forall i :: 0 <= i < |text| && Revealed(i, frame, |text|) ==> out[i] == text[i]
    ensures forall i :: 0 <= i < |text| && !Revealed(i, frame, |text|) ==> out[i] in Alphabet
  {
    seq(|text|, i requires 0 <= i < |text| =>
      if Revealed(i, frame, |text|) then text[i] else Randomness.Pick(Alphabet, noise(i)))
  }

  /** At frame 0 nothing is revealed. */
  lemma NothingRevealedAtStart(text: string)
    ensures forall i :: 0 <= i < |text| ==> !Revealed(i, 0, |text|)
  {
  }

  /** At frame 20 the display is exactly the text. */
  lemma FullyRevealedAtEnd(text: string, noise: nat -> real)
    requires Randomness.AllUnitDraws(noise)
    ensures ScrambleFrame(text, TotalFrames, noise) == text
  {
    var out := ScrambleFrame(text, TotalFrames, noise);
    forall i | 0 <= i < |text|
      ensures out[i] == text[i]
    {
    }
  }

  /** The revealed positions form a prefix of the text. */
  lemma RevealedIsPrefix(i: int, j: int, frame: int, len: nat)
    requires Revealed(i, frame, len)
    requires j <= i
    ensures Revealed(j, frame, len)
  {
  }

  /** A later frame reveals at least what an earlier one did. */
  lemma RevealGrows(i: int, frame: int, later: int, len: nat)
    requires Revealed(i, frame, len)
    requires frame <= later
    ensures Revealed(i, later, len)
  {
    assert frame * len <= later * len by {
      assert (later - frame) * len >= 0;
    }
  }

  /** `frame++; if (frame > totalFrames) frame = 0;` */
  function NextFrame(frame: int): (next: int)
    requires 0 <= frame <= TotalFrames
    ensures 0 <= next <= TotalFrames
    ensures next == (frame + 1) % (TotalFrames + 1)
  {
    var f := frame + 1;
    if f > TotalFrames then 0 else f
  }

  /** The counter after `n` ticks. */
  function Advance(frame: int, n: nat): (after: int)
    requires 0 <= frame <= TotalFrames
    ensures 0 <= after <= TotalFrames
  {
    if n == 0 then frame else NextFrame(Advance(frame, n - 1))
  }

  /** After `n` ticks the counter stands at `(frame + n) mod 21`. */
  lemma {:induction false} AdvanceIsModular(frame: int, n: nat)
    requires 0 <= frame <= TotalFrames
    ensures Advance(frame, n) == (frame + n) % (TotalFrames + 1)
  {
    if n > 0 {
      AdvanceIsModular(frame, n - 1);
      var prev := Advance(frame, n - 1);
      var m := frame + n - 1;
      assert prev == m % 21;
      assert m == (m / 21) * 21 + prev;
      if prev == 20 {
        assert m + 1 == (m / 21 + 1) * 21;
      } else {
        assert m + 1 == (m / 21) * 21 + (prev + 1);
      }
    }
  }

  /** `m mod 21`, for an `m` whose quotient `q` is known. */
  lemma ModCycle(m: int, q: int)
    requires 0 <= m - q * (TotalFrames + 1) <= TotalFrames
    ensures m % (TotalFrames + 1) == m - q * (TotalFrames + 1)
  {
  }

  /** The counter has period 21: it visits 0..20 and comes back. */
  lemma FramePeriod(frame: int)
    requires 0 <= frame <= TotalFrames
    ensures Advance(frame, TotalFrames + 1) == frame
    ensures forall n :: 0 < n <= TotalFrames ==> Advance(frame, n) != frame
  {
    AdvanceIsModular(frame, TotalFrames + 1);
    ModCycle(frame + TotalFrames + 1, 1);
    forall n | 0 < n <= TotalFrames
      ensures Advance(frame, n) != frame
    {
      NoEarlyReturn(frame, n);
    }
  }

  /** Fewer than 21 ticks never bring the counter back to where it started. */
  lemma NoEarlyReturn(frame: int, n: nat)
    requires 0 <= frame <= TotalFrames
    requires 0 < n <= TotalFrames
    ensures Advance(frame, n) != frame
  {
    AdvanceIsModular(frame, n);
    var m := frame + n;
    var q := if m <= TotalFrames then 0 else 1;
    ModCycle(m, q);
    assert Advance(frame, n) == m - q * (TotalFrames + 1);
  }

  /** The `TextScramble` component: its text, the interval's frame counter
      and the string it displays. */
  class TextScramble {
    const text: string
    var frame: int
    var display: string

    ghost predicate Valid()
      reads this
    {
      0 <= frame <= TotalFrames
    }

    /** Mounting (or a change of `text`) starts the counter at 0 with an empty display. */
    constructor (text: string)
      ensures Valid()
      ensures this.text == text && frame == 0 && display == ""
    {
      this.text := text;
      frame := 0;
      display := "";
    }

    /** One interval tick (`scramble`): display the frame, then advance the counter. */
    method Tick(noise: nat -> real)
      requires Valid()
      requires Randomness.AllUnitDraws(noise)
      modifies this
      ensures Valid()
      ensures display == ScrambleFrame(text, old(frame), noise)
      ensures frame == NextFrame(old(frame))
    {
      display := ScrambleFrame(text, frame, noise);
      frame := frame + 1;
      if frame > TotalFrames {
        frame := 0;
      }
    }
  }
}
