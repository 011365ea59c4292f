/** Physical memory: 2^20 frames of 4 KiB, each held as 1024 words of 32 bits. */
module Phys {

  const FRAMES: nat := 0x10_0000
  const WORDS: nat := 1024

  type Word = w: nat | w < 0x1_0000_0000
  type Frame = f: seq<Word> | |f| == WORDS witness seq(WORDS, _ => 0)

  function ZeroFrame(): Frame { seq(WORDS, _ => 0) }

  type Memory = m: seq<Frame> | |m| == FRAMES witness seq<Frame>(FRAMES, _ => ZeroFrame())

  /** n frames from f on hold zeros; the others are as in m. */
  predicate Cleared(m: Memory, m': Memory, f: nat, n: nat) {
    && (forall g | 0 <= g < FRAMES && f <= g < f + n :: m'[g] == ZeroFrame())
    && (forall g | 0 <= g < FRAMES && !(f <= g < f + n) :: m'[g] == m[g])
  }

  /** The frames outside [lo, lo + n) are the same. */
  predicate SameOutside(m: Memory, m': Memory, lo: nat, n: nat) {
    forall f | 0 <= f < FRAMES && !(lo <= f < lo + n) :: m'[f] == m[f]
  }

  /** What these frames hold. */
  ghost function Outside(m: Memory, lo: nat, n: nat): map<nat, Frame> {
    map f: nat | f < FRAMES && !(lo <= f < lo + n) :: m[f]
  }

  lemma OutsideSame(m: Memory, m': Memory, lo: nat, n: nat)
    requires SameOutside(m, m', lo, n)
    ensures Outside(m', lo, n) == Outside(m, lo, n)
  {}

  /** The memory chips: the one object every layer of the kernel writes. */
  class Ram {
    var frames: Memory

    constructor ()
    {
      frames := seq<Frame>(FRAMES, _ => ZeroFrame());
    }

    /** memset of n whole frames to zero. */
    method ClearFrames(f: nat, n: nat)
      requires f + n <= FRAMES
      modifies this
      ensures Cleared(old(frames), frames, f, n)
    {
      var i := 0;
      while i < n
        invariant 0 <= i <= n
        invariant Cleared(old(frames), frames, f, i)
      {
        frames := frames[f + i := ZeroFrame()];
        i := i + 1;
      }
    }
  }
}
