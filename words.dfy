/** Machine words of the traced child and the breakpoint patch arithmetic.
    A word is an x86-64 `unsigned long`: 64 bits, unsigned, wrapping. The
    masks are written as arithmetic on the word's value: for an unsigned
    word `x & 0xFF` is `x % 256` and `x & ~0xFF` is `x - x % 256`. */
module Words {

  const WordSize: int := 0x1_0000_0000_0000_0000

  newtype Word = x: int | 0 <= x < 0x1_0000_0000_0000_0000

  /** The x86 one-byte software breakpoint instruction `INT3`. */
  const Int3: Word := 0xCC

  /** What PTRACE_PEEKTEXT returns when it fails: `(long) -1`. */
  const AllOnes: Word := 0xFFFF_FFFF_FFFF_FFFF

  /** `w & 0xFF`: the byte at the word's own address (x86 is little-endian). */
  function LowByte(w: Word): (r: Word)
    ensures r < 256
  {
    w % 256
  }

  /** `w & HIGH_BIT_MASK`, where HIGH_BIT_MASK is `~(unsigned long)0xFF`. */
  function HighBytes(w: Word): (r: Word)
    ensures r % 256 == 0
  {
    w - w % 256
  }

  /** `a - 1` on unsigned 64-bit words: 0 wraps round to the largest word. */
  function Pred(a: Word): (r: Word)
    ensures (r as int + 1) % WordSize == a as int
  {
    if a == 0 then AllOnes else a - 1
  }

  /** Byte `k` of a little-endian word; byte 0 is the one at the word's address. */
  function ByteAt(w: Word, k: nat): (r: Word)
    requires k < 8
    ensures r < 256
  {
    if k == 0 then w % 256 else ByteAt(w / 256, k - 1)
  }

  /** The word written over a function entry to arm it:
      `(original & HIGH_BIT_MASK) | 0xCC`. */
  function ArmedWord(original: Word): (r: Word)
    ensures LowByte(r) == Int3
    ensures HighBytes(r) == HighBytes(original)
  {
    HighBytes(original) + Int3
  }

  /** The word written to disarm a site:
      `(current & HIGH_BIT_MASK) | (original & 0xFF)`. */
  function RestoredWord(current: Word, original: Word): (r: Word)
    ensures LowByte(r) == LowByte(original)
    ensures HighBytes(r) == HighBytes(current)
  {
    HighBytes(current) + LowByte(original)
  }

  /** Bytes 1 to 7 of a word are those of its high bytes. */
  lemma ByteAtHigh(w: Word, k: nat)
    requires 1 <= k < 8
    ensures ByteAt(w, k) == ByteAt(HighBytes(w), k)
  {
    assert HighBytes(w) / 256 == w / 256;
  }

  /** Arming writes `INT3` into byte 0 and leaves bytes 1 to 7 as they were. */
  lemma ArmOnlyTouchesByteZero(original: Word)
    ensures ByteAt(ArmedWord(original), 0) == 0xCC
    ensures forall k :: 1 <= k < 8 ==> ByteAt(ArmedWord(original), k) == ByteAt(original, k)
  {
    forall k | 1 <= k < 8
      ensures ByteAt(ArmedWord(original), k) == ByteAt(original, k)
    {
      ByteAtHigh(ArmedWord(original), k);
      ByteAtHigh(original, k);
    }
  }

  /** Disarming takes byte 0 from the saved word and bytes 1 to 7 from the current one. */
  lemma RestoreOnlyTouchesByteZero(current: Word, original: Word)
    ensures ByteAt(RestoredWord(current, original), 0) == ByteAt(original, 0)
    ensures forall k :: 1 <= k < 8 ==> ByteAt(RestoredWord(current, original), k) == ByteAt(current, k)
  {
    forall k | 1 <= k < 8
      ensures ByteAt(RestoredWord(current, original), k) == ByteAt(current, k)
    {
      ByteAtHigh(RestoredWord(current, original), k);
      ByteAtHigh(current, k);
    }
  }

  /** A word is determined by its low byte and its high bytes. */
  lemma WordByParts(a: Word, b: Word)
    requires LowByte(a) == LowByte(b) && HighBytes(a) == HighBytes(b)
    ensures a == b
  {
  }

  /** Disarming right after arming gives back the exact original word. */
  lemma InstallThenRestore(original: Word)
    ensures RestoredWord(ArmedWord(original), original) == original
  {
    WordByParts(RestoredWord(ArmedWord(original), original), original);
  }

  /** Re-arming after a disarm writes INT3 under the current word's upper
      bytes, whatever the saved word is: in particular an armed word whose
      upper bytes changed while it was disarmed is re-armed with those new
      bytes, and an armed word that did not change comes back exactly. */
  lemma RestoreThenInstall(current: Word, original: Word)
    ensures ArmedWord(RestoredWord(current, original)) == ArmedWord(current)
    ensures LowByte(current) == Int3 ==> ArmedWord(RestoredWord(current, original)) == current
  {
    WordByParts(ArmedWord(RestoredWord(current, original)), ArmedWord(current));
    if LowByte(current) == Int3 {
      WordByParts(ArmedWord(current), current);
    }
  }

  /** Arming an already armed word changes nothing; it differs from the
      original exactly when the original's low byte was not already INT3. */
  lemma ArmTwice(original: Word)
    ensures ArmedWord(ArmedWord(original)) == ArmedWord(original)
    ensures ArmedWord(original) != original <==> LowByte(original) != Int3
  {
  }
}
