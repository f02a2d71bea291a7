/**
  Single-precision values as Lucene orders them.

  Every non-NaN float is identified with its "sortable int" key: the signed
  32-bit integer NumericUtils.floatToSortableInt gives it. Signed comparison of
  keys is the order Lucene's point and doc-values encodings use (Float.compare
  order: -0.0 comes just below +0.0). -Infinity has the least key and +Infinity
  the greatest; the patterns outside that interval are the NaNs.
*/
module FloatCodec {

  /** floatToSortableInt(Float.NEGATIVE_INFINITY), i.e. 0x807F_FFFF read as a signed int. */
  const NegInfKey: int := -2139095041
  /** floatToSortableInt(Float.POSITIVE_INFINITY), i.e. 0x7F80_0000. */
  const PosInfKey: int := 2139095040

  /** A non-NaN float, by its sortable key. */
  type Key = k: int | NegInfKey <= k <= PosInfKey

  /** A Java float: an ordered value, or NaN (produced by decoding bits, or carried by a Number). */
  datatype Float = Ordered(key: Key) | NaN

  const NegativeInfinity: Key := NegInfKey
  const PositiveInfinity: Key := PosInfKey

  /**
    FloatPoint.nextUp: the adjacent value above, saturating at +Infinity.
    (Lucene maps -0.0 to +0.0 and otherwise defers to Math.nextUp; in the key
    domain both are the successor.)
  */
  function NextUp(k: Key): (r: Key)
    ensures k <= r <= k + 1
    ensures r == k <==> k == PositiveInfinity
  {
    if k == PositiveInfinity then k else k + 1
  }

  /** FloatPoint.nextDown: the adjacent value below, saturating at -Infinity. */
  function NextDown(k: Key): (r: Key)
    ensures k - 1 <= r <= k
    ensures r == k <==> k == NegativeInfinity
  {
    if k == NegativeInfinity then k else k - 1
  }

  /** Below +Infinity, NextUp is the least key strictly above k. */
  lemma NextUpIsSuccessor(k: Key, j: Key)
    requires k < PositiveInfinity
    ensures k < NextUp(k)
    ensures k < j <==> NextUp(k) <= j
  {
  }

  /** Above -Infinity, NextDown is the greatest key strictly below k. */
  lemma NextDownIsPredecessor(k: Key, j: Key)
    requires NegativeInfinity < k
    ensures NextDown(k) < k
    ensures j < k <==> j <= NextDown(k)
  {
  }

  /** The two steps undo each other away from the saturating ends. */
  lemma StepInversion(k: Key)
    ensures k < PositiveInfinity ==> NextDown(NextUp(k)) == k
    ensures NegativeInfinity < k ==> NextUp(NextDown(k)) == k
    ensures NextUp(PositiveInfinity) == PositiveInfinity
    ensures NextDown(NegativeInfinity) == NegativeInfinity
  {
  }

  // ---------------------------------------------------------------------
  // 32-bit layouts, as Java ints (a 32-bit pattern read as two's
  // complement). The raw layout is Float.floatToIntBits; the sortable layout
  // is NumericUtils.floatToSortableInt.
  // ---------------------------------------------------------------------

  /** A Java int. */
  type Int32 = i: int | -0x8000_0000 <= i < 0x8000_0000

  /**
    NumericUtils.sortableFloatBits, bits ^ ((bits >> 31) & 0x7FFF_FFFF): a
    pattern with the sign bit clear is kept; one with the sign bit set has its
    31 low bits flipped, which on a negative int b gives -2^31 - 1 - b. It
    turns raw bits into sortable bits and back.
  */
  function SortableFloatBits(b: Int32): (r: Int32)
    ensures (r < 0) == (b < 0)
    ensures b >= 0 ==> r == b
    ensures b < 0 ==> (r + 0x8000_0000) + (b + 0x8000_0000) == 0x7FFF_FFFF
  {
    if b >= 0 then b else -0x8000_0001 - b
  }

  /** Flipping twice restores the pattern; the sign bit is never touched. */
  lemma SortableFloatBitsInvolution(b: Int32)
    ensures SortableFloatBits(SortableFloatBits(b)) == b
    ensures (SortableFloatBits(b) < 0) == (b < 0)
  {
  }

  /** NumericUtils.sortableIntToFloat, seen in the key domain. */
  function SortableIntToFloat(s: Int32): (f: Float)
    ensures f.Ordered? <==> NegInfKey <= s <= PosInfKey
    ensures f.Ordered? ==> f.key == s
  {
    if NegInfKey <= s <= PosInfKey then Ordered(s) else NaN
  }

  /** Float.intBitsToFloat, seen in the key domain. */
  function IntBitsToFloat(bits: Int32): (f: Float)
    ensures f.Ordered? <==> NegInfKey <= SortableFloatBits(bits) <= PosInfKey
    ensures f.Ordered? ==> f.key == SortableFloatBits(bits)
  {
    SortableIntToFloat(SortableFloatBits(bits))
  }

  /** NumericUtils.floatToSortableInt; decoding the sortable layout undoes it. */
  function FloatToSortableInt(k: Key): (s: Int32)
    ensures SortableIntToFloat(s) == Ordered(k)
  {
    k
  }

  /**
    Float.floatToIntBits (no NaN to canonicalise: keys are ordered values);
    Float.intBitsToFloat undoes it.
  */
  function FloatToIntBits(k: Key): (bits: Int32)
    ensures IntBitsToFloat(bits) == Ordered(k)
  {
    SortableFloatBits(k)
  }

  /** Two raw patterns that decode to the same ordered value are the same pattern. */
  lemma RawDecodeInjective(a: Int32, b: Int32)
    requires IntBitsToFloat(a).Ordered? && IntBitsToFloat(a) == IntBitsToFloat(b)
    ensures a == b
  {
  }

  /**
    The raw layout orders non-negative values like the keys do and reverses
    the order of negative ones: the reason the sortable layout exists.
  */
  lemma RawLayoutOrder(a: Key, b: Key)
    requires a < b
    ensures 0 <= a ==> FloatToIntBits(a) < FloatToIntBits(b)
    ensures b < 0 ==> FloatToIntBits(b) < FloatToIntBits(a)
  {
  }
}
