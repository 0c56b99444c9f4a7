/** The scalar side of the exhaustive SSE conversion test: for every 16-bit mask it lays out
    a sixteen-byte window of digits and underscores, decodes it with the scalar unsigned
    decoder to get the expected values, and compares the SIMD output against them. */
module VerifySseUnsignedConversion {
  import opened Results
  import opened Digits
  import ScalarParseUnsigned

  newtype uint16 = x: int | 0 <= x < 0x1_0000

  /** The window the SIMD routines read: one SSE register of bytes. */
  const WINDOW: nat := 16

  /** `(uint32_t)-1`, the value `result` is filled with before each conversion. */
  const FILL: uint32 := 0xFFFF_FFFF

  function Pow2(i: nat): (p: nat)
    ensures p > 0
  {
    if i == 0 then 1 else 2 * Pow2(i - 1)
  }

  /** Whether `x & (1 << i)` is non-zero. */
  function Bit(x: uint16, i: nat): bool
  {
    if i == 0 then x % 2 == 1 else Bit(x / 2, i - 1)
  }

  /** How many of the bits below `n` are set: the value of the source's counter `k` on
      reaching position `n`. */
  function SetBitsBelow(x: uint16, n: nat): nat
  {
    if n == 0 then 0 else SetBitsBelow(x, n - 1) + (if Bit(x, n - 1) then 1 else 0)
  }

  /** The byte written at position `i` of the window for mask `x`: a digit cycling through
      0..9 for each set bit, an underscore for each clear one. */
  function PatternByte(x: uint16, i: nat): byte
  {
    if Bit(x, i) then (SetBitsBelow(x, i) % 10 + ZERO as int) as byte else UNDERSCORE
  }

  /** The first `n` bytes of the window for mask `x`. */
  function PatternPrefix(x: uint16, n: nat): (w: seq<byte>)
    ensures |w| == n
  {
    if n == 0 then [] else PatternPrefix(x, n - 1) + [PatternByte(x, n - 1)]
  }

  function Pattern(x: uint16): seq<byte>
  {
    PatternPrefix(x, WINDOW)
  }

  /** How many maximal blocks of consecutive set bits lie below bit `n`. */
  function BitBlocks(x: uint16, n: nat): nat
  {
    if n == 0 then 0
    else BitBlocks(x, n - 1) + (if Bit(x, n - 1) && (n == 1 || !Bit(x, n - 2)) then 1 else 0)
  }

  // ---------------------------------------------------------------------------------------
  // The test fixture

  class Verify {
    /** `char buffer[17]`: sixteen bytes of input and a terminating zero. */
    const buffer: array<byte>
    /** What the SIMD conversion writes (sixteen slots). */
    var result: seq<uint32>
    /** What the scalar decoder reads from the window. */
    var reference: seq<uint32>

    ghost predicate Valid()
      reads this
    {
      buffer.Length == WINDOW + 1 && |result| == WINDOW
    }

    /** The buffer starts zeroed and `result` holds sixteen zeros. */
    constructor ()
      ensures Valid() && fresh(buffer)
      ensures buffer[..] == seq(WINDOW + 1, _ => 0)
      ensures result == seq(WINDOW, _ => 0) && reference == []
    {
      buffer := new byte[WINDOW + 1](_ => 0);
      result := seq(WINDOW, _ => 0);
      reference := [];
    }

    /** Lays out the window for mask `x`, fills `result` with `(uint32_t)-1` and decodes the
        window with `_` as the only separator into `reference`. */
    method GenerateInput(x: uint16)
      requires Valid()
      modifies this, buffer
      ensures Valid()
      ensures buffer[..WINDOW] == Pattern(x) && buffer[WINDOW] == old(buffer[WINDOW])
      ensures result == seq(WINDOW, _ => FILL)
      ensures ScalarParseUnsigned.ParseUnsignedSpec(Pattern(x), [UNDERSCORE]) == Ok(reference)
    {
      var k := 0;
      for i := 0 to WINDOW
        invariant buffer[..i] == PatternPrefix(x, i)
        invariant k == SetBitsBelow(x, i)
        invariant buffer[WINDOW] == old(buffer[WINDOW])
      {
        if Bit(x, i) {
          buffer[i] := (k % 10 + ZERO as int) as byte;
          k := k + 1;
        } else {
          buffer[i] := UNDERSCORE;
        }
        assert buffer[..i + 1] == buffer[..i] + [buffer[i]];
      }
      assert buffer[..WINDOW] == Pattern(x);

      result := seq(WINDOW, _ => FILL);

      PatternIsAccepted(x);
      var parsed := ScalarParseUnsigned.ParseUnsigned(buffer[..WINDOW], [UNDERSCORE]);
      reference := parsed.values;
    }

    /** Whether the first `n` converted values match the reference. */
    method Compare(n: nat) returns (ok: bool)
      requires n <= |result| && n <= |reference|
      ensures ok <==> forall i | 0 <= i < n :: result[i] == reference[i]
    {
      for i := 0 to n
        invariant forall j | 0 <= j < i :: result[j] == reference[j]
      {
        if result[i] != reference[i] {
          return false;
        }
      }
      return true;
    }
  }

  // ---------------------------------------------------------------------------------------
  // Properties of the generated windows

  lemma {:induction false} PatternPrefixAt(x: uint16, n: nat)
    ensures forall i | 0 <= i < n :: PatternPrefix(x, n)[i] == PatternByte(x, i)
  {
    if n > 0 {
      PatternPrefixAt(x, n - 1);
    }
  }

  /** Position `i` of the window holds a digit exactly when bit `i` of the mask is set; the
      digit is the count of set bits below it, modulo ten; every other byte is `_`. */
  lemma PatternLayout(x: uint16)
    ensures |Pattern(x)| == WINDOW
    ensures forall i | 0 <= i < WINDOW ::
      && (IsDigit(Pattern(x)[i]) <==> Bit(x, i))
      && (Bit(x, i) ==> DigitValue(Pattern(x)[i]) == SetBitsBelow(x, i) % 10)
      && (!Bit(x, i) ==> Pattern(x)[i] == UNDERSCORE)
  {
    PatternPrefixAt(x, WINDOW);
  }

  /** The scalar decoder accepts every window: it holds only digits and the separator. */
  lemma PatternIsAccepted(x: uint16)
    ensures ScalarParseUnsigned.ParseUnsignedSpec(Pattern(x), [UNDERSCORE])
            == Ok(ScalarParseUnsigned.Wrapped(Runs(Pattern(x))))
  {
    PatternLayout(x);
    ScalarParseUnsigned.FirstStrayIsLeast(Pattern(x), [UNDERSCORE], 0);
  }

  /** The window has one digit run per block of consecutive set bits. */
  lemma {:induction false} PatternRunsAreBitBlocks(x: uint16, n: nat)
    ensures |Runs(PatternPrefix(x, n))| == BitBlocks(x, n)
  {
    if n > 0 {
      PatternRunsAreBitBlocks(x, n - 1);
      var p := PatternPrefix(x, n - 1);
      var c := PatternByte(x, n - 1);
      assert PatternPrefix(x, n) == p + [c];
      if !Bit(x, n - 1) {
        RunsSnocNonDigit(p, c);
      } else {
        RunsSnocDigit(p, c);
        RunsOfClosed(p + [c]);
        RunsOfClosed(p);
        if n > 1 {
          assert p[|p| - 1] == PatternByte(x, n - 2) by { PatternPrefixAt(x, n - 1); }
        }
      }
    }
  }

  /** The expected values: one per block of set bits, each the decimal value of its run of
      digits modulo 2^32. */
  lemma ReferenceMeaning(x: uint16)
    ensures var r := ScalarParseUnsigned.ParseUnsignedSpec(Pattern(x), [UNDERSCORE]);
      && r.Ok? && |r.values| == BitBlocks(x, WINDOW)
      && forall k | 0 <= k < |r.values| ::
           r.values[k] as int == Value(Runs(Pattern(x))[k]) % 0x1_0000_0000
  {
    PatternIsAccepted(x);
    PatternRunsAreBitBlocks(x, WINDOW);
    ScalarParseUnsigned.WrappedAt(Runs(Pattern(x)));
  }

  /** Masks that agree on their low `n` bits and lie below 2^n are equal. */
  lemma {:induction false} BitsDetermine(x: uint16, y: uint16, n: nat)
    requires x as int < Pow2(n) && y as int < Pow2(n)
    requires forall i | 0 <= i < n :: Bit(x, i) == Bit(y, i)
    ensures x == y
  {
    if n > 0 {
      assert Bit(x, 0) == Bit(y, 0);
      forall i | 0 <= i < n - 1
        ensures Bit(x / 2, i) == Bit(y / 2, i)
      {
        assert Bit(x, i + 1) == Bit(y, i + 1);
      }
      BitsDetermine(x / 2, y / 2, n - 1);
    }
  }

  lemma Pow2Window()
    ensures Pow2(WINDOW) == 0x1_0000
  {
    assert Pow2(4) == 16;
    assert Pow2(8) == 256 by { assert Pow2(5) == 32; assert Pow2(6) == 64; assert Pow2(7) == 128; }
    assert Pow2(12) == 4096 by { assert Pow2(9) == 512; assert Pow2(10) == 1024; assert Pow2(11) == 2048; }
    assert Pow2(13) == 8192;
    assert Pow2(14) == 16384;
    assert Pow2(15) == 32768;
  }

  /** Different masks give different windows, so the 65536 masks exercise 65536 distinct
      layouts of digits and separators. */
  lemma PatternInjective(x: uint16, y: uint16)
    requires Pattern(x) == Pattern(y)
    ensures x == y
  {
    PatternLayout(x);
    PatternLayout(y);
    Pow2Window();
    forall i | 0 <= i < WINDOW
      ensures Bit(x, i) == Bit(y, i)
    {
      assert IsDigit(Pattern(x)[i]) == IsDigit(Pattern(y)[i]);
    }
    BitsDetermine(x, y, WINDOW);
  }

  // ---------------------------------------------------------------------------------------
  // Examples

  lemma {:induction false} NoBitOfZero(i: nat)
    ensures !Bit(0, i)
  {
    if i > 0 {
      NoBitOfZero(i - 1);
    }
  }

  /** Mask 0 lays out sixteen underscores, from which the decoder reads no value. */
  lemma MaskZeroExample()
    ensures forall i | 0 <= i < WINDOW :: Pattern(0)[i] == UNDERSCORE
    ensures ScalarParseUnsigned.ParseUnsignedSpec(Pattern(0), [UNDERSCORE]) == Ok([])
  {
    PatternPrefixAt(0, WINDOW);
    forall i | 0 <= i < WINDOW
      ensures Pattern(0)[i] == UNDERSCORE
    {
      NoBitOfZero(i);
    }
    ScalarParseUnsigned.ParseUnsignedOnlySeparators(Pattern(0), [UNDERSCORE]);
  }

  lemma FiveBits()
    ensures Bit(5, 0) && !Bit(5, 1) && Bit(5, 2) && SetBitsBelow(5, 0) == 0 && SetBitsBelow(5, 2) == 1
    ensures forall i: nat | 3 <= i :: !Bit(5, i)
  {
    assert Bit(5, 2) by { assert Bit(5, 2) == Bit(2, 1) == Bit(1, 0); }
    assert SetBitsBelow(5, 2) == 1 by { assert SetBitsBelow(5, 1) == 1; }
    forall i: nat | 3 <= i
      ensures !Bit(5, i)
    {
      assert Bit(5, i) == Bit(2, i - 1) == Bit(1, i - 2) == Bit(0, i - 3);
      NoBitOfZero(i - 3);
    }
  }

  /** Mask 0b101 lays out "0_1" followed by thirteen underscores. */
  lemma MaskFiveWindow()
    ensures var w := Pattern(5);
      && w[0] == ZERO && w[1] == UNDERSCORE && w[2] == ZERO + 1
      && forall i | 3 <= i < WINDOW :: w[i] == UNDERSCORE
  {
    PatternPrefixAt(5, WINDOW);
    FiveBits();
  }

  /** The decoder reads the values 0 and 1 from that window. */
  lemma MaskFiveReference(w: seq<byte>)
    requires |w| == WINDOW && w[0] == ZERO && w[1] == UNDERSCORE && w[2] == ZERO + 1
    requires forall i | 3 <= i < WINDOW :: w[i] == UNDERSCORE
    ensures ScalarParseUnsigned.ParseUnsignedSpec(w, [UNDERSCORE]) == Ok([0, 1])
  {
    var tail := w[4..];
    assert w == [ZERO] + [UNDERSCORE] + ([ZERO + 1] + [UNDERSCORE] + tail);
    ScalarParseUnsigned.ParseUnsignedSplit([ZERO], UNDERSCORE, [ZERO + 1] + [UNDERSCORE] + tail, [UNDERSCORE]);
    ScalarParseUnsigned.ParseUnsignedSplit([ZERO + 1], UNDERSCORE, tail, [UNDERSCORE]);
    ScalarParseUnsigned.ParseUnsignedOnlySeparators(tail, [UNDERSCORE]);
    SingleDigitReference(ZERO);
    SingleDigitReference(ZERO + 1);
  }

  lemma SingleDigitReference(d: byte)
    requires IsDigit(d)
    ensures ScalarParseUnsigned.ParseUnsignedSpec([d], [UNDERSCORE]) == Ok([(d - ZERO) as uint32])
  {
    ScalarParseUnsigned.ParseUnsignedLeadingZeros(0, [d], [UNDERSCORE]);
    assert seq(0, _ => ZERO) + [d] == [d];
    assert [d][..0] == [];
    assert Value([d]) == DigitValue(d);
  }

  /** Mask 0b101 yields the expected values 0 and 1. */
  lemma MaskFiveExample()
    ensures ScalarParseUnsigned.ParseUnsignedSpec(Pattern(5), [UNDERSCORE]) == Ok([0, 1])
  {
    MaskFiveWindow();
    MaskFiveReference(Pattern(5));
  }
}
