/** Bytes, fixed-width integers, decimal values and maximal runs of ASCII digits:
    the vocabulary shared by the scalar decoders. */
module Digits {

  newtype byte = x: int | 0 <= x < 0x100
  newtype uint32 = x: int | 0 <= x < 0x1_0000_0000
  newtype int32 = x: int | -0x8000_0000 <= x < 0x8000_0000

  const ZERO: byte := 48        // '0'
  const NINE: byte := 57        // '9'
  const PLUS: byte := 43        // '+'
  const MINUS: byte := 45       // '-'
  const UNDERSCORE: byte := 95  // '_'

  predicate IsDigit(b: byte) { ZERO <= b <= NINE }

  /** The value of a digit byte (zero for any other byte, to which it is never applied). */
  function DigitValue(b: byte): (d: nat)
    ensures d < 10 && (IsDigit(b) ==> b as int == ZERO as int + d)
  {
    if IsDigit(b) then (b - ZERO) as nat else 0
  }

  predicate AllDigits(s: seq<byte>) { forall i | 0 <= i < |s| :: IsDigit(s[i]) }

  /** The decimal value of a digit string, most significant digit first. */
  function Value(ds: seq<byte>): nat
  {
    if ds == [] then 0 else 10 * Value(ds[..|ds| - 1]) + DigitValue(ds[|ds| - 1])
  }

  const TWO32: nat := 0x1_0000_0000

  /** What `uint32_t` arithmetic does to a non-negative value: subtract 2^32 until it fits
      (WrapIsMod: reduction modulo 2^32). */
  function Wrap(v: nat): uint32
    decreases v
  {
    if v < TWO32 then v as uint32 else Wrap(v - TWO32)
  }

  /** Length of the maximal block of digits at the end of `s`. */
  function Trail(s: seq<byte>): (n: nat)
    ensures n <= |s|
  {
    if s == [] || !IsDigit(s[|s| - 1]) then 0
    else Trail(s[..|s| - 1]) + 1
  }

  lemma {:induction false} TrailIsMaximal(s: seq<byte>)
    ensures forall i | |s| - Trail(s) <= i < |s| :: IsDigit(s[i])
    ensures Trail(s) < |s| ==> !IsDigit(s[|s| - 1 - Trail(s)])
  {
    if s != [] && IsDigit(s[|s| - 1]) {
      TrailIsMaximal(s[..|s| - 1]);
    }
  }

  /** The digit run still open at the end of `s` (empty when `s` ends in a non-digit). */
  function Open(s: seq<byte>): seq<byte> { s[|s| - Trail(s)..] }

  /** Everything of `s` before the open run: all of its digit runs are closed by a non-digit. */
  function Closed(s: seq<byte>): seq<byte> { s[..|s| - Trail(s)] }

  /** The maximal runs of digits of `s`, in input order: the last run is the trailing block of
      digits, the others are the runs of what precedes it. */
  function Runs(s: seq<byte>): seq<seq<byte>>
    decreases |s|
  {
    if s == [] then []
    else if !IsDigit(s[|s| - 1]) then Runs(s[..|s| - 1])
    else Runs(Closed(s)) + [Open(s)]
  }

  // ---------------------------------------------------------------------------------------
  // Decimal values

  lemma {:induction false} WrapIsMod(v: nat)
    ensures Wrap(v) as int == v % TWO32
  {
    if v >= TWO32 {
      WrapIsMod(v - TWO32);
    }
  }

  /** Adding a multiple of 2^32 does not change the wrapped value. */
  lemma {:induction false} WrapAddMultiple(x: nat, k: nat)
    ensures Wrap(x + k * TWO32) == Wrap(x)
  {
    if k > 0 {
      WrapAddMultiple(x, k - 1);
      assert x + k * TWO32 - TWO32 == x + (k - 1) * TWO32;
    }
  }

  /** Wrapping every step of the accumulation is the same as wrapping the exact value once. */
  lemma {:induction false} WrapStep(v: nat, d: nat)
    ensures Wrap(10 * (Wrap(v) as int) + d) == Wrap(10 * v + d)
  {
    if v >= TWO32 {
      WrapStep(v - TWO32, d);
      WrapAddMultiple(10 * (v - TWO32) + d, 10);
      assert 10 * (v - TWO32) + d + 10 * TWO32 == 10 * v + d;
    }
  }

  /** A digit appended to a digit string shifts its value one decimal place. */
  lemma ValueSnoc(ds: seq<byte>, c: byte)
    ensures Value(ds + [c]) == 10 * Value(ds) + DigitValue(c)
  {
    assert (ds + [c])[..|ds|] == ds;
  }

  /** A leading zero does not change a decimal value. */
  lemma {:induction false} ValueLeadingZero(ds: seq<byte>)
    ensures Value([ZERO] + ds) == Value(ds)
  {
    if ds != [] {
      var init := ds[..|ds| - 1];
      ValueLeadingZero(init);
      assert ([ZERO] + ds)[..|ds|] == [ZERO] + init;
    }
  }

  /** Any number of leading zeros leaves a decimal value unchanged: "007" is 7. */
  lemma {:induction false} ValueLeadingZeros(zeros: nat, ds: seq<byte>)
    ensures Value(seq(zeros, _ => ZERO) + ds) == Value(ds)
  {
    if zeros > 0 {
      var rest := seq(zeros - 1, _ => ZERO) + ds;
      ValueLeadingZeros(zeros - 1, ds);
      assert seq(zeros, _ => ZERO) + ds == [ZERO] + rest;
      ValueLeadingZero(rest);
    } else {
      assert seq(zeros, _ => ZERO) + ds == ds;
    }
  }

  /** The prefix of length i + 1 is the prefix of length i and the byte at i. */
  lemma PrefixSnoc(data: seq<byte>, i: nat)
    requires i < |data|
    ensures data[..i + 1] == data[..i] + [data[i]]
  {
  }

  /** Dropping the last element of a concatenation drops it from the right operand. */
  lemma InitOfAppend<T>(xs: seq<T>, ys: seq<T>)
    requires ys != []
    ensures (xs + ys)[..|xs + ys| - 1] == xs + ys[..|ys| - 1]
  {
    var l, r := (xs + ys)[..|xs + ys| - 1], xs + ys[..|ys| - 1];
    assert |l| == |r|;
    forall k | 0 <= k < |l|
      ensures l[k] == r[k]
    {
      if k < |xs| {
        assert l[k] == xs[k];
      } else {
        assert l[k] == ys[k - |xs|];
      }
    }
  }

  // ---------------------------------------------------------------------------------------
  // How runs grow when one byte is appended: the step of a left-to-right scan

  /** A non-digit closes the open run and starts no new one. */
  lemma RunsSnocNonDigit(s: seq<byte>, c: byte)
    requires !IsDigit(c)
    ensures Trail(s + [c]) == 0 && Closed(s + [c]) == s + [c]
    ensures Runs(s + [c]) == Runs(s)
  {
    assert (s + [c])[..|s|] == s;
  }

  /** A digit extends the open run (or opens one) and leaves the closed part alone. */
  lemma RunsSnocDigit(s: seq<byte>, c: byte)
    requires IsDigit(c)
    ensures Trail(s + [c]) == Trail(s) + 1
    ensures Closed(s + [c]) == Closed(s)
    ensures Open(s + [c]) == Open(s) + [c]
  {
    assert (s + [c])[..|s|] == s;
  }

  /** A trailing digit adds one decimal place to the value of the open run. */
  lemma OpenValueStep(p: seq<byte>)
    requires p != [] && IsDigit(p[|p| - 1])
    ensures Value(Open(p)) == 10 * Value(Open(p[..|p| - 1])) + DigitValue(p[|p| - 1])
  {
    var init, c := p[..|p| - 1], p[|p| - 1];
    assert p == init + [c];
    RunsSnocDigit(init, c);
    ValueSnoc(Open(init), c);
  }

  /** Runs of a prefix that ends in a non-digit are all closed. */
  lemma RunsOfClosed(s: seq<byte>)
    ensures Trail(s) == 0 ==> Closed(s) == s
    ensures Trail(s) > 0 ==> Runs(s) == Runs(Closed(s)) + [Open(s)]
  {
  }

  // ---------------------------------------------------------------------------------------
  // Global properties of Runs

  /** A non-digit byte never becomes part of a run: the trailing block of `a + [x] + b` lies in `b`. */
  lemma {:induction false} TrailAfterNonDigit(a: seq<byte>, x: byte, b: seq<byte>)
    requires !IsDigit(x)
    ensures Trail(a + [x] + b) == Trail(b)
  {
    if b == [] {
      RunsSnocNonDigit(a, x);
    } else {
      var b' := b[..|b| - 1];
      assert (a + [x] + b)[..|a + [x] + b| - 1] == a + [x] + b';
      TrailAfterNonDigit(a, x, b');
    }
  }

  /** Runs on the two sides of a non-digit do not influence each other. */
  lemma {:induction false} RunsSplit(a: seq<byte>, x: byte, b: seq<byte>)
    requires !IsDigit(x)
    ensures Runs(a + [x] + b) == Runs(a) + Runs(b)
    decreases |b|
  {
    var s := a + [x] + b;
    if b == [] {
      assert s == a + [x];
      RunsSnocNonDigit(a, x);
    } else if !IsDigit(b[|b| - 1]) {
      var b' := b[..|b| - 1];
      assert s[..|s| - 1] == a + [x] + b';
      RunsSplit(a, x, b');
    } else {
      TrailAfterNonDigit(a, x, b);
      var n := Trail(b);
      assert Closed(s) == a + [x] + Closed(b);
      assert Open(s) == Open(b);
      RunsSplit(a, x, Closed(b));
    }
  }

  /** A run of digits appended after a non-digit (or to nothing) is the open run. */
  lemma AppendRun(a: seq<byte>, ds: seq<byte>)
    requires ds != [] && AllDigits(ds)
    requires a == [] || !IsDigit(a[|a| - 1])
    ensures Trail(a + ds) == |ds| && Closed(a + ds) == a && Open(a + ds) == ds
  {
    TrailOfAppendedDigits(a, ds);
    var s := a + ds;
    assert s[..|a|] == a;
    assert s[|a|..] == ds;
  }

  lemma {:induction false} TrailOfAppendedDigits(a: seq<byte>, ds: seq<byte>)
    requires AllDigits(ds)
    requires a == [] || !IsDigit(a[|a| - 1])
    ensures Trail(a + ds) == |ds|
    decreases |ds|
  {
    if ds == [] {
      assert a + ds == a;
    } else {
      var ds' := ds[..|ds| - 1];
      assert (a + ds)[..|a + ds| - 1] == a + ds';
      assert (a + ds)[|a + ds| - 1] == ds[|ds| - 1];
      TrailOfAppendedDigits(a, ds');
    }
  }

  /** Input without digits has no runs. */
  lemma {:induction false} RunsWithoutDigits(s: seq<byte>)
    requires forall i | 0 <= i < |s| :: !IsDigit(s[i])
    ensures Runs(s) == []
  {
    if s != [] {
      RunsWithoutDigits(s[..|s| - 1]);
    }
  }

  /** Every run is a non-empty string of digits. */
  lemma {:induction false} RunsAreDigits(s: seq<byte>)
    ensures forall k | 0 <= k < |Runs(s)| :: |Runs(s)[k]| > 0 && AllDigits(Runs(s)[k])
    decreases |s|
  {
    if s != [] {
      if !IsDigit(s[|s| - 1]) {
        RunsAreDigits(s[..|s| - 1]);
      } else {
        TrailIsMaximal(s);
        RunsAreDigits(Closed(s));
      }
    }
  }

  /** A non-empty block of digits is a single run. */
  lemma {:induction false} RunsOfDigits(s: seq<byte>)
    requires s != [] && AllDigits(s)
    ensures Trail(s) == |s| && Runs(s) == [s]
  {
    if |s| > 1 {
      RunsOfDigits(s[..|s| - 1]);
    }
    assert Closed(s) == [];
  }
}
