/** `scalar::parse_signed`: a four-state scanner over digits, separators and an optional sign
    that must directly follow a separator (or the start of input) and be followed by a digit
    before the next separator; a sign that ends the input is accepted. */
module ScalarParseSigned {
  import opened Results
  import opened Digits

  /** The lexical class of a byte, which is also the scanner's state after reading it. */
  datatype Lexeme = Separator | Plus | Minus | Digit

  /** Signs are recognised before digits, and digits before the separator set is consulted;
      any other byte has no class. */
  function Classify(c: byte, separators: seq<byte>): Option<Lexeme>
  {
    if c == PLUS then Some(Plus)
    else if c == MINUS then Some(Minus)
    else if IsDigit(c) then Some(Digit)
    else if c in separators then Some(Separator)
    else None
  }

  /** The class of the byte before position `i`; the start of input counts as a separator. */
  function Before(data: seq<byte>, separators: seq<byte>, i: nat): Option<Lexeme>
    requires i <= |data|
  {
    if i == 0 then Some(Separator) else Classify(data[i - 1], separators)
  }

  /** The exception the byte at `i` raises, judged by that byte and the one before it. */
  function FaultAt(data: seq<byte>, separators: seq<byte>, i: nat): Option<ErrorKind>
    requires i < |data|
  {
    match Classify(data[i], separators)
    case None => Some(WrongCharacter)
    case Some(Plus) => if Before(data, separators, i) != Some(Separator) then Some(SignAfterNonSeparator) else None
    case Some(Minus) => if Before(data, separators, i) != Some(Separator) then Some(SignAfterNonSeparator) else None
    case Some(Separator) =>
      if Before(data, separators, i) in {Some(Plus), Some(Minus)} then Some(SignWithoutDigits) else None
    case Some(Digit) => None
  }

  datatype Fault = Fault(kind: ErrorKind, at: nat)

  /** The first fault at or after position `i`, if any. */
  function FirstFaultFrom(data: seq<byte>, separators: seq<byte>, i: nat): Option<Fault>
    requires i <= |data|
    decreases |data| - i
  {
    if i == |data| then None
    else if FaultAt(data, separators, i).Some? then Some(Fault(FaultAt(data, separators, i).value, i))
    else FirstFaultFrom(data, separators, i + 1)
  }

  /** The open run at the end of `s` is negative when a '-' stands directly before it. */
  predicate NegativeOpen(s: seq<byte>)
  {
    var start := |s| - Trail(s);
    start > 0 && s[start - 1] == MINUS
  }

  function SignedOpen(s: seq<byte>): int
  {
    var v: int := Value(Open(s));
    if NegativeOpen(s) then -v else v
  }

  /** Every maximal digit run of `s` with its sign: negated exactly when the byte directly
      before the run is '-'. */
  function SignedRuns(s: seq<byte>): seq<int>
    decreases |s|
  {
    if s == [] then []
    else if !IsDigit(s[|s| - 1]) then SignedRuns(s[..|s| - 1])
    else SignedRuns(Closed(s)) + [SignedOpen(s)]
  }

  /** What `parse_signed(data, size, separators, output)` produces: the exception raised at the
      first faulty byte, or else the signed value of every digit run that some byte follows.
      A run that ends the input is not emitted (see ParseSignedDropsFinalRun). */
  function ParseSignedSpec(data: seq<byte>, separators: seq<byte>): Outcome<int>
  {
    match FirstFaultFrom(data, separators, 0)
    case Some(f) => Err(f.kind, f.at)
    case None => Ok(SignedRuns(Closed(data)))
  }

  /** `number` is an `int32_t` and `10*number + c - '0'` is evaluated left to right, so every
      prefix of a digit run the scan reaches must keep `10*number + c`, that is its value plus
      '0', below 2^31: beyond that the source has undefined behaviour. Digits after the first
      faulty byte are never read, so they are not bounded. */
  predicate NoInt32Overflow(data: seq<byte>, separators: seq<byte>)
  {
    forall i, j | 0 <= i <= j <= |data| && AllDigits(data[i..j]) ::
      (forall k | 0 <= k < j :: FaultAt(data, separators, k).None?) ==>
        Value(data[i..j]) + ZERO as int < 0x8000_0000
  }

  // ---------------------------------------------------------------------------------------
  // One step of the scan

  /** The number the scanner has accumulated for the open run of `p`, digit by digit. */
  function Magnitude(p: seq<byte>): nat
  {
    if p == [] || !IsDigit(p[|p| - 1]) then 0
    else 10 * Magnitude(p[..|p| - 1]) + (p[|p| - 1] - ZERO) as int
  }

  /** The accumulated number is the decimal value of the open run. */
  lemma {:induction false} MagnitudeIsOpenValue(p: seq<byte>)
    ensures Magnitude(p) == Value(Open(p))
  {
    if p != [] && IsDigit(p[|p| - 1]) {
      MagnitudeIsOpenValue(p[..|p| - 1]);
      OpenValueStep(p);
    }
  }

  /** The values the scanner has emitted after reading `p`, built in reading order: a
      non-digit that ends a run appends that run's signed value. */
  function SignedEmitted(p: seq<byte>): seq<int>
  {
    if p == [] then []
    else
      var init := p[..|p| - 1];
      if !IsDigit(p[|p| - 1]) && Trail(init) > 0 then SignedEmitted(init) + [SignedOpen(init)]
      else SignedEmitted(init)
  }

  /** A non-digit closes the open run, if there is one, and appends its signed value. */
  lemma SignedRunsSnocNonDigit(p: seq<byte>, c: byte)
    requires !IsDigit(c)
    ensures SignedRuns(Closed(p + [c]))
         == if Trail(p) > 0 then SignedRuns(Closed(p)) + [SignedOpen(p)] else SignedRuns(Closed(p))
  {
    RunsSnocNonDigit(p, c);
    assert (p + [c])[..|p|] == p;
    if Trail(p) == 0 {
      assert Closed(p) == p;
    }
  }

  /** What the scan has emitted is the signed value of every run closed so far. */
  lemma {:induction false} SignedEmittedIsClosedRuns(p: seq<byte>)
    ensures SignedEmitted(p) == SignedRuns(Closed(p))
  {
    if p != [] {
      var init, c := p[..|p| - 1], p[|p| - 1];
      SignedEmittedIsClosedRuns(init);
      assert p == init + [c];
      if IsDigit(c) {
        RunsSnocDigit(init, c);
      } else {
        SignedRunsSnocNonDigit(init, c);
      }
    }
  }

  /** What the scanner's variables hold after reading the prefix `p` without a fault: `state`
      is the class of the last byte, `number` and `negative` describe the open run (or the
      pending sign), and `output` holds what was emitted. After a separator `number` and
      `negative` keep whatever they held. */
  ghost predicate Scanned(p: seq<byte>, separators: seq<byte>, state: Lexeme, negative: bool,
                          number: int, output: seq<int>)
  {
    && Before(p, separators, |p|) == Some(state)
    && (state != Digit ==> Trail(p) == 0 && Magnitude(p) == 0)
    && (state == Digit ==> number == Magnitude(p) && negative == NegativeOpen(p))
    && (state == Plus ==> number == 0 && !negative)
    && (state == Minus ==> number == 0 && negative)
    && output == SignedEmitted(p)
  }

  /** Extending an open run by one more digit keeps `10*number + c` inside `int32_t`. */
  lemma NoOverflowStep(data: seq<byte>, separators: seq<byte>, i: nat)
    requires NoInt32Overflow(data, separators)
    requires i < |data| && IsDigit(data[i])
    requires FirstFaultFrom(data, separators, i) == FirstFaultFrom(data, separators, 0)
    ensures 10 * Magnitude(data[..i]) + data[i] as int < 0x8000_0000
  {
    NoFaultThrough(data, separators, i);
    var start := OpenRunOf(data, i);
    RunBelowLimit(data, separators, start, i + 1);
  }

  /** The open run of `data[..i + 1]`, for a digit `data[i]`, is `data[start..i + 1]`, and its
      value is what the loop computes from `number`. */
  lemma OpenRunOf(data: seq<byte>, i: nat) returns (start: nat)
    requires i < |data| && IsDigit(data[i])
    ensures start <= i && AllDigits(data[start..i + 1])
    ensures 10 * Magnitude(data[..i]) + DigitValue(data[i]) == Value(data[start..i + 1])
  {
    var p := data[..i + 1];
    assert data[..i] == p[..|p| - 1];
    MagnitudeIsOpenValue(data[..i]);
    OpenValueStep(p);
    TrailIsMaximal(p);
    start := i + 1 - Trail(p);
    assert Open(p) == data[start..i + 1];
  }

  /** `NoInt32Overflow` for one run the scan reaches. */
  lemma RunBelowLimit(data: seq<byte>, separators: seq<byte>, lo: nat, hi: nat)
    requires NoInt32Overflow(data, separators)
    requires lo <= hi <= |data| && AllDigits(data[lo..hi])
    requires forall k | 0 <= k < hi :: FaultAt(data, separators, k).None?
    ensures Value(data[lo..hi]) + ZERO as int < 0x8000_0000
  {
  }

  /** While the first fault is still ahead, no byte up to the digit `data[i]` faults. */
  lemma NoFaultThrough(data: seq<byte>, separators: seq<byte>, i: nat)
    requires i < |data| && IsDigit(data[i])
    requires FirstFaultFrom(data, separators, i) == FirstFaultFrom(data, separators, 0)
    ensures forall k | 0 <= k <= i :: FaultAt(data, separators, k).None?
  {
    FirstFaultIsLeast(data, separators, 0);
    FirstFaultIsLeast(data, separators, i);
    assert FaultAt(data, separators, i).None?;
  }

  /** A sign right after a separator (or at the start) closes nothing and starts a fresh
      number with that sign. */
  lemma ScanSign(p: seq<byte>, c: byte, separators: seq<byte>, negative: bool, number: int, output: seq<int>)
    requires Scanned(p, separators, Separator, negative, number, output)
    requires c == PLUS || c == MINUS
    ensures Scanned(p + [c], separators, if c == PLUS then Plus else Minus, c == MINUS, 0, output)
  {
    var q := p + [c];
    assert q[..|q| - 1] == p;
  }

  /** Appending a digit keeps the sign of an open run; a digit that opens a run takes the
      sign of the byte before it. */
  lemma NegativeOpenSnocDigit(p: seq<byte>, c: byte)
    requires IsDigit(c)
    ensures NegativeOpen(p + [c]) == if Trail(p) == 0 then p != [] && p[|p| - 1] == MINUS else NegativeOpen(p)
  {
    RunsSnocDigit(p, c);
    assert (p + [c])[..|p|] == p;
  }

  /** A digit right after a separator (or at the start) opens a non-negative run. */
  lemma ScanFirstDigit(p: seq<byte>, c: byte, separators: seq<byte>, negative: bool, number: int, output: seq<int>)
    requires Scanned(p, separators, Separator, negative, number, output)
    requires IsDigit(c)
    ensures Scanned(p + [c], separators, Digit, false, (c - ZERO) as int, output)
  {
    var q := p + [c];
    assert q[..|q| - 1] == p;
    NegativeOpenSnocDigit(p, c);
  }

  /** A digit after a sign or a digit extends the run: `10 * number + digit`, sign kept. */
  lemma ScanNextDigit(p: seq<byte>, c: byte, separators: seq<byte>, state: Lexeme, negative: bool,
                      number: int, output: seq<int>)
    requires Scanned(p, separators, state, negative, number, output) && state != Separator
    requires IsDigit(c)
    ensures Scanned(p + [c], separators, Digit, negative, 10 * number + (c - ZERO) as int, output)
  {
    var q := p + [c];
    assert q[..|q| - 1] == p;
    NegativeOpenSnocDigit(p, c);
  }

  /** A separator after a digit emits the run's signed value; after a separator it does
      nothing. */
  lemma ScanSeparator(p: seq<byte>, c: byte, separators: seq<byte>, state: Lexeme, negative: bool,
                      number: int, output: seq<int>)
    requires Scanned(p, separators, state, negative, number, output)
    requires state == Digit || state == Separator
    requires Classify(c, separators) == Some(Separator)
    ensures Scanned(p + [c], separators, Separator, negative, number,
                    if state == Digit then output + [if negative then -number else number] else output)
  {
    var q := p + [c];
    assert q[..|q| - 1] == p;
    MagnitudeIsOpenValue(p);
  }

  /** The class of the byte before `i` depends only on the bytes before `i`. */
  lemma BeforePrefix(data: seq<byte>, separators: seq<byte>, i: nat)
    requires i < |data|
    ensures Before(data, separators, i) == Before(data[..i], separators, i)
  {
  }

  /** A byte that faults is the first fault from its own position on. */
  lemma FaultHere(data: seq<byte>, separators: seq<byte>, i: nat, kind: ErrorKind)
    requires i < |data| && FaultAt(data, separators, i) == Some(kind)
    ensures FirstFaultFrom(data, separators, i) == Some(Fault(kind, i))
  {
  }

  /** A byte whose class is allowed after the previous byte's class moves the first fault
      no earlier. */
  lemma NoFaultStep(data: seq<byte>, separators: seq<byte>, i: nat, prev: Lexeme, state: Lexeme)
    requires i < |data| && Before(data, separators, i) == Some(prev)
    requires Classify(data[i], separators) == Some(state)
    requires state == Plus || state == Minus ==> prev == Separator
    requires state == Separator ==> prev == Digit || prev == Separator
    ensures FaultAt(data, separators, i).None?
    ensures FirstFaultFrom(data, separators, i) == FirstFaultFrom(data, separators, i + 1)
  {
  }

  /** The decoder as the source writes it. `prev` is assigned `state` at the end of every
      iteration, so after the loop `prev == state` and the end-of-input block can neither emit
      nor throw: both of its inner branches are proved unreachable. */
  method ParseSigned(data: seq<byte>, separators: seq<byte>) returns (r: Outcome<int>)
    requires NoInt32Overflow(data, separators)
    ensures r == ParseSignedSpec(data, separators)
  {
    var state := Separator;
    var prev := Separator;
    var negative := false;
    var number: int32 := 0;
    var output: seq<int> := [];
    ghost var seen: seq<byte> := [];
    for i := 0 to |data|
      invariant seen == data[..i]
      invariant FirstFaultFrom(data, separators, i) == FirstFaultFrom(data, separators, 0)
      invariant prev == state
      invariant Scanned(seen, separators, state, negative, number as int, output)
    {
      var c := data[i];
      ghost var p := seen;
      PrefixSnoc(data, i);
      assert p + [c] == data[..i + 1];
      BeforePrefix(data, separators, i);
      if c == PLUS {
        state := Plus;
      } else if c == MINUS {
        state := Minus;
      } else if ZERO <= c <= NINE {
        state := Digit;
      } else if c in separators {
        state := Separator;
      } else {
        FaultHere(data, separators, i, WrongCharacter);
        return Err(WrongCharacter, i);
      }

      match state {
        case Plus =>
          if prev != Separator {
            FaultHere(data, separators, i, SignAfterNonSeparator);
            return Err(SignAfterNonSeparator, i);
          }
          ScanSign(p, c, separators, negative, number as int, output);
          number := 0;
          negative := false;
        case Minus =>
          if prev != Separator {
            FaultHere(data, separators, i, SignAfterNonSeparator);
            return Err(SignAfterNonSeparator, i);
          }
          ScanSign(p, c, separators, negative, number as int, output);
          number := 0;
          negative := true;
        case Digit =>
          if prev == Separator {
            ScanFirstDigit(p, c, separators, negative, number as int, output);
            number := (c - ZERO) as int32;
            negative := false;
          } else {
            ScanNextDigit(p, c, separators, prev, negative, number as int, output);
            NoOverflowStep(data, separators, i);
            ghost var next := 10 * number as int + (c - ZERO) as int;
            number := 10 * number + c as int32 - ZERO as int32;
            assert number as int == next;
          }
        case Separator =>
          if prev == Digit {
            ScanSeparator(p, c, separators, prev, negative, number as int, output);
            ghost var emitted := output + [if negative then -(number as int) else number as int];
            output := output + [(if negative then -number else number) as int];
            assert output == emitted;
          } else if prev != Separator {
            FaultHere(data, separators, i, SignWithoutDigits);
            return Err(SignWithoutDigits, i);
          } else {
            ScanSeparator(p, c, separators, prev, negative, number as int, output);
          }
      }
      NoFaultStep(data, separators, i, prev, state);
      prev := state;
      seen := seen + [c];
    }

    if state == Separator {
      if prev == Digit {
        assert false;  // the source would emit the final run here
      } else if prev != Separator {
        assert false;  // the source would throw "'-' or '+' not followed by any digit" here
      }
    }
    assert seen == data;
    SignedEmittedIsClosedRuns(data);
    return Ok(output);
  }

  // ---------------------------------------------------------------------------------------
  // Properties of the decoder

  /** The fault search stops at the least faulty position, and finds none exactly when no
      position faults. */
  lemma {:induction false} FirstFaultIsLeast(data: seq<byte>, separators: seq<byte>, i: nat)
    requires i <= |data|
    ensures var r := FirstFaultFrom(data, separators, i);
      && (r.Some? ==> i <= r.value.at < |data| && FaultAt(data, separators, r.value.at) == Some(r.value.kind)
                      && forall j | i <= j < r.value.at :: FaultAt(data, separators, j).None?)
      && (r.None? <==> forall j | i <= j < |data| :: FaultAt(data, separators, j).None?)
    decreases |data| - i
  {
    if i < |data| && FaultAt(data, separators, i).None? {
      FirstFaultIsLeast(data, separators, i + 1);
    }
  }

  /** Every signed run carries its run's decimal value, negated or not; without any '-' in the
      input none is negated. */
  lemma {:induction false} SignedRunsMagnitudes(s: seq<byte>)
    ensures |SignedRuns(s)| == |Runs(s)|
    ensures forall k | 0 <= k < |Runs(s)| ::
              SignedRuns(s)[k] == Value(Runs(s)[k]) || SignedRuns(s)[k] == -(Value(Runs(s)[k]) as int)
    ensures MINUS !in s ==> forall k | 0 <= k < |Runs(s)| :: SignedRuns(s)[k] == Value(Runs(s)[k])
    decreases |s|
  {
    if s != [] {
      if !IsDigit(s[|s| - 1]) {
        SignedRunsMagnitudes(s[..|s| - 1]);
        assert MINUS in s[..|s| - 1] ==> MINUS in s;
      } else {
        SignedRunsMagnitudes(Closed(s));
        assert MINUS in Closed(s) ==> MINUS in s;
        var start := |s| - Trail(s);
        assert start > 0 ==> s[start - 1] in s;
      }
    }
  }

  /** Appending a run of digits to input that ends in a non-digit (or is empty) appends one
      signed value: the run's decimal value, negated exactly when a '-' directly precedes it. */
  lemma SignedRunsAppendRun(a: seq<byte>, ds: seq<byte>)
    requires ds != [] && AllDigits(ds)
    requires a == [] || !IsDigit(a[|a| - 1])
    ensures SignedRuns(a + ds)
         == SignedRuns(a) + [if a != [] && a[|a| - 1] == MINUS then -(Value(ds) as int) else Value(ds)]
  {
    var s := a + ds;
    AppendRun(a, ds);
    assert s[|s| - 1] == ds[|ds| - 1];
  }

  /** Signed runs on the two sides of a non-digit other than '-' do not influence each other. */
  lemma {:induction false} SignedRunsSplit(a: seq<byte>, x: byte, b: seq<byte>)
    requires !IsDigit(x) && x != MINUS
    ensures SignedRuns(a + [x] + b) == SignedRuns(a) + SignedRuns(b)
    decreases |b|
  {
    var s := a + [x] + b;
    if b == [] {
      assert s[..|s| - 1] == a;
    } else if !IsDigit(b[|b| - 1]) {
      var b' := b[..|b| - 1];
      assert s[..|s| - 1] == a + [x] + b';
      assert s[|s| - 1] == b[|b| - 1];
      SignedRunsSplit(a, x, b');
    } else {
      TrailAfterNonDigit(a, x, b);
      assert Closed(s) == a + [x] + Closed(b);
      assert Open(s) == Open(b);
      var start := |b| - Trail(b);
      assert start > 0 ==> s[|a| + 1 + start - 1] == b[start - 1];
      assert NegativeOpen(s) == NegativeOpen(b);
      assert s[|s| - 1] == b[|b| - 1];
      assert SignedRuns(s) == SignedRuns(a + [x] + Closed(b)) + [SignedOpen(b)];
      SignedRunsSplit(a, x, Closed(b));
    }
  }

  /** Scanning `left + b`, where `left` ends in a separator, finds the faults of `left` first
      and then hands over to `b`. */
  lemma {:induction false} FirstFaultLeft(left: seq<byte>, b: seq<byte>, separators: seq<byte>, i: nat)
    requires i <= |left| && left != [] && Classify(left[|left| - 1], separators) == Some(Separator)
    ensures FirstFaultFrom(left + b, separators, i)
         == match FirstFaultFrom(left, separators, i)
            case Some(f) => Some(f)
            case None => FirstFaultFrom(left + b, separators, |left|)
    decreases |left| - i
  {
    if i < |left| {
      assert (left + b)[i] == left[i];
      assert i > 0 ==> (left + b)[i - 1] == left[i - 1];
      assert FaultAt(left + b, separators, i) == FaultAt(left, separators, i);
      FirstFaultLeft(left, b, separators, i + 1);
    }
  }

  /** After a separator the scan of `b` starts afresh: the faults of `left + b` from `left` on
      are those of `b`, shifted. */
  lemma {:induction false} FirstFaultRight(left: seq<byte>, b: seq<byte>, separators: seq<byte>, j: nat)
    requires j <= |b| && left != [] && Classify(left[|left| - 1], separators) == Some(Separator)
    ensures FirstFaultFrom(left + b, separators, |left| + j)
         == match FirstFaultFrom(b, separators, j)
            case Some(f) => Some(Fault(f.kind, |left| + f.at))
            case None => None
    decreases |b| - j
  {
    var data := left + b;
    if j < |b| {
      assert data[|left| + j] == b[j];
      assert Before(data, separators, |left| + j) == Before(b, separators, j) by {
        if j > 0 {
          assert data[|left| + j - 1] == b[j - 1];
        }
      }
      assert FaultAt(data, separators, |left| + j) == FaultAt(b, separators, j);
      FirstFaultRight(left, b, separators, j + 1);
    }
  }

  /** A separator resets the scanner as the start of input does, so the two sides of a
      separator decode independently. Leading and repeated separators add nothing; a trailing
      separator closes the last run (so emits it) and, after a sign, throws. */
  lemma ParseSignedSplit(a: seq<byte>, s: byte, b: seq<byte>, separators: seq<byte>)
    requires Classify(s, separators) == Some(Separator)
    ensures ParseSignedSpec(a + [s] + b, separators)
         == Join(ParseSignedSpec(a + [s], separators), ParseSignedSpec(b, separators), |a| + 1)
  {
    var left := a + [s];
    assert left + b == a + [s] + b;
    FirstFaultLeft(left, b, separators, 0);
    FirstFaultRight(left, b, separators, 0);
    TrailAfterNonDigit(a, s, b);
    assert Closed(a + [s] + b) == a + [s] + Closed(b);
    SignedRunsSplit(a, s, Closed(b));
    SignedRunsSplit(a, s, []);
    assert left + [] == left;
    RunsSnocNonDigit(a, s);
  }

  /** The decoder throws exactly when some byte faults, and then at the first faulty byte with
      that byte's exception; otherwise it emits one value per digit run that some byte
      follows, in input order, each that run's decimal value with or without a minus. */
  lemma ParseSignedMeaning(data: seq<byte>, separators: seq<byte>)
    ensures var r := ParseSignedSpec(data, separators);
      && (r.Err? <==> exists i | 0 <= i < |data| :: FaultAt(data, separators, i).Some?)
      && (r.Err? ==> r.at < |data| && FaultAt(data, separators, r.at) == Some(r.kind)
                     && forall j | 0 <= j < r.at :: FaultAt(data, separators, j).None?)
      && (r.Ok? ==> |r.values| == |Runs(Closed(data))|
                    && forall k | 0 <= k < |r.values| ::
                         r.values[k] == Value(Runs(Closed(data))[k]) || r.values[k] == -(Value(Runs(Closed(data))[k]) as int))
  {
    FirstFaultIsLeast(data, separators, 0);
    SignedRunsMagnitudes(Closed(data));
  }

  /** Input made only of separators, repeated or not, never throws and emits nothing. */
  lemma ParseSignedOnlySeparators(data: seq<byte>, separators: seq<byte>)
    requires forall i | 0 <= i < |data| :: Classify(data[i], separators) == Some(Separator)
    ensures ParseSignedSpec(data, separators) == Ok([])
  {
    forall i | 0 <= i < |data|
      ensures !IsDigit(data[i]) && FaultAt(data, separators, i).None?
    {
      assert Classify(data[i], separators) == Some(Separator);
      assert Before(data, separators, i) == Some(Separator);
    }
    FirstFaultIsLeast(data, separators, 0);
    RunsWithoutDigits(data);
    RunsOfClosed(data);
    SignedRunsMagnitudes(data);
  }

  // ---------------------------------------------------------------------------------------
  // The end-of-input block
  //
  // The block after the loop is guarded by `state == Separator`, but `prev == state` there, so
  // it can neither emit a run that ends the input nor reject a sign that ends it.

  /** What the end-of-input block evidently means to do: emit the run that ends the input, and
      reject a sign that ends it ("not followed by any digit") at the end of input. */
  function ParseSignedIntended(data: seq<byte>, separators: seq<byte>): Outcome<int>
  {
    match FirstFaultFrom(data, separators, 0)
    case Some(f) => Err(f.kind, f.at)
    case None =>
      if Before(data, separators, |data|) in {Some(Plus), Some(Minus)} then Err(SignWithoutDigits, |data|)
      else Ok(SignedRuns(data))
  }

  /** The intended decoder emits every digit run of its input, and throws exactly at the first
      faulty byte or, failing that, at the end of an input that ends in a sign. */
  lemma ParseSignedIntendedEmitsEveryRun(data: seq<byte>, separators: seq<byte>)
    ensures var r := ParseSignedIntended(data, separators);
      && (r.Err? <==> (exists i | 0 <= i < |data| :: FaultAt(data, separators, i).Some?)
                      || (data != [] && data[|data| - 1] in {PLUS, MINUS}))
      && (r.Err? ==>
            || (&& r.at < |data| && FaultAt(data, separators, r.at) == Some(r.kind)
                && forall j | 0 <= j < r.at :: FaultAt(data, separators, j).None?)
            || (&& r.at == |data| && r.kind == SignWithoutDigits
                && (forall j | 0 <= j < |data| :: FaultAt(data, separators, j).None?)
                && data != [] && data[|data| - 1] in {PLUS, MINUS}))
      && (r.Ok? ==> |r.values| == |Runs(data)|
                    && forall k | 0 <= k < |r.values| ::
                         r.values[k] == Value(Runs(data)[k]) || r.values[k] == -(Value(Runs(data)[k]) as int))
  {
    FirstFaultIsLeast(data, separators, 0);
    SignedRunsMagnitudes(data);
  }

  /** On input that ends in a separator (or is empty) the source and the intended decoder
      agree. */
  lemma ParseSignedIntendedAgrees(data: seq<byte>, separators: seq<byte>)
    requires Before(data, separators, |data|) == Some(Separator)
    ensures ParseSignedIntended(data, separators) == ParseSignedSpec(data, separators)
  {
    RunsOfClosed(data);
  }

  /** As written, a run that ends the input is lost: one value fewer than there are runs, and
      exactly the value the intended decoder appends. */
  lemma ParseSignedDropsFinalRun(data: seq<byte>, separators: seq<byte>)
    requires ParseSignedSpec(data, separators).Ok?
    requires data != [] && IsDigit(data[|data| - 1])
    ensures |ParseSignedSpec(data, separators).values| == |Runs(data)| - 1
    ensures ParseSignedIntended(data, separators) == Ok(ParseSignedSpec(data, separators).values + [SignedOpen(data)])
  {
    RunsOfClosed(data);
    SignedRunsMagnitudes(Closed(data));
  }

  /** As written, a sign that ends the input is accepted and ignored, where the intended
      decoder throws. */
  lemma ParseSignedAcceptsTrailingSign(data: seq<byte>, separators: seq<byte>)
    requires ParseSignedSpec(data, separators).Ok?
    requires data != [] && data[|data| - 1] in {PLUS, MINUS}
    ensures ParseSignedSpec(data, separators) == Ok(SignedRuns(data))
    ensures ParseSignedIntended(data, separators) == Err(SignWithoutDigits, |data|)
  {
    RunsOfClosed(data);
  }

  // ---------------------------------------------------------------------------------------
  // Examples (separators ",")

  /** No byte of "+1,-2,3" faults. */
  lemma DroppedRunExampleFaults(data: seq<byte>)
    requires data == [PLUS, 49, 44, MINUS, 50, 44, 51]
    ensures FirstFaultFrom(data, [44], 0) == None
  {
    FirstFaultIsLeast(data, [44], 0);
    forall j | 0 <= j < |data|
      ensures FaultAt(data, [44], j).None?
    {
      assert j == 0 || j == 1 || j == 2 || j == 3 || j == 4 || j == 5 || j == 6;
    }
  }

  /** The signed runs of "+1," are [1]. */
  lemma DroppedRunExampleFirst(data: seq<byte>)
    requires data == [PLUS, 49, 44]
    ensures SignedRuns(data) == [1]
  {
    var p1, p2 := data[..1], data[..2];
    assert data[..2] == p2 && p2[..1] == p1 && p1[..0] == [];
    assert Trail(p1) == 0 && Trail(p2) == 1;
    assert Closed(p2) == p1 && Open(p2) == [49] && !NegativeOpen(p2);
    assert SignedRuns(p1) == [];
    assert Value([49 as byte]) == 1 by { assert [49 as byte][..0] == []; }
  }

  /** The signed runs of "+1,-2," are [1, -2]. */
  lemma DroppedRunExampleClosed(data: seq<byte>)
    requires data == [PLUS, 49, 44, MINUS, 50, 44]
    ensures SignedRuns(data) == [1, -2]
  {
    var p3, p4, p5 := data[..3], data[..4], data[..5];
    assert data[..5] == p5 && p5[..4] == p4 && p4[..3] == p3;
    DroppedRunExampleFirst(p3);
    assert Trail(p4) == 0 && Trail(p5) == 1;
    assert Closed(p5) == p4 && Open(p5) == [50] && NegativeOpen(p5);
    assert Value([50 as byte]) == 2 by { assert [50 as byte][..0] == []; }
    assert SignedRuns(p4) == SignedRuns(p3);
    assert SignedRuns(p5) == SignedRuns(p4) + [-2];
    assert SignedRuns(data) == SignedRuns(p5);
  }

  /** "+1,-2,3" decodes to [1, -2]: the final "3" is lost, where the intended decoder gives
      [1, -2, 3]. */
  lemma DroppedRunExample(data: seq<byte>)
    requires data == [PLUS, 49, 44, MINUS, 50, 44, 51]
    ensures ParseSignedSpec(data, [44]) == Ok([1, -2])
    ensures ParseSignedIntended(data, [44]) == Ok([1, -2, 3])
  {
    DroppedRunExampleFaults(data);
    var p6 := data[..6];
    DroppedRunExampleClosed(p6);
    assert Trail(p6) == 0 && Trail(data) == 1;
    assert Closed(data) == p6 && Open(data) == [51] && !NegativeOpen(data);
    assert Value([51 as byte]) == 3 by { assert [51 as byte][..0] == []; }
  }

  /** A trailing separator closes the last run: "1" decodes to nothing, "1," to [1]. */
  lemma TrailingSeparatorEmitsExample(data: seq<byte>)
    requires data == [49]
    ensures ParseSignedSpec(data, [44]) == Ok([])
    ensures ParseSignedSpec(data + [44], [44]) == Ok([1])
  {
    var q := data + [44];
    assert FaultAt(data, [44], 0).None? && FirstFaultFrom(data, [44], 1) == None;
    assert q[..1] == data;
    assert FaultAt(q, [44], 1).None? && FirstFaultFrom(q, [44], 2) == None;
    assert FaultAt(q, [44], 0).None? && FirstFaultFrom(q, [44], 1) == None;
    assert data[..0] == [];
    assert Trail(data) == 1 && Closed(data) == [];
    TrailingSignExampleRuns(q);
    assert Trail(q) == 0 && Closed(q) == q;
  }

  /** A trailing separator after a sign throws: "+" decodes to nothing, "+," throws at the
      separator. */
  lemma TrailingSeparatorThrowsExample(data: seq<byte>)
    requires data == [PLUS]
    ensures ParseSignedSpec(data, [44]) == Ok([])
    ensures ParseSignedSpec(data + [44], [44]) == Err(SignWithoutDigits, 1)
  {
    var q := data + [44];
    assert FaultAt(data, [44], 0).None? && FirstFaultFrom(data, [44], 1) == None;
    assert data[..0] == [];
    assert Trail(data) == 0 && Closed(data) == data;
    assert SignedRuns(data) == [];
    assert q[..1] == data;
    assert FaultAt(q, [44], 1) == Some(SignWithoutDigits);
    assert FirstFaultFrom(q, [44], 1) == Some(Fault(SignWithoutDigits, 1));
    assert FaultAt(q, [44], 0).None?;
    assert FirstFaultFrom(q, [44], 0) == Some(Fault(SignWithoutDigits, 1));
  }

  /** No byte of "1,-" faults. */
  lemma TrailingSignExampleFaults(data: seq<byte>)
    requires data == [49, 44, MINUS]
    ensures FirstFaultFrom(data, [44], 0) == None
  {
    assert FaultAt(data, [44], 2).None? && FirstFaultFrom(data, [44], 2) == None;
    assert FaultAt(data, [44], 1).None? && FirstFaultFrom(data, [44], 1) == None;
    assert FaultAt(data, [44], 0).None?;
  }

  /** The only run of "1," is 1. */
  lemma TrailingSignExampleRuns(data: seq<byte>)
    requires data == [49, 44]
    ensures SignedRuns(data) == [1]
  {
    var p1 := data[..1];
    assert p1[..0] == [];
    assert Trail(p1) == 1 && Closed(p1) == [] && Open(p1) == [49] && !NegativeOpen(p1);
    assert Value([49 as byte]) == 1 by { assert [49 as byte][..0] == []; }
  }

  /** "1,-" decodes to [1]: the dangling '-' is ignored, where the intended decoder throws
      "not followed by any digit" at the end of input. */
  lemma TrailingSignExample(data: seq<byte>)
    requires data == [49, 44, MINUS]
    ensures ParseSignedSpec(data, [44]) == Ok([1])
    ensures ParseSignedIntended(data, [44]) == Err(SignWithoutDigits, 3)
  {
    TrailingSignExampleFaults(data);
    TrailingSignExampleRuns(data[..2]);
    assert Trail(data) == 0 && Closed(data) == data;
  }

  /** "12-34" throws at the '-', which follows a digit. */
  lemma SignAfterDigitExample()
    ensures ParseSignedSpec([49, 50, MINUS, 51, 52], [44]) == Err(SignAfterNonSeparator, 2)
  {
    var data: seq<byte> := [49, 50, MINUS, 51, 52];
    var f := Some(Fault(SignAfterNonSeparator, 2));
    assert FaultAt(data, [44], 2) == Some(SignAfterNonSeparator) && FirstFaultFrom(data, [44], 2) == f;
    assert FaultAt(data, [44], 1).None? && FirstFaultFrom(data, [44], 1) == f;
    assert FaultAt(data, [44], 0).None? && FirstFaultFrom(data, [44], 0) == f;
  }

  /** "+-1" throws at the '-', which follows a sign rather than a separator. */
  lemma DoubleSignExample()
    ensures ParseSignedSpec([PLUS, MINUS, 49], [44]) == Err(SignAfterNonSeparator, 1)
  {
    var data: seq<byte> := [PLUS, MINUS, 49];
    var f := Some(Fault(SignAfterNonSeparator, 1));
    assert FaultAt(data, [44], 1) == Some(SignAfterNonSeparator) && FirstFaultFrom(data, [44], 1) == f;
    assert FaultAt(data, [44], 0).None? && FirstFaultFrom(data, [44], 0) == f;
  }

  /** "+,1" throws at the ',', which follows a sign. */
  lemma SignWithoutDigitsExample()
    ensures ParseSignedSpec([PLUS, 44, 49], [44]) == Err(SignWithoutDigits, 1)
  {
    var data: seq<byte> := [PLUS, 44, 49];
    var f := Some(Fault(SignWithoutDigits, 1));
    assert FaultAt(data, [44], 1) == Some(SignWithoutDigits) && FirstFaultFrom(data, [44], 1) == f;
    assert FaultAt(data, [44], 0).None? && FirstFaultFrom(data, [44], 0) == f;
  }
}
