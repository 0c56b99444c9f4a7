/** `scalar::parse_unsigned`: one unsigned 32-bit value per maximal run of ASCII digits. */
module ScalarParseUnsigned {
  import opened Results
  import opened Digits

  /** A byte the unsigned decoder accepts: a digit, or a member of the separator set
      (`contains(separators, c)`; digits are tested first). */
  predicate Admissible(c: byte, separators: seq<byte>) { IsDigit(c) || c in separators }

  /** Index of the first byte at or after `i` that the decoder rejects, if any. */
  function FirstStrayFrom(data: seq<byte>, separators: seq<byte>, i: nat): Option<nat>
    requires i <= |data|
    decreases |data| - i
  {
    if i == |data| then None
    else if !Admissible(data[i], separators) then Some(i)
    else FirstStrayFrom(data, separators, i + 1)
  }

  /** `FirstStrayFrom` finds the least rejected index, and finds none exactly when every byte
      from `i` on is accepted. */
  lemma {:induction false} FirstStrayIsLeast(data: seq<byte>, separators: seq<byte>, i: nat)
    requires i <= |data|
    ensures var r := FirstStrayFrom(data, separators, i);
      && (r.Some? ==> i <= r.value < |data| && !Admissible(data[r.value], separators)
                      && forall j | i <= j < r.value :: Admissible(data[j], separators))
      && (r.None? <==> forall j | i <= j < |data| :: Admissible(data[j], separators))
    decreases |data| - i
  {
    if i < |data| && Admissible(data[i], separators) {
      FirstStrayIsLeast(data, separators, i + 1);
    }
  }

  /** Each run's decimal value reduced modulo 2^32. */
  function Wrapped(runs: seq<seq<byte>>): (r: seq<uint32>)
    ensures |r| == |runs|
  {
    if runs == [] then []
    else Wrapped(runs[..|runs| - 1]) + [Wrap(Value(runs[|runs| - 1]))]
  }

  /** Each emitted value is its run's decimal value modulo 2^32. */
  lemma {:induction false} WrappedAt(runs: seq<seq<byte>>)
    ensures forall k | 0 <= k < |runs| :: Wrapped(runs)[k] as int == Value(runs[k]) % 0x1_0000_0000
  {
    if runs != [] {
      WrappedAt(runs[..|runs| - 1]);
      WrapIsMod(Value(runs[|runs| - 1]));
    }
  }

  lemma {:induction false} WrappedAppend(xs: seq<seq<byte>>, ys: seq<seq<byte>>)
    ensures Wrapped(xs + ys) == Wrapped(xs) + Wrapped(ys)
  {
    if ys != [] {
      var init := ys[..|ys| - 1];
      WrappedAppend(xs, init);
      InitOfAppend(xs, ys);
    } else {
      assert xs + ys == xs;
    }
  }

  lemma WrappedSnoc(runs: seq<seq<byte>>, run: seq<byte>)
    ensures Wrapped(runs + [run]) == Wrapped(runs) + [Wrap(Value(run))]
  {
    assert (runs + [run])[..|runs|] == runs;
  }

  /** What `parse_unsigned(data, size, separators, output)` produces: the exception raised at
      the first byte that is neither a digit nor a separator, or else the wrapped value of every
      maximal digit run, in input order. */
  function ParseUnsignedSpec(data: seq<byte>, separators: seq<byte>): Outcome<uint32>
  {
    match FirstStrayFrom(data, separators, 0)
    case Some(i) => Err(WrongCharacter, i)
    case None => Ok(Wrapped(Runs(data)))
  }

  /** The decoder throws exactly when some byte is neither a digit nor a separator, and then
      at the first such byte; otherwise it emits one value per maximal digit run, in input
      order, each the run's decimal value modulo 2^32. */
  lemma ParseUnsignedMeaning(data: seq<byte>, separators: seq<byte>)
    ensures var r := ParseUnsignedSpec(data, separators);
      && (r.Err? <==> exists i | 0 <= i < |data| :: !Admissible(data[i], separators))
      && (r.Err? ==> r.kind == WrongCharacter && r.at < |data| && !Admissible(data[r.at], separators)
                     && forall j | 0 <= j < r.at :: Admissible(data[j], separators))
      && (r.Ok? ==> |r.values| == |Runs(data)|
                    && forall k | 0 <= k < |r.values| ::
                         && |Runs(data)[k]| > 0 && AllDigits(Runs(data)[k])
                         && r.values[k] as int == Value(Runs(data)[k]) % 0x1_0000_0000)
  {
    FirstStrayIsLeast(data, separators, 0);
    WrappedAt(Runs(data));
    RunsAreDigits(data);
  }

  /** The accumulator after the prefix `p`: zero after a non-digit (or at the start), and
      `10 * result + digit` in `uint32_t` arithmetic after a digit. */
  function Accumulated(p: seq<byte>): uint32
  {
    if p == [] || !IsDigit(p[|p| - 1]) then 0
    else Wrap(10 * Accumulated(p[..|p| - 1]) as int + (p[|p| - 1] - ZERO) as int)
  }

  /** Wrapping at every step loses nothing: the accumulator is the open run's value modulo
      2^32. */
  lemma {:induction false} AccumulatedIsWrappedValue(p: seq<byte>)
    ensures Accumulated(p) == Wrap(Value(Open(p)))
  {
    if p != [] && IsDigit(p[|p| - 1]) {
      var init, c := p[..|p| - 1], p[|p| - 1];
      calc {
        Accumulated(p);
        Wrap(10 * Accumulated(init) as int + (c - ZERO) as int);
        { assert DigitValue(c) == (c - ZERO) as int; }
        Wrap(10 * Accumulated(init) as int + DigitValue(c));
        { AccumulatedIsWrappedValue(init); }
        Wrap(10 * Wrap(Value(Open(init))) as int + DigitValue(c));
        { WrapStep(Value(Open(init)), DigitValue(c)); }
        Wrap(10 * Value(Open(init)) + DigitValue(c));
        { OpenValueStep(p); }
        Wrap(Value(Open(p)));
      }
    }
  }

  /** The values the decoder has emitted after reading `p`, built in reading order: a
      non-digit that ends a run appends that run's accumulator. */
  function Emitted(p: seq<byte>): seq<uint32>
  {
    if p == [] then []
    else
      var init := p[..|p| - 1];
      if !IsDigit(p[|p| - 1]) && Trail(init) > 0 then Emitted(init) + [Accumulated(init)]
      else Emitted(init)
  }

  /** A non-digit closes the open run, if there is one, and starts a fresh accumulator. */
  lemma SeparatorStep(p: seq<byte>, c: byte)
    requires !IsDigit(c)
    ensures Wrapped(Runs(Closed(p + [c])))
         == if Trail(p) > 0 then Wrapped(Runs(Closed(p))) + [Accumulated(p)] else Wrapped(Runs(Closed(p)))
  {
    RunsSnocNonDigit(p, c);
    FinalStep(p);
  }

  /** The runs of `p` are its closed runs and, if one is open, the open run. */
  lemma FinalStep(p: seq<byte>)
    ensures Wrapped(Runs(p))
         == if Trail(p) > 0 then Wrapped(Runs(Closed(p))) + [Accumulated(p)] else Wrapped(Runs(Closed(p)))
  {
    RunsOfClosed(p);
    if Trail(p) > 0 {
      AccumulatedIsWrappedValue(p);
      WrappedSnoc(Runs(Closed(p)), Open(p));
    }
  }

  /** What the scan has emitted is the wrapped value of every run closed so far. */
  lemma {:induction false} EmittedIsClosedRuns(p: seq<byte>)
    ensures Emitted(p) == Wrapped(Runs(Closed(p)))
  {
    if p != [] {
      var init, c := p[..|p| - 1], p[|p| - 1];
      EmittedIsClosedRuns(init);
      assert p == init + [c];
      if IsDigit(c) {
        RunsSnocDigit(init, c);
      } else {
        SeparatorStep(init, c);
      }
    }
  }

  /** What the decoder's variables hold after reading the prefix `p` without an error:
      `digits` counts the open run, `result` is its accumulator and `output` holds what was
      emitted. */
  ghost predicate Scanned(p: seq<byte>, digits: nat, result: uint32, output: seq<uint32>)
  {
    digits == Trail(p) && result == Accumulated(p) && output == Emitted(p)
  }

  /** A digit extends the open run and its accumulator by one decimal place in `uint32_t`
      arithmetic. */
  lemma ScanDigit(p: seq<byte>, c: byte, digits: nat, result: uint32, output: seq<uint32>)
    requires Scanned(p, digits, result, output) && IsDigit(c)
    ensures Scanned(p + [c], digits + 1, Wrap(10 * result as int + (c - ZERO) as int), output)
  {
    assert (p + [c])[..|p|] == p;
  }

  /** A non-digit emits the accumulator of the run it closes, if there is one, and leaves the
      counter and the accumulator at zero. */
  lemma ScanSeparator(p: seq<byte>, c: byte, digits: nat, result: uint32, output: seq<uint32>)
    requires Scanned(p, digits, result, output) && !IsDigit(c)
    ensures digits == 0 ==> result == 0
    ensures Scanned(p + [c], 0, 0, if digits > 0 then output + [result] else output)
  {
    assert (p + [c])[..|p|] == p;
  }

  /** At the end of input the emitted values and the open run's accumulator, if any, are the
      wrapped values of all runs. */
  lemma ScanEnd(p: seq<byte>, digits: nat, result: uint32, output: seq<uint32>)
    requires Scanned(p, digits, result, output)
    ensures Wrapped(Runs(p)) == if digits > 0 then output + [result] else output
  {
    EmittedIsClosedRuns(p);
    FinalStep(p);
  }

  /** The decoder as the source writes it: an accumulator and a digit counter, flushed at
      every separator that closes a run and once more at the end of input. */
  method ParseUnsigned(data: seq<byte>, separators: seq<byte>) returns (r: Outcome<uint32>)
    ensures r == ParseUnsignedSpec(data, separators)
  {
    var result: uint32 := 0;
    var digits: nat := 0;
    var output: seq<uint32> := [];
    ghost var seen: seq<byte> := [];
    for i := 0 to |data|
      invariant seen == data[..i]
      invariant FirstStrayFrom(data, separators, i) == FirstStrayFrom(data, separators, 0)
      invariant Scanned(seen, digits, result, output)
    {
      var c := data[i];
      PrefixSnoc(data, i);
      assert seen + [c] == data[..i + 1];
      if ZERO <= c <= NINE {
        ScanDigit(seen, c, digits, result, output);
        result := Wrap(10 * result as int + (c - ZERO) as int);
        digits := digits + 1;
      } else if c in separators {
        ScanSeparator(seen, c, digits, result, output);
        if digits > 0 {
          output := output + [result];
          result := 0;
          digits := 0;
        }
      } else {
        return Err(WrongCharacter, i);
      }
      seen := seen + [c];
    }
    assert seen == data;
    ScanEnd(data, digits, result, output);
    if digits > 0 {
      output := output + [result];
    }
    return Ok(output);
  }

  // ---------------------------------------------------------------------------------------
  // Properties of the decoder

  /** Scanning the right side of `a + [s] + b` finds the strays of `b`, shifted. */
  lemma {:induction false} FirstStrayRight(a: seq<byte>, s: byte, b: seq<byte>, separators: seq<byte>, j: nat)
    requires j <= |b|
    ensures FirstStrayFrom(a + [s] + b, separators, |a| + 1 + j)
         == match FirstStrayFrom(b, separators, j)
            case Some(k) => Some(|a| + 1 + k)
            case None => None
    decreases |b| - j
  {
    var data := a + [s] + b;
    if j < |b| {
      assert data[|a| + 1 + j] == b[j];
      FirstStrayRight(a, s, b, separators, j + 1);
    }
  }

  /** Scanning the left side of `a + [s] + b` finds the strays of `a` first; an accepted `s`
      hands the scan over to the right side. */
  lemma {:induction false} FirstStrayLeft(a: seq<byte>, s: byte, b: seq<byte>, separators: seq<byte>, i: nat)
    requires i <= |a| && Admissible(s, separators)
    ensures FirstStrayFrom(a + [s] + b, separators, i)
         == match FirstStrayFrom(a, separators, i)
            case Some(k) => Some(k)
            case None => FirstStrayFrom(a + [s] + b, separators, |a| + 1)
    decreases |a| - i
  {
    var data := a + [s] + b;
    if i < |a| {
      assert data[i] == a[i];
      FirstStrayLeft(a, s, b, separators, i + 1);
    } else {
      assert data[|a|] == s;
    }
  }

  /** Accumulator and counter are reset at every separator, so the two sides of a separator
      decode independently: parse(a + [s] + b) == parse(a) ++ parse(b). */
  lemma ParseUnsignedSplit(a: seq<byte>, s: byte, b: seq<byte>, separators: seq<byte>)
    requires s in separators && !IsDigit(s)
    ensures ParseUnsignedSpec(a + [s] + b, separators)
         == Join(ParseUnsignedSpec(a, separators), ParseUnsignedSpec(b, separators), |a| + 1)
  {
    RunsSplit(a, s, b);
    FirstStrayLeft(a, s, b, separators, 0);
    FirstStrayRight(a, s, b, separators, 0);
    WrappedAppend(Runs(a), Runs(b));
  }

  /** Leading, trailing and repeated separators emit nothing: input made only of separators
      (and in particular the empty input) decodes to the empty sequence. */
  lemma ParseUnsignedOnlySeparators(data: seq<byte>, separators: seq<byte>)
    requires forall i | 0 <= i < |data| :: data[i] in separators && !IsDigit(data[i])
    ensures ParseUnsignedSpec(data, separators) == Ok([])
  {
    RunsWithoutDigits(data);
    ParseUnsignedMeaning(data, separators);
  }

  /** A final run without a trailing separator is still emitted, as the last value. */
  lemma ParseUnsignedFlushesFinalRun(data: seq<byte>, separators: seq<byte>)
    requires ParseUnsignedSpec(data, separators).Ok?
    requires data != [] && IsDigit(data[|data| - 1])
    ensures var vs := ParseUnsignedSpec(data, separators).values;
            |vs| > 0 && vs[|vs| - 1] == Wrap(Value(Open(data)))
  {
    RunsOfClosed(data);
  }

  /** Leading zeros are harmless: a run of zeros followed by digits decodes to the value of
      the digits alone ("007" gives 7). */
  lemma ParseUnsignedLeadingZeros(zeros: nat, ds: seq<byte>, separators: seq<byte>)
    requires ds != [] && AllDigits(ds)
    ensures ParseUnsignedSpec(seq(zeros, _ => ZERO) + ds, separators) == Ok([Wrap(Value(ds))])
  {
    var data := seq(zeros, _ => ZERO) + ds;
    ValueLeadingZeros(zeros, ds);
    RunsOfDigits(data);
    ParseUnsignedMeaning(data, separators);
  }

  /** "12" is twelve and "345" is three hundred forty-five. */
  lemma ExampleValues(twelve: seq<byte>, three45: seq<byte>)
    requires twelve == [49, 50] && three45 == [51, 52, 53]
    ensures Value(twelve) == 12 && Value(three45) == 345
  {
    assert Value(twelve[..1]) == 1 by { assert twelve[..1][..0] == []; }
    assert twelve[..1] == twelve[..|twelve| - 1];
    assert Value(three45[..1]) == 3 by { assert three45[..1][..0] == []; }
    assert Value(three45[..2]) == 34 by { assert three45[..2][..1] == three45[..1]; }
    assert three45[..2] == three45[..|three45| - 1];
  }

  /** "12,345" with separators "," decodes to [12, 345]. */
  lemma ParseUnsignedExample(data: seq<byte>)
    requires data == [49, 50, 44, 51, 52, 53]
    ensures ParseUnsignedSpec(data, [44]) == Ok([12, 345])
  {
    var twelve: seq<byte>, three45: seq<byte> := data[..2], data[3..];
    ExampleValues(twelve, three45);
    ParseUnsignedLeadingZeros(0, twelve, [44]);
    ParseUnsignedLeadingZeros(0, three45, [44]);
    assert seq(0, _ => ZERO) + twelve == twelve;
    assert seq(0, _ => ZERO) + three45 == three45;
    assert data == twelve + [data[2]] + three45;
    ParseUnsignedSplit(twelve, data[2], three45, [44]);
  }

  /** "12a34" with separators "," throws at the 'a'. */
  lemma ParseUnsignedStrayExample()
    ensures ParseUnsignedSpec([49, 50, 97, 51, 52], [44]) == Err(WrongCharacter, 2)
  {
    assert FirstStrayFrom([49, 50, 97, 51, 52], [44], 2) == Some(2);
  }
}
