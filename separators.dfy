/** `parse_separators`: the command-line check that turns a user's separator string into the
    separator set handed to the decoders. */
module Separators {
  import opened Results
  import opened Digits
  import ScalarParseUnsigned
  import ScalarParseSigned

  datatype Parsed = Accepted(chars: seq<byte>) | ArgumentError

  /** The characters no separator may be: "0123456789+-". */
  const RESERVED: seq<byte> := [48, 49, 50, 51, 52, 53, 54, 55, 56, 57, PLUS, MINUS]

  /** The most separators the decoders accept (one SSE register of bytes). */
  const MAX_SEPARATORS: nat := 16

  /** The value of a byte as a (signed) `char`, which is how `std::set<char>` orders it. */
  function CharValue(b: byte): int
  {
    if b < 128 then b as int else b as int - 256
  }

  /** The byte whose `char` value is `v`. */
  function ByteOfChar(v: int): (b: byte)
    requires -128 <= v < 128
    ensures CharValue(b) == v
  {
    if v < 0 then (v + 256) as byte else v as byte
  }

  /** The distinct characters of `s`. */
  function Chars(s: seq<byte>): set<byte>
  {
    set c | c in s
  }

  /** The members of `chars` whose `char` value is at least `v`. */
  ghost function Above(chars: set<byte>, v: int): set<byte>
  {
    set b | b in chars && CharValue(b) >= v
  }

  /** The members of `chars` from `char` value `v` upwards, in ascending `char` order: the
      order in which iterating a `std::set<char>` visits them. */
  function InCharOrderFrom(chars: set<byte>, v: int): seq<byte>
    requires -128 <= v <= 128
    decreases 128 - v
  {
    if v == 128 then []
    else if ByteOfChar(v) in chars then [ByteOfChar(v)] + InCharOrderFrom(chars, v + 1)
    else InCharOrderFrom(chars, v + 1)
  }

  function InCharOrder(chars: set<byte>): seq<byte>
  {
    InCharOrderFrom(chars, -128)
  }

  predicate StrictlyAscending(s: seq<byte>)
  {
    forall i, j | 0 <= i < j < |s| :: CharValue(s[i]) < CharValue(s[j])
  }

  /** Every byte is exactly one `char` value, so stepping `v` up by one peels off exactly the
      member with value `v`. */
  lemma AboveStep(chars: set<byte>, v: int)
    requires -128 <= v < 128
    ensures ByteOfChar(v) !in Above(chars, v + 1)
    ensures Above(chars, v) == (if ByteOfChar(v) in chars then {ByteOfChar(v)} else {}) + Above(chars, v + 1)
  {
    forall b | b in Above(chars, v) && b !in Above(chars, v + 1)
      ensures b == ByteOfChar(v)
    {
      assert CharValue(b) == v;
    }
  }

  /** Iterating from `v` visits exactly the members at or above `v`. */
  lemma {:induction false} InCharOrderFromMembers(chars: set<byte>, v: int)
    requires -128 <= v <= 128
    ensures forall b :: b in InCharOrderFrom(chars, v) <==> b in Above(chars, v)
    decreases 128 - v
  {
    if v < 128 {
      InCharOrderFromMembers(chars, v + 1);
      AboveStep(chars, v);
    }
  }

  /** Iterating from `v` visits members in strictly ascending `char` order, none below `v`. */
  lemma {:induction false} InCharOrderFromAscending(chars: set<byte>, v: int)
    requires -128 <= v <= 128
    ensures var r := InCharOrderFrom(chars, v);
      StrictlyAscending(r) && forall i | 0 <= i < |r| :: CharValue(r[i]) >= v
    decreases 128 - v
  {
    if v < 128 {
      InCharOrderFromAscending(chars, v + 1);
    }
  }

  /** Iterating from `v` visits each member at or above `v` once. */
  lemma {:induction false} InCharOrderFromLength(chars: set<byte>, v: int)
    requires -128 <= v <= 128
    ensures |InCharOrderFrom(chars, v)| == |Above(chars, v)|
    decreases 128 - v
  {
    if v == 128 {
      assert Above(chars, v) == {};
    } else {
      InCharOrderFromLength(chars, v + 1);
      AboveStep(chars, v);
    }
  }

  /** Iterating the whole set visits every member once, in strictly ascending `char` order. */
  lemma InCharOrderIsSorted(chars: set<byte>)
    ensures var r := InCharOrder(chars);
      (forall b :: b in r <==> b in chars) && StrictlyAscending(r) && |r| == |chars|
  {
    InCharOrderFromMembers(chars, -128);
    InCharOrderFromAscending(chars, -128);
    InCharOrderFromLength(chars, -128);
    assert Above(chars, -128) == chars;
  }

  /** A set has only one strictly ascending listing, so the order of the result is fixed. */
  lemma {:induction false} AscendingIsUnique(a: seq<byte>, b: seq<byte>)
    requires StrictlyAscending(a) && StrictlyAscending(b)
    requires forall c :: c in a <==> c in b
    ensures a == b
    decreases |a|
  {
    if b != [] {
      assert b[0] in a;
    }
    if a != [] {
      assert b != [] by { assert a[0] in b; }
      FirstIsLeast(a, b);
      FirstIsLeast(b, a);
      assert a[0] == b[0];
      forall c
        ensures c in a[1..] <==> c in b[1..]
      {
        AfterFirst(a, c);
        AfterFirst(b, c);
      }
      AscendingIsUnique(a[1..], b[1..]);
      assert a == [a[0]] + a[1..] && b == [b[0]] + b[1..];
    }
  }

  /** The head of an ascending sequence is at or below every member of one with the same
      members. */
  lemma FirstIsLeast(a: seq<byte>, b: seq<byte>)
    requires StrictlyAscending(b) && a != [] && b != []
    requires forall c :: c in a <==> c in b
    ensures CharValue(b[0]) <= CharValue(a[0])
  {
    assert a[0] in b;
    var j :| 0 <= j < |b| && b[j] == a[0];
    if j > 0 {
      assert CharValue(b[0]) < CharValue(b[j]);
    }
  }

  /** In a strictly ascending sequence the tail holds every member but the head. */
  lemma AfterFirst(a: seq<byte>, c: byte)
    requires StrictlyAscending(a) && a != []
    ensures c in a[1..] <==> c in a && c != a[0]
  {
    if c in a[1..] {
      var k :| 0 <= k < |a[1..]| && a[1..][k] == c;
      assert CharValue(a[0]) < CharValue(a[k + 1]);
    }
    if c in a && c != a[0] {
      var k :| 0 <= k < |a| && a[k] == c;
      assert a[1..][k - 1] == c;
    }
  }

  /** A string has at most as many distinct characters as it has characters. */
  lemma {:induction false} CharsBound(s: seq<byte>)
    ensures |Chars(s)| <= |s|
  {
    if s != [] {
      CharsBound(s[1..]);
      assert Chars(s) == {s[0]} + Chars(s[1..]) by {
        forall c | c in s ensures c == s[0] || c in s[1..] {
          var k :| 0 <= k < |s| && s[k] == c;
          if k > 0 { assert s[1..][k - 1] == c; }
        }
      }
    }
  }

  /** Every digit and both signs are reserved. */
  lemma ReservedCovers()
    ensures forall d | IsDigit(d) :: d in RESERVED
    ensures PLUS in RESERVED && MINUS in RESERVED
  {
    forall d | IsDigit(d)
      ensures d in RESERVED
    {
      assert RESERVED[d - ZERO] == d;
    }
    assert RESERVED[10] == PLUS && RESERVED[11] == MINUS;
  }

  /** What `parse_separators(s)` returns or throws: the distinct characters of `s` in `char`
      order, unless there are none, more than sixteen, or a reserved one among them. */
  function ParseSeparatorsSpec(s: seq<byte>): Parsed
  {
    var chars := Chars(s);
    if chars == {} || |chars| > MAX_SEPARATORS || exists r | r in RESERVED :: r in chars then ArgumentError
    else Accepted(InCharOrder(chars))
  }

  /** The source's two loops: collect the characters into a set, then look for a reserved one
      and stop at the first found. */
  method ParseSeparators(s: seq<byte>) returns (r: Parsed)
    ensures r == ParseSeparatorsSpec(s)
  {
    var chars: set<byte> := {};
    for i := 0 to |s|
      invariant chars == Chars(s[..i])
    {
      assert s[..i + 1] == s[..i] + [s[i]];
      chars := chars + {s[i]};
    }
    assert s[..|s|] == s;

    var empty := chars == {};
    var tooLarge := |chars| > MAX_SEPARATORS;
    var invalidChars := false;
    for k := 0 to |RESERVED|
      invariant !invalidChars
      invariant forall j | 0 <= j < k :: RESERVED[j] !in chars
    {
      if RESERVED[k] in chars {
        invalidChars := true;
        break;
      }
    }
    assert invalidChars <==> exists c | c in RESERVED :: c in chars;

    if empty || tooLarge || invalidChars {
      return ArgumentError;
    }
    return Accepted(InCharOrder(chars));
  }

  // ---------------------------------------------------------------------------------------
  // Properties

  /** The check throws exactly for an empty string, more than sixteen distinct characters or
      a reserved character; otherwise it returns between one and sixteen characters, each
      once, in strictly ascending `char` order, which are exactly the input's characters. */
  lemma ParseSeparatorsMeaning(s: seq<byte>)
    ensures var r := ParseSeparatorsSpec(s);
      && (r.ArgumentError? <==> s == [] || |Chars(s)| > MAX_SEPARATORS
                                || exists i | 0 <= i < |s| :: s[i] in RESERVED)
      && (r.Accepted? ==> && 1 <= |r.chars| <= MAX_SEPARATORS
                          && StrictlyAscending(r.chars)
                          && (forall c :: c in r.chars <==> c in s)
                          && (forall i | 0 <= i < |r.chars| :: r.chars[i] !in RESERVED))
  {
    InCharOrderIsSorted(Chars(s));
    if s != [] {
      assert s[0] in Chars(s);
    }
  }

  /** Only the set of characters matters: repeats and order in the input change nothing. */
  lemma ParseSeparatorsSetOnly(s: seq<byte>, t: seq<byte>)
    requires forall c :: c in s <==> c in t
    ensures ParseSeparatorsSpec(s) == ParseSeparatorsSpec(t)
  {
    assert Chars(s) == Chars(t);
  }

  /** Feeding the result back in returns it unchanged. */
  lemma ParseSeparatorsIdempotent(s: seq<byte>)
    requires ParseSeparatorsSpec(s).Accepted?
    ensures ParseSeparatorsSpec(ParseSeparatorsSpec(s).chars) == ParseSeparatorsSpec(s)
  {
    InCharOrderIsSorted(Chars(s));
    ParseSeparatorsSetOnly(ParseSeparatorsSpec(s).chars, s);
  }

  /** An accepted separator is neither a digit nor a sign, so both decoders read it as a
      separator. */
  lemma AcceptedAreSeparators(s: seq<byte>)
    requires ParseSeparatorsSpec(s).Accepted?
    ensures var seps := ParseSeparatorsSpec(s).chars;
      forall i | 0 <= i < |seps| ::
        && !IsDigit(seps[i]) && seps[i] != PLUS && seps[i] != MINUS
        && ScalarParseUnsigned.Admissible(seps[i], seps)
        && ScalarParseSigned.Classify(seps[i], seps) == Some(ScalarParseSigned.Separator)
  {
    ParseSeparatorsMeaning(s);
    ReservedCovers();
  }

  // ---------------------------------------------------------------------------------------
  // Examples

  /** ";, ;" becomes " ,;": each character once, in ascending order. */
  lemma ParseSeparatorsSortsExample(s: seq<byte>)
    requires s == [59, 44, 32, 59]
    ensures ParseSeparatorsSpec(s) == Accepted([32, 44, 59])
  {
    AcceptedExample(s, [32, 44, 59]);
  }

  /** Bytes above 127 are negative `char`s and come first: ",\xc8" becomes "\xc8,". */
  lemma ParseSeparatorsSignedCharExample(s: seq<byte>)
    requires s == [44, 200]
    ensures ParseSeparatorsSpec(s) == Accepted([200, 44])
  {
    AcceptedExample(s, [200, 44]);
  }

  /** An input of at most sixteen characters, none reserved, is accepted as the ascending
      listing of its characters. */
  lemma AcceptedExample(s: seq<byte>, expected: seq<byte>)
    requires s != [] && |s| <= MAX_SEPARATORS && forall i | 0 <= i < |s| :: s[i] !in RESERVED
    requires StrictlyAscending(expected) && forall c :: c in expected <==> c in s
    ensures ParseSeparatorsSpec(s) == Accepted(expected)
  {
    CharsBound(s);
    assert s[0] in Chars(s);
    InCharOrderIsSorted(Chars(s));
    AscendingIsUnique(InCharOrder(Chars(s)), expected);
  }

  /** Repeats count once: twenty spaces are accepted as the single separator " ". */
  lemma ParseSeparatorsRepeatsExample(s: seq<byte>)
    requires s == seq(20, _ => 32)
    ensures ParseSeparatorsSpec(s) == Accepted([32])
  {
    assert s[0] == 32;
    ParseSeparatorsSetOnly(s, [32]);
    AcceptedExample([32], [32]);
  }

  /** A sign among the separators is rejected: ",-" throws. */
  lemma ParseSeparatorsReservedExample()
    ensures ParseSeparatorsSpec([44, MINUS]) == ArgumentError
  {
    assert RESERVED[11] in Chars([44, MINUS]);
  }
}
