/**
 * JavaScript text: sequences of UTF-16 code units, which need not be well formed.
 * Well-formedness is that of definition D91 in section 3.9 of the Unicode Standard: a text is well
 * formed when it is the encoding of some sequence of scalar values.
 */
module Utf16 {
  import opened Wrappers

  type CodeUnit = u: int | 0 <= u < 0x10000
  type Text = seq<CodeUnit>
  type Scalar = c: int | 0 <= c < 0xD800 || 0xE000 <= c < 0x110000

  datatype TextError = InvalidText | UnpairedSurrogate

  predicate IsHigh(u: CodeUnit) {
    0xD800 <= u <= 0xDBFF
  }

  predicate IsLow(u: CodeUnit) {
    0xDC00 <= u <= 0xDFFF
  }

  function EncodeScalar(c: Scalar): (t: Text)
    ensures |t| > 0
  {
    if c < 0x10000 then [c]
    else [0xD800 + (c - 0x10000) / 0x400, 0xDC00 + (c - 0x10000) % 0x400]
  }

  function Encode(cs: seq<Scalar>): Text {
    if cs == [] then [] else EncodeScalar(cs[0]) + Encode(cs[1..])
  }

  ghost predicate WellFormed(t: Text) {
    exists cs: seq<Scalar> :: Encode(cs) == t
  }

  /** Definition D91: a scalar value below 0x10000 is one unit, any other a high and a low surrogate that
      carry ten bits each. */
  predicate IsUtf16(t: Text, c: Scalar) {
    if c < 0x10000 then t == [c]
    else
      && |t| == 2 && 0xD800 <= t[0] <= 0xDBFF && 0xDC00 <= t[1] <= 0xDFFF
      && var high: int, low: int := t[0], t[1]; 0x10000 + (high - 0xD800) * 0x400 + (low - 0xDC00) == c
  }

  lemma EncodeScalarIsUtf16(c: Scalar, t: Text)
    ensures EncodeScalar(c) == t <==> IsUtf16(t, c)
  {
  }

  // ----- Decoding ------------------------------------------------------------------------------

  /** Surrogates occur only as a high one directly followed by a low one. */
  predicate Paired(t: Text) {
    t == [] ||
    if IsHigh(t[0]) then |t| > 1 && IsLow(t[1]) && Paired(t[2..])
    else !IsLow(t[0]) && Paired(t[1..])
  }

  function DecodePair(high: CodeUnit, low: CodeUnit): (c: Scalar)
    requires IsHigh(high) && IsLow(low)
    ensures EncodeScalar(c) == [high, low]
  {
    0x10000 + (high - 0xD800) * 0x400 + (low - 0xDC00)
  }

  function Decode(t: Text): (cs: seq<Scalar>)
    requires Paired(t)
    ensures Encode(cs) == t
  {
    if t == [] then []
    else if IsHigh(t[0]) then
      assert t == [t[0], t[1]] + t[2..];
      [DecodePair(t[0], t[1])] + Decode(t[2..])
    else
      assert t == [t[0]] + t[1..];
      [t[0]] + Decode(t[1..])
  }

  /** Decoding undoes encoding, so a text has at most one sequence of scalar values. */
  lemma {:induction false} DecodeEncode(cs: seq<Scalar>)
    ensures Paired(Encode(cs)) && Decode(Encode(cs)) == cs
  {
    if cs != [] {
      var t := Encode(cs);
      DecodeEncode(cs[1..]);
      if cs[0] < 0x10000 {
        assert t[1..] == Encode(cs[1..]);
      } else {
        assert t[2..] == Encode(cs[1..]);
      }
    }
  }

  lemma WellFormedIsPaired(t: Text)
    ensures WellFormed(t) <==> Paired(t)
  {
    if Paired(t) {
      assert Encode(Decode(t)) == t;
    }
    forall cs: seq<Scalar> | Encode(cs) == t
      ensures Paired(t)
    {
      DecodeEncode(cs);
    }
  }

  lemma {:induction false} PairedConcat(a: Text, b: Text)
    requires Paired(a) && Paired(b)
    ensures Paired(a + b)
  {
    if a == [] {
      assert a + b == b;
    } else if IsHigh(a[0]) {
      PairedConcat(a[2..], b);
      assert (a + b)[2..] == a[2..] + b;
    } else {
      PairedConcat(a[1..], b);
      assert (a + b)[1..] == a[1..] + b;
    }
  }

  // ----- The admission check of digested text --------------------------------------------------

  /** Text that may be digested: no NUL, and well-formed UTF-16. */
  predicate Admissible(t: Text) {
    0 !in t && Paired(t)
  }

  lemma AdmissibleConcat(a: Text, b: Text)
    requires Admissible(a) && Admissible(b)
    ensures Admissible(a + b)
  {
    PairedConcat(a, b);
  }

  function CheckText(t: Text): (r: Result<Text, TextError>) {
    if 0 in t then Err(InvalidText) else if !Paired(t) then Err(UnpairedSurrogate) else Ok(t)
  }

  method AssertText(value: Text) returns (r: Result<Text, TextError>)
    ensures r.Ok? <==> 0 !in value && WellFormed(value)
    ensures r.Ok? ==> r.value == value
    ensures r.Err? ==> r.error == if 0 in value then InvalidText else UnpairedSurrogate
    ensures r == CheckText(value)
  {
    WellFormedIsPaired(value);
    if 0 in value {
      return Err(InvalidText);
    }
    var index := 0;
    while index < |value|
      invariant 0 <= index <= |value|
      invariant Paired(value) == Paired(value[index..])
    {
      var unit := value[index];
      ghost var here := value[index..];
      if 0xD800 <= unit <= 0xDBFF {
        index := index + 1;
        if !(index < |value| && 0xDC00 <= value[index] <= 0xDFFF) {
          return Err(UnpairedSurrogate);
        }
        assert here[2..] == value[index + 1..];
      } else if 0xDC00 <= unit <= 0xDFFF {
        return Err(UnpairedSurrogate);
      } else {
        assert here[1..] == value[index + 1..];
      }
      index := index + 1;
    }
    return Ok(value);
  }

  // ----- Code-point length ---------------------------------------------------------------------

  /** The positions at which a high surrogate is directly followed by a low one. */
  ghost function Pairs(t: Text): set<int> {
    set i | 0 <= i < |t| - 1 && IsHigh(t[i]) && IsLow(t[i + 1])
  }

  ghost function CodePoints(t: Text): int {
    |t| - |Pairs(t)|
  }

  ghost predicate Seam(a: Text, b: Text) {
    a != [] && b != [] && IsHigh(a[|a| - 1]) && IsLow(b[0])
  }

  lemma PairsSnoc(t: Text, u: CodeUnit)
    ensures CodePoints(t + [u]) == CodePoints(t) + if Seam(t, [u]) then 0 else 1
  {
    if Seam(t, [u]) {
      assert Pairs(t + [u]) == Pairs(t) + {|t| - 1};
    } else {
      assert Pairs(t + [u]) == Pairs(t);
    }
  }

  /** Loses a code point exactly when the seam joins two halves of a surrogate pair. */
  lemma {:induction false} CodePointsConcat(a: Text, b: Text)
    ensures CodePoints(a + b) == CodePoints(a) + CodePoints(b) - if Seam(a, b) then 1 else 0
    decreases |b|
  {
    if b == [] {
      assert a + b == a;
    } else {
      var init, last := b[..|b| - 1], b[|b| - 1];
      assert b == init + [last] && a + b == (a + init) + [last];
      CodePointsConcat(a, init);
      PairsSnoc(init, last);
      PairsSnoc(a + init, last);
      if init != [] {
        assert Seam(a + init, [last]) == Seam(init, [last]);
      } else {
        assert a + init == a;
      }
    }
  }

  /** On well-formed text the length is the number of scalar values. */
  lemma {:induction false} CodePointsOfEncoding(cs: seq<Scalar>)
    ensures CodePoints(Encode(cs)) == |cs|
  {
    if cs != [] {
      var first := EncodeScalar(cs[0]);
      CodePointsConcat(first, Encode(cs[1..]));
      CodePointsOfEncoding(cs[1..]);
      PairsSnoc([], first[0]);
      assert [] + [first[0]] == [first[0]];
      if |first| == 2 {
        PairsSnoc([first[0]], first[1]);
        assert [first[0]] + [first[1]] == first;
      }
    }
  }

  lemma DecodedLength(t: Text)
    requires Paired(t)
    ensures CodePoints(t) == |Decode(t)|
  {
    CodePointsOfEncoding(Decode(t));
  }

  method CodePointLength(value: Text) returns (length: int)
    ensures length == |value| - |Pairs(value)|
  {
    length := 0;
    var position := 0;
    while position < |value|
      invariant 0 <= position <= |value|
      invariant length == CodePoints(value[..position])
      invariant !Seam(value[..position], value[position..])
    {
      length := length + 1;
      var code := value[position];
      PairsSnoc(value[..position], code);
      assert value[..position] + [code] == value[..position + 1];
      position := position + 1;
      if code >= 0xD800 && code <= 0xDBFF && position < |value| {
        var next := value[position];
        // Keeping only the top six bits of a code unit is dividing it by 0x400.
        if next / 0x400 == 0xDC00 / 0x400 {
          PairsSnoc(value[..position], next);
          assert value[..position] + [next] == value[..position + 1];
          position := position + 1;
        }
      }
    }
    assert value[..position] == value;
  }

  // ----- UTF-16 code-unit order ----------------------------------------------------------------

  /** The order of JavaScript's default sort on strings. */
  predicate Before(a: Text, b: Text) {
    b != [] && (a == [] || a[0] < b[0] || (a[0] == b[0] && Before(a[1..], b[1..])))
  }

  lemma {:induction false} BeforeTotal(a: Text, b: Text)
    ensures a == b <==> !Before(a, b) && !Before(b, a)
    ensures !(Before(a, b) && Before(b, a))
  {
    if a != [] && b != [] {
      BeforeTotal(a[1..], b[1..]);
      if a[0] == b[0] && a[1..] == b[1..] {
        assert a == [a[0]] + a[1..] && b == [b[0]] + b[1..];
      }
    }
  }

  lemma {:induction false} BeforeTransitive(a: Text, b: Text, c: Text)
    requires Before(a, b) && Before(b, c)
    ensures Before(a, c)
  {
    if a != [] && a[0] == b[0] && b[0] == c[0] {
      BeforeTransitive(a[1..], b[1..], c[1..]);
    }
  }

  /** Where two texts first differ, the smaller unit comes first; a proper prefix comes before its
      extension. */
  ghost predicate DiffersUpwards(a: Text, b: Text, i: nat) {
    i <= |a| && i < |b| && a[..i] == b[..i] && (i == |a| || a[i] < b[i])
  }

  ghost predicate UnitBefore(a: Text, b: Text) {
    exists i: nat :: DiffersUpwards(a, b, i)
  }

  lemma {:induction false} BeforeIsUnitOrder(a: Text, b: Text)
    ensures Before(a, b) <==> UnitBefore(a, b)
  {
    if b != [] {
      if a == [] || a[0] < b[0] {
        assert DiffersUpwards(a, b, 0);
      } else if a[0] == b[0] {
        BeforeIsUnitOrder(a[1..], b[1..]);
        if i: nat :| DiffersUpwards(a[1..], b[1..], i) {
          assert a[..i + 1] == [a[0]] + a[1..][..i] && b[..i + 1] == [b[0]] + b[1..][..i];
          assert DiffersUpwards(a, b, i + 1);
        }
        if i: nat :| DiffersUpwards(a, b, i) {
          assert i > 0 && a[1..][..i - 1] == a[..i][1..] && b[1..][..i - 1] == b[..i][1..];
          assert DiffersUpwards(a[1..], b[1..], i - 1);
        }
      } else {
        forall i: nat
          ensures !DiffersUpwards(a, b, i)
        {
          if 0 < i <= |a| && i < |b| {
            assert a[..i][0] == a[0] && b[..i][0] == b[0];
          }
        }
      }
    }
  }
}
