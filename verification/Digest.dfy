/**
 * The input of the structured and exact-text digests: the UTF-8 bytes of an admissible text.
 * SHA-256 itself is a parameter.
 */
module Digest {
  import opened Wrappers
  import opened Utf16
  import opened CanonicalJson
  import CanonicalParser

  // ----- Canonical text is admissible ----------------------------------------------------------

  lemma AsciiAdmissible(t: Text)
    requires forall i :: 0 <= i < |t| ==> 0 < t[i] < 0x80
    ensures Admissible(t)
  {
    if t != [] {
      AsciiAdmissible(t[1..]);
    }
  }

  lemma EscapeOrdinary(u: CodeUnit)
    requires !IsHigh(u) && !IsLow(u)
    ensures Admissible(EscapeUnit(u))
  {
    if EscapeUnit(u) == [u] {
      assert Paired([u][1..]);
    } else {
      AsciiAdmissible(EscapeUnit(u));
    }
  }

  lemma PairAdmissible(high: CodeUnit, low: CodeUnit)
    requires IsHigh(high) && IsLow(low)
    ensures Admissible([high, low])
  {
    assert [high, low][2..] == [];
  }

  lemma SurrogateUnescaped(u: CodeUnit)
    requires IsHigh(u) || IsLow(u)
    ensures EscapeUnit(u) == [u]
  {
  }

  /** A pair is copied as it stands. */
  lemma PairEscaped(t: Text)
    requires |t| > 1 && IsHigh(t[0]) && IsLow(t[1])
    ensures Escaped(t) == [t[0], t[1]] + Escaped(t[2..])
  {
    SurrogateUnescaped(t[0]);
    SurrogateUnescaped(t[1]);
    var more := Escaped(t[2..]);
    assert Escaped(t[1..]) == [t[1]] + more by {
      assert t[1..][1..] == t[2..];
    }
    assert [t[0]] + ([t[1]] + more) == [t[0], t[1]] + more;
  }

  /** Escaping never separates the halves of a surrogate pair. */
  lemma {:induction false} EscapedAdmissible(t: Text)
    requires Paired(t)
    ensures Admissible(Escaped(t))
  {
    if t != [] {
      if IsHigh(t[0]) {
        EscapedAdmissible(t[2..]);
        PairEscaped(t);
        PairAdmissible(t[0], t[1]);
        AdmissibleConcat([t[0], t[1]], Escaped(t[2..]));
      } else {
        EscapedAdmissible(t[1..]);
        EscapeOrdinary(t[0]);
        AdmissibleConcat(EscapeUnit(t[0]), Escaped(t[1..]));
      }
    }
  }

  lemma QuotedAdmissible(t: Text)
    requires Admissible(t)
    ensures Admissible(Quoted(t))
  {
    EscapedAdmissible(t);
    AsciiAdmissible([QUOTE]);
    AdmissibleConcat([QUOTE], Escaped(t));
    AdmissibleConcat([QUOTE] + Escaped(t), [QUOTE]);
  }

  lemma Joined(a: Text, u: CodeUnit, b: Text)
    requires Admissible(a) && 0 < u < 0x80 && Admissible(b)
    ensures Admissible(a + [u] + b)
  {
    AsciiAdmissible([u]);
    AdmissibleConcat(a, [u]);
    AdmissibleConcat(a + [u], b);
  }

  lemma Enclosed(u: CodeUnit, body: Text, w: CodeUnit)
    requires 0 < u < 0x80 && Admissible(body) && 0 < w < 0x80
    ensures Admissible([u] + body + [w])
  {
    Joined([], u, body);
    Joined([u] + body, w, []);
    assert [] + [u] + body == [u] + body;
    assert [u] + body + [w] + [] == [u] + body + [w];
  }

  /** Every text the encoding returns passes the second text check of the digest. */
  lemma {:induction false} CanonicalAdmissible(v: Value)
    requires Canonical(v).Ok?
    ensures Admissible(Canonical(v).value)
    decreases v, 0
  {
    match v
    case Null => AsciiAdmissible(NULL_WORD);
    case Bool(b) => AsciiAdmissible(if b then TRUE_WORD else FALSE_WORD);
    case Number(n) => AsciiAdmissible(NumberText(n.i));
    case Str(t) => QuotedAdmissible(t);
    case Arr(items) =>
      ItemsAdmissible(items);
      Enclosed(LBRACKET, CanonicalItems(items).value, RBRACKET);
    case Obj(fields) =>
      MembersAdmissible(v, SortByKey(fields));
      Enclosed(LBRACE, CanonicalMembers(v, SortByKey(fields)).value, RBRACE);
  }

  lemma {:induction false} ItemsAdmissible(items: seq<Value>)
    requires CanonicalItems(items).Ok?
    ensures Admissible(CanonicalItems(items).value)
    decreases items, 0
  {
    if items != [] {
      CanonicalAdmissible(items[0]);
      if |items| > 1 {
        ItemsAdmissible(items[1..]);
        Joined(Canonical(items[0]).value, COMMA, CanonicalItems(items[1..]).value);
      }
    }
  }

  lemma {:induction false} MembersAdmissible(v: Value, fs: seq<Field>)
    requires v.Obj? && forall f :: f in fs ==> f in v.fields
    requires CanonicalMembers(v, fs).Ok?
    ensures Admissible(CanonicalMembers(v, fs).value)
    decreases v, 0, |fs|
  {
    if fs != [] {
      assert fs[0] in v.fields;
      CanonicalAdmissible(fs[0].value);
      QuotedAdmissible(fs[0].key);
      var member := Quoted(fs[0].key) + [COLON] + Canonical(fs[0].value).value;
      Joined(Quoted(fs[0].key), COLON, Canonical(fs[0].value).value);
      if |fs| > 1 {
        MembersAdmissible(v, fs[1..]);
        Joined(member, COMMA, CanonicalMembers(v, fs[1..]).value);
      }
    }
  }

  // ----- UTF-8 ---------------------------------------------------------------------------------

  type Byte = b: int | 0 <= b < 0x100

  /** How many bytes the sequence with this first byte has. */
  function SequenceLength(first: Byte): nat {
    if first < 0x80 then 1 else if first < 0xE0 then 2 else if first < 0xF0 then 3 else 4
  }

  /** Definition D92 in section 3.9 of the Unicode Standard. */
  function ScalarBytes(c: Scalar): (bs: seq<Byte>)
    ensures bs != [] && |bs| == SequenceLength(bs[0])
  {
    if c < 0x80 then [c]
    else if c < 0x800 then [0xC0 + c / 0x40, 0x80 + c % 0x40]
    else if c < 0x10000 then [0xE0 + c / 0x1000, 0x80 + c / 0x40 % 0x40, 0x80 + c % 0x40]
    else [0xF0 + c / 0x40000, 0x80 + c / 0x1000 % 0x40, 0x80 + c / 0x40 % 0x40, 0x80 + c % 0x40]
  }

  /** Table 3-6 of the Unicode Standard: the shortest form, by its lead and trail bytes. */
  predicate IsUtf8(bs: seq<int>, c: int) {
    if c < 0x80 then bs == [c]
    else if c < 0x800 then
      |bs| == 2 && 0xC0 <= bs[0] <= 0xDF && IsTrail(bs[1]) && ScalarOfBytes(bs) == c
    else if c < 0x10000 then
      |bs| == 3 && 0xE0 <= bs[0] <= 0xEF && IsTrail(bs[1]) && IsTrail(bs[2]) && ScalarOfBytes(bs) == c
    else
      |bs| == 4 && 0xF0 <= bs[0] <= 0xF7 && IsTrail(bs[1]) && IsTrail(bs[2]) && IsTrail(bs[3]) && ScalarOfBytes(bs) == c
  }

  predicate IsTrail(b: int) {
    0x80 <= b <= 0xBF
  }

  lemma ScalarBytesAreUtf8(c: Scalar, bs: seq<int>)
    ensures ScalarBytes(c) == bs <==> IsUtf8(bs, c)
  {
    ScalarRoundTrip(c);
    if IsUtf8(bs, c) {
      SameBytes(ScalarBytes(c), bs, c);
    }
  }

  lemma SameBytes(a: seq<int>, b: seq<int>, c: int)
    requires IsUtf8(a, c) && IsUtf8(b, c)
    ensures a == b
  {
  }

  function ScalarOfBytes(bs: seq<int>): int {
    match |bs|
    case 1 => bs[0]
    case 2 => (bs[0] - 0xC0) * 0x40 + (bs[1] - 0x80)
    case 3 => (bs[0] - 0xE0) * 0x1000 + (bs[1] - 0x80) * 0x40 + (bs[2] - 0x80)
    case 4 => (bs[0] - 0xF0) * 0x40000 + (bs[1] - 0x80) * 0x1000 + (bs[2] - 0x80) * 0x40 + (bs[3] - 0x80)
    case _ => 0
  }

  lemma ScalarRoundTrip(c: Scalar)
    ensures ScalarOfBytes(ScalarBytes(c)) == c
  {
    assert c / 0x1000 == c / 0x40 / 0x40 && c / 0x40000 == c / 0x40 / 0x40 / 0x40;
  }

  function Utf8(cs: seq<Scalar>): seq<Byte> {
    if cs == [] then [] else ScalarBytes(cs[0]) + Utf8(cs[1..])
  }

  lemma ScalarBytesPrefixFree(c: Scalar, rest: seq<Byte>, d: Scalar, others: seq<Byte>)
    requires ScalarBytes(c) + rest == ScalarBytes(d) + others
    ensures c == d && rest == others
  {
    var left, right := ScalarBytes(c) + rest, ScalarBytes(d) + others;
    var n := |ScalarBytes(c)|;
    assert left[0] == ScalarBytes(c)[0] && right[0] == ScalarBytes(d)[0];
    assert left[..n] == ScalarBytes(c) && right[..n] == ScalarBytes(d);
    assert left[n..] == rest && right[n..] == others;
    ScalarRoundTrip(c);
    ScalarRoundTrip(d);
  }

  lemma {:induction false} Utf8Injective(cs: seq<Scalar>, ds: seq<Scalar>)
    requires Utf8(cs) == Utf8(ds)
    ensures cs == ds
  {
    if cs != [] && ds != [] {
      ScalarBytesPrefixFree(cs[0], Utf8(cs[1..]), ds[0], Utf8(ds[1..]));
      Utf8Injective(cs[1..], ds[1..]);
      assert cs == [cs[0]] + cs[1..] && ds == [ds[0]] + ds[1..];
    }
  }

  // ----- Digests -------------------------------------------------------------------------------

  function TextBytes(t: Text): Result<seq<Byte>, TextError> {
    match CheckText(t)
    case Err(e) => Err(e)
    case Ok(_) => Ok(Utf8(Decode(t)))
  }

  function ExactTextSha256<D>(sha: seq<Byte> -> D, t: Text): Result<D, TextError> {
    match TextBytes(t)
    case Err(e) => Err(e)
    case Ok(bytes) => Ok(sha(bytes))
  }

  function CanonicalBytes(v: Value): Result<seq<Byte>, CanonicalError> {
    var text :- Canonical(v);
    match TextBytes(text)
    case Err(e) => Err(BadText(e))
    case Ok(bytes) => Ok(bytes)
  }

  function TbCanonicalSha256<D>(sha: seq<Byte> -> D, v: Value): Result<D, CanonicalError> {
    var bytes :- CanonicalBytes(v);
    Ok(sha(bytes))
  }

  /** Different admissible texts are different byte strings. */
  lemma TextBytesInjective(t: Text, u: Text)
    requires Admissible(t) && Admissible(u)
    ensures TextBytes(t).Ok? && TextBytes(u).Ok?
    ensures TextBytes(t) == TextBytes(u) <==> t == u
  {
    if Utf8(Decode(t)) == Utf8(Decode(u)) {
      Utf8Injective(Decode(t), Decode(u));
      assert t == Encode(Decode(t)) && u == Encode(Decode(u));
    }
  }

  /** The digest of an exact text: refused exactly for inadmissible texts, and equal digests of different
      texts would be a collision of the hash itself. */
  lemma ExactTextIdentifies<D>(sha: seq<Byte> -> D, t: Text, u: Text)
    ensures ExactTextSha256(sha, t).Ok? <==> Admissible(t)
    ensures Admissible(t) && Admissible(u) && t != u && ExactTextSha256(sha, t) == ExactTextSha256(sha, u)
        ==> exists a, b :: a != b && sha(a) == sha(b)
  {
    if Admissible(t) && Admissible(u) {
      TextBytesInjective(t, u);
    }
  }

  /** The digest is refused exactly when the encoding is, and for the encoding's reason. */
  lemma DigestRefusals<D>(sha: seq<Byte> -> D, v: Value)
    ensures TbCanonicalSha256(sha, v).Ok? <==> Admitted(v)
    ensures Canonical(v).Err? ==> TbCanonicalSha256(sha, v) == Err(Canonical(v).error)
  {
    AdmitsExactly(v);
    if Canonical(v).Ok? {
      CanonicalAdmissible(v);
    }
  }

  /** Main result: equal digests of different values would be a collision of the hash itself. */
  lemma DigestIdentifiesValue<D>(sha: seq<Byte> -> D, v: Value, w: Value)
    requires IsValue(v) && IsValue(w) && Admitted(v) && Admitted(w)
    ensures CanonicalBytes(v).Ok? && CanonicalBytes(w).Ok?
    ensures AsTree(v) == AsTree(w) <==> CanonicalBytes(v) == CanonicalBytes(w)
    ensures AsTree(v) == AsTree(w) ==> TbCanonicalSha256(sha, v) == TbCanonicalSha256(sha, w)
    ensures TbCanonicalSha256(sha, v) == TbCanonicalSha256(sha, w) && AsTree(v) != AsTree(w)
        ==> exists a, b :: a != b && sha(a) == sha(b)
  {
    CanonicalParser.TextIdentifiesValue(v, w);
    CanonicalAdmissible(v);
    CanonicalAdmissible(w);
    TextBytesInjective(Canonical(v).value, Canonical(w).value);
  }
}
