/**
 * What the canonical text is, apart from the code that prints it: the grammar of RFC 8259 without
 * insignificant whitespace, its code units written out. Of the escapes that section 7 allows, a character
 * has the two-character one where there is one, control characters else \u00xx in lower case, and all
 * others none. The members of an object stand in the order of their keys' code units.
 */
module Rfc8259 {
  import opened Wrappers
  import opened Utf16
  import opened CanonicalJson
  import opened Digest

  // ----- Numbers (section 6) ---------------------------------------------------------------------

  function Decimal(t: Text): int {
    if t == [] then 0 else 10 * Decimal(t[..|t| - 1]) + t[|t| - 1] - 0x30
  }

  /** Decimal digits without a leading zero. */
  predicate IsInt(t: Text) {
    t != [] && (forall i :: 0 <= i < |t| ==> 0x30 <= t[i] <= 0x39) && (t[0] == 0x30 ==> |t| == 1)
  }

  predicate DenotesNumber(t: Text, n: int) {
    if n < 0 then t != [] && t[0] == 0x2D && IsInt(t[1..]) && Decimal(t[1..]) == -n
    else IsInt(t) && Decimal(t) == n
  }

  // ----- Strings (section 7) ---------------------------------------------------------------------

  /** A hexadecimal digit in lower case. */
  predicate DenotesHex(u: CodeUnit, digit: int) {
    (0x30 <= u <= 0x39 && digit == u - 0x30) || (0x61 <= u <= 0x66 && digit == u - 0x61 + 10)
  }

  ghost predicate DenotesUnit(t: Text, u: CodeUnit) {
    if u == 0x22 then t == [0x5C, 0x22]
    else if u == 0x5C then t == [0x5C, 0x5C]
    else if u == 0x08 then t == [0x5C, 0x62]
    else if u == 0x0C then t == [0x5C, 0x66]
    else if u == 0x0A then t == [0x5C, 0x6E]
    else if u == 0x0D then t == [0x5C, 0x72]
    else if u == 0x09 then t == [0x5C, 0x74]
    else if u < 0x20 then
      && |t| == 6 && t[..4] == [0x5C, 0x75, 0x30, 0x30]
      && exists high, low :: DenotesHex(t[4], high) && DenotesHex(t[5], low) && 16 * high + low == u
    else t == [u]
  }

  function Concatenation(pieces: seq<Text>): Text {
    if pieces == [] then [] else pieces[0] + Concatenation(pieces[1..])
  }

  ghost predicate Units(pieces: seq<Text>, s: Text) {
    |pieces| == |s| && forall i :: 0 <= i < |s| ==> DenotesUnit(pieces[i], s[i])
  }

  ghost predicate DenotesString(t: Text, s: Text) {
    exists pieces :: Units(pieces, s) && t == [0x22] + Concatenation(pieces) + [0x22]
  }

  // ----- Values (sections 3 to 5) ----------------------------------------------------------------

  function Separated(pieces: seq<Text>): Text {
    if pieces == [] then [] else if |pieces| == 1 then pieces[0] else pieces[0] + [0x2C] + Separated(pieces[1..])
  }

  ghost predicate InUnitOrder(keys: seq<Text>) {
    forall i, j :: 0 <= i < j < |keys| ==> UnitBefore(keys[i], keys[j])
  }

  function Member(name: Text, value: Text): Text {
    name + [0x3A] + value
  }

  function Members(names: seq<Text>, values: seq<Text>): seq<Text>
    requires |names| == |values|
  {
    seq(|names|, i requires 0 <= i < |names| => Member(names[i], values[i]))
  }

  ghost predicate Denotes(t: Text, tree: Tree)
    decreases tree, 1
  {
    match tree
    case NullTree => t == [0x6E, 0x75, 0x6C, 0x6C]
    case BoolTree(b) => t == if b then [0x74, 0x72, 0x75, 0x65] else [0x66, 0x61, 0x6C, 0x73, 0x65]
    case NumberTree(n) => DenotesNumber(t, n)
    case TextTree(s) => DenotesString(t, s)
    case ListTree(items) => exists pieces :: DenoteItems(pieces, items) && t == [0x5B] + Separated(pieces) + [0x5D]
    case RecordTree(members) =>
      exists keys: seq<Text>, names: seq<Text>, values: seq<Text> ::
        && DenoteMembers(keys, names, values, tree)
        && t == [0x7B] + Separated(Members(names, values)) + [0x7D]
  }

  ghost predicate DenoteItems(pieces: seq<Text>, items: seq<Tree>)
    decreases items, 0
  {
    |pieces| == |items| && forall i :: 0 <= i < |items| ==> Denotes(pieces[i], items[i])
  }

  /** The keys are those of the object, in order, each with its name and its value. */
  ghost predicate DenoteMembers(keys: seq<Text>, names: seq<Text>, values: seq<Text>, tree: Tree)
    requires tree.RecordTree?
    decreases tree, 0
  {
    && |names| == |keys| && |values| == |keys| && InUnitOrder(keys)
    && (forall k :: k in keys <==> k in tree.members)
    && forall i :: 0 <= i < |keys| ==>
         keys[i] in tree.members && DenotesString(names[i], keys[i]) && Denotes(values[i], tree.members[keys[i]])
  }

  // ----- The printer meets the grammar -----------------------------------------------------------

  lemma {:induction false} DigitsAreInt(n: nat)
    ensures IsInt(Digits(n)) && Decimal(Digits(n)) == n
    ensures n > 0 ==> Digits(n)[0] != 0x30
  {
    var t := Digits(n);
    if n < 10 {
      assert t[..0] == [];
    } else {
      DigitsAreInt(n / 10);
      assert t[..|t| - 1] == Digits(n / 10);
    }
  }

  lemma NumberDenoted(n: int)
    ensures DenotesNumber(NumberText(n), n)
  {
    DigitsAreInt(if n < 0 then -n else n);
    if n < 0 {
      assert NumberText(n)[1..] == Digits(-n);
    }
  }

  lemma UnitDenoted(u: CodeUnit)
    ensures DenotesUnit(EscapeUnit(u), u)
  {
    if u < 0x20 && ShortEscape(u).None? {
      var t := EscapeUnit(u);
      assert t[..4] == [0x5C, 0x75, 0x30, 0x30];
      assert DenotesHex(t[4], u / 16) && DenotesHex(t[5], u % 16);
    }
  }

  lemma {:induction false} UnitsDenoted(s: Text) returns (pieces: seq<Text>)
    ensures Units(pieces, s) && Concatenation(pieces) == Escaped(s)
  {
    pieces := [];
    if s != [] {
      var tail := UnitsDenoted(s[1..]);
      UnitDenoted(s[0]);
      pieces := [EscapeUnit(s[0])] + tail;
      assert pieces[1..] == tail;
    }
  }

  lemma StringDenoted(s: Text)
    ensures DenotesString(Quoted(s), s)
  {
    var pieces := UnitsDenoted(s);
    assert Units(pieces, s) && Quoted(s) == [0x22] + Concatenation(pieces) + [0x22];
  }

  lemma {:induction false} ItemsDenoted(items: seq<Value>) returns (pieces: seq<Text>)
    requires forall x :: x in items ==> IsValue(x) && Admitted(x)
    ensures DenoteItems(pieces, AsTrees(items)) && CanonicalItems(items) == Ok(Separated(pieces))
    decreases items, 0
  {
    pieces := [];
    if items != [] {
      CanonicalDenoted(items[0]);
      var tail := ItemsDenoted(items[1..]);
      pieces := [Canonical(items[0]).value] + tail;
      ItemsCons(Canonical(items[0]).value, tail, AsTree(items[0]), AsTrees(items[1..]));
      assert pieces[1..] == tail;
    }
  }

  lemma ItemsCons(first: Text, tail: seq<Text>, item: Tree, items: seq<Tree>)
    requires Denotes(first, item) && DenoteItems(tail, items)
    ensures DenoteItems([first] + tail, [item] + items)
  {
    var pieces, all := [first] + tail, [item] + items;
    forall i | 0 <= i < |all|
      ensures Denotes(pieces[i], all[i])
    {
      if i > 0 {
        assert pieces[i] == tail[i - 1] && all[i] == items[i - 1];
      }
    }
  }

  function Keys(fs: seq<Field>): seq<Text> {
    seq(|fs|, i requires 0 <= i < |fs| => fs[i].key)
  }

  /** The members of `fs` with their names and values. */
  ghost predicate FieldsDenoted(names: seq<Text>, values: seq<Text>, fs: seq<Field>)
    requires forall f :: f in fs ==> IsValue(f.value) && Admitted(f.value)
  {
    |names| == |fs| && |values| == |fs| &&
    forall i :: 0 <= i < |fs| ==> DenotesString(names[i], fs[i].key) && Denotes(values[i], AsTree(fs[i].value))
  }

  lemma {:induction false} MembersDenoted(v: Value, fs: seq<Field>) returns (names: seq<Text>, values: seq<Text>)
    requires v.Obj? && GoodMembers(fs) && forall f :: f in fs ==> f in v.fields
    ensures FieldsDenoted(names, values, fs) && CanonicalMembers(v, fs) == Ok(Separated(Members(names, values)))
    decreases v, 0, |fs|
  {
    names, values := [], [];
    if fs != [] {
      assert fs[0] in v.fields;
      assert forall f :: f in fs <==> f == fs[0] || f in fs[1..];
      StringDenoted(fs[0].key);
      CanonicalDenoted(fs[0].value);
      var moreNames, moreValues := MembersDenoted(v, fs[1..]);
      var name, value := Quoted(fs[0].key), Canonical(fs[0].value).value;
      names, values := [name] + moreNames, [value] + moreValues;
      FieldsCons(name, value, moreNames, moreValues, fs);
      MembersCons(name, value, moreNames, moreValues);
      MembersPrinted(v, fs, name, value, Separated(Members(moreNames, moreValues)));
    }
  }

  lemma MembersPrinted(v: Value, fs: seq<Field>, name: Text, value: Text, more: Text)
    requires v.Obj? && fs != [] && (forall f :: f in fs ==> f in v.fields) && fs[0] in v.fields
    requires QuotedText(fs[0].key) == Ok(name) && Canonical(fs[0].value) == Ok(value)
    requires CanonicalMembers(v, fs[1..]) == Ok(more)
    ensures CanonicalMembers(v, fs) ==
      Ok(if |fs| == 1 then name + [0x3A] + value else name + [0x3A] + value + [0x2C] + more)
  {
  }

  lemma MembersCons(name: Text, value: Text, names: seq<Text>, values: seq<Text>)
    requires |names| == |values|
    ensures Separated(Members([name] + names, [value] + values)) ==
      if names == [] then name + [0x3A] + value
      else name + [0x3A] + value + [0x2C] + Separated(Members(names, values))
  {
    var all := Members([name] + names, [value] + values);
    assert all[0] == Member(name, value) && all[1..] == Members(names, values);
  }

  lemma FieldsCons(name: Text, value: Text, names: seq<Text>, values: seq<Text>, fs: seq<Field>)
    requires fs != [] && forall f :: f in fs ==> IsValue(f.value) && Admitted(f.value)
    requires DenotesString(name, fs[0].key) && Denotes(value, AsTree(fs[0].value))
    requires FieldsDenoted(names, values, fs[1..])
    ensures FieldsDenoted([name] + names, [value] + values, fs)
  {
    forall i | 0 <= i < |fs|
      ensures DenotesString(([name] + names)[i], fs[i].key) && Denotes(([value] + values)[i], AsTree(fs[i].value))
    {
      if i > 0 {
        assert fs[i] == fs[1..][i - 1];
      }
    }
  }

  lemma KeysInOrder(fs: seq<Field>)
    requires Ascending(fs)
    ensures InUnitOrder(Keys(fs))
  {
    var keys := Keys(fs);
    forall i, j | 0 <= i < j < |keys|
      ensures UnitBefore(keys[i], keys[j])
    {
      assert Before(fs[i].key, fs[j].key);
      BeforeIsUnitOrder(keys[i], keys[j]);
    }
  }

  lemma ObjectDenoted(fs: seq<Field>, names: seq<Text>, values: seq<Text>)
    requires GoodMembers(fs) && Ascending(fs) && FieldsDenoted(names, values, fs)
    ensures DenoteMembers(Keys(fs), names, values, RecordTree(AsMembers(fs)))
  {
    var keys, members := Keys(fs), AsMembers(fs);
    KeysInOrder(fs);
    forall i | 0 <= i < |keys|
      ensures keys[i] in members && DenotesString(names[i], keys[i]) && Denotes(values[i], members[keys[i]])
    {
      assert fs[i] in fs;
    }
    forall k | k in members
      ensures k in keys
    {
      var i :| 0 <= i < |fs| && fs[i].key == k;
      assert keys[i] == k;
    }
  }

  /** Main result: the canonical text of an admitted value is the JSON text of its tree. */
  lemma {:induction false} CanonicalDenoted(v: Value)
    requires IsValue(v) && Admitted(v)
    ensures Canonical(v).Ok? && Denotes(Canonical(v).value, AsTree(v))
    decreases v, 1
  {
    match v
    case Number(n) => NumberDenoted(n.i);
    case Str(t) => StringDenoted(t);
    case Arr(items) =>
      var pieces := ItemsDenoted(items);
      assert DenoteItems(pieces, AsTrees(items));
    case Obj(fields) =>
      var fs := SortByKey(fields);
      SortedMembers(fields);
      var names, values := MembersDenoted(v, fs);
      ObjectDenoted(fs, names, values);
      assert DenoteMembers(Keys(fs), names, values, RecordTree(AsMembers(fields)));
    case _ =>
  }

  // ----- The grammar allows one text for a tree --------------------------------------------------

  lemma {:induction false} LongIntIsLarge(t: Text)
    requires IsInt(t)
    ensures Decimal(t) >= 0 && (|t| > 1 <==> Decimal(t) >= 10) && (t[0] != 0x30 ==> Decimal(t) > 0)
    ensures |t| == 1 ==> Decimal(t) == t[0] - 0x30
    decreases |t|
  {
    if |t| > 1 {
      var init := t[..|t| - 1];
      assert init[0] == t[0];
      LongIntIsLarge(init);
    } else {
      assert t[..0] == [];
    }
  }

  lemma {:induction false} OneInt(t: Text, u: Text)
    requires IsInt(t) && IsInt(u) && Decimal(t) == Decimal(u)
    ensures t == u
    decreases |t|
  {
    LongIntIsLarge(t);
    LongIntIsLarge(u);
    var a, b := t[..|t| - 1], u[..|u| - 1];
    assert t == a + [t[|t| - 1]] && u == b + [u[|u| - 1]];
    if |t| > 1 {
      assert a[0] == t[0] && b[0] == u[0];
      OneInt(a, b);
    }
  }

  lemma OneUnit(t: Text, t': Text, u: CodeUnit)
    requires DenotesUnit(t, u) && DenotesUnit(t', u)
    ensures t == t'
  {
    if |t| == 6 {
      assert t == t[..4] + [t[4], t[5]] && t' == t'[..4] + [t'[4], t'[5]];
    }
  }

  lemma OneString(t: Text, t': Text, s: Text)
    requires DenotesString(t, s) && DenotesString(t', s)
    ensures t == t'
  {
    var a :| Units(a, s) && t == [0x22] + Concatenation(a) + [0x22];
    var b :| Units(b, s) && t' == [0x22] + Concatenation(b) + [0x22];
    forall i | 0 <= i < |s|
      ensures a[i] == b[i]
    {
      OneUnit(a[i], b[i], s[i]);
    }
    assert a == b;
  }

  lemma StrictlyBefore(a: Text, b: Text)
    requires UnitBefore(a, b)
    ensures a != b && !UnitBefore(b, a)
  {
    BeforeIsUnitOrder(a, b);
    BeforeIsUnitOrder(b, a);
    BeforeTotal(a, b);
  }

  lemma SameFirst(a: seq<Text>, b: seq<Text>)
    requires InUnitOrder(a) && InUnitOrder(b) && a != [] && b != [] && forall k :: k in a <==> k in b
    ensures a[0] == b[0]
  {
    assert a[0] in a && b[0] in b;
    var i :| 0 <= i < |a| && a[i] == b[0];
    var j :| 0 <= j < |b| && b[j] == a[0];
    if i > 0 && j > 0 {
      StrictlyBefore(a[0], a[i]);
    }
  }

  lemma {:induction false} OneOrder(a: seq<Text>, b: seq<Text>)
    requires InUnitOrder(a) && InUnitOrder(b) && forall k :: k in a <==> k in b
    ensures a == b
    decreases |a|
  {
    SameLength(a, b);
    SameLength(b, a);
    if a != [] {
      SameFirst(a, b);
      forall k
        ensures k in a[1..] <==> k in a && k != a[0]
        ensures k in b[1..] <==> k in b && k != b[0]
      {
        FirstApart(a, k);
        FirstApart(b, k);
      }
      OneOrder(a[1..], b[1..]);
      assert a == [a[0]] + a[1..] && b == [b[0]] + b[1..];
    }
  }

  lemma SameLength(a: seq<Text>, b: seq<Text>)
    requires forall k :: k in a <==> k in b
    ensures a == [] ==> b == []
  {
    if b != [] {
      assert b[0] in b;
    }
  }

  lemma FirstApart(a: seq<Text>, k: Text)
    requires InUnitOrder(a) && a != []
    ensures k in a[1..] <==> k in a && k != a[0]
  {
    if k in a[1..] {
      var i :| 0 <= i < |a| - 1 && a[1..][i] == k;
      assert UnitBefore(a[0], a[i + 1]);
      StrictlyBefore(a[0], k);
    }
  }

  lemma {:induction false} OneText(t: Text, t': Text, tree: Tree)
    requires Denotes(t, tree) && Denotes(t', tree)
    ensures t == t'
    decreases tree, 2
  {
    match tree
    case NumberTree(n) =>
      if n < 0 {
        OneInt(t[1..], t'[1..]);
        assert t == [t[0]] + t[1..] && t' == [t'[0]] + t'[1..];
      } else {
        OneInt(t, t');
      }
    case TextTree(s) => OneString(t, t', s);
    case ListTree(items) => OneList(t, t', tree);
    case RecordTree(members) => OneRecord(t, t', tree);
    case _ =>
  }

  lemma {:induction false} OneList(t: Text, t': Text, tree: Tree)
    requires tree.ListTree? && Denotes(t, tree) && Denotes(t', tree)
    ensures t == t'
    decreases tree, 0
  {
    var items := tree.items;
    var a :| DenoteItems(a, items) && t == [0x5B] + Separated(a) + [0x5D];
    var b :| DenoteItems(b, items) && t' == [0x5B] + Separated(b) + [0x5D];
    forall i | 0 <= i < |items|
      ensures a[i] == b[i]
    {
      OneText(a[i], b[i], items[i]);
    }
    assert a == b;
  }

  lemma {:induction false} OneRecord(t: Text, t': Text, tree: Tree)
    requires tree.RecordTree? && Denotes(t, tree) && Denotes(t', tree)
    ensures t == t'
    decreases tree, 1
  {
    var ks: seq<Text>, ns: seq<Text>, vs: seq<Text> :|
      DenoteMembers(ks, ns, vs, tree) && t == [0x7B] + Separated(Members(ns, vs)) + [0x7D];
    var ks': seq<Text>, ns': seq<Text>, vs': seq<Text> :|
      DenoteMembers(ks', ns', vs', tree) && t' == [0x7B] + Separated(Members(ns', vs')) + [0x7D];
    OneOrder(ks, ks');
    SameMembers(ks, ns, vs, ns', vs', tree);
  }

  lemma {:induction false} SameMembers(ks: seq<Text>, ns: seq<Text>, vs: seq<Text>, ns': seq<Text>, vs': seq<Text>,
                                       tree: Tree)
    requires tree.RecordTree? && DenoteMembers(ks, ns, vs, tree) && DenoteMembers(ks, ns', vs', tree)
    ensures ns == ns' && vs == vs'
    decreases tree, 0
  {
    forall i | 0 <= i < |ks|
      ensures ns[i] == ns'[i] && vs[i] == vs'[i]
    {
      OneString(ns[i], ns'[i], ks[i]);
      OneText(vs[i], vs'[i], tree.members[ks[i]]);
    }
  }

  /** Main result: the canonical text of an admitted value is the one JSON text of its tree. */
  lemma CanonicalIsTheText(v: Value, t: Text)
    requires IsValue(v) && Admitted(v)
    ensures Canonical(v) == Ok(t) <==> Denotes(t, AsTree(v))
  {
    CanonicalDenoted(v);
    if Denotes(t, AsTree(v)) {
      OneText(Canonical(v).value, t, AsTree(v));
    }
  }

  // ----- The bytes that are hashed ---------------------------------------------------------------

  ghost predicate Utf16Pieces(ts: seq<Text>, cs: seq<Scalar>) {
    |ts| == |cs| && forall i :: 0 <= i < |cs| ==> IsUtf16(ts[i], cs[i])
  }

  ghost predicate Utf8Pieces(us: seq<seq<int>>, cs: seq<Scalar>) {
    |us| == |cs| && forall i :: 0 <= i < |cs| ==> IsUtf8(us[i], cs[i])
  }

  function Joined(pieces: seq<seq<int>>): seq<int> {
    if pieces == [] then [] else pieces[0] + Joined(pieces[1..])
  }

  /** The text is the UTF-16 form of the scalar values. */
  ghost predicate IsUtf16Text(t: Text, cs: seq<Scalar>) {
    exists ts :: Utf16Pieces(ts, cs) && t == Concatenation(ts)
  }

  /** The bytes are the UTF-8 form of the scalar values. */
  ghost predicate IsUtf8Text(bs: seq<int>, cs: seq<Scalar>) {
    exists us :: Utf8Pieces(us, cs) && bs == Joined(us)
  }

  lemma {:induction false} Utf16OfPieces(ts: seq<Text>, cs: seq<Scalar>)
    requires Utf16Pieces(ts, cs)
    ensures Concatenation(ts) == Encode(cs)
    decreases |cs|
  {
    if cs != [] {
      EncodeScalarIsUtf16(cs[0], ts[0]);
      Utf16OfPieces(ts[1..], cs[1..]);
    }
  }

  lemma {:induction false} Utf8OfPieces(us: seq<seq<int>>, cs: seq<Scalar>)
    requires Utf8Pieces(us, cs)
    ensures Joined(us) == Utf8(cs)
    decreases |cs|
  {
    if cs != [] {
      ScalarBytesAreUtf8(cs[0], us[0]);
      Utf8OfPieces(us[1..], cs[1..]);
    }
  }

  lemma EncodeIsUtf16(t: Text, cs: seq<Scalar>)
    ensures IsUtf16Text(t, cs) <==> t == Encode(cs)
  {
    var ts := seq(|cs|, i requires 0 <= i < |cs| => EncodeScalar(cs[i]));
    forall i | 0 <= i < |cs|
      ensures IsUtf16(ts[i], cs[i])
    {
      EncodeScalarIsUtf16(cs[i], ts[i]);
    }
    assert Utf16Pieces(ts, cs);
    Utf16OfPieces(ts, cs);
    forall us | Utf16Pieces(us, cs)
      ensures Concatenation(us) == Encode(cs)
    {
      Utf16OfPieces(us, cs);
    }
  }

  lemma Utf8IsUtf8(bs: seq<int>, cs: seq<Scalar>)
    ensures IsUtf8Text(bs, cs) <==> bs == Utf8(cs)
  {
    var us: seq<seq<int>> := seq(|cs|, i requires 0 <= i < |cs| => ScalarBytes(cs[i]));
    forall i | 0 <= i < |cs|
      ensures IsUtf8(us[i], cs[i])
    {
      ScalarBytesAreUtf8(cs[i], us[i]);
    }
    assert Utf8Pieces(us, cs);
    Utf8OfPieces(us, cs);
    forall vs | Utf8Pieces(vs, cs)
      ensures Joined(vs) == Utf8(cs)
    {
      Utf8OfPieces(vs, cs);
    }
  }

  /** The bytes hashed for an admissible text are its UTF-8 form. */
  lemma TextBytesAreUtf8(t: Text, bs: seq<Byte>)
    requires Admissible(t)
    ensures TextBytes(t) == Ok(bs) <==> exists cs :: IsUtf16Text(t, cs) && IsUtf8Text(bs, cs)
  {
    var cs := Decode(t);
    EncodeIsUtf16(t, cs);
    Utf8IsUtf8(bs, cs);
    assert IsUtf16Text(t, cs);
    assert TextBytes(t) == Ok(bs) <==> IsUtf8Text(bs, cs);
    forall ds | IsUtf16Text(t, ds)
      ensures ds == cs
    {
      EncodeIsUtf16(t, ds);
      DecodeEncode(ds);
    }
  }

  /** Main result: what is hashed is the UTF-8 form of the one JSON text of the value's tree. */
  lemma HashedBytes(v: Value, bs: seq<Byte>)
    requires IsValue(v) && Admitted(v)
    ensures CanonicalBytes(v) == Ok(bs) <==>
      exists t, cs :: Denotes(t, AsTree(v)) && IsUtf16Text(t, cs) && IsUtf8Text(bs, cs)
  {
    CanonicalDenoted(v);
    CanonicalAdmissible(v);
    TextBytesAreUtf8(Canonical(v).value, bs);
    forall t | Denotes(t, AsTree(v))
      ensures t == Canonical(v).value
    {
      CanonicalIsTheText(v, t);
    }
  }
}
