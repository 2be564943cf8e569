/**
 * A parser for canonical text, written to undo the encoding: it shows that the text of an admitted
 * value, followed by anything that does not continue a number, determines the value.
 */
module CanonicalParser {
  import opened Wrappers
  import opened Utf16
  import opened CanonicalJson

  datatype Parsed<+T> = NoParse | Parsed(value: T, rest: Text)

  predicate StartsWith(t: Text, word: Text): (r: bool)
    requires word != []
    ensures r ==> t != [] && t[0] == word[0]
  {
    |word| <= |t| && t[..|word|] == word
  }

  // ----- Numbers -------------------------------------------------------------------------------

  function ParseDigits(t: Text, acc: nat): (nat, Text)
    decreases |t|
  {
    if t != [] && IsDigit(t[0]) then ParseDigits(t[1..], 10 * acc + (t[0] - '0' as int))
    else (acc, t)
  }

  lemma {:induction false} ParseDigitsShrinks(t: Text, acc: nat)
    ensures |ParseDigits(t, acc).1| <= |t|
    decreases |t|
  {
    if t != [] && IsDigit(t[0]) {
      ParseDigitsShrinks(t[1..], 10 * acc + (t[0] - '0' as int));
    }
  }

  lemma {:induction false} ParseDigitsUndoes(n: nat, rest: Text)
    ensures ParseDigits(Digits(n) + rest, 0) == ParseDigits(rest, n)
    decreases n
  {
    if n < 10 {
      assert (Digits(n) + rest)[1..] == rest;
    } else {
      var last := ['0' as int + n % 10];
      ParseDigitsUndoes(n / 10, last + rest);
      assert Digits(n) + rest == Digits(n / 10) + (last + rest);
      assert (last + rest)[1..] == rest;
    }
  }

  function ParseNumber(t: Text): (r: Parsed<int>)
    ensures r.Parsed? ==> |r.rest| < |t|
  {
    if t != [] && t[0] == MINUS then
      if |t| > 1 && IsDigit(t[1]) then
        ParseDigitsShrinks(t[2..], t[1] - '0' as int);
        var n: int := ParseDigits(t[1..], 0).0;
        Parsed(-n, ParseDigits(t[1..], 0).1)
      else NoParse
    else if t != [] && IsDigit(t[0]) then
      ParseDigitsShrinks(t[1..], t[0] - '0' as int);
      Parsed(ParseDigits(t, 0).0, ParseDigits(t, 0).1)
    else NoParse
  }

  ghost predicate Stops(rest: Text) {
    rest == [] || !IsDigit(rest[0])
  }

  lemma ParseDigitsStops(n: nat, rest: Text)
    requires Stops(rest)
    ensures ParseDigits(Digits(n) + rest, 0) == (n, rest)
  {
    ParseDigitsUndoes(n, rest);
  }

  lemma ParseNumberOfDigits(d: Text, n: int, rest: Text)
    requires d != [] && IsDigit(d[0]) && ParseDigits(d + rest, 0) == (n, rest)
    ensures ParseNumber(d + rest) == Parsed(n, rest)
    ensures ParseNumber([MINUS] + d + rest) == Parsed(-n, rest)
  {
    var t := [MINUS] + d + rest;
    assert t[1..] == d + rest;
    assert t[0] == MINUS && t[1] == d[0];
  }

  lemma ParseNumberUndoes(i: int, rest: Text)
    requires Stops(rest)
    ensures ParseNumber(NumberText(i) + rest) == Parsed(i, rest)
  {
    var n := if i < 0 then -i else i;
    ParseDigitsStops(n, rest);
    ParseNumberOfDigits(Digits(n), n, rest);
  }

  // ----- Strings -------------------------------------------------------------------------------

  function ShortUnescape(c: CodeUnit): Option<CodeUnit> {
    if c == 'b' as int then Some(0x08)
    else if c == 't' as int then Some(0x09)
    else if c == 'n' as int then Some(0x0A)
    else if c == 'f' as int then Some(0x0C)
    else if c == 'r' as int then Some(0x0D)
    else if c == QUOTE || c == BACKSLASH then Some(c)
    else None
  }

  function HexValue(c: CodeUnit): Option<int> {
    if IsDigit(c) then Some(c - '0' as int)
    else if 'a' as int <= c <= 'f' as int then Some(c - 'a' as int + 10)
    else None
  }

  /** The two low hexadecimal digits of a \u00xx escape. */
  function HexPair(high: CodeUnit, low: CodeUnit): Option<CodeUnit> {
    match (HexValue(high), HexValue(low))
    case (Some(h), Some(l)) => if 0 <= 16 * h + l < 0x100 then Some(16 * h + l) else None
    case _ => None
  }

  function Cons(u: Option<CodeUnit>, p: Parsed<Text>): Parsed<Text> {
    if u.Some? && p.Parsed? then Parsed([u.value] + p.value, p.rest) else NoParse
  }

  /** The rest of a string literal, after its opening quote. */
  function ParseString(t: Text): (r: Parsed<Text>)
    ensures r.Parsed? ==> |r.rest| < |t|
    decreases |t|
  {
    if t == [] then NoParse
    else if t[0] == QUOTE then Parsed([], t[1..])
    else if t[0] != BACKSLASH then Cons(Some(t[0]), ParseString(t[1..]))
    else if |t| > 1 && t[1] != LETTER_U then Cons(ShortUnescape(t[1]), ParseString(t[2..]))
    else if |t| > 5 then Cons(HexPair(t[4], t[5]), ParseString(t[6..]))
    else NoParse
  }

  lemma ParseShort(c: CodeUnit, rest: Text)
    requires c != LETTER_U
    ensures ParseString([BACKSLASH, c] + rest) == Cons(ShortUnescape(c), ParseString(rest))
  {
    assert ([BACKSLASH, c] + rest)[2..] == rest;
  }

  lemma ParseHex(a: CodeUnit, b: CodeUnit, high: CodeUnit, low: CodeUnit, rest: Text)
    ensures ParseString([BACKSLASH, LETTER_U, a, b, high, low] + rest) == Cons(HexPair(high, low), ParseString(rest))
  {
    assert ([BACKSLASH, LETTER_U, a, b, high, low] + rest)[6..] == rest;
  }

  lemma HexPairUndoes(u: CodeUnit)
    requires u < 0x20
    ensures HexPair(HexDigit(u / 16), HexDigit(u % 16)) == Some(u)
  {
  }

  lemma ShortUndoes(u: CodeUnit)
    requires ShortEscape(u).Some?
    ensures ShortEscape(u).value != LETTER_U && ShortUnescape(ShortEscape(u).value) == Some(u)
  {
  }

  lemma ParseUnitUndoes(u: CodeUnit, rest: Text)
    ensures ParseString(EscapeUnit(u) + rest) == Cons(Some(u), ParseString(rest))
  {
    if ShortEscape(u).Some? {
      ShortUndoes(u);
      ParseShort(ShortEscape(u).value, rest);
    } else if u < 0x20 {
      HexPairUndoes(u);
      ParseHex(HexDigit(0), HexDigit(0), HexDigit(u / 16), HexDigit(u % 16), rest);
    } else {
      assert ([u] + rest)[1..] == rest;
    }
  }

  lemma {:induction false} ParseStringUndoes(s: Text, rest: Text)
    ensures ParseString(Escaped(s) + [QUOTE] + rest) == Parsed(s, rest)
  {
    if s == [] {
      assert Escaped(s) + [QUOTE] + rest == [QUOTE] + rest;
    } else {
      var tail := Escaped(s[1..]) + [QUOTE] + rest;
      ParseUnitUndoes(s[0], tail);
      ParseStringUndoes(s[1..], rest);
      assert Escaped(s) + [QUOTE] + rest == EscapeUnit(s[0]) + tail;
      assert [s[0]] + s[1..] == s;
    }
  }

  // ----- Values --------------------------------------------------------------------------------

  function Map<T, U>(p: Parsed<T>, f: T -> U): Parsed<U> {
    if p.Parsed? then Parsed(f(p.value), p.rest) else NoParse
  }

  function ParseWord(t: Text): (r: Parsed<Tree>)
    ensures r.Parsed? ==> |r.rest| < |t|
  {
    if StartsWith(t, NULL_WORD) then Parsed(NullTree, t[4..])
    else if StartsWith(t, TRUE_WORD) then Parsed(BoolTree(true), t[4..])
    else if StartsWith(t, FALSE_WORD) then Parsed(BoolTree(false), t[5..])
    else NoParse
  }

  function Parse(t: Text): (r: Parsed<Tree>)
    ensures r.Parsed? ==> |r.rest| < |t|
    decreases |t|, 0
  {
    if t == [] then NoParse
    else if t[0] == QUOTE then Map(ParseString(t[1..]), s => TextTree(s))
    else if t[0] == LBRACKET then
      if |t| > 1 && t[1] == RBRACKET then Parsed(ListTree([]), t[2..])
      else Map(ParseItems(t[1..]), ts => ListTree(ts))
    else if t[0] == LBRACE then
      if |t| > 1 && t[1] == RBRACE then Parsed(RecordTree(map[]), t[2..])
      else Map(ParseMembers(t[1..]), m => RecordTree(m))
    else if t[0] == MINUS || IsDigit(t[0]) then Map(ParseNumber(t), i => NumberTree(i))
    else ParseWord(t)
  }

  /** One or more items and the closing bracket. */
  function ParseItems(t: Text): (r: Parsed<seq<Tree>>)
    ensures r.Parsed? ==> |r.rest| < |t|
    decreases |t|, 1
  {
    match Parse(t)
    case NoParse => NoParse
    case Parsed(first, rest) =>
      if rest != [] && rest[0] == RBRACKET then Parsed([first], rest[1..])
      else if rest != [] && rest[0] == COMMA then
        match ParseItems(rest[1..])
        case NoParse => NoParse
        case Parsed(others, end) => Parsed([first] + others, end)
      else NoParse
  }

  /** A quoted key and the colon after it. */
  function ParseKey(t: Text): (r: Parsed<Text>)
    ensures r.Parsed? ==> |r.rest| < |t|
  {
    if t == [] || t[0] != QUOTE then NoParse
    else match ParseString(t[1..])
      case NoParse => NoParse
      case Parsed(key, rest) => if rest != [] && rest[0] == COLON then Parsed(key, rest[1..]) else NoParse
  }

  lemma ParseKeyUndoes(key: Text, u: Text)
    ensures ParseKey(Quoted(key) + ([COLON] + u)) == Parsed(key, u)
  {
    ParseStringUndoes(key, [COLON] + u);
    assert (Quoted(key) + ([COLON] + u))[1..] == Escaped(key) + [QUOTE] + ([COLON] + u);
    assert ([COLON] + u)[1..] == u;
  }

  /** One or more members and the closing brace. */
  function ParseMembers(t: Text): (r: Parsed<map<Text, Tree>>)
    ensures r.Parsed? ==> |r.rest| < |t|
    decreases |t|, 1
  {
    match ParseKey(t)
    case NoParse => NoParse
    case Parsed(key, u) =>
      match Parse(u)
      case NoParse => NoParse
      case Parsed(value, rest) =>
        if rest != [] && rest[0] == RBRACE then Parsed(map[key := value], rest[1..])
        else if rest != [] && rest[0] == COMMA then
          match ParseMembers(rest[1..])
          case NoParse => NoParse
          case Parsed(others, end) => Parsed(others[key := value], end)
        else NoParse
  }

  // ----- The parser undoes the encoding --------------------------------------------------------

  lemma ParseWordUndoes(v: Value, rest: Text)
    requires v.Null? || v.Bool?
    ensures ParseWord(Canonical(v).value + rest) == Parsed(AsTree(v), rest)
  {
    var word := if v.Null? then NULL_WORD else if v.b then TRUE_WORD else FALSE_WORD;
    assert (word + rest)[..|word|] == word && (word + rest)[|word|..] == rest;
  }

  lemma ParseTextUndoes(s: Text, rest: Text)
    ensures Parse(Quoted(s) + rest) == Parsed(TextTree(s), rest)
  {
    ParseStringUndoes(s, rest);
    assert (Quoted(s) + rest)[1..] == Escaped(s) + [QUOTE] + rest;
  }

  lemma ParseBracketed(u: Text, ts: seq<Tree>, rest: Text)
    requires u != [] && u[0] != RBRACKET && ParseItems(u) == Parsed(ts, rest)
    ensures Parse([LBRACKET] + u) == Parsed(ListTree(ts), rest)
  {
    assert ([LBRACKET] + u)[1..] == u;
  }

  lemma ParseBraced(u: Text, m: map<Text, Tree>, rest: Text)
    requires u != [] && u[0] != RBRACE && ParseMembers(u) == Parsed(m, rest)
    ensures Parse([LBRACE] + u) == Parsed(RecordTree(m), rest)
  {
    assert ([LBRACE] + u)[1..] == u;
  }

  lemma ParseEmpties(rest: Text)
    ensures Parse([LBRACKET, RBRACKET] + rest) == Parsed(ListTree([]), rest)
    ensures Parse([LBRACE, RBRACE] + rest) == Parsed(RecordTree(map[]), rest)
  {
    assert ([LBRACKET, RBRACKET] + rest)[2..] == rest;
    assert ([LBRACE, RBRACE] + rest)[2..] == rest;
  }

  lemma {:induction false} ParseUndoes(v: Value, rest: Text)
    requires IsValue(v) && Admitted(v) && Stops(rest)
    ensures Canonical(v).Ok? && Parse(Canonical(v).value + rest) == Parsed(AsTree(v), rest)
    decreases v, 1
  {
    AdmitsExactly(v);
    match v
    case Null => ParseWordUndoes(v, rest);
    case Bool(b) => ParseWordUndoes(v, rest);
    case Number(n) => ParseNumberUndoes(n.i, rest);
    case Str(s) => ParseTextUndoes(s, rest);
    case Arr(items) => if items == [] { ParseEmpties(rest); } else { ParseListUndoes(v, rest); }
    case Obj(fields) => ParseRecordUndoes(v, rest);
  }

  lemma {:induction false} ParseListUndoes(v: Value, rest: Text)
    requires v.Arr? && v.items != [] && IsValue(v) && Admitted(v) && Canonical(v).Ok?
    ensures Parse(Canonical(v).value + rest) == Parsed(AsTree(v), rest)
    decreases v, 0
  {
    ParseItemsUndoes(v.items, rest);
    var u := CanonicalItems(v.items).value + ([RBRACKET] + rest);
    assert Canonical(v).value + rest == [LBRACKET] + u;
    ParseBracketed(u, AsTrees(v.items), rest);
  }

  lemma {:induction false} ParseRecordUndoes(v: Value, rest: Text)
    requires v.Obj? && IsValue(v) && Admitted(v) && Canonical(v).Ok?
    ensures Parse(Canonical(v).value + rest) == Parsed(AsTree(v), rest)
    decreases v, 0, |v.fields| + 1
  {
    var fs := SortByKey(v.fields);
    SortedMembers(v.fields);
    if fs == [] {
      MembersEmpty(fs);
    } else {
      ParseMembersUndoes(v, fs, rest);
    }
    RecordText(v, fs, AsMembers(fs), rest);
  }

  lemma ObjectText(v: Value, members: Text, rest: Text)
    requires v.Obj? && Canonical(v).Ok? && CanonicalMembers(v, SortByKey(v.fields)) == Ok(members)
    ensures Canonical(v).value + rest == [LBRACE] + (members + ([RBRACE] + rest))
  {
    assert Canonical(v) == Ok([LBRACE] + members + [RBRACE]);
    Enclosed([LBRACE], members, [RBRACE], rest);
  }

  lemma Enclosed(a: Text, b: Text, c: Text, d: Text)
    ensures a + b + c + d == a + (b + (c + d))
  {
  }

  lemma RecordText(v: Value, fs: seq<Field>, m: map<Text, Tree>, rest: Text)
    requires v.Obj? && fs == SortByKey(v.fields) && Canonical(v).Ok? && CanonicalMembers(v, fs).Ok?
    requires fs == [] ==> m == map[]
    requires fs != [] ==>
      && CanonicalMembers(v, fs).value != [] && CanonicalMembers(v, fs).value[0] == QUOTE
      && ParseMembers(CanonicalMembers(v, fs).value + ([RBRACE] + rest)) == Parsed(m, rest)
    ensures Parse(Canonical(v).value + rest) == Parsed(RecordTree(m), rest)
  {
    var members := CanonicalMembers(v, fs).value;
    ObjectText(v, members, rest);
    if fs == [] {
      ParseEmpties(rest);
      assert [LBRACE] + ([] + ([RBRACE] + rest)) == [LBRACE, RBRACE] + rest;
    } else {
      ParseBraced(members + ([RBRACE] + rest), m, rest);
    }
  }

  lemma CanonicalStart(v: Value)
    requires Canonical(v).Ok?
    ensures Canonical(v).value != [] && Canonical(v).value[0] != RBRACKET
  {
  }

  lemma LastItem(t: Text, first: Tree, rest: Text)
    requires Parse(t) == Parsed(first, [RBRACKET] + rest)
    ensures ParseItems(t) == Parsed([first], rest)
  {
    assert ([RBRACKET] + rest)[1..] == rest;
  }

  lemma MoreItems(t: Text, first: Tree, u: Text, others: seq<Tree>, rest: Text)
    requires Parse(t) == Parsed(first, [COMMA] + u) && ParseItems(u) == Parsed(others, rest)
    ensures ParseItems(t) == Parsed([first] + others, rest)
  {
    assert ([COMMA] + u)[1..] == u;
  }

  /** How the text of the items starts: the first item, then what closes or continues them. */
  lemma ItemsText(items: seq<Value>, rest: Text) returns (more: Text)
    requires items != [] && forall x :: x in items ==> IsValue(x) && Admitted(x)
    ensures CanonicalItems(items).Ok? && Canonical(items[0]).Ok?
    ensures CanonicalItems(items).value != [] && CanonicalItems(items).value[0] != RBRACKET
    ensures CanonicalItems(items).value + ([RBRACKET] + rest) == Canonical(items[0]).value + more
    ensures |items| == 1 ==> more == [RBRACKET] + rest
    ensures |items| > 1 ==> CanonicalItems(items[1..]).Ok?
                            && more == [COMMA] + (CanonicalItems(items[1..]).value + ([RBRACKET] + rest))
  {
    AdmitsItems(items);
    CanonicalStart(items[0]);
    more := if |items| == 1 then [RBRACKET] + rest
            else [COMMA] + (CanonicalItems(items[1..]).value + ([RBRACKET] + rest));
  }

  lemma {:induction false} ParseItemsUndoes(items: seq<Value>, rest: Text)
    requires items != [] && forall x :: x in items ==> IsValue(x) && Admitted(x)
    ensures CanonicalItems(items).Ok?
    ensures CanonicalItems(items).value != [] && CanonicalItems(items).value[0] != RBRACKET
    ensures ParseItems(CanonicalItems(items).value + ([RBRACKET] + rest)) == Parsed(AsTrees(items), rest)
    decreases items, 0
  {
    var more := ItemsText(items, rest);
    var text := Canonical(items[0]).value + more;
    ParseUndoes(items[0], more);
    if |items| == 1 {
      LastItem(text, AsTree(items[0]), rest);
      assert AsTrees(items) == [AsTree(items[0])];
    } else {
      ParseItemsUndoes(items[1..], rest);
      MoreItems(text, AsTree(items[0]), CanonicalItems(items[1..]).value + ([RBRACKET] + rest),
                AsTrees(items[1..]), rest);
    }
  }

  lemma LastMember(key: Text, u: Text, value: Tree, rest: Text)
    requires Parse(u) == Parsed(value, [RBRACE] + rest)
    ensures ParseMembers(Quoted(key) + ([COLON] + u)) == Parsed(map[key := value], rest)
  {
    ParseKeyUndoes(key, u);
    assert ([RBRACE] + rest)[1..] == rest;
  }

  lemma MoreMembers(key: Text, u: Text, value: Tree, more: Text, others: map<Text, Tree>, rest: Text)
    requires Parse(u) == Parsed(value, [COMMA] + more) && ParseMembers(more) == Parsed(others, rest)
    ensures ParseMembers(Quoted(key) + ([COLON] + u)) == Parsed(others[key := value], rest)
  {
    ParseKeyUndoes(key, u);
    assert ([COMMA] + more)[1..] == more;
  }

  lemma MembersEmpty(fs: seq<Field>)
    requires GoodMembers(fs)
    ensures AsMembers(fs) == map[] <==> fs == []
  {
    if fs != [] {
      assert fs[0] in fs;
      assert fs[0].key in AsMembers(fs);
    }
  }

  lemma MembersCons(fs: seq<Field>)
    requires fs != [] && GoodMembers(fs)
    ensures GoodMembers(fs[1..])
    ensures AsMembers(fs) == AsMembers(fs[1..])[fs[0].key := AsTree(fs[0].value)]
    ensures fs[0].key !in AsMembers(fs[1..])
  {
    assert forall f :: f in fs <==> f == fs[0] || f in fs[1..];
  }

  lemma MembersTail(fs: seq<Field>)
    requires fs != [] && GoodMembers(fs)
    ensures GoodMembers(fs[1..])
    ensures AsMembers(fs[1..]) == AsMembers(fs) - {fs[0].key}
  {
    MembersCons(fs);
    RemoveAdded(AsMembers(fs[1..]), fs[0].key, AsTree(fs[0].value));
  }

  lemma RemoveAdded<K, V>(m: map<K, V>, k: K, v: V)
    requires k !in m
    ensures m[k := v] - {k} == m
  {
  }

  /** How the text of the members starts: the first member, then what closes or continues them. */
  lemma MembersText(v: Value, fs: seq<Field>, rest: Text) returns (more: Text)
    requires v.Obj? && fs != [] && GoodMembers(fs) && forall f :: f in fs ==> f in v.fields
    ensures CanonicalMembers(v, fs).Ok? && Canonical(fs[0].value).Ok?
    ensures CanonicalMembers(v, fs).value + ([RBRACE] + rest)
         == Quoted(fs[0].key) + ([COLON] + (Canonical(fs[0].value).value + more))
    ensures |fs| == 1 ==> more == [RBRACE] + rest
    ensures |fs| > 1 ==> CanonicalMembers(v, fs[1..]).Ok?
                         && more == [COMMA] + (CanonicalMembers(v, fs[1..]).value + ([RBRACE] + rest))
  {
    AdmitsMembers(v, fs);
    assert fs[0] in v.fields;
    var key, value, end := Quoted(fs[0].key), Canonical(fs[0].value).value, [RBRACE] + rest;
    if |fs| == 1 {
      more := end;
      assert CanonicalMembers(v, fs).value == key + [COLON] + value;
    } else {
      var others := CanonicalMembers(v, fs[1..]).value;
      more := [COMMA] + (others + end);
      Regroup(key, [COLON], value, [COMMA], others, end);
      assert CanonicalMembers(v, fs).value == key + [COLON] + value + [COMMA] + others;
    }
  }

  lemma Regroup(a: Text, b: Text, c: Text, d: Text, e: Text, f: Text)
    ensures a + b + c + d + e + f == a + (b + (c + (d + (e + f))))
  {
  }

  lemma {:induction false} ParseMembersUndoes(v: Value, fs: seq<Field>, rest: Text)
    requires v.Obj? && fs != [] && GoodMembers(fs) && forall f :: f in fs ==> f in v.fields
    ensures CanonicalMembers(v, fs).Ok?
    ensures CanonicalMembers(v, fs).value != [] && CanonicalMembers(v, fs).value[0] == QUOTE
    ensures ParseMembers(CanonicalMembers(v, fs).value + ([RBRACE] + rest)) == Parsed(AsMembers(fs), rest)
    decreases v, 0, |fs|
  {
    var more := MembersText(v, fs, rest);
    assert fs[0] in v.fields;
    var value := Canonical(fs[0].value).value;
    ParseUndoes(fs[0].value, more);
    MembersCons(fs);
    if |fs| == 1 {
      LastMember(fs[0].key, value + more, AsTree(fs[0].value), rest);
      MembersEmpty(fs[1..]);
    } else {
      ParseMembersUndoes(v, fs[1..], rest);
      MoreMembers(fs[0].key, value + more, AsTree(fs[0].value),
                  CanonicalMembers(v, fs[1..]).value + ([RBRACE] + rest), AsMembers(fs[1..]), rest);
    }
  }

  // ----- The text determines the value, and nothing else does -----------------------------------

  lemma {:induction false} TreeDeterminesText(v: Value, w: Value)
    requires IsValue(v) && IsValue(w) && Admitted(v) && Admitted(w) && AsTree(v) == AsTree(w)
    ensures Canonical(v) == Canonical(w)
    decreases v, 0
  {
    match v
    case Arr(items) => TreesDetermineText(items, w.items);
    case Obj(fields) =>
      SortedMembers(fields);
      SortedMembers(w.fields);
      MembersDetermineText(v, SortByKey(fields), w, SortByKey(w.fields));
    case _ =>
  }

  lemma {:induction false} TreesDetermineText(xs: seq<Value>, ys: seq<Value>)
    requires forall x :: x in xs ==> IsValue(x) && Admitted(x)
    requires forall y :: y in ys ==> IsValue(y) && Admitted(y)
    requires AsTrees(xs) == AsTrees(ys)
    ensures CanonicalItems(xs) == CanonicalItems(ys)
    decreases xs, 0
  {
    assert |xs| == |ys|;
    if xs != [] {
      assert AsTrees(xs)[1..] == AsTrees(xs[1..]);
      assert AsTrees(ys)[1..] == AsTrees(ys[1..]);
      TreeDeterminesText(xs[0], ys[0]);
      TreesDetermineText(xs[1..], ys[1..]);
    }
  }

  lemma LeastKey(fs: seq<Field>, gs: seq<Field>)
    requires fs != [] && GoodMembers(fs) && Ascending(fs) && GoodMembers(gs) && Ascending(gs)
    requires AsMembers(fs) == AsMembers(gs)
    ensures gs != [] && fs[0].key == gs[0].key && AsTree(fs[0].value) == AsTree(gs[0].value)
  {
    assert fs[0] in fs;
    assert fs[0].key in AsMembers(gs);
    var g :| g in gs && g.key == fs[0].key;
    assert gs[0] in gs;
    assert gs[0].key in AsMembers(fs);
    var f :| f in fs && f.key == gs[0].key;
    BeforeTotal(fs[0].key, gs[0].key);
  }

  ghost predicate SortedPart(v: Value, fs: seq<Field>) {
    v.Obj? && GoodMembers(fs) && Ascending(fs) && forall f :: f in fs ==> f in v.fields
  }

  lemma SortedTail(v: Value, fs: seq<Field>)
    requires SortedPart(v, fs) && fs != []
    ensures fs[0] in v.fields && IsValue(fs[0].value) && Admitted(fs[0].value)
    ensures SortedPart(v, fs[1..]) && AsMembers(fs[1..]) == AsMembers(fs) - {fs[0].key}
    ensures |fs| == 1 <==> AsMembers(fs[1..]) == map[]
  {
    assert fs[0] in fs;
    MembersTail(fs);
    MembersEmpty(fs[1..]);
  }

  lemma {:induction false} MembersDetermineText(v: Value, fs: seq<Field>, w: Value, gs: seq<Field>)
    requires SortedPart(v, fs) && SortedPart(w, gs) && AsMembers(fs) == AsMembers(gs)
    ensures CanonicalMembers(v, fs) == CanonicalMembers(w, gs)
    decreases v, 0, |fs|
  {
    if fs == [] {
      MembersEmpty(gs);
      MembersEmpty(fs);
    } else {
      LeastKey(fs, gs);
      SortedTail(v, fs);
      SortedTail(w, gs);
      TreeDeterminesText(fs[0].value, gs[0].value);
      MembersDetermineText(v, fs[1..], w, gs[1..]);
      SameJoin(v, fs, w, gs);
    }
  }

  lemma SameJoin(v: Value, fs: seq<Field>, w: Value, gs: seq<Field>)
    requires v.Obj? && fs != [] && forall f :: f in fs ==> f in v.fields
    requires w.Obj? && gs != [] && forall g :: g in gs ==> g in w.fields
    requires fs[0].key == gs[0].key && Canonical(fs[0].value) == Canonical(gs[0].value)
    requires |fs| == 1 <==> |gs| == 1
    requires CanonicalMembers(v, fs[1..]) == CanonicalMembers(w, gs[1..])
    ensures CanonicalMembers(v, fs) == CanonicalMembers(w, gs)
  {
    assert fs[0] in v.fields && gs[0] in w.fields;
  }

  /** Main result: one text for one value, key order aside. */
  lemma TextIdentifiesValue(v: Value, w: Value)
    requires IsValue(v) && IsValue(w) && Admitted(v) && Admitted(w)
    ensures Canonical(v).Ok? && Canonical(w).Ok?
    ensures Canonical(v) == Canonical(w) <==> AsTree(v) == AsTree(w)
  {
    ParseUndoes(v, []);
    ParseUndoes(w, []);
    assert Canonical(v).value + [] == Canonical(v).value;
    assert Canonical(w).value + [] == Canonical(w).value;
    if AsTree(v) == AsTree(w) {
      TreeDeterminesText(v, w);
    }
  }
}
