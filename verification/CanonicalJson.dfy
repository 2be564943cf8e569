/**
 * TB canonical JSON: the one text every structured digest is computed over. The main results are
 * that a parser recovers the value from its text, so the text determines the value, that key order
 * never matters, and that the text is always admissible to the digest.
 */
module CanonicalJson {
  import opened Wrappers
  import opened Utf16

  // ----- Values and the trees they denote ------------------------------------------------------

  /** A JavaScript number, as far as the encoding distinguishes numbers. */
  datatype JsNumber = Whole(i: int) | NegativeZero | NotWhole

  datatype Field = Field(key: Text, value: Value)

  /** A JavaScript value; an object lists its own keys in insertion order. Foreign values are dates,
      functions, undefined, objects with another prototype and the like. */
  datatype Value =
    | Null
    | Bool(b: bool)
    | Number(n: JsNumber)
    | Str(t: Text)
    | Arr(items: seq<Value>)
    | Obj(fields: seq<Field>)
    | Foreign

  /** A JSON value whose objects are maps, so that key order is no part of it. */
  datatype Tree =
    | NullTree
    | BoolTree(b: bool)
    | NumberTree(i: int)
    | TextTree(t: Text)
    | ListTree(items: seq<Tree>)
    | RecordTree(members: map<Text, Tree>)

  ghost predicate DistinctKeys(fs: seq<Field>) {
    forall i, j :: 0 <= i < j < |fs| ==> fs[i].key != fs[j].key
  }

  /** What the language guarantees of every value: an object has no key twice. */
  ghost predicate IsValue(v: Value) {
    match v
    case Arr(items) => forall x :: x in items ==> IsValue(x)
    case Obj(fields) => DistinctKeys(fields) && forall f :: f in fields ==> IsValue(f.value)
    case _ => true
  }

  /** The values the encoding is defined on. */
  ghost predicate Admitted(v: Value) {
    match v
    case Null => true
    case Bool(_) => true
    case Number(n) => n.Whole? && -MAX_SAFE_INTEGER <= n.i <= MAX_SAFE_INTEGER
    case Str(t) => Admissible(t)
    case Arr(items) => forall x :: x in items ==> Admitted(x)
    case Obj(fields) => forall f :: f in fields ==> Admissible(f.key) && Admitted(f.value)
    case Foreign => false
  }

  ghost function AsTree(v: Value): Tree
    requires IsValue(v) && Admitted(v)
  {
    match v
    case Null => NullTree
    case Bool(b) => BoolTree(b)
    case Number(n) => NumberTree(n.i)
    case Str(t) => TextTree(t)
    case Arr(items) => ListTree(AsTrees(items))
    case Obj(fields) => RecordTree(AsMembers(fields))
  }

  ghost function AsTrees(items: seq<Value>): (ts: seq<Tree>)
    requires forall x :: x in items ==> IsValue(x) && Admitted(x)
    ensures |ts| == |items|
  {
    if items == [] then [] else [AsTree(items[0])] + AsTrees(items[1..])
  }

  ghost predicate GoodMembers(fs: seq<Field>) {
    DistinctKeys(fs) && forall f :: f in fs ==> Admissible(f.key) && IsValue(f.value) && Admitted(f.value)
  }

  ghost function AsMembers(fs: seq<Field>): map<Text, Tree>
    requires GoodMembers(fs)
  {
    map f | f in fs :: f.key := AsTree(f.value)
  }

  // ----- Sorting keys --------------------------------------------------------------------------

  ghost predicate Ascending(fs: seq<Field>) {
    forall i, j :: 0 <= i < j < |fs| ==> Before(fs[i].key, fs[j].key)
  }

  function Insert(f: Field, fs: seq<Field>): (r: seq<Field>)
    ensures multiset(r) == multiset(fs) + multiset{f}
  {
    if fs == [] || Before(f.key, fs[0].key) then [f] + fs
    else
      assert fs == [fs[0]] + fs[1..];
      [fs[0]] + Insert(f, fs[1..])
  }

  function SortByKey(fs: seq<Field>): (r: seq<Field>)
    ensures multiset(r) == multiset(fs)
    ensures |r| == |fs|
    ensures forall f :: f in r <==> f in fs
  {
    if fs == [] then [] else
      assert fs == [fs[0]] + fs[1..];
      var r := Insert(fs[0], SortByKey(fs[1..]));
      assert |multiset(r)| == |multiset(fs)|;
      assert forall f :: f in r <==> f in multiset(r);
      assert forall f :: f in fs <==> f in multiset(fs);
      r
  }

  lemma AscendingCons(f: Field, fs: seq<Field>)
    requires Ascending(fs) && forall j :: 0 <= j < |fs| ==> Before(f.key, fs[j].key)
    ensures Ascending([f] + fs)
  {
  }

  lemma {:induction false} InsertAscending(f: Field, fs: seq<Field>)
    requires Ascending(fs) && forall g :: g in fs ==> g.key != f.key
    ensures Ascending(Insert(f, fs))
  {
    if fs != [] {
      BeforeTotal(f.key, fs[0].key);
      if Before(f.key, fs[0].key) {
        forall j | 0 <= j < |fs|
          ensures Before(f.key, fs[j].key)
        {
          if j > 0 {
            BeforeTransitive(f.key, fs[0].key, fs[j].key);
          }
        }
        AscendingCons(f, fs);
      } else {
        InsertAscending(f, fs[1..]);
        var tail := Insert(f, fs[1..]);
        forall j | 0 <= j < |tail|
          ensures Before(fs[0].key, tail[j].key)
        {
          assert tail[j] in multiset(tail);
        }
        AscendingCons(fs[0], tail);
      }
    }
  }

  lemma {:induction false} SortAscending(fs: seq<Field>)
    requires DistinctKeys(fs)
    ensures Ascending(SortByKey(fs))
  {
    if fs != [] {
      SortAscending(fs[1..]);
      InsertAscending(fs[0], SortByKey(fs[1..]));
    }
  }

  lemma AscendingDistinct(fs: seq<Field>)
    requires Ascending(fs)
    ensures DistinctKeys(fs)
  {
    forall i, j | 0 <= i < j < |fs|
      ensures fs[i].key != fs[j].key
    {
      BeforeTotal(fs[i].key, fs[j].key);
    }
  }

  lemma SortedMembers(fs: seq<Field>)
    requires GoodMembers(fs)
    ensures Ascending(SortByKey(fs)) && GoodMembers(SortByKey(fs))
    ensures AsMembers(SortByKey(fs)) == AsMembers(fs)
  {
    SortAscending(fs);
    AscendingDistinct(SortByKey(fs));
  }

  // ----- The encoding --------------------------------------------------------------------------

  datatype CanonicalError = BadText(e: TextError) | UnsafeNumber | UnsupportedValue

  const QUOTE: CodeUnit := '\"' as int
  const BACKSLASH: CodeUnit := '\\' as int
  const MINUS: CodeUnit := '-' as int
  const COMMA: CodeUnit := ',' as int
  const COLON: CodeUnit := ':' as int
  const LBRACKET: CodeUnit := '[' as int
  const RBRACKET: CodeUnit := ']' as int
  const LBRACE: CodeUnit := '{' as int
  const RBRACE: CodeUnit := '}' as int
  const LETTER_U: CodeUnit := 'u' as int
  const NULL_WORD: Text := ['n' as int, 'u' as int, 'l' as int, 'l' as int]
  const TRUE_WORD: Text := ['t' as int, 'r' as int, 'u' as int, 'e' as int]
  const FALSE_WORD: Text := ['f' as int, 'a' as int, 'l' as int, 's' as int, 'e' as int]

  predicate IsDigit(u: CodeUnit) {
    '0' as int <= u <= '9' as int
  }

  function Digits(n: nat): (t: Text)
    ensures t != [] && forall i :: 0 <= i < |t| ==> IsDigit(t[i])
  {
    if n < 10 then ['0' as int + n] else Digits(n / 10) + ['0' as int + n % 10]
  }

  function NumberText(i: int): Text {
    if i < 0 then [MINUS] + Digits(-i) else Digits(i)
  }

  /** The two-character escapes of section 7 of RFC 8259 that JSON.stringify uses. */
  function ShortEscape(u: CodeUnit): Option<CodeUnit> {
    if u == 0x08 then Some('b' as int)
    else if u == 0x09 then Some('t' as int)
    else if u == 0x0A then Some('n' as int)
    else if u == 0x0C then Some('f' as int)
    else if u == 0x0D then Some('r' as int)
    else if u == QUOTE || u == BACKSLASH then Some(u)
    else None
  }

  function HexDigit(h: int): CodeUnit
    requires 0 <= h < 16
  {
    if h < 10 then '0' as int + h else 'a' as int + (h - 10)
  }

  function EscapeUnit(u: CodeUnit): (t: Text)
    ensures t != []
  {
    if ShortEscape(u).Some? then [BACKSLASH, ShortEscape(u).value]
    else if u < 0x20 then [BACKSLASH, LETTER_U, HexDigit(0), HexDigit(0), HexDigit(u / 16), HexDigit(u % 16)]
    else [u]
  }

  function Escaped(t: Text): Text {
    if t == [] then [] else EscapeUnit(t[0]) + Escaped(t[1..])
  }

  /** JSON.stringify of a text without lone surrogates. */
  function Quoted(t: Text): Text {
    [QUOTE] + Escaped(t) + [QUOTE]
  }

  function QuotedText(t: Text): Result<Text, CanonicalError> {
    match CheckText(t)
    case Ok(_) => Ok(Quoted(t))
    case Err(e) => Err(BadText(e))
  }

  function Canonical(v: Value): Result<Text, CanonicalError>
    decreases v, 0
  {
    match v
    case Null => Ok(NULL_WORD)
    case Bool(b) => Ok(if b then TRUE_WORD else FALSE_WORD)
    case Str(t) => QuotedText(t)
    case Number(n) =>
      if n.Whole? && -MAX_SAFE_INTEGER <= n.i <= MAX_SAFE_INTEGER then Ok(NumberText(n.i))
      else Err(UnsafeNumber)
    case Arr(items) =>
      var body :- CanonicalItems(items);
      Ok([LBRACKET] + body + [RBRACKET])
    case Obj(fields) =>
      var body :- CanonicalMembers(v, SortByKey(fields));
      Ok([LBRACE] + body + [RBRACE])
    case Foreign => Err(UnsupportedValue)
  }

  function CanonicalItems(items: seq<Value>): Result<Text, CanonicalError>
    decreases items, 0
  {
    if items == [] then Ok([])
    else
      var first :- Canonical(items[0]);
      if |items| == 1 then Ok(first)
      else
        var others :- CanonicalItems(items[1..]);
        Ok(first + [COMMA] + others)
  }

  /** The members `fs` of the object `v`, joined. */
  function CanonicalMembers(v: Value, fs: seq<Field>): Result<Text, CanonicalError>
    requires v.Obj? && forall f :: f in fs ==> f in v.fields
    decreases v, 0, |fs|
  {
    if fs == [] then Ok([])
    else
      var key :- QuotedText(fs[0].key);
      assert fs[0] in v.fields;
      var value :- Canonical(fs[0].value);
      if |fs| == 1 then Ok(key + [COLON] + value)
      else
        var others :- CanonicalMembers(v, fs[1..]);
        Ok(key + [COLON] + value + [COMMA] + others)
  }

  // ----- What the encoding admits --------------------------------------------------------------

  lemma {:induction false} AdmitsExactly(v: Value)
    ensures Canonical(v).Ok? <==> Admitted(v)
    decreases v, 0
  {
    match v
    case Arr(items) => AdmitsItems(items);
    case Obj(fields) =>
      AdmitsMembers(v, SortByKey(fields));
    case _ =>
  }

  lemma {:induction false} AdmitsItems(items: seq<Value>)
    ensures CanonicalItems(items).Ok? <==> forall x :: x in items ==> Admitted(x)
    decreases items, 0
  {
    if items != [] {
      AdmitsExactly(items[0]);
      AdmitsItems(items[1..]);
      assert forall x :: x in items <==> x == items[0] || x in items[1..];
      if |items| == 1 {
        assert items[1..] == [];
      }
    }
  }

  lemma {:induction false} AdmitsMembers(v: Value, fs: seq<Field>)
    requires v.Obj? && forall f :: f in fs ==> f in v.fields
    ensures CanonicalMembers(v, fs).Ok? <==> forall f :: f in fs ==> Admissible(f.key) && Admitted(f.value)
    decreases v, 0, |fs|
  {
    if fs != [] {
      assert fs[0] in v.fields;
      AdmitsExactly(fs[0].value);
      AdmitsMembers(v, fs[1..]);
      assert forall f :: f in fs <==> f == fs[0] || f in fs[1..];
      if |fs| == 1 {
        assert fs[1..] == [];
      }
    }
  }
}
