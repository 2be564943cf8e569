/**
 * The hidden-line reader of the admin terminal: an automaton that is fed chunks of characters (code
 * points) until the line is finished or cancelled. It is compared with a specification that looks at
 * the whole input at once.
 */
module Terminal {
  import opened Wrappers

  const ESC: char := '\U{1B}'
  const CTRL_C: char := '\U{3}'
  const CTRL_D: char := '\U{4}'
  const BACKSPACE: char := '\U{8}'
  const DELETE: char := '\U{7F}'

  datatype Escape = NoEscape | EscStart | Csi | Ss3

  datatype Settlement = Entered(line: seq<char>) | CancelledByInterrupt | CancelledByEndOfInput

  /** What the reader does to the terminal. */
  datatype Effect = Write(text: seq<char>) | SetRawMode(raw: bool) | Listen | StopListening | Resume | Pause

  datatype Reader = Reader(characters: seq<char>, escape: Escape, settled: Option<Settlement>)

  predicate IsErase(c: char) {
    c == DELETE || c == BACKSPACE
  }

  predicate IsLineEnd(c: char) {
    c == '\r' || c == '\n'
  }

  function DropLast(line: seq<char>): seq<char> {
    if line == [] then [] else line[..|line| - 1]
  }

  // ----- One character at a time -----------------------------------------------------------------

  function Feed(r: Reader, c: char): Reader {
    if r.settled.Some? then r
    else match r.escape
      case EscStart => r.(escape := if c == '[' then Csi else if c == 'O' then Ss3 else NoEscape)
      case Ss3 => r.(escape := NoEscape)
      case Csi => if '@' <= c <= '~' then r.(escape := NoEscape) else r
      case NoEscape =>
        if IsLineEnd(c) then r.(settled := Some(Entered(r.characters)))
        else if c == CTRL_C then r.(settled := Some(CancelledByInterrupt))
        else if c == CTRL_D then
          if r.characters == [] then r.(settled := Some(CancelledByEndOfInput)) else r
        else if IsErase(c) then r.(characters := DropLast(r.characters))
        else if c == ESC then r.(escape := EscStart)
        else if c < ' ' then r
        else r.(characters := r.characters + [c])
  }

  function FeedAll(r: Reader, text: seq<char>): Reader
    decreases |text|
  {
    if text == [] then r else FeedAll(Feed(r, text[0]), text[1..])
  }

  const FRESH := Reader([], NoEscape, None)

  lemma {:induction false} FeedConcat(r: Reader, a: seq<char>, b: seq<char>)
    ensures FeedAll(r, a + b) == FeedAll(FeedAll(r, a), b)
    decreases |a|
  {
    if a == [] {
      assert a + b == b;
    } else {
      assert (a + b)[1..] == a[1..] + b;
      FeedConcat(Feed(r, a[0]), a[1..], b);
    }
  }

  lemma {:induction false} SettledIsFinal(r: Reader, text: seq<char>)
    requires r.settled.Some?
    ensures FeedAll(r, text) == r
    decreases |text|
  {
    if text != [] {
      SettledIsFinal(Feed(r, text[0]), text[1..]);
    }
  }

  // ----- The specification -----------------------------------------------------------------------

  /** How much of the text a CSI sequence takes, from its parameters through its final character. */
  function CsiLength(text: seq<char>): (n: nat)
    ensures n <= |text|
  {
    if text == [] then 0 else if '@' <= text[0] <= '~' then 1 else 1 + CsiLength(text[1..])
  }

  /** The text without its escape sequences: ESC [ ... final, ESC O x, or ESC x; a sequence cut off by the
      end of the text is dropped as well. */
  function StripEscapes(text: seq<char>): seq<char>
    decreases |text|
  {
    if text == [] then []
    else if text[0] != ESC then [text[0]] + StripEscapes(text[1..])
    else if |text| == 1 then []
    else if text[1] == '[' then StripEscapes(text[2 + CsiLength(text[2..])..])
    else if text[1] == 'O' then if |text| == 2 then [] else StripEscapes(text[3..])
    else StripEscapes(text[2..])
  }

  /** The line after one more character: erasing takes the last one back, other control characters do
      nothing. */
  function TypeOn(line: seq<char>, c: char): seq<char> {
    if IsErase(c) then DropLast(line) else if c < ' ' then line else line + [c]
  }

  function Typed(text: seq<char>): seq<char> {
    if text == [] then [] else TypeOn(Typed(text[..|text| - 1]), text[|text| - 1])
  }

  /** Enter, Ctrl+C, or Ctrl+D on an empty line. */
  predicate EndsLine(line: seq<char>, c: char) {
    IsLineEnd(c) || c == CTRL_C || (c == CTRL_D && line == [])
  }

  function Settle(line: seq<char>, c: char): Settlement {
    if IsLineEnd(c) then Entered(line) else if c == CTRL_C then CancelledByInterrupt else CancelledByEndOfInput
  }

  /** Whether the character at `i` ends the input. */
  predicate Ends(text: seq<char>, i: nat)
    requires i < |text|
  {
    EndsLine(Typed(text[..i]), text[i])
  }

  function SettlementAt(text: seq<char>, i: nat): Settlement
    requires i < |text|
  {
    Settle(Typed(text[..i]), text[i])
  }

  /** The reader settles as the specification says: by the first character that ends the input, or not
      yet, and then it holds the line typed so far. */
  ghost predicate Agrees(r: Reader, text: seq<char>) {
    match r.settled
    case Some(settlement) =>
      exists i :: 0 <= i < |text| && Ends(text, i) && settlement == SettlementAt(text, i) &&
        forall j :: 0 <= j < i ==> !Ends(text, j)
    case None => r.characters == Typed(text) && forall j :: 0 <= j < |text| ==> !Ends(text, j)
  }

  // ----- What typing means -----------------------------------------------------------------------

  predicate IsPrintable(c: char) {
    ' ' <= c && c != '\U{7f}'
  }

  lemma TypedAppend(a: seq<char>, b: seq<char>, c: char)
    requires Typed(a) == Typed(b)
    ensures Typed(a + [c]) == Typed(b + [c])
  {
    TypedSnoc(a, c);
    TypedSnoc(b, c);
  }

  lemma {:induction false} TypedSuffix(a: seq<char>, b: seq<char>, more: seq<char>)
    requires Typed(a) == Typed(b)
    ensures Typed(a + more) == Typed(b + more)
    decreases |more|
  {
    if more == [] {
      assert a + more == a && b + more == b;
    } else {
      TypedAppend(a, b, more[0]);
      TypedSuffix(a + [more[0]], b + [more[0]], more[1..]);
      assert a + more == (a + [more[0]]) + more[1..] && b + more == (b + [more[0]]) + more[1..];
    }
  }

  lemma DropsLast(line: seq<char>, c: char)
    ensures DropLast(line + [c]) == line
  {
    assert (line + [c])[..|line|] == line;
  }

  lemma TakenBack(text: seq<char>, c: char, erase: char)
    requires IsPrintable(c) && (erase == '\U{8}' || erase == '\U{7f}')
    ensures Typed((text + [c]) + [erase]) == Typed(text)
  {
    TypedSnoc(text, c);
    TypedSnoc(text + [c], erase);
    DropsLast(Typed(text), c);
  }

  /** Backspace and delete take back the printable character before them. */
  lemma EraseTakesBack(text: seq<char>, c: char, erase: char, more: seq<char>)
    requires IsPrintable(c) && (erase == '\U{8}' || erase == '\U{7f}')
    ensures Typed(((text + [c]) + [erase]) + more) == Typed(text + more)
  {
    TakenBack(text, c, erase);
    TypedSuffix((text + [c]) + [erase], text, more);
  }

  /** At the start they do nothing, and other control characters never do. */
  lemma ControlDoesNothing(text: seq<char>, c: char, more: seq<char>)
    requires (text == [] && (c == '\U{8}' || c == '\U{7f}')) || (c < ' ' && c != '\U{8}')
    ensures Typed(text + [c] + more) == Typed(text + more)
  {
    TypedSnoc(text, c);
    TypedSuffix(text + [c], text, more);
  }

  /** Printable characters are the line. */
  lemma {:induction false} PrintableIsTyped(text: seq<char>)
    requires forall i :: 0 <= i < |text| ==> IsPrintable(text[i])
    ensures Typed(text) == text
  {
    if text != [] {
      PrintableIsTyped(text[..|text| - 1]);
      assert text == text[..|text| - 1] + [text[|text| - 1]];
    }
  }

  /** Which characters end the input, and how. */
  lemma EndsLiterally(text: seq<char>, i: nat)
    requires i < |text|
    ensures Ends(text, i) <==>
      text[i] == '\r' || text[i] == '\n' || text[i] == '\U{3}' || (text[i] == '\U{4}' && Typed(text[..i]) == [])
    ensures text[i] == '\r' || text[i] == '\n' ==> SettlementAt(text, i) == Entered(Typed(text[..i]))
    ensures text[i] == '\U{3}' ==> SettlementAt(text, i) == CancelledByInterrupt
    ensures text[i] == '\U{4}' ==> SettlementAt(text, i) == CancelledByEndOfInput
  {
  }

  /** Text without the escape character keeps every character. */
  lemma {:induction false} NothingToStrip(text: seq<char>)
    requires forall i :: 0 <= i < |text| ==> text[i] != '\U{1b}'
    ensures StripEscapes(text) == text
    decreases |text|
  {
    if text != [] {
      NothingToStrip(text[1..]);
    }
  }

  lemma {:induction false} CsiEnds(parameters: seq<char>, final: char, more: seq<char>)
    requires forall i :: 0 <= i < |parameters| ==> !('@' <= parameters[i] <= '~')
    requires '@' <= final <= '~'
    ensures CsiLength((parameters + [final]) + more) == |parameters| + 1
    decreases |parameters|
  {
    var text := (parameters + [final]) + more;
    if parameters != [] {
      CsiEnds(parameters[1..], final, more);
      assert text[1..] == (parameters[1..] + [final]) + more;
      assert text[0] == parameters[0];
    } else {
      assert text[0] == final;
    }
  }

  /** What an escape sequence takes away: ESC [ through its final character, ESC O and one character, or
      ESC and any other character. */
  lemma EscapeStripped(parameters: seq<char>, final: char, x: char, more: seq<char>)
    requires forall i :: 0 <= i < |parameters| ==> !('@' <= parameters[i] <= '~')
    requires '@' <= final <= '~'
    ensures StripEscapes(['\U{1b}', '['] + ((parameters + [final]) + more)) == StripEscapes(more)
    ensures StripEscapes(['\U{1b}', 'O', x] + more) == StripEscapes(more)
    ensures x != '[' && x != 'O' ==> StripEscapes(['\U{1b}', x] + more) == StripEscapes(more)
  {
    var csi := (parameters + [final]) + more;
    CsiEnds(parameters, final, more);
    var text := ['\U{1b}', '['] + csi;
    assert text[2..] == csi && text[2 + (|parameters| + 1)..] == more;
    assert (['\U{1b}', 'O', x] + more)[3..] == more;
    assert (['\U{1b}', x] + more)[2..] == more;
  }

  // ----- The automaton meets the specification ---------------------------------------------------

  ghost predicate NoneEnds(text: seq<char>) {
    forall j :: 0 <= j < |text| ==> !Ends(text, j)
  }

  lemma EndsPrefix(text: seq<char>, more: seq<char>, j: nat)
    requires j < |text|
    ensures Ends(text + more, j) == Ends(text, j)
    ensures SettlementAt(text + more, j) == SettlementAt(text, j)
  {
    assert (text + more)[..j] == text[..j];
  }

  lemma TypedSnoc(text: seq<char>, c: char)
    ensures Typed(text + [c]) == TypeOn(Typed(text), c)
  {
    assert (text + [c])[..|text|] == text;
  }

  lemma {:induction false} CsiSkips(r: Reader, text: seq<char>)
    requires r.settled.None? && r.escape == Csi
    ensures var n := CsiLength(text);
      FeedAll(r, text) == FeedAll(r.(escape := if n > 0 && '@' <= text[n - 1] <= '~' then NoEscape else Csi), text[n..])
    ensures CsiLength(text) < |text| ==> '@' <= text[CsiLength(text) - 1] <= '~'
    decreases |text|
  {
    if text != [] && !('@' <= text[0] <= '~') {
      CsiSkips(r, text[1..]);
      var n := CsiLength(text[1..]);
      assert text[1..][n..] == text[n + 1..];
    }
  }

  lemma FeedSignificant(r: Reader, c: char)
    requires r.settled.None? && r.escape == NoEscape && c != ESC
    ensures Feed(r, c) == if EndsLine(r.characters, c) then r.(settled := Some(Settle(r.characters, c)))
                          else r.(characters := TypeOn(r.characters, c))
  {
  }

  lemma NoneEndsSnoc(seen: seq<char>, c: char)
    requires NoneEnds(seen)
    ensures forall j :: 0 <= j < |seen| ==> !Ends(seen + [c], j)
  {
    forall j | 0 <= j < |seen|
      ensures !Ends(seen + [c], j)
    {
      EndsPrefix(seen, [c], j);
    }
  }

  /** One significant character, after `seen` with no end in it. */
  lemma SignificantStep(r: Reader, seen: seq<char>, c: char)
    requires r.settled.None? && r.escape == NoEscape && r.characters == Typed(seen) && NoneEnds(seen) && c != ESC
    ensures var r' := Feed(r, c);
      if Ends(seen + [c], |seen|) then r'.settled == Some(SettlementAt(seen + [c], |seen|))
      else r'.settled.None? && r'.escape == NoEscape && r'.characters == Typed(seen + [c]) && NoneEnds(seen + [c])
  {
    assert (seen + [c])[..|seen|] == seen && (seen + [c])[|seen|] == c;
    FeedSignificant(r, c);
    TypedSnoc(seen, c);
    NoneEndsSnoc(seen, c);
  }

  lemma {:induction false} FeedMeetsSpec(r: Reader, seen: seq<char>, text: seq<char>)
    requires r.settled.None? && r.escape == NoEscape && r.characters == Typed(seen) && NoneEnds(seen)
    ensures Agrees(FeedAll(r, text), seen + StripEscapes(text))
    decreases |text|
  {
    if text == [] {
      assert seen + [] == seen;
    } else if text[0] != ESC {
      SignificantFirst(r, seen, text);
    } else if |text| == 1 {
      assert FeedAll(r, text) == Feed(r, ESC);
      assert seen + [] == seen;
    } else {
      EscapeFirst(r, seen, text);
    }
  }

  lemma EndsFirst(seen: seq<char>, c: char, rest: seq<char>)
    requires NoneEnds(seen) && Ends(seen + [c], |seen|)
    ensures var text := (seen + [c]) + rest;
      Ends(text, |seen|) && SettlementAt(text, |seen|) == SettlementAt(seen + [c], |seen|) &&
      forall j :: 0 <= j < |seen| ==> !Ends(text, j)
  {
    EndsPrefix(seen + [c], rest, |seen|);
    assert seen + ([c] + rest) == (seen + [c]) + rest;
    forall j | 0 <= j < |seen|
      ensures !Ends((seen + [c]) + rest, j)
    {
      EndsPrefix(seen, [c] + rest, j);
    }
  }

  lemma {:induction false} SignificantFirst(r: Reader, seen: seq<char>, text: seq<char>)
    requires r.settled.None? && r.escape == NoEscape && r.characters == Typed(seen) && NoneEnds(seen)
    requires text != [] && text[0] != ESC
    ensures Agrees(FeedAll(r, text), seen + StripEscapes(text))
    decreases |text|, 0
  {
    var c, rest := text[0], StripEscapes(text[1..]);
    SignificantStep(r, seen, c);
    FirstSplit(r, seen, text);
    if Ends(seen + [c], |seen|) {
      SettledIsFinal(Feed(r, c), text[1..]);
      AgreesAtFirst(Feed(r, c), seen, c, rest);
    } else {
      FeedMeetsSpec(Feed(r, c), seen + [c], text[1..]);
    }
  }

  lemma FirstSplit(r: Reader, seen: seq<char>, text: seq<char>)
    requires text != [] && text[0] != ESC
    ensures FeedAll(r, text) == FeedAll(Feed(r, text[0]), text[1..])
    ensures seen + StripEscapes(text) == (seen + [text[0]]) + StripEscapes(text[1..])
  {
    assert StripEscapes(text) == [text[0]] + StripEscapes(text[1..]);
  }

  lemma AgreesAtFirst(r: Reader, seen: seq<char>, c: char, rest: seq<char>)
    requires NoneEnds(seen) && Ends(seen + [c], |seen|) && r.settled == Some(SettlementAt(seen + [c], |seen|))
    ensures Agrees(r, (seen + [c]) + rest)
  {
    EndsFirst(seen, c, rest);
  }

  lemma {:induction false} EscapeFirst(r: Reader, seen: seq<char>, text: seq<char>)
    requires r.settled.None? && r.escape == NoEscape && r.characters == Typed(seen) && NoneEnds(seen)
    requires |text| > 1 && text[0] == ESC
    ensures Agrees(FeedAll(r, text), seen + StripEscapes(text))
    decreases |text|, 0
  {
    var after := Feed(Feed(r, ESC), text[1]);
    assert text[1..][1..] == text[2..] && text[1..][0] == text[1];
    assert FeedAll(r, text) == FeedAll(after, text[2..]);
    if text[1] == '[' {
      var n := CsiLength(text[2..]);
      CsiSkips(after, text[2..]);
      assert text[2..][n..] == text[2 + n..];
      if 2 + n < |text| {
        FeedMeetsSpec(r, seen, text[2 + n..]);
      } else {
        assert text[2 + n..] == [];
        assert StripEscapes([]) == [] && seen + [] == seen;
      }
    } else if text[1] == 'O' {
      if |text| == 2 {
        assert text[2..] == [] && seen + [] == seen;
      } else {
        assert text[2..][1..] == text[3..];
        FeedMeetsSpec(r, seen, text[3..]);
      }
    } else {
      FeedMeetsSpec(r, seen, text[2..]);
    }
  }

  // ----- The reader as it runs -------------------------------------------------------------------

  class HiddenLineReader {
    var characters: seq<char>
    var escape: Escape
    var settled: Option<Settlement>
    var effects: seq<Effect>
    const wasRaw: bool

    ghost function State(): Reader
      reads this
    {
      Reader(characters, escape, settled)
    }

    /** The prompt was written and the terminal is raw; once settled, the earlier mode was restored and
        one newline was written. Nothing else ever happens to the terminal. */
    ghost predicate Valid(prompt: seq<char>)
      reads this
    {
      effects == [Write(prompt), SetRawMode(true), Listen, Resume] +
        if settled.Some? then [StopListening, SetRawMode(wasRaw), Pause, Write("\n")] else []
    }

    constructor (isRaw: bool, prompt: seq<char>)
      ensures Valid(prompt) && State() == FRESH && wasRaw == isRaw
    {
      characters, escape, settled, wasRaw := [], NoEscape, None, isRaw;
      effects := [Write(prompt), SetRawMode(true), Listen, Resume];
    }

    method Finish(settlement: Settlement, ghost prompt: seq<char>)
      requires Valid(prompt)
      modifies this
      ensures Valid(prompt) &&
        State() == old(State()).(settled := if old(settled).Some? then old(settled) else Some(settlement))
    {
      if settled.Some? {
        return;
      }
      settled := Some(settlement);
      effects := effects + [StopListening, SetRawMode(wasRaw), Pause, Write("\n")];
    }

    /** Handles one chunk of input. */
    method OnData(text: seq<char>, ghost prompt: seq<char>)
      requires Valid(prompt)
      modifies this
      ensures Valid(prompt) && State() == FeedAll(old(State()), text)
    {
      ghost var start := State();
      for i := 0 to |text|
        invariant Valid(prompt) && State() == FeedAll(start, text[..i])
      {
        assert text == text[..i] + text[i..] && text[i..][0] == text[i];
        FeedOneMore(start, text, i);
        FeedConcat(start, text[..i], text[i..]);
        var c := text[i];
        if settled.Some? {
          SettledIsFinal(State(), text[i..]);
          return;
        }
        if escape == EscStart {
          escape := if c == '[' then Csi else if c == 'O' then Ss3 else NoEscape;
        } else if escape == Ss3 {
          escape := NoEscape;
        } else if escape == Csi {
          if '@' <= c <= '~' {
            escape := NoEscape;
          }
        } else if c == '\r' || c == '\n' {
          Finish(Entered(characters), prompt);
        } else if c == CTRL_C {
          Finish(CancelledByInterrupt, prompt);
        } else if c == CTRL_D {
          if |characters| == 0 {
            Finish(CancelledByEndOfInput, prompt);
          }
        } else if c == DELETE || c == BACKSPACE {
          characters := DropLast(characters);
        } else if c == ESC {
          escape := EscStart;
        } else if c < ' ' {
        } else {
          characters := characters + [c];
        }
        if settled.Some? {
          SettledIsFinal(State(), text[i + 1..]);
          FeedConcat(start, text[..i + 1], text[i + 1..]);
          assert text == text[..i + 1] + text[i + 1..];
          return;
        }
      }
      assert text[..|text|] == text;
    }
  }

  lemma FeedOneMore(r: Reader, text: seq<char>, i: nat)
    requires i < |text|
    ensures FeedAll(r, text[..i + 1]) == Feed(FeedAll(r, text[..i]), text[i])
  {
    assert text[..i + 1] == text[..i] + [text[i]];
    FeedConcat(r, text[..i], [text[i]]);
    assert [text[i]][1..] == [];
  }

  function Joined(chunks: seq<seq<char>>): seq<char> {
    if chunks == [] then [] else Joined(chunks[..|chunks| - 1]) + chunks[|chunks| - 1]
  }

  /** The whole session: whatever the chunks, the reader settles as the specification does on their
      concatenation. */
  method ReadHiddenLine(isRaw: bool, prompt: seq<char>, chunks: seq<seq<char>>) returns (reader: HiddenLineReader)
    ensures reader.Valid(prompt) && reader.wasRaw == isRaw
    ensures Agrees(reader.State(), StripEscapes(Joined(chunks)))
  {
    reader := new HiddenLineReader(isRaw, prompt);
    for i := 0 to |chunks|
      invariant fresh(reader) && reader.Valid(prompt) && reader.wasRaw == isRaw
      invariant reader.State() == FeedAll(FRESH, Joined(chunks[..i]))
    {
      FeedConcat(FRESH, Joined(chunks[..i]), chunks[i]);
      assert chunks[..i + 1][..i] == chunks[..i];
      reader.OnData(chunks[i], prompt);
    }
    assert chunks[..|chunks|] == chunks;
    FeedMeetsSpec(FRESH, [], Joined(chunks));
    assert [] + StripEscapes(Joined(chunks)) == StripEscapes(Joined(chunks));
  }
}
