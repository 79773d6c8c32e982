/**
 The ANSI emitter: the text it writes is read back by a model of a terminal, and
 shown to be the text of the plain emitter, each token in the style of its syntax
 class and everything else in the default style.
 */
module Emit {
  import opened Lldb

  const ESC: char := '\U{001B}'

  /* ---------- highlighting ---------- */

  datatype Highlight =
    | Keyword | Comment | Type | FuncName | Variable | Constant | Parameter | Global | NoColor | Error | Special

  /** SELECT GRAPHIC RENDITION with the given parameters (section 8.3.117 of ECMA-48). */
  function Sgr(parameters: string): string {
    [ESC, '['] + parameters + "m"
  }

  /** EmitAnsi::colorFor: the escape sequence of a class, or none. */
  function ColorFor(hl: Highlight): Option<string> {
    match hl
    case Keyword => Some(Sgr("1;35"))
    case Type => Some(Sgr("32"))
    case FuncName => Some(Sgr("1;34"))
    case Variable => None
    case Constant => Some(Sgr("36"))
    case Parameter => Some(Sgr("3;36"))
    case Global => Some(Sgr("1;33"))
    case Comment => Some(Sgr("2;37"))
    case Error => Some(Sgr("31"))
    case Special => Some(Sgr("1"))
    case NoColor => None
  }

  /* ---------- the emitters ---------- */

  /** The calls that write or that move a level.  Every tag method and print take a text
      and a class; the begin and end calls write nothing. */
  datatype Call =
    | Token(text: string, hl: Highlight)
    | Line
    | LineAt(indent: int)
    | OpenParen(paren: string)
    | CloseParen(paren: string)
    | StartIndent
    | StopIndent

  function Spaces(n: int): string
    decreases n
  {
    if n <= 0 then "" else " " + Spaces(n - 1)
  }

  lemma SpacesShape(n: int)
    ensures |Spaces(n)| == (if n > 0 then n else 0)
    ensures forall k :: 0 <= k < |Spaces(n)| ==> Spaces(n)[k] == ' '
    decreases n
  {
    if n <= 0 {
    } else {
      SpacesShape(n - 1);
    }
  }

  /** A newline and exactly n spaces, none for a negative n, have been appended. */
  predicate AddsLine(before: string, after: string, n: int) {
    && |after| == |before| + 1 + (if n > 0 then n else 0) && before <= after
    && after[|before|] == '\n'
    && forall k :: |before| < k < |after| ==> after[k] == ' '
  }

  lemma LineAdded(before: string, after: string, n: int)
    requires after == before + ("\n" + Spaces(n))
    ensures AddsLine(before, after, n)
  {
    hide Spaces;
    SpacesShape(n);
    forall k | |before| < k < |after| ensures after[k] == ' ' {
      assert after[k] == Spaces(n)[k - |before| - 1];
    }
  }

  /** What a call writes without markup (EmitNoMarkup). */
  function PlainText(call: Call, indentlevel: int): string {
    match call
    case Token(text, hl) => text
    case Line => "\n" + Spaces(indentlevel)
    case LineAt(indent) => "\n" + Spaces(indent)
    case OpenParen(paren) => paren
    case CloseParen(paren) => paren
    case StartIndent => ""
    case StopIndent => ""
  }

  /** What a call writes with ANSI colours. */
  function AnsiText(call: Call, indentlevel: int): string {
    match call
    case Token(text, hl) =>
      var color := ColorFor(hl);
      if color.Some? then color.value + text + Sgr("0") else text
    case _ => PlainText(call, indentlevel)
  }

  function IndentAfter(call: Call, indentlevel: int, increment: int): int {
    match call
    case StartIndent => indentlevel + increment
    case StopIndent => indentlevel - increment
    case _ => indentlevel
  }

  function ParenAfter(call: Call, parenlevel: int): int {
    match call
    case OpenParen(_) => parenlevel + 1
    case CloseParen(_) => parenlevel - 1
    case _ => parenlevel
  }

  class EmitAnsi {
    var s: string
    var indentlevel: int
    var parenlevel: int
    const indentincrement: int

    constructor (indentincrement: int)
      ensures s == "" && indentlevel == 0 && parenlevel == 0
      ensures this.indentincrement == indentincrement
    {
      s := "";
      indentlevel := 0;
      parenlevel := 0;
      this.indentincrement := indentincrement;
    }

    /** emitColored, and with it print and the eight tag methods. */
    method EmitColored(name: string, hl: Highlight)
      modifies this`s
      ensures s == old(s) + AnsiText(Token(name, hl), indentlevel)
    {
      var color := ColorFor(hl);
      if color.Some? {
        s := s + color.value;
        s := s + name;
        s := s + Sgr("0");
        assert s == old(s) + (color.value + name + Sgr("0"));
      } else {
        s := s + name;
      }
    }

    method TagLine()
      modifies this`s
      ensures s == old(s) + AnsiText(Line, indentlevel)
      ensures AddsLine(old(s), s, indentlevel)
    {
      TagLineAt(indentlevel);
    }

    method TagLineAt(indent: int)
      modifies this`s
      ensures s == old(s) + AnsiText(LineAt(indent), indentlevel)
      ensures AddsLine(old(s), s, indent)
    {
      s := s + "\n";
      var i := indent;
      while i > 0
        invariant s + Spaces(i) == old(s) + "\n" + Spaces(indent)
      {
        s := s + " ";
        assert s + Spaces(i - 1) == s[..|s| - 1] + Spaces(i);
        i := i - 1;
      }
      assert s == s + Spaces(i);
      assert s == old(s) + ("\n" + Spaces(indent));
      LineAdded(old(s), s, indent);
    }

    method OpenParen(paren: string, id: int) returns (r: int)
      modifies this`s, this`parenlevel
      ensures s == old(s) + AnsiText(Call.OpenParen(paren), indentlevel) == old(s) + paren
      ensures parenlevel == ParenAfter(Call.OpenParen(paren), old(parenlevel)) == old(parenlevel) + 1 && r == id
    {
      s := s + paren;
      parenlevel := parenlevel + 1;
      return id;
    }

    method CloseParen(paren: string)
      modifies this`s, this`parenlevel
      ensures s == old(s) + AnsiText(Call.CloseParen(paren), indentlevel) == old(s) + paren
      ensures parenlevel == ParenAfter(Call.CloseParen(paren), old(parenlevel)) == old(parenlevel) - 1
    {
      s := s + paren;
      parenlevel := parenlevel - 1;
    }

    method StartIndent()
      modifies this`indentlevel
      ensures indentlevel == IndentAfter(Call.StartIndent, old(indentlevel), indentincrement)
                          == old(indentlevel) + indentincrement
    {
      indentlevel := indentlevel + indentincrement;
    }

    method StopIndent()
      modifies this`indentlevel
      ensures indentlevel == IndentAfter(Call.StopIndent, old(indentlevel), indentincrement)
                          == old(indentlevel) - indentincrement
    {
      indentlevel := indentlevel - indentincrement;
    }
  }

  /* ---------- a terminal ---------- */

  datatype Foreground = DefaultColor | Red | Green | Yellow | Blue | Magenta | Cyan | White | OtherColor(code: nat)

  datatype Style = Style(bold: bool, dim: bool, italic: bool, fg: Foreground)

  const PLAIN: Style := Style(false, false, false, DefaultColor)

  datatype Cell = Cell(c: char, style: Style)

  /** One SGR parameter. */
  function Apply(code: nat, style: Style): Style {
    if code == 0 then PLAIN
    else if code == 1 then style.(bold := true)
    else if code == 2 then style.(dim := true)
    else if code == 3 then style.(italic := true)
    else if code == 31 then style.(fg := Red)
    else if code == 32 then style.(fg := Green)
    else if code == 33 then style.(fg := Yellow)
    else if code == 34 then style.(fg := Blue)
    else if code == 35 then style.(fg := Magenta)
    else if code == 36 then style.(fg := Cyan)
    else if code == 37 then style.(fg := White)
    else style.(fg := OtherColor(code))
  }

  predicate IsParameterChar(c: char) {
    '0' <= c <= '9' || c == ';'
  }

  predicate Parameters(p: string) {
    forall i :: 0 <= i < |p| ==> IsParameterChar(p[i])
  }

  /** Parameters are decimal numbers separated by semicolons, applied in order; `code` is
      the part of a number already read. */
  function ApplyAll(p: string, code: nat, style: Style): Style {
    if p == "" then Apply(code, style)
    else if p[0] == ';' then ApplyAll(p[1..], 0, Apply(code, style))
    else if '0' <= p[0] <= '9' then ApplyAll(p[1..], 10 * code + (p[0] - '0') as nat, style)
    else style
  }

  function ParametersEnd(s: string, i: nat): (e: nat)
    requires i <= |s|
    ensures i <= e <= |s|
    decreases |s| - i
  {
    if i < |s| && IsParameterChar(s[i]) then ParametersEnd(s, i + 1) else i
  }

  /** The length of the SGR sequence at the start of `s`, 0 if there is none. */
  function SgrLength(s: string): (n: nat)
    ensures n <= |s| && n != 1 && n != 2
  {
    if |s| >= 2 && s[0] == ESC && s[1] == '[' then
      var e := ParametersEnd(s, 2);
      if e < |s| && s[e] == 'm' then e + 1 else 0
    else 0
  }

  /** What a terminal shows for `s`, starting in a style: the cells and the style left. */
  function Screen(s: string, style: Style): (seq<Cell>, Style)
    decreases |s|
  {
    if s == "" then ([], style)
    else
      var n := SgrLength(s);
      if n > 0 then Screen(s[n..], ApplyAll(s[2..n - 1], 0, style))
      else
        var rest := Screen(s[1..], style);
        ([Cell(s[0], style)] + rest.0, rest.1)
  }

  function CellsOf(text: string, style: Style): seq<Cell> {
    seq(|text|, i requires 0 <= i < |text| => Cell(text[i], style))
  }

  /** The characters without their styles. */
  function Characters(cells: seq<Cell>): string {
    seq(|cells|, i requires 0 <= i < |cells| => cells[i].c)
  }

  /** The text with SGR sequences erased. */
  function Erase(s: string): string {
    Characters(Screen(s, PLAIN).0)
  }

  /* ---------- reading back what was written ---------- */

  lemma CellsCons(text: string, style: Style)
    requires text != ""
    ensures CellsOf(text, style) == [Cell(text[0], style)] + CellsOf(text[1..], style)
  {}

  lemma {:induction false} TextOnScreen(text: string, rest: string, style: Style)
    requires ESC !in text
    ensures var (r, t) := (Screen(rest, style), Screen(text + rest, style));
            t == (CellsOf(text, style) + r.0, r.1)
    decreases |text|
  {
    if text == "" {
      assert text + rest == rest;
      assert CellsOf("", style) + Screen(rest, style).0 == Screen(rest, style).0;
    } else {
      var tail := text[1..];
      assert text[0] in text;
      assert forall c :: c in tail ==> c in text;
      assert (text + rest)[1..] == tail + rest;
      TextOnScreen(tail, rest, style);
      CellsCons(text, style);
      var head, more := [Cell(text[0], style)], Screen(rest, style).0;
      assert head + (CellsOf(tail, style) + more) == CellsOf(text, style) + more;
    }
  }

  lemma {:induction false} ParametersEndAt(s: string, i: nat, e: nat)
    requires i <= e < |s| && Parameters(s[i..e]) && !IsParameterChar(s[e])
    ensures ParametersEnd(s, i) == e
    decreases e - i
  {
    if i >= e {
    } else {
      assert s[i..e][0] == s[i] && s[i + 1..e] == s[i..e][1..];
      ParametersEndAt(s, i + 1, e);
    }
  }

  /** A sequence shows nothing and changes the style. */
  lemma SgrOnScreen(p: string, rest: string, style: Style)
    requires Parameters(p)
    ensures Screen(Sgr(p) + rest, style) == Screen(rest, ApplyAll(p, 0, style))
  {
    var s := Sgr(p) + rest;
    var e := 2 + |p|;
    assert s[0] == ESC && s[1] == '[' && s[e] == 'm';
    assert s[2..e] == p && s[e + 1..] == rest;
    ParametersEndAt(s, 2, e);
  }

  /* ---------- the styles of the syntax classes ---------- */

  /** The style a class is meant to have. */
  function StyleOf(hl: Highlight): Style {
    match hl
    case Keyword => PLAIN.(bold := true, fg := Magenta)
    case Type => PLAIN.(fg := Green)
    case FuncName => PLAIN.(bold := true, fg := Blue)
    case Constant => PLAIN.(fg := Cyan)
    case Parameter => PLAIN.(italic := true, fg := Cyan)
    case Global => PLAIN.(bold := true, fg := Yellow)
    case Comment => PLAIN.(dim := true, fg := White)
    case Error => PLAIN.(fg := Red)
    case Special => PLAIN.(bold := true)
    case Variable => PLAIN
    case NoColor => PLAIN
  }

  function ParametersOf(hl: Highlight): string {
    match hl
    case Keyword => "1;35"
    case Type => "32"
    case FuncName => "1;34"
    case Constant => "36"
    case Parameter => "3;36"
    case Global => "1;33"
    case Comment => "2;37"
    case Error => "31"
    case Special => "1"
    case Variable => ""
    case NoColor => ""
  }

  lemma ColorGivesStyle(hl: Highlight)
    requires ColorFor(hl).Some?
    ensures ColorFor(hl).value == Sgr(ParametersOf(hl)) && Parameters(ParametersOf(hl))
    ensures ApplyAll(ParametersOf(hl), 0, PLAIN) == StyleOf(hl)
  {
    hide ApplyAll;
    var p := ParametersOf(hl);
    if |p| == 4 {
      FourParameters(p);
    } else if |p| == 2 {
      TwoDigits(p, PLAIN);
    } else {
      OneDigit(p, 0, PLAIN);
    }
  }

  /** The bytes written for a token of each class. */
  lemma TokenBytes(text: string, level: int)
    ensures AnsiText(Token(text, Keyword), level) == "\U{001B}[1;35m" + text + "\U{001B}[0m"
    ensures AnsiText(Token(text, Type), level) == "\U{001B}[32m" + text + "\U{001B}[0m"
    ensures AnsiText(Token(text, FuncName), level) == "\U{001B}[1;34m" + text + "\U{001B}[0m"
    ensures AnsiText(Token(text, Constant), level) == "\U{001B}[36m" + text + "\U{001B}[0m"
    ensures AnsiText(Token(text, Parameter), level) == "\U{001B}[3;36m" + text + "\U{001B}[0m"
    ensures AnsiText(Token(text, Global), level) == "\U{001B}[1;33m" + text + "\U{001B}[0m"
    ensures AnsiText(Token(text, Comment), level) == "\U{001B}[2;37m" + text + "\U{001B}[0m"
    ensures AnsiText(Token(text, Error), level) == "\U{001B}[31m" + text + "\U{001B}[0m"
    ensures AnsiText(Token(text, Special), level) == "\U{001B}[1m" + text + "\U{001B}[0m"
    ensures AnsiText(Token(text, Variable), level) == text == AnsiText(Token(text, NoColor), level)
  {
    assert Sgr("1;35") == "\U{001B}[1;35m" && Sgr("32") == "\U{001B}[32m" && Sgr("1;34") == "\U{001B}[1;34m";
    assert Sgr("36") == "\U{001B}[36m" && Sgr("3;36") == "\U{001B}[3;36m" && Sgr("1;33") == "\U{001B}[1;33m";
    assert Sgr("2;37") == "\U{001B}[2;37m" && Sgr("31") == "\U{001B}[31m" && Sgr("1") == "\U{001B}[1m";
    assert Sgr("0") == "\U{001B}[0m";
  }

  lemma OneDigit(p: string, code: nat, style: Style)
    requires |p| == 1 && '0' <= p[0] <= '9'
    ensures ApplyAll(p, code, style) == Apply(10 * code + (p[0] - '0') as nat, style)
  {
    assert p[1..] == "";
  }

  lemma TwoDigits(p: string, style: Style)
    requires |p| == 2 && '0' <= p[0] <= '9' && '0' <= p[1] <= '9'
    ensures ApplyAll(p, 0, style) == Apply(10 * (p[0] - '0') as nat + (p[1] - '0') as nat, style)
  {
    OneDigit(p[1..], (p[0] - '0') as nat, style);
  }

  lemma FourParameters(p: string)
    requires |p| == 4 && '0' <= p[0] <= '9' && p[1] == ';' && '0' <= p[2] <= '9' && '0' <= p[3] <= '9'
    ensures ApplyAll(p, 0, PLAIN) ==
            Apply(10 * (p[2] - '0') as nat + (p[3] - '0') as nat, Apply((p[0] - '0') as nat, PLAIN))
  {
    var q := p[1..][1..];
    assert q[0] == p[2] && q[1] == p[3];
    TwoDigits(q, Apply((p[0] - '0') as nat, PLAIN));
    assert ApplyAll(p[1..], (p[0] - '0') as nat, PLAIN) == ApplyAll(q, 0, Apply((p[0] - '0') as nat, PLAIN));
  }

  /* ---------- whole documents ---------- */

  /** The text of a document, call by call, by either emitter. */
  function Document(calls: seq<Call>, ansi: bool, indentlevel: int, increment: int): string
    decreases |calls|
  {
    if calls == [] then ""
    else
      (if ansi then AnsiText(calls[0], indentlevel) else PlainText(calls[0], indentlevel)) +
      Document(calls[1..], ansi, IndentAfter(calls[0], indentlevel, increment), increment)
  }

  /** What is emitted later comes later, at the level reached before it. */
  lemma {:induction false} DocumentAppend(p: seq<Call>, q: seq<Call>, ansi: bool, indentlevel: int, increment: int)
    ensures Document(p + q, ansi, indentlevel, increment)
            == Document(p, ansi, indentlevel, increment)
               + Document(q, ansi, IndentAfterAll(p, indentlevel, increment), increment)
    decreases |p|
  {
    hide AnsiText, PlainText, IndentAfter;
    if p == [] {
      assert p + q == q;
    } else {
      assert (p + q)[1..] == p[1..] + q;
      DocumentAppend(p[1..], q, ansi, IndentAfter(p[0], indentlevel, increment), increment);
    }
  }

  /** The cells a document should show. */
  function DocumentCells(calls: seq<Call>, indentlevel: int, increment: int): seq<Cell>
    decreases |calls|
  {
    if calls == [] then []
    else
      CellsOf(PlainText(calls[0], indentlevel), if calls[0].Token? then StyleOf(calls[0].hl) else PLAIN) +
      DocumentCells(calls[1..], IndentAfter(calls[0], indentlevel, increment), increment)
  }

  /** No token text contains an escape character. */
  predicate NoEscape(call: Call) {
    match call
    case Token(text, hl) => ESC !in text
    case OpenParen(paren) => ESC !in paren
    case CloseParen(paren) => ESC !in paren
    case _ => true
  }

  lemma SpacesNoEscape(n: int)
    ensures ESC !in Spaces(n)
  {
    if n <= 0 {
    } else {
      SpacesNoEscape(n - 1);
    }
  }

  lemma ResetOnScreen(rest: string, style: Style)
    ensures Screen(Sgr("0") + rest, style) == Screen(rest, PLAIN)
  {
    hide Screen, Sgr;
    SgrOnScreen("0", rest, style);
    OneDigit("0", 0, style);
  }

  /** A coloured token shows its text in the style and leaves the default style. */
  lemma ColoredOnScreen(p: string, text: string, rest: string, style: Style)
    requires Parameters(p) && ApplyAll(p, 0, PLAIN) == style && ESC !in text
    ensures var r := Screen(rest, PLAIN);
            Screen((Sgr(p) + text + Sgr("0")) + rest, PLAIN) == (CellsOf(text, style) + r.0, r.1)
  {
    hide Screen, Sgr, CellsOf, ApplyAll, Parameters;
    assert (Sgr(p) + text + Sgr("0")) + rest == Sgr(p) + (text + (Sgr("0") + rest));
    SgrOnScreen(p, text + (Sgr("0") + rest), PLAIN);
    TextOnScreen(text, Sgr("0") + rest, style);
    ResetOnScreen(rest, style);
  }

  /** Everything but a coloured token is written as the plain text, without escapes. */
  lemma UncoloredText(call: Call, indentlevel: int)
    requires NoEscape(call) && (call.Token? ==> ColorFor(call.hl).None?)
    ensures AnsiText(call, indentlevel) == PlainText(call, indentlevel)
    ensures ESC !in PlainText(call, indentlevel)
    ensures call.Token? ==> StyleOf(call.hl) == PLAIN
  {
    hide Spaces;
    SpacesNoEscape(indentlevel);
    if call.LineAt? { SpacesNoEscape(call.indent); }
  }

  /** One call shows its plain text in its style and leaves the default style. */
  lemma CallOnScreen(call: Call, indentlevel: int, rest: string)
    requires NoEscape(call)
    ensures var r := Screen(rest, PLAIN);
            Screen(AnsiText(call, indentlevel) + rest, PLAIN) ==
            (CellsOf(PlainText(call, indentlevel), if call.Token? then StyleOf(call.hl) else PLAIN) + r.0, r.1)
  {
    hide Screen, Sgr, CellsOf, ApplyAll, Parameters, ColorFor, StyleOf, ParametersOf, Spaces;
    if call.Token? && ColorFor(call.hl).Some? {
      ColorGivesStyle(call.hl);
      ColoredOnScreen(ParametersOf(call.hl), call.text, rest, StyleOf(call.hl));
    } else {
      UncoloredText(call, indentlevel);
      TextOnScreen(PlainText(call, indentlevel), rest, PLAIN);
    }
  }

  /** Every document shows exactly its cells, and ends in the default style. */
  lemma {:induction false} DocumentOnScreen(calls: seq<Call>, indentlevel: int, increment: int)
    requires forall k :: 0 <= k < |calls| ==> NoEscape(calls[k])
    ensures Screen(Document(calls, true, indentlevel, increment), PLAIN)
            == (DocumentCells(calls, indentlevel, increment), PLAIN)
    decreases |calls|
  {
    if calls == [] {
    } else {
      var next := IndentAfter(calls[0], indentlevel, increment);
      DocumentOnScreen(calls[1..], next, increment);
      CallOnScreen(calls[0], indentlevel, Document(calls[1..], true, next, increment));
    }
  }

  lemma {:induction false} CellsSpellPlainText(calls: seq<Call>, indentlevel: int, increment: int)
    ensures Characters(DocumentCells(calls, indentlevel, increment))
            == Document(calls, false, indentlevel, increment)
    decreases |calls|
  {
    if calls == [] {
    } else {
      CellsSpellPlainText(calls[1..], IndentAfter(calls[0], indentlevel, increment), increment);
    }
  }

  /** Erasing the SGR sequences from the coloured document gives the plain document. */
  lemma ErasureGivesPlainText(calls: seq<Call>, indentlevel: int, increment: int)
    requires forall k :: 0 <= k < |calls| ==> NoEscape(calls[k])
    ensures Erase(Document(calls, true, indentlevel, increment)) == Document(calls, false, indentlevel, increment)
  {
    DocumentOnScreen(calls, indentlevel, increment);
    CellsSpellPlainText(calls, indentlevel, increment);
  }

  /* ---------- the emitter writes the document ---------- */

  function Opens(calls: seq<Call>): nat {
    if calls == [] then 0 else (if calls[0].OpenParen? then 1 else 0) + Opens(calls[1..])
  }

  function Closes(calls: seq<Call>): nat {
    if calls == [] then 0 else (if calls[0].CloseParen? then 1 else 0) + Closes(calls[1..])
  }

  function IndentAfterAll(calls: seq<Call>, indentlevel: int, increment: int): int {
    if calls == [] then indentlevel
    else IndentAfterAll(calls[1..], IndentAfter(calls[0], indentlevel, increment), increment)
  }

  method EmitCall(e: EmitAnsi, call: Call)
    modifies e
    ensures e.s == old(e.s) + AnsiText(call, old(e.indentlevel))
    ensures e.indentlevel == IndentAfter(call, old(e.indentlevel), e.indentincrement)
    ensures e.parenlevel == ParenAfter(call, old(e.parenlevel))
  {
    match call
    case Token(text, hl) => e.EmitColored(text, hl);
    case Line => e.TagLine();
    case LineAt(indent) => e.TagLineAt(indent);
    case OpenParen(paren) => var _ := e.OpenParen(paren, 0);
    case CloseParen(paren) => e.CloseParen(paren);
    case StartIndent => e.StartIndent();
    case StopIndent => e.StopIndent();
  }

  /** Any sequence of calls on an emitter appends their document, and moves the level of
      parentheses by opens minus closes. */
  method EmitAll(e: EmitAnsi, calls: seq<Call>)
    modifies e
    ensures e.s == old(e.s) + Document(calls, true, old(e.indentlevel), e.indentincrement)
    ensures e.indentlevel == IndentAfterAll(calls, old(e.indentlevel), e.indentincrement)
    ensures e.parenlevel == old(e.parenlevel) + Opens(calls) - Closes(calls)
  {
    hide AnsiText;
    if calls == [] { return; }
    EmitCall(e, calls[0]);
    EmitAll(e, calls[1..]);
  }
}
