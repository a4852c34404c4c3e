/** Writing the line of a symbol to .config and reading it back. */
module ConfigLines {
  import opened Options
  import opened Expr
  import opened Confdata

  datatype Value = TriValue(tri: Tristate) | TextValue(text: string)

  /** What the switch of conf_write prints for a symbol. */
  function WriteLine(name: string, value: Value, kind: SymbolKind): string {
    match value
    case TriValue(v) =>
      if v == NO then "# CONFIG_" + name + " is not set\n"
      else if v == MOD then "CONFIG_" + name + "=m\n"
      else "CONFIG_" + name + "=y\n"
    case TextValue(s) =>
      if kind.Text? then "CONFIG_" + name + "=\"" + Escape(s) + "\"\n"
      else "CONFIG_" + name + "=" + s + "\n"
  }

  /** strchr: the position of c, or the length if there is none. */
  function Find(s: string, c: char): (n: nat)
    ensures n <= |s| && c !in s[..n] && (n < |s| ==> s[n] == c)
  {
    if s == "" || s[0] == c then 0
    else
      var n := 1 + Find(s[1..], c);
      assert s[..n] == [s[0]] + s[1..][..n - 1];
      n
  }

  predicate StartsWith(s: string, prefix: string) {
    |prefix| <= |s| && s[..|prefix|] == prefix
  }

  predicate IsDigit(c: char) {
    '0' <= c <= '9'
  }

  predicate IsHexDigit(c: char) {
    IsDigit(c) || 'a' <= c <= 'f' || 'A' <= c <= 'F'
  }

  predicate AllDigits(s: string) {
    forall i :: 0 <= i < |s| ==> IsDigit(s[i])
  }

  predicate AllHexDigits(s: string) {
    forall i :: 0 <= i < |s| ==> IsHexDigit(s[i])
  }

  /** sym_string_valid for the kinds that are written without quotes. */
  predicate Valid(kind: SymbolKind, s: string) {
    match kind
    case Integer =>
      var t := if s != "" && s[0] == '-' then s[1..] else s;
      t != "" && (t[0] == '0' ==> |t| == 1) && AllDigits(t)
    case Hexadecimal =>
      var t := if |s| >= 2 && s[0] == '0' && (s[1] == 'x' || s[1] == 'X') then s[2..] else s;
      t != "" && AllHexDigits(t)
    case _ => false
  }

  /** What a line does: nothing, assign a default value, complain about a name, or end the program. */
  datatype Effect = Nothing | Assign(name: string, value: Value) | NoSymbol(name: string) | Fatal

  /** conf_read on one line, given the kinds of the symbols there are. */
  function ReadLine(line: string, table: map<string, SymbolKind>): Effect {
    if line == "" then Nothing
    else if line[0] == '#' then
      if |line| < 9 || !StartsWith(line[2..], "CONFIG_") then Nothing
      else
        var p := 9 + Find(line[9..], ' ');
        var name := line[9..p];
        if p == |line| || !StartsWith(line[p + 1..], "is not set") || name !in table then Nothing
        else if table[name].Boolean? || table[name].Tristated? then Assign(name, TriValue(NO))
        else Nothing
    else if line[0] == 'C' then
      if !StartsWith(line, "CONFIG_") then Nothing
      else
        var p := 7 + Find(line[7..], '=');
        if p == |line| then Nothing
        else
          var name, rest := line[7..p], line[p + 1..];
          ReadValue(name, rest[..Find(rest, NEWLINE)], table)
    else Nothing
  }

  function ReadValue(name: string, text: string, table: map<string, SymbolKind>): Effect {
    if name !in table then NoSymbol(name)
    else match table[name]
      case Tristated =>
        if StartsWith(text, "m") then Assign(name, TriValue(MOD)) else ReadBool(name, text)
      case Boolean => ReadBool(name, text)
      case Text =>
        if !StartsWith(text, "\"") then Nothing
        else (match Unquote(text[1..])
              case None => Fatal
              case Some(s) => Assign(name, TextValue(s)))
      case Unknown => Nothing
      case kind => if Valid(kind, text) then Assign(name, TextValue(text)) else Fatal
  }

  function ReadBool(name: string, text: string): Effect {
    if StartsWith(text, "y") then Assign(name, TriValue(YES))
    else if StartsWith(text, "n") then Assign(name, TriValue(NO))
    else Nothing
  }

  /** The buffer holds 1023 characters and a terminator. */
  const LINE_MAX: nat := 1023

  /** fgets: the input up to and including the next newline, as far as it fits the buffer. */
  function Fgets(input: string): string {
    var n := Find(input, NEWLINE);
    var end := if n < |input| then n + 1 else n;
    input[..if end < LINE_MAX then end else LINE_MAX]
  }

  /** Names of symbols are words. */
  predicate IsName(name: string) {
    '=' !in name && ' ' !in name && NEWLINE !in name
  }

  lemma {:induction false} FindAt(a: string, c: char, b: string)
    requires c !in a
    ensures Find(a + [c] + b, c) == |a|
  {
    var s := a + [c] + b;
    if a != "" {
      assert s[1..] == a[1..] + [c] + b;
      FindAt(a[1..], c, b);
    }
  }

  lemma {:induction false} FindNone(a: string, c: char)
    requires c !in a
    ensures Find(a, c) == |a|
  {
  }

  /** The parts of a line of assignment. */
  lemma {:induction false} SplitLine(name: string, rest: string)
    ensures var line := "CONFIG_" + name + "=" + rest;
            && |line| > 7 + |name| && line[0] == 'C' && line[..7] == "CONFIG_"
            && line[7..] == name + ['='] + rest
            && line[7..7 + |name|] == name && line[7 + |name| + 1..] == rest
  {
  }

  lemma {:induction false} BeforeNewline(text: string, tail: string)
    requires NEWLINE !in text && (tail == "" || tail == "\n")
    ensures (text + tail)[..Find(text + tail, NEWLINE)] == text
  {
    if tail == "" {
      assert text + tail == text;
      FindNone(text, NEWLINE);
      assert text[..|text|] == text;
    } else {
      assert text + tail == text + [NEWLINE] + "";
      FindAt(text, NEWLINE, "");
    }
  }

  /** A line of assignment, cut or not. */
  lemma {:induction false} ReadAssignment(name: string, text: string, tail: string, table: map<string, SymbolKind>)
    requires IsName(name) && NEWLINE !in text && (tail == "" || tail == "\n")
    ensures ReadLine("CONFIG_" + name + "=" + text + tail, table) == ReadValue(name, text, table)
  {
    hide ReadValue, Find;
    var line := "CONFIG_" + name + "=" + (text + tail);
    assert "CONFIG_" + name + "=" + text + tail == line;
    SplitLine(name, text + tail);
    FindAt(name, '=', text + tail);
    BeforeNewline(text, tail);
  }

  /** A line cut off before its equals sign is ignored. */
  lemma {:induction false} ReadNoEquals(name: string, k: nat, table: map<string, SymbolKind>)
    requires IsName(name) && k <= 7 + |name|
    ensures ReadLine(("CONFIG_" + name)[..k], table) == Nothing
  {
    var line := ("CONFIG_" + name)[..k];
    if StartsWith(line, "CONFIG_") {
      assert line[7..] == name[..k - 7];
      FindNone(name[..k - 7], '=');
    }
  }

  /** How much of a line fgets delivers. */
  lemma {:induction false} FgetsLine(body: string, rest: string)
    requires NEWLINE !in body
    ensures Fgets(body + "\n" + rest) ==
              if |body| < LINE_MAX then body + "\n" else body[..LINE_MAX]
  {
    var input := body + "\n" + rest;
    assert input == body + [NEWLINE] + rest;
    FindAt(body, NEWLINE, rest);
    if |body| < LINE_MAX {
      assert input[..|body| + 1] == body + "\n";
    } else {
      assert input[..LINE_MAX] == body[..LINE_MAX];
    }
  }

  /** An assignment line cut short. */
  lemma {:induction false} CutAssignment(name: string, text: string, k: nat, table: map<string, SymbolKind>)
    requires IsName(name) && NEWLINE !in text && k < 8 + |name| + |text|
    ensures var line := ("CONFIG_" + name + "=" + text)[..k];
            if k < 8 + |name| then ReadLine(line, table) == Nothing
            else ReadLine(line, table) == ReadValue(name, text[..k - 8 - |name|], table)
  {
    var line := ("CONFIG_" + name + "=" + text)[..k];
    if k < 8 + |name| {
      assert line == ("CONFIG_" + name)[..k];
      ReadNoEquals(name, k, table);
    } else {
      var text' := text[..k - 8 - |name|];
      assert line == "CONFIG_" + name + "=" + text' + "";
      ReadAssignment(name, text', "", table);
    }
  }

  /** What reaches conf_read of a line of assignment. */
  function Delivered(name: string, text: string): Option<string> {
    if 8 + |name| + |text| <= LINE_MAX then Some(text)
    else if LINE_MAX < 8 + |name| then None
    else Some(text[..LINE_MAX - 8 - |name|])
  }

  lemma {:induction false} AssignmentDelivered(name: string, text: string, rest: string, table: map<string, SymbolKind>)
    requires IsName(name) && NEWLINE !in text
    ensures ReadLine(Fgets("CONFIG_" + name + "=" + text + "\n" + rest), table) ==
              match Delivered(name, text)
              case None => Nothing
              case Some(t) => ReadValue(name, t, table)
  {
    var body := "CONFIG_" + name + "=" + text;
    FgetsLine(body, rest);
    if |body| < LINE_MAX {
      ReadAssignment(name, text, "\n", table);
    } else if |body| == LINE_MAX {
      ReadAssignment(name, text, "", table);
      assert body[..LINE_MAX] == body == body + "";
    } else {
      CutAssignment(name, text, LINE_MAX, table);
    }
  }

  /** Boolean and tristate symbols: the value comes back unless the line is too long for the
      buffer, or the value m is written for a boolean symbol. */
  lemma {:induction false} TriReadBack(name: string, v: Tristate, rest: string, table: map<string, SymbolKind>)
    requires IsName(name) && name in table && (table[name].Boolean? || table[name].Tristated?)
    ensures var line := WriteLine(name, TriValue(v), table[name]);
            ReadLine(Fgets(line + rest), table) == Assign(name, TriValue(v)) <==>
              |line| <= LINE_MAX + 1 && (v == MOD ==> table[name].Tristated?)
  {
    if v == NO {
      NotSetReadBack(name, rest, table);
    } else {
      LetterReadBack(name, v, rest, table);
    }
  }

  lemma {:induction false} LetterReadBack(name: string, v: Tristate, rest: string, table: map<string, SymbolKind>)
    requires IsName(name) && name in table && (table[name].Boolean? || table[name].Tristated?) && v != NO
    ensures var line := WriteLine(name, TriValue(v), table[name]);
            ReadLine(Fgets(line + rest), table) == Assign(name, TriValue(v)) <==>
              |line| <= LINE_MAX + 1 && (v == MOD ==> table[name].Tristated?)
  {
    var text := if v == MOD then "m" else "y";
    AssignmentDelivered(name, text, rest, table);
    LetterLine(name, v, rest, table[name]);
    hide ReadLine, ReadValue, Fgets, WriteLine;
    ReadLetter(name, v, table);
  }

  lemma {:induction false} LetterLine(name: string, v: Tristate, rest: string, kind: SymbolKind)
    requires v != NO
    ensures var line := WriteLine(name, TriValue(v), kind);
            && line + rest == "CONFIG_" + name + "=" + (if v == MOD then "m" else "y") + "\n" + rest
            && |line| == |name| + 10
  {
  }

  lemma {:induction false} ReadLetter(name: string, v: Tristate, table: map<string, SymbolKind>)
    requires name in table && (table[name].Boolean? || table[name].Tristated?) && v != NO
    ensures ReadValue(name, if v == MOD then "m" else "y", table) == Assign(name, TriValue(v)) <==>
              (v == MOD ==> table[name].Tristated?)
    ensures ReadValue(name, "", table) == Nothing
  {
    assert "y"[0] == 'y' && "m"[0] == 'm' && "n"[0] == 'n';
  }

  /** The first letter of an assignment decides; m is none for a boolean symbol, and without a letter
      the line is ignored. */
  lemma {:induction false} ReadFirstLetter(name: string, text: string, v: Tristate, table: map<string, SymbolKind>)
    requires name in table && (table[name].Boolean? || table[name].Tristated?)
    ensures ReadValue(name, text, table) == Assign(name, TriValue(v)) <==>
              StartsWith(text, Letter(v)) && (v == MOD ==> table[name].Tristated?)
    ensures ReadValue(name, text, table) == Nothing || ReadValue(name, text, table).Assign?
  {
    StartsWithOne(text, 'y');
    StartsWithOne(text, 'm');
    StartsWithOne(text, 'n');
  }

  lemma {:induction false} StartsWithOne(s: string, c: char)
    ensures StartsWith(s, [c]) <==> s != "" && s[0] == c
  {
    assert s != "" ==> s[..1] == [s[0]];
  }

  /** Two ways to write n. */
  lemma {:induction false} NotSetOrN(name: string, table: map<string, SymbolKind>)
    requires IsName(name) && name in table && (table[name].Boolean? || table[name].Tristated?)
    ensures ReadLine("CONFIG_" + name + "=n\n", table) == ReadLine("# CONFIG_" + name + " is not set\n", table)
  {
    NotSetWhole(name, "\n", table);
    var line := "CONFIG_" + name + "=n\n";
    assert line == "CONFIG_" + name + "=" + Letter(NO) + "\n";
    ReadAssignment(name, Letter(NO), "\n", table);
    ReadFirstLetter(name, Letter(NO), NO, table);
    var line' := "# CONFIG_" + name + " is not set\n";
    assert line' == "# CONFIG_" + name + " is not set" + "\n";
  }

  lemma {:induction false} NotSetReadBack(name: string, rest: string, table: map<string, SymbolKind>)
    requires IsName(name) && name in table && (table[name].Boolean? || table[name].Tristated?)
    ensures var line := WriteLine(name, TriValue(NO), table[name]);
            ReadLine(Fgets(line + rest), table) == Assign(name, TriValue(NO)) <==> |line| <= LINE_MAX + 1
  {
    var body := "# CONFIG_" + name + " is not set";
    assert WriteLine(name, TriValue(NO), table[name]) + rest == body + "\n" + rest;
    FgetsLine(body, rest);
    if |body| < LINE_MAX {
      NotSetWhole(name, "\n", table);
    } else if |body| == LINE_MAX {
      NotSetWhole(name, "", table);
      assert body[..LINE_MAX] == body == body + "";
    } else {
      NotSetCut(name, body[..LINE_MAX], table);
    }
  }

  /** The line makes a boolean or tristate symbol n, and does nothing for any other name. */
  lemma {:induction false} NotSetWhole(name: string, tail: string, table: map<string, SymbolKind>)
    requires IsName(name)
    ensures ReadLine("# CONFIG_" + name + " is not set" + tail, table) ==
              if name in table && (table[name].Boolean? || table[name].Tristated?) then Assign(name, TriValue(NO))
              else Nothing
  {
    var line := "# CONFIG_" + name + " is not set" + tail;
    var after := "is not set" + tail;
    assert line == "# CONFIG_" + (name + [' '] + after);
    assert line[2..][..7] == "CONFIG_" && line[9..] == name + [' '] + after;
    FindAt(name, ' ', after);
    assert line[9..9 + |name|] == name && line[10 + |name|..] == after;
    assert after[..10] == "is not set";
  }

  lemma {:induction false} NotSetCut(name: string, line: string, table: map<string, SymbolKind>)
    requires IsName(name) && |line| == LINE_MAX < 20 + |name|
    requires line == ("# CONFIG_" + name + " is not set")[..LINE_MAX]
    ensures ReadLine(line, table) == Nothing
  {
    if |line| <= 9 + |name| {
      assert line[9..] == name[..LINE_MAX - 9];
      FindNone(name[..LINE_MAX - 9], ' ');
    } else {
      var tail := line[10 + |name|..];
      assert line[9..] == name + [' '] + tail;
      FindAt(name, ' ', tail);
      assert |tail| < 10;
    }
  }

  /** A complete text without a newline, or the part before the first newline. */
  lemma {:induction false} FirstLine(name: string, text: string, rest: string, table: map<string, SymbolKind>)
    requires IsName(name)
    ensures var n := Find(text, NEWLINE);
            ReadLine(Fgets("CONFIG_" + name + "=" + text + "\n" + rest), table) ==
              match Delivered(name, text[..n])
              case None => Nothing
              case Some(t) => ReadValue(name, t, table)
  {
    var n := Find(text, NEWLINE);
    var input := "CONFIG_" + name + "=" + text + "\n" + rest;
    if n == |text| {
      assert text[..n] == text;
      AssignmentDelivered(name, text, rest, table);
    } else {
      var rest' := text[n + 1..] + "\n" + rest;
      assert text == text[..n] + [NEWLINE] + text[n + 1..];
      assert input == "CONFIG_" + name + "=" + text[..n] + "\n" + rest';
      AssignmentDelivered(name, text[..n], rest', table);
    }
  }

  /** Integers and hexadecimal numbers: the text comes back exactly when it is a number and the
      line fits the buffer. A line with anything else ends the program. */
  lemma {:induction false} NumberReadBack(name: string, s: string, rest: string, table: map<string, SymbolKind>)
    requires IsName(name) && name in table && (table[name].Integer? || table[name].Hexadecimal?)
    ensures var line := WriteLine(name, TextValue(s), table[name]);
            ReadLine(Fgets(line + rest), table) == Assign(name, TextValue(s)) <==>
              |line| <= LINE_MAX + 1 && Valid(table[name], s)
    ensures |name| + |s| + 8 <= LINE_MAX && NEWLINE !in s && !Valid(table[name], s) ==>
              ReadLine(Fgets(WriteLine(name, TextValue(s), table[name]) + rest), table) == Fatal
  {
    assert WriteLine(name, TextValue(s), table[name]) + rest == "CONFIG_" + name + "=" + s + "\n" + rest;
    FirstLine(name, s, rest, table);
    assert s[..|s|] == s;
    if Valid(table[name], s) {
      ValidOneLine(table[name], s);
    } else if NEWLINE !in s {
      FindNone(s, NEWLINE);
    }
  }

  lemma {:induction false} ValidOneLine(kind: SymbolKind, s: string)
    requires Valid(kind, s)
    ensures Find(s, NEWLINE) == |s|
  {
    forall i | 0 <= i < |s| ensures s[i] != NEWLINE {
      if kind.Integer? {
        var t := if s != "" && s[0] == '-' then s[1..] else s;
        if s[0] != '-' {
          assert IsDigit(t[i]);
        } else if i > 0 {
          assert IsDigit(t[i - 1]);
        }
      } else {
        var hex := |s| >= 2 && s[0] == '0' && (s[1] == 'x' || s[1] == 'X');
        var t := if hex then s[2..] else s;
        if !hex {
          assert IsHexDigit(t[i]);
        } else if i > 1 {
          assert IsHexDigit(t[i - 2]);
        }
      }
    }
  }

  /** Strings: the text comes back exactly when it has no newline and the line fits the buffer. */
  lemma {:induction false} TextReadBack(name: string, s: string, rest: string, table: map<string, SymbolKind>)
    requires IsName(name) && name in table && table[name].Text?
    ensures var line := WriteLine(name, TextValue(s), table[name]);
            ReadLine(Fgets(line + rest), table) == Assign(name, TextValue(s)) <==>
              |line| <= LINE_MAX + 1 && NEWLINE !in s
  {
    var text := "\"" + Escape(s) + "\"";
    assert WriteLine(name, TextValue(s), table[name]) + rest == "CONFIG_" + name + "=" + text + "\n" + rest;
    FirstLine(name, text, rest, table);
    EscapeNewline(s);
    var n := Find(text, NEWLINE);
    if NEWLINE !in s {
      FindNone(text, NEWLINE);
      assert text[..n] == text;
    } else {
      assert NEWLINE in text && text[n] == NEWLINE;
    }
    var d := Delivered(name, text[..n]);
    if d.Some? {
      assert d.value == text[..|d.value|];
      assert |d.value| == |text| <==> n == |text| && 8 + |name| + |text| <= LINE_MAX;
      ReadQuoted(name, s, |d.value|, table);
    }
  }

  /** A quoted string, cut after k characters or whole. */
  lemma {:induction false} ReadQuoted(name: string, s: string, k: nat, table: map<string, SymbolKind>)
    requires name in table && table[name].Text? && k <= |Escape(s)| + 2
    ensures var text := "\"" + Escape(s) + "\"";
            ReadValue(name, text[..k], table) == Assign(name, TextValue(s)) <==> k == |text|
  {
    var text := "\"" + Escape(s) + "\"";
    var cut := text[..k];
    if k == |text| {
      assert cut == text && text[1..] == Escape(s) + [QUOTE] + "";
      UnquoteEscape(s, "");
    } else if k > 0 {
      assert cut[1..] == Escape(s)[..k - 1];
      UnquoteCut(s, k - 1);
    }
  }

  lemma {:induction false} EscapeNewline(s: string)
    ensures NEWLINE in Escape(s) <==> NEWLINE in s
  {
    if s != "" {
      EscapeNewline(s[1..]);
      assert s == [s[0]] + s[1..];
    }
  }
}
