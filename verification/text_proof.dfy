/** What the assembler's reading of text means: registers, numbers, tokens and lines. */
module TextProof {
  import opened Assembler
  import opened AssemblerText
  import opened Spelling
  import opened Words

  // ---- Registers ----

  lemma NamesTo3(r: RegIndex)
    requires 0 <= r < 4
    ensures REGISTERS[r] in REGISTER_NAMES && REGISTER_NAMES[REGISTERS[r]] == r
  {
  }

  lemma NamesTo7(r: RegIndex)
    requires 4 <= r < 8
    ensures REGISTERS[r] in REGISTER_NAMES && REGISTER_NAMES[REGISTERS[r]] == r
  {
  }

  lemma NamesTo15(r: RegIndex)
    requires 8 <= r < 16
    ensures REGISTERS[r] in REGISTER_NAMES && REGISTER_NAMES[REGISTERS[r]] == r
  {
  }

  lemma NamesTo31(r: RegIndex)
    requires 16 <= r < 32
    ensures REGISTERS[r] in REGISTER_NAMES && REGISTER_NAMES[REGISTERS[r]] == r
  {
  }

  lemma OnlyNames(name: string)
    ensures name in REGISTER_NAMES ==> name == REGISTERS[REGISTER_NAMES[name]]
  {
  }

  lemma NoDigitNames(r: RegIndex)
    ensures REGISTERS[r] != "" && !('0' <= REGISTERS[r][0] <= '9')
  {
  }

  lemma RegisterTable(name: string, r: RegIndex)
    ensures name in REGISTER_NAMES && REGISTER_NAMES[name] == r <==> name == REGISTERS[r]
  {
    if name in REGISTER_NAMES {
      OnlyNames(name);
    }
    if r < 4 {
      NamesTo3(r);
    } else if r < 8 {
      NamesTo7(r);
    } else if r < 16 {
      NamesTo15(r);
    } else {
      NamesTo31(r);
    }
  }

  /** A register operand is `$` and an ABI name or a number below 32, and nothing else. */
  lemma RegistersExactly(tok: string, r: RegIndex)
    ensures ParseReg(tok) == Some(r) <==> NamesRegister(tok, r)
  {
    hide Number;
    RegisterTable(if tok == "" then "" else tok[1..], r);
    NoDigitNames(r);
    if tok != "" && tok[0] == '$' {
      assert tok == "$" + tok[1..];
      assert tok == "$" + REGISTERS[r] <==> tok[1..] == REGISTERS[r];
    }
  }

  // ---- Hexadecimal numbers ----

  function HexDigits(n: nat, upper: bool): string {
    var digit := if upper then "0123456789ABCDEF"[n % 16] else "0123456789abcdef"[n % 16];
    if n < 16 then [digit] else HexDigits(n / 16, upper) + [digit]
  }

  lemma HexDigit(d: nat)
    requires d < 16
    ensures DigitOf("0123456789ABCDEF"[d]) == Some(d) && DigitOf("0123456789abcdef"[d]) == Some(d)
  {
  }

  lemma NumberAppends(high: string, c: char, h: nat, d: nat, base: nat)
    requires DigitOf(c) == Some(d) && d < base
    requires if high == "" then h == 0 else Number(high, base) == Some(h)
    ensures Number(high + [c], base) == Some(h * base + d)
  {
    hide DigitOf;
    var s := high + [c];
    assert s[..|s| - 1] == high;
  }

  lemma {:induction false} NumberOfHex(n: nat, upper: bool)
    ensures Number(HexDigits(n, upper), 16) == Some(n) && HexDigits(n, upper) != ""
  {
    hide DigitOf, Number;
    HexDigit(n % 16);
    var c := if upper then "0123456789ABCDEF"[n % 16] else "0123456789abcdef"[n % 16];
    if n >= 16 {
      NumberOfHex(n / 16, upper);
      NumberAppends(HexDigits(n / 16, upper), c, n / 16, n % 16, 16);
    } else {
      NumberAppends("", c, 0, n, 16);
      assert "" + [c] == [c];
    }
  }

  /** Hexadecimal numbers are read as 32 bits and taken as signed; a sign in front negates
      in 32 bits; wider ones are refused. */
  lemma HexExactly(n: nat, upper: bool, x: char)
    requires x == 'x' || x == 'X'
    ensures var tok := "0" + [x] + HexDigits(n, upper); var v := if n < 0x8000_0000 then n else n - 0x1_0000_0000;
            && ParseImm(tok) == (if n < 0x1_0000_0000 then Some(v) else None)
            && ParseImm("-" + tok) == (if n < 0x1_0000_0000 then Some(if v == -0x8000_0000 then v else -v) else None)
  {
    hide Number, HexDigits, Decimal32;
    NumberOfHex(n, upper);
    var tok := "0" + [x] + HexDigits(n, upper);
    assert tok[2..] == HexDigits(n, upper);
    assert ("-" + tok)[1..] == tok;
    assert HexPrefixed(tok);
  }

  // ---- Memory operands ----

  lemma {:induction false} FirstAt(s: string, c: char, i: nat)
    requires i <= |s| && (i < |s| ==> s[i] == c) && c !in s[..i]
    ensures IndexOf(s, c) == i
  {
    if i > 0 {
      assert s[0] == s[..i][0];
      assert s[1..][..i - 1] == s[..i][1..];
      FirstAt(s[1..], c, i - 1);
    }
  }

  /** `offset(register)`, whatever follows. */
  lemma MemoryOperand(offset: string, register: string, rest: string)
    requires '(' !in offset && ')' !in offset && ')' !in register
    ensures var tok := offset + "(" + register + ")" + rest;
            ParseMemOperand(tok) == match (ParseImm(offset), ParseReg(register))
                                    case (Some(v), Some(r)) => Some((v, r))
                                    case _ => None
  {
    hide ParseImm, ParseReg;
    var tok := offset + "(" + register + ")" + rest;
    var lp, rp := |offset|, |offset| + 1 + |register|;
    assert tok[..lp] == offset && tok[lp + 1..rp] == register;
    assert tok[..rp] == offset + "(" + register;
    FirstAt(tok, '(', lp);
    FirstAt(tok, ')', rp);
  }

  // ---- Lines, blanks and letters ----

  predicate Blank(s: string) {
    forall k :: 0 <= k < |s| ==> s[k] in {' ', '\t', '\r', '\n'}
  }

  predicate BlankAt(s: string, k: int) {
    0 <= k < |s| && Blank([s[k]])
  }

  lemma BlankJoined(s: string, t: string)
    ensures Blank(s + t) <==> Blank(s) && Blank(t)
  {
    assert forall k :: 0 <= k < |s| ==> (s + t)[k] == s[k];
    assert forall k :: 0 <= k < |t| ==> (s + t)[|s| + k] == t[k];
  }

  lemma SpaceIsBlank(c: char)
    ensures IsSpace(c) <==> Blank([c])
  {
    assert [c][0] == c;
  }

  lemma EndsPeeled(s: string, before: string, middle: string, after: string)
    requires s != ""
    ensures s[1..] == before + middle + after ==> s == [s[0]] + before + middle + after
    ensures s[..|s| - 1] == before + middle + after ==> s == before + middle + (after + [s[|s| - 1]])
  {
    assert s == [s[0]] + s[1..] && s == s[..|s| - 1] + [s[|s| - 1]];
  }

  /** Trimming takes blanks off both ends, all of them and nothing else. */
  lemma {:induction false} TrimExactly(s: string) returns (before: string, after: string)
    ensures s == before + Trim(s) + after && Blank(before) && Blank(after)
    ensures !BlankAt(Trim(s), 0) && !BlankAt(Trim(s), |Trim(s)| - 1)
  {
    hide Blank, IsSpace;
    before, after := "", "";
    BlankNothing();
    if s != "" {
      SpaceIsBlank(s[0]);
      SpaceIsBlank(s[|s| - 1]);
      if IsSpace(s[0]) {
        before, after := TrimExactly(s[1..]);
        EndsPeeled(s, before, Trim(s[1..]), after);
        BlankJoined([s[0]], before);
        before := [s[0]] + before;
      } else if IsSpace(s[|s| - 1]) {
        before, after := TrimExactly(s[..|s| - 1]);
        EndsPeeled(s, before, Trim(s[..|s| - 1]), after);
        BlankJoined(after, [s[|s| - 1]]);
        after := after + [s[|s| - 1]];
      }
    }
  }

  lemma BlankNothing()
    ensures Blank("")
  {
  }

  /** Trimming is the only way to take blanks off both ends. */
  lemma {:induction false} TrimUnique(s: string, before: string, middle: string, after: string)
    requires s == before + middle + after && Blank(before) && Blank(after)
    requires !BlankAt(middle, 0) && !BlankAt(middle, |middle| - 1)
    ensures Trim(s) == middle
    decreases |s|
  {
    hide IsSpace;
    if s != "" {
      SpaceIsBlank(s[0]);
      SpaceIsBlank(s[|s| - 1]);
      if before != "" {
        assert s[0] == before[0] && Blank([s[0]]);
        assert s[1..] == before[1..] + middle + after;
        TrimUnique(s[1..], before[1..], middle, after);
      } else if middle == "" {
        assert s == after && Blank([s[0]]);
        assert s[1..] == "" + "" + after[1..];
        TrimUnique(s[1..], "", "", after[1..]);
      } else if after != "" {
        assert s[0] == middle[0] && s[|s| - 1] == after[|after| - 1] && Blank([s[|s| - 1]]);
        assert s[..|s| - 1] == "" + middle + after[..|after| - 1];
        TrimUnique(s[..|s| - 1], "", middle, after[..|after| - 1]);
      } else {
        assert s == middle;
      }
    }
  }

  // ---- Comments and labels ----

  /** From '#' on, a line is a comment. */
  lemma WithoutComment(text: string, comment: string)
    requires '#' !in text && (comment == "" || comment[0] == '#')
    ensures Statement(text + comment) == Trim(text)
  {
    hide Trim;
    var raw := text + comment;
    assert raw[..|text|] == text;
    FirstAt(raw, '#', |text|);
  }

  /** Trimming on the left only: what is left of a text that other text follows. */
  lemma LeftTrimmed(text: string) returns (blank: string, rest: string)
    ensures text == blank + rest && Blank(blank) && !BlankAt(rest, 0) && Trim(rest) == Trim(text)
  {
    hide Trim, Blank;
    var a, b := TrimExactly(text);
    BlankNothing();
    if Trim(text) == "" {
      BlankJoined(a, b);
      assert text == a + b;
      blank, rest := text, "";
      TrimUnique("", "", "", "");
    } else {
      blank, rest := a, Trim(text) + b;
      assert text == a + (Trim(text) + b);
      assert rest[0] == Trim(text)[0];
      TrimUnique(rest, "", Trim(text), b);
    }
  }

  lemma RightTrimmed(text: string) returns (rest: string, blank: string)
    ensures text == rest + blank && Blank(blank) && !BlankAt(rest, |rest| - 1) && Trim(rest) == Trim(text)
  {
    hide Trim, Blank;
    var a, b := TrimExactly(text);
    BlankNothing();
    if Trim(text) == "" {
      BlankJoined(a, b);
      assert text == a + b;
      blank, rest := text, "";
      TrimUnique("", "", "", "");
    } else {
      blank, rest := b, a + Trim(text);
      assert rest[|rest| - 1] == Trim(text)[|Trim(text)| - 1];
      TrimUnique(rest, a, Trim(text), "");
    }
  }

  lemma ColonInside(left: string, right: string)
    requires !BlankAt(left, 0) && !BlankAt(right, |right| - 1)
    ensures var t := left + ":" + right; !BlankAt(t, 0) && !BlankAt(t, |t| - 1)
  {
    ColonNotBlank();
    var t := left + ":" + right;
    assert t[0] == if left == "" then ':' else left[0];
    assert t[|t| - 1] == if right == "" then ':' else right[|right| - 1];
    hide Blank;
  }

  /** Cutting a trimmed line at its first colon. */
  lemma CutAtColon(raw: string, left: string, right: string)
    requires Statement(raw) == left + ":" + right && ':' !in left
    ensures LabelOf(raw) == Trim(left) && CodeOf(raw) == Trim(right)
  {
    hide Trim, Statement;
    var t := left + ":" + right;
    assert t[..|left|] == left && t[|left| + 1..] == right;
    FirstAt(t, ':', |left|);
  }

  lemma NotInPart(whole: string, before: string, part: string)
    requires whole == before + part && ':' !in whole
    ensures ':' !in part
  {
    assert forall k :: 0 <= k < |part| ==> part[k] == whole[|before| + k];
  }

  /** `label: code # comment`: what stands before the colon is the label and what stands
      after it the instruction, both trimmed. */
  lemma LabelledLine(name: string, code: string, comment: string)
    requires '#' !in name && ':' !in name && '#' !in code && (comment == "" || comment[0] == '#')
    ensures LabelOf(name + ":" + code + comment) == Trim(name)
    ensures CodeOf(name + ":" + code + comment) == Trim(code)
  {
    hide Trim, Statement, LabelOf, CodeOf, Blank, BlankAt;
    WithoutComment(name + ":" + code, comment);
    var a, left := LeftTrimmed(name);
    var right, d := RightTrimmed(code);
    ColonInside(left, right);
    assert name + ":" + code == a + (left + ":" + right) + d;
    TrimUnique(name + ":" + code, a, left + ":" + right, d);
    NotInPart(name, a, left);
    CutAtColon(name + ":" + code + comment, left, right);
  }

  lemma ColonNotBlank()
    ensures !Blank(":")
  {
    assert ":"[0] == ':';
  }

  /** A line without a colon defines no label. */
  lemma UnlabelledLine(code: string, comment: string)
    requires '#' !in code && ':' !in code && (comment == "" || comment[0] == '#')
    ensures LabelOf(code + comment) == "" && CodeOf(code + comment) == Trim(code)
  {
    hide Trim, Statement;
    WithoutComment(code, comment);
    var a, b := TrimExactly(code);
    var t := Trim(code);
    assert ':' !in t by {
      assert forall k :: 0 <= k < |t| ==> t[k] == code[|a| + k];
    }
    assert t[..|t|] == t;
    FirstAt(t, ':', |t|);
  }

  /** An instruction is its mnemonic, in lower case, and its operands, however separated. */
  lemma InstructionRead(l: Listing, lineno: nat, mnemonic: string, operands: seq<string>, sep: char)
    requires Clean([mnemonic] + operands) && sep in {',', ' ', '\t'}
    ensures AddInstruction(l, lineno, Joined([mnemonic] + operands, sep)) ==
            l.(lines := l.lines + [Line(lineno, Lower(mnemonic), operands)])
  {
    hide Tokens, Lower, Joined;
    var toks := [mnemonic] + operands;
    TokensOfJoined(toks, sep);
    assert toks[1..] == operands;
  }

  function Terminated(lines: seq<string>): string {
    if lines == [] then "" else lines[0] + "\n" + Terminated(lines[1..])
  }

  lemma FirstLine(line: string, rest: string)
    requires '\n' !in line
    ensures Lines(line + "\n" + rest) == [line] + Lines(rest)
  {
    var s := line + "\n" + rest;
    assert s[..|line|] == line && s[|line| + 1..] == rest;
    FirstAt(s, '\n', |line|);
  }

  lemma LastLine(line: string)
    requires '\n' !in line && line != ""
    ensures Lines(line) == [line]
  {
    assert line[..|line|] == line;
    FirstAt(line, '\n', |line|);
  }

  /** Splitting undoes writing lines out; the last may lack its newline. */
  lemma {:induction false} LinesExactly(lines: seq<string>, last: string)
    requires forall i :: 0 <= i < |lines| ==> '\n' !in lines[i]
    requires '\n' !in last
    ensures Lines(Terminated(lines) + last) == lines + if last == "" then [] else [last]
  {
    hide Lines, Terminated;
    TerminatedParts(lines, last);
    if lines == [] {
      if last != "" {
        LastLine(last);
      } else {
        NoLines();
      }
    } else {
      LinesExactly(lines[1..], last);
      FirstLine(lines[0], Terminated(lines[1..]) + last);
      assert [lines[0]] + lines[1..] == lines;
    }
  }

  lemma TerminatedParts(lines: seq<string>, last: string)
    ensures Terminated(lines) + last ==
              if lines == [] then last else lines[0] + "\n" + (Terminated(lines[1..]) + last)
  {
  }

  lemma NoLines()
    ensures Lines("") == []
  {
  }

  const CAPITALS := "ABCDEFGHIJKLMNOPQRSTUVWXYZ"
  const SMALL := "abcdefghijklmnopqrstuvwxyz"

  /** Mnemonics in capitals are the same mnemonics. */
  lemma LowerExactly(s: string, k: nat, letter: nat)
    requires k < |s| && letter < 26
    ensures |Lower(s)| == |s|
    ensures s[k] == CAPITALS[letter] ==> Lower(s)[k] == SMALL[letter]
    ensures s[k] !in CAPITALS ==> Lower(s)[k] == s[k]
  {
    assert CAPITALS[letter] == 'A' + letter as char && SMALL[letter] == 'a' + letter as char;
    if 'A' <= s[k] <= 'Z' {
      assert CAPITALS[(s[k] - 'A') as nat] == s[k];
    }
  }
}
