/** The assembler's reading of text: lines, tokens, registers and integers
    (`trim`, `tokenise`, `parse_reg`, `parse_imm`, `parse_mem_operand`). */
module AssemblerText {
  import opened Words

  /** Position of the first `c`, or the length. */
  function IndexOf(s: string, c: char): (i: nat)
    ensures i <= |s|
    ensures i < |s| ==> s[i] == c
    ensures c !in s[..i]
  {
    if s == "" || s[0] == c then 0 else 1 + IndexOf(s[1..], c)
  }

  /** The lines `getline` delivers. */
  function Lines(s: string): seq<string> {
    if s == "" then []
    else
      var end := IndexOf(s, '\n');
      if end == |s| then [s] else [s[..end]] + Lines(s[end + 1..])
  }

  predicate IsSpace(c: char) {
    c == ' ' || c == '\t' || c == '\r' || c == '\n'
  }

  function Trim(s: string): string {
    if s == "" then ""
    else if IsSpace(s[0]) then Trim(s[1..])
    else if IsSpace(s[|s| - 1]) then Trim(s[..|s| - 1])
    else s
  }

  predicate IsSeparator(c: char) {
    c == ',' || c == ' ' || c == '\t'
  }

  /** The finished tokens and the unfinished one after the characters of `s`. */
  function Scan(s: string): (r: (seq<string>, string)) {
    if s == "" then ([], "")
    else
      var (toks, cur) := Scan(s[..|s| - 1]);
      var c := s[|s| - 1];
      if !IsSeparator(c) then (toks, cur + [c])
      else if cur == "" then (toks, "")
      else (toks + [cur], "")
  }

  function Finish(scan: (seq<string>, string)): seq<string> {
    if scan.1 == "" then scan.0 else scan.0 + [scan.1]
  }

  function Tokens(s: string): seq<string> {
    Finish(Scan(s))
  }

  predicate CleanToken(t: string) {
    t != "" && forall k :: 0 <= k < |t| ==> t[k] !in {',', ' ', '\t'}
  }

  predicate Clean(toks: seq<string>) {
    forall i :: 0 <= i < |toks| ==> CleanToken(toks[i])
  }

  function Joined(toks: seq<string>, sep: char): string {
    if toks == [] then "" else Joined(toks[..|toks| - 1], sep) + [sep] + toks[|toks| - 1]
  }

  lemma {:induction false} ScanIsClean(s: string)
    ensures Clean(Scan(s).0)
    ensures Scan(s).1 != "" ==> CleanToken(Scan(s).1)
  {
    if s != "" {
      ScanIsClean(s[..|s| - 1]);
    }
  }

  lemma {:induction false} ScanAppends(s: string, t: string)
    requires forall k :: 0 <= k < |t| ==> !IsSeparator(t[k])
    ensures Scan(s + t) == (Scan(s).0, Scan(s).1 + t)
  {
    if t == "" {
      assert s + t == s;
      assert Scan(s).1 + t == Scan(s).1;
    } else {
      assert (s + t)[..|s + t| - 1] == s + t[..|t| - 1];
      ScanAppends(s, t[..|t| - 1]);
      assert Scan(s).1 + t[..|t| - 1] + [t[|t| - 1]] == Scan(s).1 + t;
    }
  }

  /** Splitting undoes joining, with any separator. */
  lemma {:induction false} TokensOfJoined(toks: seq<string>, sep: char)
    requires Clean(toks) && sep in {',', ' ', '\t'}
    ensures Tokens(Joined(toks, sep)) == toks
  {
    if toks != [] {
      var init, last := toks[..|toks| - 1], toks[|toks| - 1];
      TokensOfJoined(init, sep);
      var before := Joined(init, sep);
      assert (before + [sep])[..|before|] == before;
      assert Scan(before + [sep]) == (init, "");
      assert CleanToken(last);
      ScanAppends(before + [sep], last);
      assert "" + last == last;
    }
  }

  method Tokenise(line: string) returns (toks: seq<string>)
    ensures toks == Tokens(line)
    ensures Clean(toks)
  {
    toks := [];
    var cur := "";
    for i := 0 to |line|
      invariant (toks, cur) == Scan(line[..i])
    {
      assert line[..i + 1][..i] == line[..i];
      var c := line[i];
      if IsSeparator(c) {
        if cur != "" {
          toks := toks + [cur];
          cur := "";
        }
      } else {
        cur := cur + [c];
      }
    }
    assert line[..|line|] == line;
    ScanIsClean(line);
    if cur != "" {
      toks := toks + [cur];
    }
  }

  function DigitOf(c: char): Option<nat> {
    if '0' <= c <= '9' then Some((c - '0') as nat)
    else if 'a' <= c <= 'f' then Some((c - 'a') as nat + 10)
    else if 'A' <= c <= 'F' then Some((c - 'A') as nat + 10)
    else None
  }

  /** The value of a non-empty string of digits. */
  function Number(s: string, base: nat): Option<nat> {
    if s == "" then None
    else
      var d := DigitOf(s[|s| - 1]);
      if d.None? || d.value >= base then None
      else if |s| == 1 then d
      else
        var high := Number(s[..|s| - 1], base);
        if high.None? then None else Some(high.value * base + d.value)
  }

  predicate InInt32(v: int) {
    -SIGN_BIT <= v < SIGN_BIT
  }

  /** `from_chars` into a signed 32-bit integer, all of the text consumed. */
  function Decimal32(s: string): Option<int> {
    var negative := s != "" && s[0] == '-';
    var n := Number(if negative then s[1..] else s, 10);
    if n.None? then None
    else
      var v: int := if negative then -(n.value as int) else n.value;
      if InInt32(v) then Some(v) else None
  }

  predicate HexPrefixed(s: string) {
    |s| > 2 && s[0] == '0' && (s[1] == 'x' || s[1] == 'X')
  }

  function ParseImm(tok: string): (r: Option<int>)
    ensures r.Some? ==> InInt32(r.value)
  {
    if tok == "" then None
    else
      var negative := tok[0] == '-';
      var rest := if negative then tok[1..] else tok;
      var v :=
        if HexPrefixed(rest) then
          var u := Number(rest[2..], 16);
          if u.None? || u.value >= WORD_LIMIT then None else Some(Signed(u.value))
        else Decimal32(rest);
      if v.None? || !negative || v.value == -SIGN_BIT then v else Some(-v.value)
  }

  function Digits(n: nat): string {
    if n < 10 then ["0123456789"[n]] else Digits(n / 10) + ["0123456789"[n % 10]]
  }

  function Show(v: int): string {
    if v < 0 then "-" + Digits(-v) else Digits(v)
  }

  lemma DigitChar(d: nat)
    requires d < 10
    ensures var c := "0123456789"[d]; DigitOf(c) == Some(d) && '0' <= c <= '9' && (c == '0' ==> d == 0)
  {
  }

  lemma {:induction false} NumberOfDigits(n: nat)
    ensures Number(Digits(n), 10) == Some(n)
    ensures Digits(n) != "" && '0' <= Digits(n)[0] <= '9'
    ensures Digits(n)[0] == '0' ==> n == 0
  {
    DigitChar(n % 10);
    hide DigitOf;
    if n >= 10 {
      NumberOfDigits(n / 10);
      assert Digits(n)[..|Digits(n)| - 1] == Digits(n / 10);
      assert Digits(n)[0] == Digits(n / 10)[0];
    }
  }

  lemma DigitsNotHex(n: nat)
    ensures !HexPrefixed(Digits(n))
  {
    NumberOfDigits(n);
  }

  /** A written integer is read back if it fits 32 bits, except the least one: its sign
      is taken off first, and what remains does not fit. Anything else is refused. */
  lemma ParseImmRoundTrip(v: int)
    ensures ParseImm(Show(v)) == if -0x8000_0000 < v < 0x8000_0000 then Some(v) else None
  {
    hide Digits, Number, HexPrefixed;
    var n := if v < 0 then -v else v;
    NumberOfDigits(n);
    DigitsNotHex(n);
    assert v < 0 ==> Show(v)[1..] == Digits(n);
  }

  /** A second sign is read by the conversion and undone by the first, except before 2^31:
      the conversion then yields -2^31, whose negation in 32 bits is -2^31 again. */
  lemma DoubleSign(n: nat)
    ensures ParseImm("--" + Digits(n)) == Some(n) <==> n < SIGN_BIT
    ensures ParseImm("--" + Digits(n)) == Some(-SIGN_BIT) <==> n == SIGN_BIT
    ensures ParseImm("--" + Digits(n)) == None <==> n > SIGN_BIT
  {
    hide Digits, Number;
    NumberOfDigits(n);
    var tok := "--" + Digits(n);
    assert tok[1..] == "-" + Digits(n);
    assert tok[1..][1..] == Digits(n);
    assert !HexPrefixed(tok[1..]);
  }

  const REGISTER_NAMES: map<string, RegIndex> := map[
    "zero" := 0, "at" := 1, "v0" := 2, "v1" := 3, "a0" := 4, "a1" := 5, "a2" := 6, "a3" := 7,
    "t0" := 8, "t1" := 9, "t2" := 10, "t3" := 11, "t4" := 12, "t5" := 13, "t6" := 14, "t7" := 15,
    "s0" := 16, "s1" := 17, "s2" := 18, "s3" := 19, "s4" := 20, "s5" := 21, "s6" := 22, "s7" := 23,
    "t8" := 24, "t9" := 25, "k0" := 26, "k1" := 27, "gp" := 28, "sp" := 29, "fp" := 30, "ra" := 31]

  function ParseReg(tok: string): Option<RegIndex> {
    if tok == "" || tok[0] != '$' then None
    else
      var name := tok[1..];
      if name != "" && '0' <= name[0] <= '9' then
        var n := Number(name, 10);
        if n.Some? && n.value < 32 then Some(n.value) else None
      else if name in REGISTER_NAMES then Some(REGISTER_NAMES[name])
      else None
  }

  /** `imm($rs)`; whatever follows the parenthesis is ignored. */
  function ParseMemOperand(tok: string): (r: Option<(int, RegIndex)>)
    ensures r.Some? ==> InInt32(r.value.0)
  {
    var lp, rp := IndexOf(tok, '('), IndexOf(tok, ')');
    if lp == |tok| || rp == |tok| || rp < lp then None
    else
      var imm, reg := ParseImm(tok[..lp]), ParseReg(tok[lp + 1..rp]);
      if imm.None? || reg.None? then None else Some((imm.value, reg.value))
  }

  function Lower(s: string): string {
    seq(|s|, i requires 0 <= i < |s| => if 'A' <= s[i] <= 'Z' then s[i] - 'A' + 'a' else s[i])
  }
}
