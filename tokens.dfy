/** The immutable `(type, content)` token the code generator reads its operands from,
    with its type-guarded accessors. */
module Tokens {
  import opened Outcomes
  import Numbers

  datatype TokenType = Immediate | Register | Operator | Label | Number | String

  datatype Token = Token(kind: TokenType, content: string)

  const Backslash: char := '\\'
  const Backspace: char := '\U{0008}'

  /** Kotlin `drop(1)`: everything after the first character (empty stays empty). */
  function DropFirst(s: string): (r: string)
    ensures |r| == if s == [] then 0 else |s| - 1
    ensures |s| > 0 ==> s == [s[0]] + r
  {
    if s == [] then [] else s[1..]
  }

  /** The text between the quotes: `drop(1).dropLast(1)`. */
  function Unquote(s: string): (r: string)
    ensures |r| == if |s| < 2 then 0 else |s| - 2
    ensures |s| >= 2 ==> s == [s[0]] + r + [s[|s| - 1]]
  {
    if |s| < 2 then [] else s[1..|s| - 1]
  }

  /** The register number: the decimal integer after the first character. */
  function AsRegisterId(t: Token): (r: Result<int>)
    ensures t.kind != Register ==> r.Err? && r.error == TypeMismatch
    ensures t.kind == Register && |t.content| == 2 && '0' <= t.content[1] <= '7' ==>
              r.Ok? && r.value == t.content[1] as int - '0' as int
  {
    if t.kind != Register then Err(TypeMismatch)
    else
      RegisterName(t.content);
      Numbers.ParseInt(DropFirst(t.content), 10)
  }

  /** `R` and one digit 0-7: the text after the first character reads as that digit. */
  lemma RegisterName(content: string)
    ensures |content| == 2 && '0' <= content[1] <= '7' ==>
              var r := Numbers.ParseInt(DropFirst(content), 10);
              r.Ok? && r.value == content[1] as int - '0' as int
  {
    if |content| == 2 && '0' <= content[1] <= '7' {
      assert DropFirst(content) == [content[1]];
      Numbers.ParseOneDigit(content[1], 10);
    }
  }

  /** Kotlin `s.replace(pattern, replacement)`: every occurrence, scanned left to right
      without overlaps, is replaced. Here the pattern is an escape: a backslash and one letter. */
  function ReplaceEscape(s: string, letter: char, replacement: char): (r: string)
    ensures |r| <= |s|
    decreases |s|
  {
    if |s| >= 2 && s[0] == Backslash && s[1] == letter then
      [replacement] + ReplaceEscape(s[2..], letter, replacement)
    else if s == [] then []
    else [s[0]] + ReplaceEscape(s[1..], letter, replacement)
  }

  /** Text without a backslash holds no escape to replace. */
  lemma {:induction false} ReplaceEscapeNoBackslash(s: string, letter: char, replacement: char)
    requires Backslash !in s
    ensures ReplaceEscape(s, letter, replacement) == s
  {
    if s != [] {
      assert Backslash !in s[1..];
      ReplaceEscapeNoBackslash(s[1..], letter, replacement);
    }
  }

  /** The four escapes, decoded one after another in the source's order. */
  function Unescape(s: string): (r: string)
    ensures |r| <= |s|
  {
    var n := ReplaceEscape(s, 'n', '\n');
    var t := ReplaceEscape(n, 't', '\t');
    var b := ReplaceEscape(t, 'b', Backspace);
    ReplaceEscape(b, '"', '"')
  }

  /** The string literal's text: quotes dropped, escapes decoded. */
  function AsStringContent(t: Token): (r: Result<string>)
    ensures r.Ok? <==> t.kind == String
    ensures r.Ok? ==> |r.value| <= |Unquote(t.content)|
  {
    if t.kind != String then Err(TypeMismatch)
    else Ok(Unescape(Unquote(t.content)))
  }

  /** A literal without a backslash comes back as it was written, quotes dropped. */
  lemma StringContentWithoutEscapes(t: Token)
    requires t.kind == String && Backslash !in t.content
    ensures AsStringContent(t).Ok? && AsStringContent(t).value == Unquote(t.content)
  {
    var s := Unquote(t.content);
    assert Backslash !in s;
    ReplaceEscapeNoBackslash(s, 'n', '\n');
    ReplaceEscapeNoBackslash(s, 't', '\t');
    ReplaceEscapeNoBackslash(s, 'b', Backspace);
    ReplaceEscapeNoBackslash(s, '"', '"');
  }

  /** The immediate's value: `#` reads decimal, `x` or `X` reads hexadecimal. */
  function AsImmediate(t: Token): (r: Result<int>)
    ensures t.kind != Immediate ==> r.Err? && r.error == TypeMismatch
    ensures r.Ok? ==> |t.content| >= 1 && t.content[0] in {'#', 'x', 'X'}
    ensures r.Ok? ==> Numbers.IntMin <= r.value <= Numbers.IntMax
  {
    if t.kind != Immediate then Err(TypeMismatch)
    else if t.content == [] then Err(EmptyContent)
    else
      var marker := t.content[0];
      if marker == '#' then Numbers.ParseInt(t.content[1..], 10)
      else if marker == 'x' || marker == 'X' then Numbers.ParseInt(t.content[1..], 16)
      else Err(UnknownRadix(marker))
  }

  /** The `.BLKW` count: the whole content read as decimal. */
  function AsNumber(t: Token): (r: Result<int>)
    ensures t.kind != Number ==> r.Err? && r.error == TypeMismatch
    ensures r.Ok? ==> Numbers.IntMin <= r.value <= Numbers.IntMax
  {
    if t.kind != Number then Err(TypeMismatch) else Numbers.ParseInt(t.content, 10)
  }

  /** The label name: the content, whatever the token's type. */
  function AsLabel(t: Token): string {
    t.content
  }

  function Prefix(kind: TokenType): string {
    match kind
    case Immediate => "I:"
    case Register => "R:"
    case Operator => "O:"
    case Label => "L:"
    case Number => "N:"
    case String => "S:"
  }

  /** The debug form: a two-character prefix naming the type, then the content. */
  function ToFormatted(t: Token): (r: string)
    ensures |r| == |t.content| + 2 && r[2..] == t.content
    ensures r[1] == ':'
  {
    Prefix(t.kind) + t.content
  }

  /** The type named by a two-character debug prefix. */
  function KindOfPrefix(p: string): Option<TokenType> {
    if p == "I:" then Some(Immediate)
    else if p == "R:" then Some(Register)
    else if p == "O:" then Some(Operator)
    else if p == "L:" then Some(Label)
    else if p == "N:" then Some(Number)
    else if p == "S:" then Some(String)
    else None
  }

  /** Reads a token back from its debug form. */
  function ParseFormatted(s: string): Option<Token> {
    if |s| < 2 then None
    else
      match KindOfPrefix(s[..2])
      case None => None
      case Some(kind) => Some(Token(kind, s[2..]))
  }

  /** The debug form loses nothing: the prefix gives back the type, the rest the content. */
  lemma FormattedRoundTrip(t: Token)
    ensures ParseFormatted(ToFormatted(t)) == Some(t)
  {
    var r := ToFormatted(t);
    assert r[..2] == Prefix(t.kind);
  }

  /** No two types share a prefix. */
  lemma PrefixesDistinct(k1: TokenType, k2: TokenType)
    ensures Prefix(k1) == Prefix(k2) <==> k1 == k2
  {
    assert KindOfPrefix(Prefix(k1)) == Some(k1);
    assert KindOfPrefix(Prefix(k2)) == Some(k2);
  }

  /** `asLabel` performs no type check. */
  lemma LabelIgnoresKind(kind: TokenType, content: string)
    ensures AsLabel(Token(kind, content)) == content
  {
  }

  /** Characters that a string literal writes as an escape. */
  const Escapable: set<char> := {'\n', '\t', Backspace, '"'}

  function EscapeLetter(c: char): char {
    if c == '\n' then 'n' else if c == '\t' then 't' else if c == Backspace then 'b' else '"'
  }

  /** `s` with every character of `chosen` written as its escape. */
  function EscapeSome(s: string, chosen: set<char>): string
    requires chosen <= Escapable
  {
    if s == [] then []
    else (if s[0] in chosen then [Backslash, EscapeLetter(s[0])] else [s[0]]) + EscapeSome(s[1..], chosen)
  }

  /** The literal text of `s`: every newline, tab, backspace and quote escaped. */
  function Escape(s: string): string {
    EscapeSome(s, Escapable)
  }

  lemma {:induction false} EscapeNothing(s: string)
    ensures EscapeSome(s, {}) == s
  {
    if s != [] {
      EscapeNothing(s[1..]);
    }
  }

  /** Decoding one escape undoes exactly the escaping of that one character. */
  lemma {:induction false} ReplaceEscapeStep(s: string, chosen: set<char>, c: char)
    requires chosen <= Escapable && c in chosen
    requires Backslash !in s
    ensures ReplaceEscape(EscapeSome(s, chosen), EscapeLetter(c), c) == EscapeSome(s, chosen - {c})
  {
    if s != [] {
      var x := s[0];
      var rest := EscapeSome(s[1..], chosen);
      var e := EscapeSome(s, chosen);
      var r := ReplaceEscape(rest, EscapeLetter(c), c);
      ReplaceEscapeStep(s[1..], chosen, c);
      assert r == EscapeSome(s[1..], chosen - {c});
      if x !in chosen {
        assert ReplaceEscape(e, EscapeLetter(c), c) == [x] + r by {
          assert e == [x] + rest;
          assert e[1..] == rest;
        }
      } else if x == c {
        assert ReplaceEscape(e, EscapeLetter(c), c) == [c] + r by {
          assert e == [Backslash, EscapeLetter(x)] + rest;
          assert e[2..] == rest;
        }
      } else {
        assert ReplaceEscape(e, EscapeLetter(c), c) == [Backslash, EscapeLetter(x)] + r by {
          assert e == [Backslash, EscapeLetter(x)] + rest;
          assert EscapeLetter(x) != EscapeLetter(c);
          var tail := [EscapeLetter(x)] + rest;
          assert e[1..] == tail && tail[1..] == rest;
          assert ReplaceEscape(tail, EscapeLetter(c), c) == [EscapeLetter(x)] + r;
        }
      }
    }
  }

  /** Decoding an escaped text gives the text back when it holds no backslash. */
  lemma UnescapeEscape(s: string)
    requires Backslash !in s
    ensures Unescape(Escape(s)) == s
  {
    ReplaceEscapeStep(s, Escapable, '\n');
    ReplaceEscapeStep(s, Escapable - {'\n'}, '\t');
    ReplaceEscapeStep(s, Escapable - {'\n'} - {'\t'}, Backspace);
    ReplaceEscapeStep(s, Escapable - {'\n'} - {'\t'} - {Backspace}, '"');
    assert Escapable - {'\n'} - {'\t'} - {Backspace} - {'"'} == {};
    EscapeNothing(s);
  }

  /** A quoted, escaped literal reads back as its text. */
  lemma StringLiteralRoundTrip(s: string)
    requires Backslash !in s
    ensures AsStringContent(Token(String, ['"'] + Escape(s) + ['"'])).Ok? && AsStringContent(Token(String, ['"'] + Escape(s) + ['"'])).value == s
  {
    var literal := ['"'] + Escape(s) + ['"'];
    assert Unquote(literal) == Escape(s);
    UnescapeEscape(s);
  }

  /** `#` followed by the decimal text of a value, and `x` followed by its hexadecimal
      text, both read back as that value. */
  lemma ImmediateRoundTrip(v: int)
    requires Numbers.IntMin <= v <= Numbers.IntMax
    ensures var r := AsImmediate(Token(Immediate, "#" + Numbers.FormatInt(v, 10))); r.Ok? && r.value == v
    ensures var r := AsImmediate(Token(Immediate, "x" + Numbers.FormatInt(v, 16))); r.Ok? && r.value == v
    ensures var r := AsImmediate(Token(Immediate, "X" + Numbers.FormatInt(v, 16))); r.Ok? && r.value == v
  {
    MarkedImmediate(v, '#', 10);
    MarkedImmediate(v, 'x', 16);
    MarkedImmediate(v, 'X', 16);
  }

  /** An immediate is its marker followed by the digits the marker's radix reads. */
  lemma MarkedImmediate(v: int, marker: char, radix: nat)
    requires Numbers.IntMin <= v <= Numbers.IntMax
    requires (marker == '#' && radix == 10) || ((marker == 'x' || marker == 'X') && radix == 16)
    ensures var r := AsImmediate(Token(Immediate, [marker] + Numbers.FormatInt(v, radix))); r.Ok? && r.value == v
  {
    var digits := Numbers.FormatInt(v, radix);
    var t := Token(Immediate, [marker] + digits);
    assert t.content[0] == marker && t.content[1..] == digits;
    Numbers.ParseFormatInt(v, radix);
  }

  lemma ImmediateExamples()
    ensures AsImmediate(Token(Immediate, "#-1")).Ok? && AsImmediate(Token(Immediate, "#-1")).value == -1
    ensures AsImmediate(Token(Immediate, "x25")).Ok? && AsImmediate(Token(Immediate, "x25")).value == 37
    ensures AsImmediate(Token(Immediate, "x200")).Ok? && AsImmediate(Token(Immediate, "x200")).value == 512
  {
    assert Numbers.FormatInt(-1, 10) == "-1";
    assert Numbers.FormatInt(37, 16) == "25" by {
      assert Numbers.NatDigits(37, 16) == Numbers.NatDigits(2, 16) + ['5'];
    }
    assert Numbers.FormatInt(512, 16) == "200" by {
      assert Numbers.NatDigits(512, 16) == Numbers.NatDigits(32, 16) + ['0'];
      assert Numbers.NatDigits(32, 16) == Numbers.NatDigits(2, 16) + ['0'];
    }
    ImmediateRoundTrip(-1);
    ImmediateRoundTrip(37);
    ImmediateRoundTrip(512);
  }

  /** Every immediate the assembler accepts reads as its value: a `#`, `x` or `X` marker,
      an optional sign, and digits of either letter case. */
  lemma ImmediateWellFormed(marker: char, radix: nat, sign: string, digits: string)
    requires (marker == '#' && radix == 10) || ((marker == 'x' || marker == 'X') && radix == 16)
    requires sign == "" || sign == "+" || sign == "-"
    requires |digits| >= 1 && Numbers.IsDigits(digits, radix)
    requires Numbers.IntMin <= Numbers.SignedValue(sign, digits, radix) <= Numbers.IntMax
    ensures var r := AsImmediate(Token(Immediate, [marker] + sign + digits));
            r.Ok? && r.value == Numbers.SignedValue(sign, digits, radix)
  {
    var t := Token(Immediate, [marker] + sign + digits);
    assert t.content[0] == marker && t.content[1..] == sign + digits;
    Numbers.ParseWellFormed(sign, digits, radix);
  }

  /** `xFFFF` and `XF025`: upper-case hexadecimal digits after either marker. */
  lemma HexSpelling(marker: char, digits: string, v: int)
    requires marker == 'x' || marker == 'X'
    requires (digits == "FFFF" && v == 0xFFFF) || (digits == "F025" && v == 0xF025)
    ensures var r := AsImmediate(Token(Immediate, [marker] + digits)); r.Ok? && r.value == v
  {
    HexFourDigits(digits);
    ImmediateWellFormed(marker, 16, "", digits);
    assert [marker] + "" + digits == [marker] + digits;
  }

  lemma HexFourDigits(digits: string)
    requires digits == "FFFF" || digits == "F025"
    ensures Numbers.IsDigits(digits, 16)
    ensures Numbers.DigitsValue(digits, 16) == if digits == "FFFF" then 0xFFFF else 0xF025
  {
    var d1, d2, d3 := digits[..1], digits[..2], digits[..3];
    assert d3[..2] == d2 && d2[..1] == d1 && d1[..0] == [];
    Numbers.DigitsValueLast(d1, 16);
    Numbers.DigitsValueLast(d2, 16);
    Numbers.DigitsValueLast(d3, 16);
    Numbers.DigitsValueLast(digits, 16);
  }

  /** `#05` and `#+5`: a leading zero and an explicit `+` are accepted. */
  lemma DecimalSpelling(sign: string, digits: string)
    requires (sign == "" && digits == "05") || (sign == "+" && digits == "5")
    ensures var r := AsImmediate(Token(Immediate, "#" + sign + digits)); r.Ok? && r.value == 5
  {
    assert digits[..|digits| - 1][..0] == [];
    Numbers.DigitsValueLast(digits, 10);
    if |digits| == 2 {
      Numbers.DigitsValueLast(digits[..1], 10);
    }
    ImmediateWellFormed('#', 10, sign, digits);
  }

  /** A `.BLKW` count and a register number read back the decimal text they were written with. */
  lemma NumberRoundTrip(v: int, registerMarker: char)
    requires Numbers.IntMin <= v <= Numbers.IntMax
    ensures AsNumber(Token(Number, Numbers.FormatInt(v, 10))).Ok? && AsNumber(Token(Number, Numbers.FormatInt(v, 10))).value == v
    ensures AsRegisterId(Token(Register, [registerMarker] + Numbers.FormatInt(v, 10))).Ok? && AsRegisterId(Token(Register, [registerMarker] + Numbers.FormatInt(v, 10))).value == v
  {
    Numbers.ParseFormatInt(v, 10);
    assert DropFirst([registerMarker] + Numbers.FormatInt(v, 10)) == Numbers.FormatInt(v, 10);
  }
}
