/** Escaping of text that comes from the analysed sources before it reaches a terminal. */
module ConsoleSanitize {

  /** General category Cc. */
  predicate IsControl(c: char) {
    c as int < 0x20 || 0x7F <= c as int <= 0x9F
  }

  /** The characters the program treats as category Cf. */
  predicate IsCf(c: char) {
    var n := c as int;
    || n == 0xAD || n == 0x61C || n == 0x180E
    || 0x200B <= n <= 0x200F || 0x202A <= n <= 0x202E
    || 0x2060 <= n <= 0x2064 || 0x2066 <= n <= 0x2069
    || n == 0xFEFF || 0xFFF9 <= n <= 0xFFFB
    || n == 0xE0001 || 0xE0020 <= n <= 0xE007F
  }

  predicate IsNeutralized(c: char) {
    IsControl(c) || IsCf(c) || c as int == 0x2028 || c as int == 0x2029
  }

  /** Everything neutralised, range by range: the controls, the format characters and the two separators. */
  const NEUTRALIZED: seq<(int, int)> :=
    [(0x0, 0x1F), (0x7F, 0x9F), (0xAD, 0xAD), (0x61C, 0x61C), (0x180E, 0x180E), (0x200B, 0x200F), (0x2028, 0x202E),
     (0x2060, 0x2064), (0x2066, 0x2069), (0xFEFF, 0xFEFF), (0xFFF9, 0xFFFB), (0xE0001, 0xE0001), (0xE0020, 0xE007F)]

  predicate InRange(n: int, range: (int, int)) {
    range.0 <= n <= range.1
  }

  lemma NeutralizedExactly(c: char)
    ensures IsNeutralized(c) <==> exists i :: 0 <= i < |NEUTRALIZED| && InRange(c as int, NEUTRALIZED[i])
  {
    var n := c as int;
    assert 0 <= n;
    assert IsNeutralized(c) <==>
      || InRange(n, NEUTRALIZED[0]) || InRange(n, NEUTRALIZED[1]) || InRange(n, NEUTRALIZED[2]) || InRange(n, NEUTRALIZED[3])
      || InRange(n, NEUTRALIZED[4]) || InRange(n, NEUTRALIZED[5]) || InRange(n, NEUTRALIZED[6]) || InRange(n, NEUTRALIZED[7])
      || InRange(n, NEUTRALIZED[8]) || InRange(n, NEUTRALIZED[9]) || InRange(n, NEUTRALIZED[10]) || InRange(n, NEUTRALIZED[11])
      || InRange(n, NEUTRALIZED[12]);
  }

  function HexDigit(d: nat): char
    requires d < 16
  {
    if d < 10 then ('0' as int + d) as char else ('a' as int + d - 10) as char
  }

  /** Lower-case hexadecimal without leading zeros. */
  function Hex(n: nat): string {
    if n < 16 then [HexDigit(n)] else Hex(n / 16) + [HexDigit(n % 16)]
  }

  function Escaped(c: char): string {
    if c == '\\' then "\\\\"
    else if IsNeutralized(c) then "\\u{" + Hex(c as nat) + "}"
    else [c]
  }

  /** The specification of the escaping. */
  function Sanitized(input: string): string {
    if input == "" then "" else Sanitized(input[..|input| - 1]) + Escaped(input[|input| - 1])
  }

  method SanitizeConsoleText(input: string) returns (sanitized: string)
    ensures sanitized == Sanitized(input)
  {
    sanitized := "";
    for i := 0 to |input|
      invariant sanitized == Sanitized(input[..i])
    {
      var c := input[i];
      assert input[..i + 1][..i] == input[..i];
      if c == '\\' {
        sanitized := sanitized + "\\\\";
      } else if IsNeutralized(c) {
        sanitized := sanitized + ("\\u{" + Hex(c as nat) + "}");
      } else {
        sanitized := sanitized + [c];
      }
    }
    assert input[..|input|] == input;
  }

  // ----- nothing dangerous comes out -----

  lemma {:induction false} HexIsPlain(n: nat, c: char)
    requires c in Hex(n)
    ensures '0' <= c <= '9' || 'a' <= c <= 'f'
  {
    if n >= 16 && c in Hex(n / 16) {
      HexIsPlain(n / 16, c);
    }
  }

  lemma {:induction false} NothingNeutralizedLeft(input: string, c: char)
    requires c in Sanitized(input)
    ensures !IsNeutralized(c)
  {
    hide Hex;
    var last := input[|input| - 1];
    if c in Sanitized(input[..|input| - 1]) {
      NothingNeutralizedLeft(input[..|input| - 1], c);
    } else if last != '\\' && IsNeutralized(last) && c in Hex(last as nat) {
      HexIsPlain(last as nat, c);
    }
  }

  predicate IsPlain(c: char) {
    c != '\\' && !IsNeutralized(c)
  }

  lemma EscapedLength(c: char)
    ensures |Escaped(c)| >= 1 && (|Escaped(c)| == 1 <==> IsPlain(c)) && (IsPlain(c) ==> Escaped(c) == [c])
  {
    hide IsNeutralized, Hex;
  }

  predicate NeedsNoEscape(input: string) {
    forall i :: 0 <= i < |input| ==> IsPlain(input[i])
  }

  /** Text is left alone exactly when it holds no backslash and nothing to neutralise. */
  lemma {:induction false} UnchangedIffPlain(input: string)
    ensures |Sanitized(input)| >= |input|
    ensures Sanitized(input) == input <==> NeedsNoEscape(input)
  {
    hide IsPlain, Escaped;
    if input != "" {
      var rest, last := input[..|input| - 1], input[|input| - 1];
      UnchangedIffPlain(rest);
      EscapedLength(last);
      assert input == rest + [last];
      if Sanitized(input) == input {
        assert |Sanitized(rest)| == |rest| && Sanitized(input)[..|rest|] == Sanitized(rest);
      }
    }
  }

  /** Of the tag block a program comment names as a whole, one stretch and one character go through unchanged. */
  lemma TagBlockExactly(c: char)
    requires 0xE0000 <= c as int <= 0xE007F
    ensures Sanitized([c]) == [c] <==> c as int == 0xE0000 || 0xE0002 <= c as int <= 0xE001F
  {
    UnchangedIffPlain([c]);
    NeutralizedExactly(c);
    assert NeedsNoEscape([c]) <==> IsPlain(c) by { assert [c][0] == c; }
  }

  // ----- a decoder -----

  datatype Parsed = Text(text: string) | Malformed

  datatype Code = Code(value: nat, rest: string) | NoCode

  function HexValue(c: char): (v: int)
    ensures -1 <= v < 16
  {
    if '0' <= c <= '9' then c as int - '0' as int
    else if 'a' <= c <= 'f' then c as int - 'a' as int + 10
    else -1
  }

  /** Reads hexadecimal digits up to the closing brace. */
  function ReadCode(text: string, acc: nat): (r: Code)
    ensures r.Code? ==> |r.rest| < |text|
  {
    if text == "" then NoCode
    else if text[0] == '}' then Code(acc, text[1..])
    else if HexValue(text[0]) < 0 then NoCode
    else ReadCode(text[1..], acc * 16 + HexValue(text[0]))
  }

  predicate IsScalar(n: nat) {
    n < 0xD800 || 0xE000 <= n < 0x11_0000
  }

  function Prepend(c: char, tail: Parsed): Parsed {
    match tail
    case Text(t) => Text([c] + t)
    case Malformed => Malformed
  }

  function Unescape(text: string): Parsed
    decreases |text|
  {
    if text == "" then Text("")
    else if text[0] != '\\' then Prepend(text[0], Unescape(text[1..]))
    else if |text| > 1 && text[1] == '\\' then Prepend('\\', Unescape(text[2..]))
    else if |text| > 2 && text[1] == 'u' && text[2] == '{' then
      match ReadCode(text[3..], 0)
      case NoCode => Malformed
      case Code(n, rest) => if IsScalar(n) then Prepend(n as char, Unescape(rest)) else Malformed
    else Malformed
  }

  lemma {:induction false} ReadHex(n: nat, tail: string)
    ensures ReadCode(Hex(n) + tail, 0) == ReadCode(tail, n)
  {
    if n < 16 {
      assert (Hex(n) + tail)[1..] == tail;
    } else {
      var d := HexDigit(n % 16);
      assert Hex(n) + tail == Hex(n / 16) + ([d] + tail);
      ReadHex(n / 16, [d] + tail);
      assert ([d] + tail)[1..] == tail;
    }
  }

  /** One escaped character is read back, whatever follows it. */
  lemma UnescapeOne(c: char, tail: string)
    ensures Unescape(Escaped(c) + tail) == Prepend(c, Unescape(tail))
  {
    hide IsNeutralized, IsCf, IsControl, Hex, Prepend;
    var text := Escaped(c) + tail;
    if c == '\\' {
      assert text[2..] == tail;
    } else if IsNeutralized(c) {
      assert text[3..] == Hex(c as nat) + ("}" + tail);
      ReadHex(c as nat, "}" + tail);
      assert ("}" + tail)[1..] == tail;
    } else {
      assert text[1..] == tail;
    }
  }

  function PrependAll(head: string, tail: Parsed): Parsed {
    match tail
    case Text(t) => Text(head + t)
    case Malformed => Malformed
  }

  lemma {:induction false} UnescapePrefix(input: string, tail: string)
    ensures Unescape(Sanitized(input) + tail) == PrependAll(input, Unescape(tail))
  {
    hide IsNeutralized, Escaped, Unescape;
    if input == "" {
      assert Sanitized(input) + tail == tail;
      assert forall t: string :: "" + t == t;
    } else {
      var rest := input[..|input| - 1];
      var last := input[|input| - 1];
      assert Sanitized(input) + tail == Sanitized(rest) + (Escaped(last) + tail);
      UnescapePrefix(rest, Escaped(last) + tail);
      UnescapeOne(last, tail);
      if Unescape(tail).Text? {
        assert rest + ([last] + Unescape(tail).text) == input + Unescape(tail).text;
      }
    }
  }

  /** Every input can be read back from its sanitised form. */
  lemma RoundTrip(input: string)
    ensures Unescape(Sanitized(input)) == Text(input)
  {
    UnescapePrefix(input, "");
    assert Sanitized(input) + "" == Sanitized(input);
    assert input + "" == input;
  }

  /** So no two inputs look the same on the terminal. */
  lemma SanitizedInjective(a: string, b: string)
    requires Sanitized(a) == Sanitized(b)
    ensures a == b
  {
    RoundTrip(a);
    RoundTrip(b);
  }
}
