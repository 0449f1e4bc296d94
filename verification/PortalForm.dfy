/** Text helpers of main/http_portal/portal_form.c: JSON escaping and form decoding. */
module PortalForm {
  import opened WifiScan

  type Text = seq<Byte>

  /** A reader's outcome: the value and the unread text. */
  datatype Parsed<+T> = Fail | Got(value: T, rest: string)

  function HexDigit(n: nat): char
    requires n < 16
  {
    "0123456789abcdef"[n]
  }

  function GetHexValue(digit: char): int {
    if '0' <= digit <= '9' then digit as int - '0' as int
    else if 'a' <= digit <= 'f' then digit as int - 'a' as int + 10
    else if 'A' <= digit <= 'F' then digit as int - 'A' as int + 10
    else -1
  }

  lemma HexDigitValue(n: nat)
    requires n < 16
    ensures GetHexValue(HexDigit(n)) == n
  {
    assert HexDigit(n) == if n < 10 then (n + '0' as int) as char else (n - 10 + 'a' as int) as char;
  }

  /** `c` is the hexadecimal digit for `v`, in either case. */
  predicate IsHexOf(c: char, v: int) {
    0 <= v < 16 && (c == "0123456789abcdef"[v] || c == "0123456789ABCDEF"[v])
  }

  /** The digits of both cases have their values, and nothing else has one. */
  lemma HexValueIff(c: char, v: int)
    requires v >= 0
    ensures GetHexValue(c) == v <==> IsHexOf(c, v)
  {
    if v < 10 {
      assert "0123456789abcdef"[v] == "0123456789ABCDEF"[v] == (v + '0' as int) as char;
    } else if v < 16 {
      assert "0123456789abcdef"[v] == (v - 10 + 'a' as int) as char;
      assert "0123456789ABCDEF"[v] == (v - 10 + 'A' as int) as char;
    }
  }

  // JSON strings (section 7 of RFC 8259).

  predicate NeedsUnicode(b: Byte) {
    b < 0x20 || b as char in "<>&'"
  }

  function EscapeByte(b: Byte): (e: string)
    ensures 1 <= |e| <= 6
  {
    if NeedsUnicode(b) then "\\u00" + [HexDigit(b / 16), HexDigit(b % 16)]
    else if b as char in "\"\\" then ['\\', b as char]
    else [b as char]
  }

  /** Every byte is itself, except the two of JSON and the four of HTML, and the control characters as codes. */
  lemma EscapedByteIs(b: Byte)
    ensures EscapeByte(0x22) == "\\\"" && EscapeByte(0x5C) == "\\\\"
    ensures EscapeByte(0x26) == "\\u0026" && EscapeByte(0x27) == "\\u0027"
    ensures EscapeByte(0x3C) == "\\u003c" && EscapeByte(0x3E) == "\\u003e"
    ensures b < 0x10 ==> EscapeByte(b) == "\\u000" + ["0123456789abcdef"[b]]
    ensures 0x10 <= b < 0x20 ==> EscapeByte(b) == "\\u001" + ["0123456789abcdef"[b - 0x10]]
    ensures b >= 0x20 && b !in {0x22, 0x26, 0x27, 0x3C, 0x3E, 0x5C} ==> EscapeByte(b) == [b as char]
  {
    if b < 0x20 {
      assert b / 16 == (if b < 0x10 then 0 else 1) && b % 16 == if b < 0x10 then b else b - 0x10;
    }
  }

  function Escape(text: Text): string {
    if text == [] then "" else EscapeByte(text[0]) + Escape(text[1..])
  }

  /** The text of a JSON string up to its closing quote, bytes 0 to 255 only. */
  function ReadString(s: string): (r: Parsed<Text>)
    ensures r.Got? ==> |r.rest| < |s|
  {
    if s == "" then Fail
    else if s[0] == '"' then Got([], s[1..])
    else
      var c := ReadCharacter(s);
      if c.Fail? then Fail
      else
        var tail := ReadString(c.rest);
        if tail.Fail? then Fail else Got([c.value] + tail.value, tail.rest)
  }

  /** What the letter after a backslash stands for; -1 for none of the two-character escapes. */
  function ShortEscape(letter: char): int {
    if letter in "\"\\/" then letter as int
    else if letter == 'b' then 0x08
    else if letter == 'f' then 0x0C
    else if letter == 'n' then 0x0A
    else if letter == 'r' then 0x0D
    else if letter == 't' then 0x09
    else -1
  }

  /** One character: itself, a two-character escape, or a four-digit code of a byte. */
  function ReadCharacter(s: string): (r: Parsed<Byte>)
    requires s != ""
    ensures r.Got? ==> |r.rest| < |s|
  {
    if s[0] == '\\' then
      if |s| >= 2 && 0 <= ShortEscape(s[1]) < 256 then Got(ShortEscape(s[1]), s[2..])
      else if |s| >= 6 && s[1..4] == "u00" && GetHexValue(s[4]) >= 0 && GetHexValue(s[5]) >= 0 then
        Got(16 * GetHexValue(s[4]) + GetHexValue(s[5]), s[6..])
      else Fail
    else if 0x20 <= s[0] as int < 256 then Got(s[0] as int, s[1..])
    else Fail
  }

  lemma ReadEscapedByte(b: Byte, rest: string)
    ensures var s := EscapeByte(b) + rest; ReadCharacter(s) == Got(b, rest) && s[0] != '"'
  {
    var s := EscapeByte(b) + rest;
    if NeedsUnicode(b) {
      HexDigitValue(b / 16);
      HexDigitValue(b % 16);
      assert s[1..4] == "u00" && s[6..] == rest;
    } else if b as char in "\"\\" {
      assert s[2..] == rest;
    } else {
      assert s[1..] == rest;
    }
  }

  /** Reading a quoted escaped text gives back the text, byte for byte. */
  lemma {:induction false} UnescapeEscape(text: Text, rest: string)
    ensures ReadString(Escape(text) + "\"" + rest) == Got(text, rest)
  {
    var s := Escape(text) + "\"" + rest;
    if text == [] {
      assert s == "\"" + rest && s[1..] == rest;
    } else {
      var tail := Escape(text[1..]) + "\"" + rest;
      assert s == EscapeByte(text[0]) + tail;
      ReadEscapedByte(text[0], tail);
      UnescapeEscape(text[1..], rest);
      assert [text[0]] + text[1..] == text;
    }
  }

  /** No control character and no markup character survives, and the length is bounded by the worst case. */
  lemma {:induction false} EscapeIsInert(text: Text)
    ensures forall k :: 0 <= k < |Escape(text)| ==> Escape(text)[k] as int >= 0x20 && Escape(text)[k] !in "<>&'"
    ensures |text| <= |Escape(text)| <= 6 * |text|
  {
    if text != [] {
      EscapeIsInert(text[1..]);
      var e := EscapeByte(text[0]);
      forall k | 0 <= k < |e| ensures e[k] as int >= 0x20 && e[k] !in "<>&'" {
        if NeedsUnicode(text[0]) {
          HexDigitIsPlain(text[0] / 16);
          HexDigitIsPlain(text[0] % 16);
        }
      }
    }
  }

  lemma HexDigitIsPlain(n: nat)
    requires n < 16
    ensures HexDigit(n) as int >= 0x20 && HexDigit(n) !in "<>&'"
  {
    HexDigitValue(n);
  }

  lemma {:induction false} EscapeConcat(a: Text, b: Text)
    ensures Escape(a + b) == Escape(a) + Escape(b)
  {
    if a == [] {
      assert a + b == b;
    } else {
      var ab := a + b;
      EscapeConcat(a[1..], b);
      assert ab[0] == a[0] && ab[1..] == a[1..] + b;
      Associate(EscapeByte(a[0]), Escape(a[1..]), Escape(b));
    }
  }

  lemma Associate(x: string, y: string, z: string)
    ensures x + (y + z) == (x + y) + z
  {
  }

  /** Writes the escaped text and its terminator if they fit; reports 0 if they do not. */
  method EscapeJsonString(input: Text, output: array<char>) returns (length: nat)
    modifies output
    ensures |Escape(input)| < output.Length ==>
              length == |Escape(input)| && output[..length] == Escape(input) && output[length] == '\0'
    ensures |Escape(input)| >= output.Length ==> length == 0
  {
    hide EscapeByte; hide Escape;
    length := 0;
    assert Escape([]) == "" by { NothingEscaped(); }
    assert input[..0] == [];
    var cursor := 0;
    while cursor < |input|
      invariant 0 <= cursor <= |input|
      invariant length == |Escape(input[..cursor])|
      invariant cursor > 0 ==> length < output.Length
      invariant length <= output.Length && output[..length] == Escape(input[..cursor])
    {
      var escaped := EscapeByte(input[cursor]);
      ghost var done := output[..length];
      PrefixGrows(input, cursor);
      if length + |escaped| + 1 > output.Length {
        return 0;
      }
      forall k | length <= k < length + |escaped| {
        output[k] := escaped[k - length];
      }
      assert output[..length] == done;
      assert forall k :: 0 <= k < |escaped| ==> output[length + k] == escaped[k];
      assert output[length..length + |escaped|] == escaped;
      assert output[..length + |escaped|] == output[..length] + output[length..length + |escaped|];
      length := length + |escaped|;
      cursor := cursor + 1;
    }
    assert input[..cursor] == input;
    if output.Length == 0 {
      return 0;
    }
    output[length] := '\0';
  }

  lemma NothingEscaped()
    ensures Escape([]) == ""
  {
  }

  lemma PrefixGrows(text: Text, cursor: nat)
    requires cursor < |text|
    ensures Escape(text[..cursor + 1]) == Escape(text[..cursor]) + EscapeByte(text[cursor])
    ensures |Escape(text)| >= |Escape(text[..cursor + 1])|
  {
    assert text[..cursor + 1] == text[..cursor] + [text[cursor]];
    EscapeConcat(text[..cursor], [text[cursor]]);
    assert Escape([text[cursor]]) == EscapeByte(text[cursor]);
    assert text == text[..cursor + 1] + text[cursor + 1..];
    EscapeConcat(text[..cursor + 1], text[cursor + 1..]);
  }

  // Form values.

  type Character = c: char | (c as int) < 256 witness '0'

  /** The byte a form-encoded text starts with; -1 for a broken escape. */
  function FormByte(input: seq<Character>): (b: int)
    requires input != []
    ensures -1 <= b < 256 && (b >= 0 ==> Step(input) <= |input|)
  {
    if input[0] == '+' then 0x20
    else if input[0] != '%' then input[0] as int
    else if |input| < 3 || GetHexValue(input[1]) < 0 || GetHexValue(input[2]) < 0 then -1
    else 16 * GetHexValue(input[1]) + GetHexValue(input[2])
  }

  function Step(input: seq<Character>): nat
    requires input != []
  {
    if input[0] == '%' then 3 else 1
  }

  /** The text of a form-encoded value; nothing for a broken escape or a zero byte. */
  function FormValue(input: seq<Character>): Parsed<Text> {
    if input == [] then Got([], "")
    else if FormByte(input) <= 0 then Fail
    else
      var tail := FormValue(input[Step(input)..]);
      if tail.Fail? then Fail else Got([FormByte(input)] + tail.value, "")
  }

  /** A plus for a space, a two-digit code in either case for anything, or the byte itself. */
  ghost predicate EncodesByte(e: seq<Character>, b: Byte) {
    || (e == ['+'] && b == 0x20)
    || (|e| == 3 && e[0] == '%' && IsHexOf(e[1], b / 16) && IsHexOf(e[2], b % 16))
    || (|e| == 1 && e[0] !in "+%" && e[0] as int == b)
  }

  ghost predicate EncodesText(input: seq<Character>, text: Text)
    decreases |text|, 1
  {
    if text == [] then input == []
    else exists n: nat :: IsCut(input, n, text)
  }

  ghost predicate IsCut(input: seq<Character>, n: nat, text: Text)
    requires text != []
    decreases |text|, 0
  {
    n <= |input| && text[0] != 0 && EncodesByte(input[..n], text[0]) && EncodesText(input[n..], text[1..])
  }

  /** The decoder accepts exactly the encodings of texts without a zero byte, and gives back the encoded text. */
  lemma {:induction false} DecodesExactlyEncodings(input: seq<Character>, text: Text)
    ensures FormValue(input) == Got(text, "") <==> EncodesText(input, text)
    decreases |input|
  {
    if input == [] {
      if text != [] {
        assert forall n: nat :: !IsCut(input, n, text);
      }
    } else if text != [] {
      FirstByteEncoded(input, text[0]);
      if FormByte(input) > 0 {
        DecodesExactlyEncodings(input[Step(input)..], text[1..]);
        if FormValue(input) == Got(text, "") {
          assert IsCut(input, Step(input), text);
        }
      }
      if n: nat :| IsCut(input, n, text) {
        assert input[..n][0] == input[0];
        assert [text[0]] + text[1..] == text;
      }
    }
  }

  lemma FirstByteEncoded(input: seq<Character>, b: Byte)
    requires input != []
    ensures forall n: nat :: n <= |input| && EncodesByte(input[..n], b) ==> n == Step(input) && FormByte(input) == b
    ensures FormByte(input) == b ==> EncodesByte(input[..Step(input)], b)
  {
    hide IsHexOf;
    if |input| >= 3 {
      HexValueIff(input[1], b / 16);
      HexValueIff(input[2], b % 16);
    }
    forall n: nat | n <= |input| && EncodesByte(input[..n], b) ensures n == Step(input) && FormByte(input) == b {
      assert forall k :: 0 <= k < n ==> input[..n][k] == input[k];
    }
    if FormByte(input) == b {
      assert forall k :: 0 <= k < Step(input) ==> input[..Step(input)][k] == input[k];
    }
  }

  lemma FormValueStep(input: seq<Character>, index: nat)
    requires index < |input|
    ensures var left := input[index..];
      FormValue(left) == if FormByte(left) <= 0 then Fail
      else
        assert left[Step(left)..] == input[index + Step(left)..];
        var tail := FormValue(input[index + Step(left)..]);
        if tail.Fail? then Fail else Got([FormByte(left)] + tail.value, "")
  {
    var left := input[index..];
    if FormByte(left) > 0 {
      assert left[Step(left)..] == input[index + Step(left)..];
    }
  }

  /** Decodes into the buffer; succeeds exactly when the input is an encoding and its text and terminator fit. */
  method DecodeFormValue(input: seq<Character>, output: array<char>) returns (ok: bool, ghost text: Text)
    modifies output
    ensures ok <==> FormValue(input).Got? && |FormValue(input).value| < output.Length
    ensures ok ==> text == FormValue(input).value && output[|text|] == '\0'
    ensures ok ==> forall k :: 0 <= k < |text| ==> output[k] as int == text[k]
  {
    hide FormValue; hide FormByte;
    text := [];
    var length := 0;
    var index := 0;
    assert input[0..] == input;
    while index < |input|
      invariant 0 <= index <= |input| && length == |text| && (length > 0 ==> length < output.Length)
      invariant forall k :: 0 <= k < length ==> output[k] as int == text[k]
      invariant FormValue(input).Fail? <==> FormValue(input[index..]).Fail?
      invariant FormValue(input).Got? ==> FormValue(input).value == text + FormValue(input[index..]).value
    {
      FormValueStep(input, index);
      var value, next := DecodeFormByte(input, index);
      if value <= 0 || length + 1 >= output.Length {
        return false, text;
      }
      output[length] := value as char;
      length := length + 1;
      index := next;
      text := text + [value];
    }
    assert FormValue(input[index..]) == Got([], "") by { NothingDecoded(input[index..]); }
    if output.Length == 0 {
      return false, text;
    }
    output[length] := '\0';
    ok := true;
  }

  lemma NothingDecoded(input: seq<Character>)
    requires input == []
    ensures FormValue(input) == Got([], "")
  {
  }

  /** The byte at `index` and the position after it; -1 for a broken escape. */
  method DecodeFormByte(input: seq<Character>, index: nat) returns (value: int, next: nat)
    requires index < |input|
    ensures value == FormByte(input[index..]) && -1 <= value < 256
    ensures value >= 0 ==> next == index + Step(input[index..]) && next <= |input|
  {
    ghost var left := input[index..];
    value, next := input[index] as int, index + 1;
    if input[index] == '+' {
      value := 0x20;
    } else if input[index] == '%' {
      if index + 2 >= |input| {
        return -1, next;
      }
      var high, low := GetHexValue(input[index + 1]), GetHexValue(input[index + 2]);
      assert left[1] == input[index + 1] && left[2] == input[index + 2];
      if high < 0 || low < 0 {
        return -1, next;
      }
      value := 16 * high + low;
      next := index + 3;
    }
  }
}
