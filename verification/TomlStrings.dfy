/** One-line TOML strings, written without escaping and read back by the loader. */
module TomlStrings {
  import opened Text

  // ---- reading ------------------------------------------------------------

  /** Control characters a TOML string may not hold: all but the tab. */
  predicate Control(c: char) {
    (c as int < 0x20 && c != '\t') || c as int == 0x7F
  }

  function HexDigit(c: char): Option<nat> {
    if '0' <= c <= '9' then Some(c as nat - '0' as nat)
    else if 'a' <= c <= 'f' then Some(c as nat - 'a' as nat + 10)
    else if 'A' <= c <= 'F' then Some(c as nat - 'A' as nat + 10)
    else None
  }

  function Hex(digits: string): Option<nat> {
    if digits == "" then Some(0)
    else
      match (Hex(digits[..|digits| - 1]), HexDigit(digits[|digits| - 1]))
      case (Some(high), Some(low)) => Some(16 * high + low)
      case (_, _) => None
  }

  datatype Escape = Escape(c: char, size: nat)

  function CodePoint(s: string, digits: nat): Option<Escape> {
    if |s| < digits + 2 then None
    else
      match Hex(s[2..digits + 2])
      case None => None
      case Some(n) =>
        if n < 0xD800 || 0xE000 <= n < 0x11_0000 then Some(Escape(n as char, digits + 2)) else None
  }

  /** The escape at the head of `s`, which starts with a backslash. */
  function ReadEscape(s: string): (r: Option<Escape>)
    requires s != ""
    ensures r.Some? ==> 2 <= r.value.size <= |s|
  {
    if |s| == 1 then None
    else
      match s[1]
      case 'b' => Some(Escape(8 as char, 2))
      case 't' => Some(Escape('\t', 2))
      case 'n' => Some(Escape('\n', 2))
      case 'f' => Some(Escape(12 as char, 2))
      case 'r' => Some(Escape('\r', 2))
      case '"' => Some(Escape('"', 2))
      case '\\' => Some(Escape('\\', 2))
      case 'u' => CodePoint(s, 4)
      case 'U' => CodePoint(s, 8)
      case _ => None
  }

  datatype Reading = Reading(value: string, rest: string)

  function Prepend(c: char, r: Option<Reading>): Option<Reading> {
    if r.None? then None else Some(Reading([c] + r.value.value, r.value.rest))
  }

  /** Reads up to the closing quote, or the three closing quotes of a string opened by three
      (which may follow one or two quotes of its own). */
  function ReadBody(s: string, triple: bool): Option<Reading>
    decreases |s|
  {
    if s == "" || Control(s[0]) then None
    else if s[0] == '\\' then
      var e := ReadEscape(s);
      if e.None? then None else Prepend(e.value.c, ReadBody(s[e.value.size..], triple))
    else if s[0] != '"' then Prepend(s[0], ReadBody(s[1..], triple))
    else if !triple then Some(Reading("", s[1..]))
    else if "\"\"\"\"\"" <= s then Some(Reading("\"\"", s[5..]))
    else if "\"\"\"\"" <= s then Some(Reading("\"", s[4..]))
    else if "\"\"\"" <= s then Some(Reading("", s[3..]))
    else Prepend('"', ReadBody(s[1..], triple))
  }

  /** What may follow a value on its line: blanks and a comment. */
  predicate EndsLine(s: string) {
    if s == "" then true
    else if s[0] == ' ' || s[0] == '\t' then EndsLine(s[1..])
    else s[0] == '#' && forall c :: c in s ==> !Control(c)
  }

  /** The value of a line whose text after the equals sign starts with a quote. */
  function ReadValue(text: string): Option<string>
    requires text != ""
  {
    var r := if "\"\"\"" <= text then ReadBody(text[3..], true) else ReadBody(text[1..], false);
    if r.Some? && EndsLine(r.value.rest) then Some(r.value.value) else None
  }

  // ---- writing ------------------------------------------------------------

  /** The writer puts the value between quotes as it is. */
  function Quoted(value: string): string { "\"" + value + "\"" }

  function ReadBack(value: string): Option<string> { ReadValue(Quoted(value)) }

  predicate PlainChar(c: char) { c != '"' && c != '\\' && !Control(c) }

  predicate Plain(s: string) { forall c :: c in s ==> PlainChar(c) }

  /** Character by character: a tab is plain, a quote, a backslash and other controls are not. */
  lemma PlainCharMeaning(c: char)
    ensures PlainChar(c) <==>
      c == '\t' || (0x20 <= c as int && c as int != 0x22 && c as int != 0x5C && c as int != 0x7F)
  {
  }

  /** The one-letter escapes, wherever they stand. */
  lemma ShortEscapes(rest: string, triple: bool)
    ensures ReadBody("\\b" + rest, triple) == Prepend(0x08 as char, ReadBody(rest, triple))
    ensures ReadBody("\\t" + rest, triple) == Prepend(0x09 as char, ReadBody(rest, triple))
    ensures ReadBody("\\n" + rest, triple) == Prepend(0x0A as char, ReadBody(rest, triple))
    ensures ReadBody("\\f" + rest, triple) == Prepend(0x0C as char, ReadBody(rest, triple))
    ensures ReadBody("\\r" + rest, triple) == Prepend(0x0D as char, ReadBody(rest, triple))
    ensures ReadBody("\\\"" + rest, triple) == Prepend('"', ReadBody(rest, triple))
    ensures ReadBody("\\\\" + rest, triple) == Prepend('\\', ReadBody(rest, triple))
  {
    ShortEscape("\\b", rest, triple);
    ShortEscape("\\t", rest, triple);
    ShortEscape("\\n", rest, triple);
    ShortEscape("\\f", rest, triple);
    ShortEscape("\\r", rest, triple);
    ShortEscape("\\\"", rest, triple);
    ShortEscape("\\\\", rest, triple);
  }

  lemma ShortEscape(e: string, rest: string, triple: bool)
    requires |e| == 2 && e[0] == '\\' && e[1] != 'u' && e[1] != 'U'
    ensures ReadBody(e + rest, triple) ==
      if ReadEscape(e).None? then None else Prepend(ReadEscape(e).value.c, ReadBody(rest, triple))
  {
    assert (e + rest)[0] == e[0] && (e + rest)[1] == e[1] && (e + rest)[2..] == rest;
  }

  function Digit(n: nat): char
    requires n < 16
  {
    if n < 10 then ('0' as nat + n) as char else ('a' as nat + n - 10) as char
  }

  lemma DigitReads(n: nat)
    requires n < 16
    ensures HexDigit(Digit(n)) == Some(n)
  {
  }

  /** Four hexadecimal digits name a character, unless they name half of a surrogate pair. */
  lemma CodePointReads(a: nat, b: nat, c: nat, d: nat, rest: string, triple: bool)
    requires a < 16 && b < 16 && c < 16 && d < 16
    ensures var n := 4096 * a + 256 * b + 16 * c + d;
      ReadBody(['\\', 'u', Digit(a), Digit(b), Digit(c), Digit(d)] + rest, triple) ==
        if 0xD800 <= n < 0xE000 then None else Prepend(n as char, ReadBody(rest, triple))
  {
    var e := ['\\', 'u', Digit(a), Digit(b), Digit(c), Digit(d)];
    var s := e + rest;
    assert s[..6] == e && s[0] == '\\' && s[1] == 'u' && s[6..] == rest;
    assert s[2..6] == [Digit(a), Digit(b), Digit(c), Digit(d)];
    FourDigits(a, b, c, d);
  }

  lemma FourDigits(a: nat, b: nat, c: nat, d: nat)
    requires a < 16 && b < 16 && c < 16 && d < 16
    ensures Hex([Digit(a), Digit(b), Digit(c), Digit(d)]) == Some(4096 * a + 256 * b + 16 * c + d)
  {
    DigitReads(a);
    DigitReads(b);
    DigitReads(c);
    DigitReads(d);
    var w, x, y, z := Digit(a), Digit(b), Digit(c), Digit(d);
    HexNext([], w);
    HexNext([w], x);
    HexNext([w, x], y);
    HexNext([w, x, y], z);
    assert [] + [w] == [w] && [w] + [x] == [w, x] && [w, x] + [y] == [w, x, y] && [w, x, y] + [z] == [w, x, y, z];
  }

  lemma HexNext(digits: string, last: char)
    ensures Hex(digits + [last]) ==
      if Hex(digits).None? || HexDigit(last).None? then None
      else Some(16 * Hex(digits).value + HexDigit(last).value)
  {
    assert (digits + [last])[..|digits|] == digits;
  }

  lemma {:induction false} PlainRead(p: string, rest: string)
    requires Plain(p)
    ensures var r := ReadBody(rest, false);
      ReadBody(p + rest, false) == if r.None? then None else Some(Reading(p + r.value.value, r.value.rest))
  {
    if p == "" {
      assert p + rest == rest;
      var r := ReadBody(rest, false);
      assert r.Some? ==> "" + r.value.value == r.value.value;
    } else {
      assert p == [p[0]] + p[1..] && PlainChar(p[0]);
      assert (p + rest)[0] == p[0] && (p + rest)[1..] == p[1..] + rest;
      PlainRead(p[1..], rest);
      var r := ReadBody(rest, false);
      assert r.Some? ==> [p[0]] + (p[1..] + r.value.value) == p + r.value.value;
    }
  }

  /** Reading never lengthens a text: each quote costs its character and each escape at least
      one, so only a plain one-line string comes out as long as it went in. */
  lemma {:induction false} ReadBodyShrinks(s: string, triple: bool)
    ensures var r := ReadBody(s, triple);
      r.Some? ==>
        && |r.value.value| + |r.value.rest| + (if triple then 3 else 1) <= |s|
        && (|r.value.value| + |r.value.rest| + 1 == |s| ==> Plain(s[..|r.value.value|]))
    decreases |s|
  {
    if s != "" && !Control(s[0]) {
      if s[0] == '\\' {
        var e := ReadEscape(s);
        if e.Some? { ReadBodyShrinks(s[e.value.size..], triple); }
      } else {
        ReadBodyShrinks(s[1..], triple);
        var r := ReadBody(s, triple);
        if r.Some? && s[0] != '"' {
          var n := |r.value.value|;
          assert s[..n] == [s[0]] + s[1..][..n - 1];
        }
      }
    }
  }

  /** A value survives being written and read exactly when it has no quote, no backslash and
      no control character; any other value is rejected or comes back shorter. */
  lemma ReadBackIffPlain(v: string)
    ensures ReadBack(v) == Some(v) <==> Plain(v)
    ensures ReadBack(v).Some? && !Plain(v) ==> |ReadBack(v).value| < |v|
  {
    var text := Quoted(v);
    assert text[1..] == v + "\"";
    if Plain(v) {
      PlainRead(v, "\"");
      if v != "" { assert text[1] == v[0] && v[0] in v; }
      assert !("\"\"\"" <= text);
      assert v + "" == v;
    } else if "\"\"\"" <= text {
      ReadBodyShrinks(text[3..], true);
    } else {
      assert (v + "\"")[..|v|] == v;
      ReadBodyShrinks(text[1..], false);
    }
  }

  /** Without quotes and backslashes only control characters stand in the way. */
  lemma {:induction false} ControlRejected(p: string, rest: string)
    requires '"' !in p && '\\' !in p && !Plain(p)
    ensures ReadBody(p + rest, false).None?
  {
    assert (p + rest)[1..] == p[1..] + rest;
    assert p == [p[0]] + p[1..];
    if !Control(p[0]) {
      ControlRejected(p[1..], rest);
    }
  }

  lemma QuoteFreeReadsIffPlain(v: string)
    requires '"' !in v && '\\' !in v
    ensures ReadBack(v).Some? <==> Plain(v)
  {
    ReadBackIffPlain(v);
    if !Plain(v) {
      var text := Quoted(v);
      assert text[1..] == v + "\"";
      assert text[1] == v[0] && v[0] in v;
      ControlRejected(v, "\"");
    }
  }
}
