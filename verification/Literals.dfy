/** Caller's text inside a query (src/api/mod.rs 265-295), read back by the rules of the SPARQL 1.1 Query
    Language: codepoint escapes (section 19.2), string escapes (19.7), STRING_LITERAL2 (19.8). */
module Literals {
  import opened Options

  predicate Control(c: char) {
    c as int < 0x20 || c as int == 0x7f
  }

  function HexDigit(n: nat): char
    requires n < 16
  {
    if n < 10 then ('0' as int + n) as char else ('A' as int + n - 10) as char
  }

  function EscapeChar(c: char): string {
    if c == '\\' then ['\\', '\\']
    else if c == '"' then ['\\', '"']
    else if c == '\n' then ['\\', 'n']
    else if c == '\r' then ['\\', 'r']
    else if c == '\t' then ['\\', 't']
    else if Control(c) then ['\\', 'u', '0', '0', HexDigit(c as int / 16), HexDigit(c as int % 16)]
    else [c]
  }

  function Escaped(s: string): string {
    if s == "" then "" else EscapeChar(s[0]) + Escaped(s[1..])
  }

  lemma {:induction false} EscapedOneMore(s: string, c: char)
    ensures Escaped(s + [c]) == Escaped(s) + EscapeChar(c)
  {
    if s == "" {
      assert (s + [c])[1..] == "";
    } else {
      assert (s + [c])[1..] == s[1..] + [c];
      EscapedOneMore(s[1..], c);
    }
  }

  method EscapeLiteral(s: string) returns (out: string)
    ensures out == Escaped(s)
  {
    out := "";
    for i := 0 to |s|
      invariant out == Escaped(s[..i])
    {
      assert s[..i + 1] == s[..i] + [s[i]];
      EscapedOneMore(s[..i], s[i]);
      out := out + EscapeChar(s[i]);
    }
    assert s[..|s|] == s;
  }

  /** Text of no special character is written as it is, and no control character is written raw. */
  lemma {:induction false} EscapedText(s: string)
    ensures (forall c | c in s :: c != '\\' && c != '"' && 0x20 <= c as int && c as int != 0x7f) ==> Escaped(s) == s
    ensures forall c | c in Escaped(s) :: 0x20 <= c as int && c as int != 0x7f
  {
    if s != "" {
      EscapedText(s[1..]);
      assert s == [s[0]] + s[1..] && s[0] in s;
      assert forall c | c in s[1..] :: c in s;
      HexDigitShown(s[0]);
    }
  }

  lemma HexDigitShown(c: char)
    ensures forall d | d in EscapeChar(c) :: 0x20 <= d as int && d as int != 0x7f
  {
    var r := EscapeChar(c);
    forall k | 0 <= k < |r|
      ensures 0x20 <= r[k] as int && r[k] as int != 0x7f
    {
    }
  }

  // ----------------------------------------------------------------- reading a literal back

  predicate Hex(c: char) {
    '0' <= c <= '9' || 'A' <= c <= 'F' || 'a' <= c <= 'f'
  }

  function HexValue(c: char): nat
    requires Hex(c)
  {
    if c <= '9' then c as int - '0' as int
    else if c <= 'F' then c as int - 'A' as int + 10
    else c as int - 'a' as int + 10
  }

  predicate AllHex(t: string, n: nat) {
    n == 0 || (t != "" && Hex(t[0]) && AllHex(t[1..], n - 1))
  }

  /** The number the first `n` digits denote, `so` being what came before them. */
  function Number(t: string, n: nat, so: nat): nat
    requires AllHex(t, n)
  {
    if n == 0 then so else Number(t[1..], n - 1, 16 * so + HexValue(t[0]))
  }

  function Scalar(n: nat): Option<char> {
    if n < 0xD800 || 0xE000 <= n < 0x11_0000 then Some(n as char) else None
  }

  /** How many digits a codepoint escape at the start of `t` has, if there is one. */
  function EscapeDigits(t: string): nat {
    if |t| < 2 || t[0] != '\\' then 0
    else if t[1] == 'u' && AllHex(t[2..], 4) then 4
    else if t[1] == 'U' && AllHex(t[2..], 8) then 8
    else 0
  }

  lemma {:induction false} AllHexLength(t: string, n: nat)
    requires AllHex(t, n)
    ensures n <= |t|
  {
    if n > 0 {
      AllHexLength(t[1..], n - 1);
    }
  }

  function Echar(c: char): Option<char> {
    if c == 't' then Some('\t')
    else if c == 'b' then Some(8 as char)
    else if c == 'n' then Some('\n')
    else if c == 'r' then Some('\r')
    else if c == 'f' then Some(12 as char)
    else if c == '\\' || c == '"' || c == '\'' then Some(c)
    else None
  }

  function Prepend(c: Option<char>, r: Option<(string, string)>): Option<(string, string)> {
    if c.None? || r.None? then None else Some(([c.value] + r.value.0, r.value.1))
  }

  /** The text after an opening quote, read to its closing quote: the value and what follows. Codepoint
      escapes are read where they stand, unless `plain`, when there are none left. */
  function Read(t: string, plain: bool): Option<(string, string)>
    decreases |t|
  {
    if t == "" || t[0] == '\n' || t[0] == '\r' then None
    else if t[0] == '"' then Some(("", t[1..]))
    else if t[0] != '\\' then Prepend(Some(t[0]), Read(t[1..], plain))
    else if |t| < 2 then None
    else if Echar(t[1]).Some? then Prepend(Echar(t[1]), Read(t[2..], plain))
    else if plain || EscapeDigits(t) == 0 then None
    else
      var n := EscapeDigits(t);
      AllHexLength(t[2..], n);
      Prepend(Scalar(Number(t[2..], n, 0)), Read(t[2 + n..], plain))
  }

  /** Every string: quoted and read back, it is the same string, and exactly its own text is consumed. */
  lemma {:induction false} RoundTrip(s: string, rest: string)
    ensures Read(Escaped(s) + "\"" + rest, false) == Some((s, rest))
  {
    var t := Escaped(s) + "\"" + rest;
    if s == "" {
      assert t == "\"" + rest;
      assert t[1..] == rest;
    } else {
      var u := Escaped(s[1..]) + "\"" + rest;
      assert t == EscapeChar(s[0]) + u;
      RoundTrip(s[1..], rest);
      ReadsChar(s[0], u);
      assert s == [s[0]] + s[1..];
    }
  }

  lemma ReadsChar(c: char, u: string)
    ensures Read(EscapeChar(c) + u, false) == Prepend(Some(c), Read(u, false))
  {
    if c == '\\' || c == '"' || c == '\n' || c == '\r' || c == '\t' {
      ReadsPair(EscapeChar(c)[1], u);
    } else if Control(c) {
      ReadsControl(c, u);
    } else {
      assert (EscapeChar(c) + u)[1..] == u;
    }
  }

  lemma ReadsPair(d: char, u: string)
    requires Echar(d).Some?
    ensures Read(['\\', d] + u, false) == Prepend(Echar(d), Read(u, false))
  {
    assert (['\\', d] + u)[2..] == u;
  }

  lemma ReadsControl(c: char, u: string)
    requires Control(c) && c != '\n' && c != '\r' && c != '\t'
    ensures Read(EscapeChar(c) + u, false) == Prepend(Some(c), Read(u, false))
  {
    ControlDigits(c, u);
    assert (EscapeChar(c) + u)[6..] == u;
  }

  lemma HexDigitValue(n: nat)
    requires n < 16
    ensures Hex(HexDigit(n)) && HexValue(HexDigit(n)) == n
  {
  }

  lemma ControlDigits(c: char, u: string)
    requires Control(c)
    ensures var t := ['\\', 'u', '0', '0', HexDigit(c as int / 16), HexDigit(c as int % 16)] + u;
            EscapeDigits(t) == 4 && Number(t[2..], 4, 0) == c as int
  {
    var hi, lo := HexDigit(c as int / 16), HexDigit(c as int % 16);
    var t := ['\\', 'u', '0', '0', hi, lo] + u;
    HexDigitValue(c as int / 16);
    HexDigitValue(c as int % 16);
    assert t[2..] == ['0', '0', hi, lo] + u;
    assert t[2..][1..] == ['0', hi, lo] + u;
    assert t[2..][1..][1..] == [hi, lo] + u;
    assert t[2..][1..][1..][1..] == [lo] + u;
    assert HexValue('0') == 0;
    assert AllHex(t[2..][1..][1..][1..], 1);
    assert AllHex(t[2..][1..][1..], 2);
    assert AllHex(t[2..][1..], 3);
    var x := t[2..];
    assert Number(x, 4, 0) == Number(x[1..], 3, 0) == Number(x[1..][1..], 2, 0);
    assert Number(x[1..][1..], 2, 0) == Number(x[1..][1..][1..], 1, c as int / 16);
    assert Number(x[1..][1..][1..], 1, c as int / 16) == 16 * (c as int / 16) + c as int % 16;
  }

  // ------------------------------------------------ codepoint escapes replaced before parsing

  function PrependText(c: Option<char>, r: Option<string>): Option<string> {
    if c.None? || r.None? then None else Some([c.value] + r.value)
  }

  /** Section 19.2 to the letter: every codepoint escape of the query text is replaced before any of it is
      parsed, wherever it stands. */
  function PrePass(t: string): Option<string>
    decreases |t|
  {
    if t == "" then Some("")
    else
      var n := EscapeDigits(t);
      if n == 0 then PrependText(Some(t[0]), PrePass(t[1..]))
      else
        AllHexLength(t[2..], n);
        PrependText(Scalar(Number(t[2..], n, 0)), PrePass(t[2 + n..]))
  }

  /** The text spells a codepoint escape somewhere. */
  predicate LooksEscaped(s: string) {
    s != "" && (EscapeDigits(s) != 0 || LooksEscaped(s[1..]))
  }

  /** Digits and the letter before them stand for themselves, so what looks like an escape still does. */
  lemma {:induction false} DigitsShow(s: string, tail: string, n: nat)
    ensures AllHex(Escaped(s) + "\"" + tail, n) <==> AllHex(s, n)
    ensures AllHex(s, n) ==> n <= |s| && n <= |Escaped(s)| && (Escaped(s) + "\"" + tail)[n..] == Escaped(s[n..]) + "\"" + tail
                             && forall so: nat :: Number(Escaped(s) + "\"" + tail, n, so) == Number(s, n, so)
    decreases n
  {
    var t := Escaped(s) + "\"" + tail;
    if n == 0 {
    } else if s == "" {
      assert t[0] == '"';
    } else {
      var u := Escaped(s[1..]) + "\"" + tail;
      assert t == EscapeChar(s[0]) + u;
      if Hex(s[0]) {
        assert EscapeChar(s[0]) == [s[0]];
        assert t[1..] == u;
        DigitsShow(s[1..], tail, n - 1);
        if AllHex(s, n) {
          assert t[n..] == u[n - 1..];
          assert s[n..] == s[1..][n - 1..];
        }
      }
    }
  }

  /** What the pass leaves of one character of the text. */
  function Passed(c: char): string {
    if Control(c) && c != '\n' && c != '\r' && c != '\t' then [c] else EscapeChar(c)
  }

  function PrependAll(a: string, r: Option<string>): Option<string> {
    if r.None? then None else Some(a + r.value)
  }

  lemma TwoPrepended(d: char, r: Option<string>)
    ensures PrependText(Some('\\'), PrependText(Some(d), r)) == PrependAll(['\\', d], r)
  {
    if r.Some? {
      assert ['\\'] + ([d] + r.value) == ['\\', d] + r.value;
    }
  }

  lemma PassesChar(s: string, tail: string)
    requires s != "" && EscapeDigits(s) == 0
    ensures PrePass(Escaped(s) + "\"" + tail) == PrependAll(Passed(s[0]), PrePass(Escaped(s[1..]) + "\"" + tail))
  {
    var c := s[0];
    var u := Escaped(s[1..]) + "\"" + tail;
    var t := Escaped(s) + "\"" + tail;
    assert t == EscapeChar(c) + u;
    if c == '\\' {
      NoEscapeHere(s, tail);
      PassesPair('\\', u);
    } else if c == '"' || c == '\n' || c == '\r' || c == '\t' {
      PassesPair(EscapeChar(c)[1], u);
    } else if Control(c) {
      ControlDigits(c, u);
      assert t[6..] == u;
    } else {
      assert t[1..] == u;
    }
  }

  /** A backslash and a character that do not make a codepoint escape pass as they are. */
  lemma PassesPair(d: char, u: string)
    requires d != 'u' && d != 'U' && EscapeDigits([d] + u) == 0
    ensures PrePass(['\\', d] + u) == PrependAll(['\\', d], PrePass(u))
  {
    var t := ['\\', d] + u;
    assert t[1..] == [d] + u && ([d] + u)[1..] == u;
    assert EscapeDigits(t) == 0;
    TwoPrepended(d, PrePass(u));
  }

  lemma NoEscapeHere(s: string, tail: string)
    requires s != "" && s[0] == '\\' && EscapeDigits(s) == 0
    ensures EscapeDigits(['\\'] + (Escaped(s[1..]) + "\"" + tail)) == 0
  {
    var r := s[1..];
    var u := Escaped(r) + "\"" + tail;
    var t := ['\\'] + u;
    if r != "" && (r[0] == 'u' || r[0] == 'U') {
      assert u == [r[0]] + (Escaped(r[1..]) + "\"" + tail);
      assert t[2..] == Escaped(r[1..]) + "\"" + tail;
      assert s[2..] == r[1..];
      DigitsShow(r[1..], tail, 4);
      DigitsShow(r[1..], tail, 8);
    } else if r == "" {
      assert u[0] == '"';
    } else {
      assert u == EscapeChar(r[0]) + (Escaped(r[1..]) + "\"" + tail);
      assert u[0] == EscapeChar(r[0])[0];
    }
  }

  /** A spelled escape: its own backslash survives, and the character it names follows it. */
  lemma PassesSpelled(s: string, tail: string)
    requires EscapeDigits(s) != 0
    ensures var n := EscapeDigits(s);
            2 + n <= |s| && PrePass(Escaped(s) + "\"" + tail)
            == PrependText(Some('\\'), PrependText(Scalar(Number(s[2..], n, 0)), PrePass(Escaped(s[2 + n..]) + "\"" + tail)))
  {
    var n := EscapeDigits(s);
    var u := Escaped(s[1..]) + "\"" + tail;
    var v := Escaped(s[2..]) + "\"" + tail;
    var t := Escaped(s) + "\"" + tail;
    assert t == ['\\', '\\'] + u;
    assert s[1..][1..] == s[2..];
    assert u == [s[1]] + v;
    var w := ['\\'] + u;
    assert t[1..] == w;
    assert w[2..] == v;
    DigitsShow(s[2..], tail, 4);
    DigitsShow(s[2..], tail, 8);
    assert s[2..][n..] == s[2 + n..];
    assert EscapeDigits(w) == n;
    assert w[2 + n..] == v[n..];
    assert EscapeDigits(t) == 0;
  }

  lemma ReadsPassedChar(c: char, v: string)
    ensures Read(Passed(c) + v, true) == Prepend(Some(c), Read(v, true))
  {
    var t := Passed(c) + v;
    if |Passed(c)| == 2 {
      assert t[2..] == v;
    } else {
      assert t[1..] == v;
    }
  }

  /** The quoted text as section 19.2 reads it: the whole query passed first, then parsed. */
  function ReadPassed(t: string): Option<(string, string)> {
    var p := PrePass(t);
    if p.None? then None else Read(p.value, true)
  }

  lemma {:induction false} PassedRoundTrip(s: string, rest: string, after: string)
    requires PrePass(rest) == Some(after)
    ensures var r := ReadPassed(Escaped(s) + "\"" + rest);
            if LooksEscaped(s) then r.None? || |r.value.0| < |s| else r == Some((s, after))
    decreases |s|
  {
    if s == "" {
      PassedNothing(rest, after);
    } else if EscapeDigits(s) == 0 {
      PassedRoundTrip(s[1..], rest, after);
      PassedOne(s, rest);
      assert s == [s[0]] + s[1..];
    } else {
      var n := EscapeDigits(s);
      PassesSpelled(s, rest);
      PassedRoundTrip(s[2 + n..], rest, after);
      PassedSpelled(s, rest);
    }
  }

  lemma PassedNothing(rest: string, after: string)
    requires PrePass(rest) == Some(after)
    ensures ReadPassed(Escaped("") + "\"" + rest) == Some(("", after))
  {
    var t := Escaped("") + "\"" + rest;
    assert t == "\"" + rest && t[1..] == rest;
    assert ("\"" + after)[1..] == after;
  }

  lemma PassedOne(s: string, rest: string)
    requires s != "" && EscapeDigits(s) == 0
    ensures ReadPassed(Escaped(s) + "\"" + rest) == Prepend(Some(s[0]), ReadPassed(Escaped(s[1..]) + "\"" + rest))
  {
    PassesChar(s, rest);
    var p := PrePass(Escaped(s[1..]) + "\"" + rest);
    if p.Some? {
      ReadsPassedChar(s[0], p.value);
    }
  }

  lemma PassedSpelled(s: string, rest: string)
    requires EscapeDigits(s) != 0 && 2 + EscapeDigits(s) <= |s|
    ensures var r := ReadPassed(Escaped(s) + "\"" + rest);
            var q := ReadPassed(Escaped(s[2 + EscapeDigits(s)..]) + "\"" + rest);
            r.Some? ==> q.Some? && |r.value.0| == 1 + |q.value.0|
  {
    var n := EscapeDigits(s);
    PassesSpelled(s, rest);
    var c, p := Scalar(Number(s[2..], n, 0)), PrePass(Escaped(s[2 + n..]) + "\"" + rest);
    if c.Some? && p.Some? {
      ReadsNamed(c.value, p.value);
    }
  }

  /** What follows a lone backslash is read with it, as one character or not at all. */
  lemma ReadsNamed(c: char, v: string)
    ensures Read(['\\'] + ([c] + v), true) == if Echar(c).Some? then Prepend(Echar(c), Read(v, true)) else None
  {
    var x := ['\\'] + ([c] + v);
    assert x[1] == c && x[2..] == v;
  }

  /** Read by section 19.2 to the letter, the quoted text comes back exactly if the string does not itself
      spell a codepoint escape: doubling its backslash does not protect it from a pass that comes first. */
  lemma PassedRoundTripIff(s: string, rest: string, after: string)
    requires PrePass(rest) == Some(after)
    ensures ReadPassed(Escaped(s) + "\"" + rest) == Some((s, after)) <==> !LooksEscaped(s)
  {
    PassedRoundTrip(s, rest, after);
  }

  // ------------------------------------------------------------------------------ search text

  predicate Special(c: char) {
    c == '\\' || c == '.' || c == '+' || c == '*' || c == '?' || c == '(' || c == ')' || c == '|'
    || c == '[' || c == ']' || c == '{' || c == '}' || c == '^' || c == '$'
  }

  function RegexEscape(s: string): string {
    if s == "" then "" else (if Special(s[0]) then ['\\', s[0]] else [s[0]]) + RegexEscape(s[1..])
  }

  /** A pattern that is nothing but literal characters, escaped where a metacharacter would stand. */
  function LiteralPattern(p: string): Option<string>
    decreases |p|
  {
    if p == "" then Some("")
    else if p[0] == '\\' then
      if |p| >= 2 && Special(p[1]) then PrependText(Some(p[1]), LiteralPattern(p[2..])) else None
    else if Special(p[0]) then None
    else PrependText(Some(p[0]), LiteralPattern(p[1..]))
  }

  lemma {:induction false} RegexRoundTrip(s: string)
    ensures LiteralPattern(RegexEscape(s)) == Some(s)
  {
    if s != "" {
      var t := RegexEscape(s);
      RegexRoundTrip(s[1..]);
      if Special(s[0]) {
        assert t[2..] == RegexEscape(s[1..]);
      } else {
        assert t[1..] == RegexEscape(s[1..]);
      }
      assert s == [s[0]] + s[1..];
    }
  }

  /** Each character with a meaning of its own in a pattern is escaped, and no other. */
  lemma EscapedInPattern(c: char)
    ensures RegexEscape([c]) == if c in "\\.+*?()|[]{}^$" then ['\\', c] else [c]
  {
    assert RegexEscape([c][1..]) == "";
  }

  /** The needle of a search filter is read as one literal, and that as a pattern matching the caller's text
      and nothing else. */
  lemma NeedleFindsTheText(q: string, rest: string)
    ensures var r := Read(Escaped(RegexEscape(q)) + "\"" + rest, false);
            r.Some? && r.value.1 == rest && LiteralPattern(r.value.0) == Some(q)
  {
    RoundTrip(RegexEscape(q), rest);
    RegexRoundTrip(q);
  }
}
