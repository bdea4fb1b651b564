/** The reader of quoted text and of patterns, rule by rule: what it reads and what it refuses (sections 19.2, 19.7
    and 19.8 of the SPARQL 1.1 Query Language). */
module LiteralRules {
  import opened Options
  import opened Literals

  /** The escapes of one letter (section 19.7). */
  lemma ReadsEscape(d: char, n: nat, u: string)
    requires (d, n) in {('t', 9), ('b', 8), ('n', 10), ('r', 13), ('f', 12), ('\\', 0x5C), ('"', 0x22), ('\'', 0x27)}
    ensures Read(['\\', d] + u, false) == Prepend(Some(n as char), Read(u, false))
  {
    ReadsPair(d, u);
  }

  /** What a literal does not hold. */
  lemma NotRaw(u: string)
    ensures Read("\n" + u, false) == Read("\r" + u, false) == Read("", false) == Read("\\", false) == None
  {
  }

  lemma NoSuchEscape(d: char, u: string)
    requires d !in {'t', 'b', 'n', 'r', 'f', '\\', '"', '\'', 'u', 'U'}
    ensures Read(['\\', d] + u, false) == None
  {
    assert Echar(d).None? && EscapeDigits(['\\', d] + u) == 0;
  }

  /** Codepoint escapes (section 19.2): `u` and four digits of either case are the character with that number, and
      so are `U` and eight. */
  lemma ReadsFour(a: nat, b: nat, c: nat, d: nat, upper: bool, u: string)
    requires a < 16 && b < 16 && c < 16 && d < 16
    ensures var h := if upper then "0123456789ABCDEF" else "0123456789abcdef";
            var n := 4096 * a + 256 * b + 16 * c + d;
            Read(['\\', 'u', h[a], h[b], h[c], h[d]] + u, false) == Prepend(Scalar(n), Read(u, false))
  {
    var h := if upper then "0123456789ABCDEF" else "0123456789abcdef";
    EitherCase(a);
    EitherCase(b);
    EitherCase(c);
    EitherCase(d);
    ReadsDigits(h[a], h[b], h[c], h[d], u);
  }

  lemma ReadsDigits(a: char, b: char, c: char, d: char, u: string)
    requires Hex(a) && Hex(b) && Hex(c) && Hex(d)
    ensures var n := 4096 * HexValue(a) + 256 * HexValue(b) + 16 * HexValue(c) + HexValue(d);
            Read(['\\', 'u', a, b, c, d] + u, false) == Prepend(Scalar(n), Read(u, false))
  {
    var t := ['\\', 'u', a, b, c, d] + u;
    FourDigits(a, b, c, d, u);
    assert t[2..] == [a, b, c, d] + u && t[6..] == u;
  }

  /** Every character is the one with its number, and surrogates are none. */
  lemma ScalarExactly(c: char, n: nat)
    ensures Scalar(c as int) == Some(c)
    ensures Scalar(n).None? <==> 0xD800 <= n < 0xE000 || n >= 0x11_0000
  {
  }

  lemma EitherCase(v: nat)
    requires v < 16
    ensures Hex("0123456789ABCDEF"[v]) && HexValue("0123456789ABCDEF"[v]) == v
    ensures Hex("0123456789abcdef"[v]) && HexValue("0123456789abcdef"[v]) == v
  {
  }

  lemma FourDigits(a: char, b: char, c: char, d: char, u: string)
    requires Hex(a) && Hex(b) && Hex(c) && Hex(d)
    ensures AllHex([a, b, c, d] + u, 4)
    ensures Number([a, b, c, d] + u, 4, 0) == 4096 * HexValue(a) + 256 * HexValue(b) + 16 * HexValue(c) + HexValue(d)
  {
    var t := [a, b, c, d] + u;
    assert t[1..] == [b, c, d] + u;
    assert t[1..][1..] == [c, d] + u;
    assert t[1..][1..][1..] == [d] + u;
    assert AllHex(t[1..][1..][1..], 1);
    assert AllHex(t[1..][1..], 2);
    assert AllHex(t[1..], 3);
    var two := 16 * HexValue(a) + HexValue(b);
    assert Number(t, 4, 0) == Number(t[1..], 3, HexValue(a)) == Number(t[1..][1..], 2, two);
    assert Number(t[1..][1..], 2, two) == Number(t[1..][1..][1..], 1, 16 * two + HexValue(c));
  }

  lemma ReadsEight(digits: string, c: char, u: string)
    requires |digits| == 8 && AllHex(digits + u, 8) && Number(digits + u, 8, 0) == c as int
    ensures Read(['\\', 'U'] + digits + u, false) == Prepend(Some(c), Read(u, false))
  {
    var t := ['\\', 'U'] + digits + u;
    assert t[1] == 'U' && t[2..] == digits + u && t[10..] == u;
    assert EscapeDigits(t) == 8;
    assert Scalar(c as int) == Some(c);
  }

  /** Text without a backslash passes as it is. */
  lemma {:induction false} PassKeeps(t: string)
    requires '\\' !in t
    ensures PrePass(t) == Some(t)
  {
    if t != "" {
      PassKeeps(t[1..]);
      assert t == [t[0]] + t[1..];
    }
  }

  /** No other pattern is one. */
  lemma NotLiteral(c: char, rest: string)
    ensures c != '\\' && c in ".+*?()|[]{}^$" ==> LiteralPattern([c] + rest).None?
    ensures c !in "\\.+*?()|[]{}^$" ==> LiteralPattern(['\\', c] + rest).None?
    ensures LiteralPattern("\\").None?
  {
  }
}
