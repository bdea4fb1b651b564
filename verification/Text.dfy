/** Strings in code point order: the order of a sorted list of Rust strings, of SPARQL's string
    comparison and of `ORDER BY STR(?s)`. */
module Text {
  import opened Options

  predicate Less(a: string, b: string) {
    if b == "" then false
    else if a == "" then true
    else if a[0] == b[0] then Less(a[1..], b[1..])
    else a[0] < b[0]
  }

  lemma {:induction false} LessIrreflexive(a: string)
    ensures !Less(a, a)
  {
    if a != "" {
      LessIrreflexive(a[1..]);
    }
  }

  lemma {:induction false} LessTransitive(a: string, b: string, c: string)
    requires Less(a, b) && Less(b, c)
    ensures Less(a, c)
  {
    if a != "" && a[0] == b[0] == c[0] {
      LessTransitive(a[1..], b[1..], c[1..]);
    }
  }

  lemma {:induction false} LessTotal(a: string, b: string)
    ensures a == b || Less(a, b) || Less(b, a)
  {
    if a != "" && b != "" && a[0] == b[0] {
      LessTotal(a[1..], b[1..]);
      assert a == [a[0]] + a[1..] && b == [b[0]] + b[1..];
    }
  }

  /** The order written out: after what both begin with, the shorter string or the smaller character. */
  ghost predicate Parts(a: string, b: string, k: nat) {
    k <= |a| && k < |b| && a[..k] == b[..k] && (k == |a| || a[k] < b[k])
  }

  lemma {:induction false} LessExactly(a: string, b: string)
    ensures Less(a, b) <==> exists k: nat :: Parts(a, b, k)
  {
    if a == "" || b == "" || a[0] != b[0] {
      if Less(a, b) {
        assert Parts(a, b, 0);
      } else {
        forall k: nat
          ensures !Parts(a, b, k)
        {
          assert k > 0 && k <= |a| && k <= |b| ==> a[..k][0] != b[..k][0];
        }
      }
    } else {
      LessExactly(a[1..], b[1..]);
      assert a == [a[0]] + a[1..] && b == [b[0]] + b[1..];
      forall k: nat
        ensures Parts(a[1..], b[1..], k) <==> Parts(a, b, k + 1)
      {
        if k < |a| && k + 1 < |b| {
          assert a[..k + 1] == [a[0]] + a[1..][..k] && b[..k + 1] == [b[0]] + b[1..][..k];
          assert a[..k + 1][1..] == a[1..][..k] && b[..k + 1][1..] == b[1..][..k];
        }
      }
      assert !Parts(a, b, 0);
      forall k: nat | Parts(a, b, k)
        ensures Parts(a[1..], b[1..], k - 1)
      {
        var j: nat := k - 1;
        assert Parts(a, b, j + 1);
      }
    }
  }

  ghost predicate Ascending(s: seq<string>) {
    forall i, j | 0 <= i < j < |s| :: Less(s[i], s[j])
  }

  ghost predicate Descending(s: seq<string>) {
    forall i, j | 0 <= i < j < |s| :: Less(s[j], s[i])
  }

  /** A sorted list without repeats takes one more string in its place. */
  function Insert(s: seq<string>, x: string): (r: seq<string>)
    ensures forall y :: y in r <==> y in s || y == x
  {
    if s == [] then [x]
    else if s[0] == x then s
    else if Less(x, s[0]) then [x] + s
    else [s[0]] + Insert(s[1..], x)
  }

  lemma {:induction false} InsertAscending(s: seq<string>, x: string)
    requires Ascending(s)
    ensures Ascending(Insert(s, x))
  {
    if s == [] || s[0] == x {
    } else if Less(x, s[0]) {
      forall j | 0 <= j < |s|
        ensures Less(x, s[j])
      {
        if j > 0 {
          LessTransitive(x, s[0], s[j]);
        }
      }
    } else {
      LessTotal(s[0], x);
      var t := s[1..];
      assert Ascending(t) by {
        forall i, j | 0 <= i < j < |t|
          ensures Less(t[i], t[j])
        {
          assert t[i] == s[i + 1] && t[j] == s[j + 1];
        }
      }
      InsertAscending(t, x);
      var r := Insert(t, x);
      forall j | 0 <= j < |r|
        ensures Less(s[0], r[j])
      {
        assert r[j] in r;
        if r[j] != x {
          var k :| 0 <= k < |t| && t[k] == r[j];
          assert Less(s[0], s[k + 1]);
        }
      }
    }
  }

  /** `sort` then `dedup`: the members of a list, once each, in ascending order. */
  function SortDedup(xs: seq<string>): (r: seq<string>)
    ensures forall y :: y in r <==> y in xs
  {
    if xs == [] then []
    else
      assert xs == xs[..|xs| - 1] + [xs[|xs| - 1]];
      Insert(SortDedup(xs[..|xs| - 1]), xs[|xs| - 1])
  }

  lemma {:induction false} SortDedupAscending(xs: seq<string>)
    ensures Ascending(SortDedup(xs))
  {
    if xs != [] {
      SortDedupAscending(xs[..|xs| - 1]);
      InsertAscending(SortDedup(xs[..|xs| - 1]), xs[|xs| - 1]);
    }
  }

  predicate Digit(c: char) {
    '0' <= c <= '9'
  }

  predicate AllDigits(s: string) {
    forall i | 0 <= i < |s| :: Digit(s[i])
  }

  /** The number a run of digits denotes. */
  function Digits(s: string): nat
    requires AllDigits(s)
  {
    if s == "" then 0
    else
      assert Digit(s[|s| - 1]);
      10 * Digits(s[..|s| - 1]) + (s[|s| - 1] as int - '0' as int)
  }

  /** An unsigned number: digits, after at most one plus sign, and no more than the type holds. */
  function ParseNumber(s: string, most: nat): Option<nat> {
    var t := if s != "" && s[0] == '+' then s[1..] else s;
    if t == "" || !AllDigits(t) || Digits(t) > most then None else Some(Digits(t))
  }

  /** A number in decimal. */
  function Shown(n: nat): (s: string)
    ensures s != "" && forall i | 0 <= i < |s| :: '0' <= s[i] <= '9'
  {
    var d := [('0' as int + n % 10) as char];
    if n < 10 then d else Shown(n / 10) + d
  }

  lemma {:induction false} ShownDigits(n: nat)
    ensures Digits(Shown(n)) == n
  {
    var s := Shown(n);
    assert s[|s| - 1] as int - '0' as int == n % 10;
    if n < 10 {
      assert s[..|s| - 1] == "";
    } else {
      ShownDigits(n / 10);
      assert s[..|s| - 1] == Shown(n / 10);
    }
  }

  lemma {:induction false} ZerosBefore(s: string)
    requires AllDigits(s)
    ensures Digits("0" + s) == Digits(s)
  {
    var t := "0" + s;
    if s != "" {
      var h := s[..|s| - 1];
      ZerosBefore(h);
      assert t[..|t| - 1] == "0" + h;
    } else {
      assert t[..0] == "";
    }
  }

  lemma DigitsParsed(t: string, most: nat)
    requires t != "" && AllDigits(t)
    ensures ParseNumber(t, most) == ParseNumber("+" + t, most) == if Digits(t) <= most then Some(Digits(t)) else None
  {
    assert Digit(t[0]);
    assert ("+" + t)[1..] == t;
  }

  /** A decimal is read as its number, with or without a plus sign or a zero before it, unless the type cannot
      hold it. */
  lemma NumberExactly(n: nat, most: nat)
    ensures var r := if n <= most then Some(n) else None;
            ParseNumber(Shown(n), most) == ParseNumber("+" + Shown(n), most) == ParseNumber("0" + Shown(n), most) == r
  {
    var t := Shown(n);
    ShownDigits(n);
    DigitsParsed(t, most);
    ZerosBefore(t);
    DigitsParsed("0" + t, most);
  }

  /** Anything but a digit is refused, except one plus sign before a digit. */
  lemma NoNumber(s: string, i: nat, most: nat)
    requires s == "" || s == "+" || (i < |s| && !('0' <= s[i] <= '9') && (i > 0 || s[0] != '+'))
    ensures ParseNumber(s, most).None?
  {
    var t := if s != "" && s[0] == '+' then s[1..] else s;
    if t != "" {
      var k := if s[0] == '+' then i - 1 else i;
      assert !Digit(t[k]);
    }
  }

  // ------------------------------------------------------------------ trimming and splitting

  predicate White(c: char) {
    var n := c as int;
    9 <= n <= 13 || n == 0x20 || n == 0x85 || n == 0xA0 || n == 0x1680 || 0x2000 <= n <= 0x200A
    || n == 0x2028 || n == 0x2029 || n == 0x202F || n == 0x205F || n == 0x3000
  }

  /** The white space of Unicode. */
  lemma WhiteByCode(c: char)
    ensures White(c) <==> c as int in {0x9, 0xA, 0xB, 0xC, 0xD, 0x20, 0x85, 0xA0, 0x1680, 0x2000, 0x2001, 0x2002, 0x2003, 0x2004, 0x2005,
                                       0x2006, 0x2007, 0x2008, 0x2009, 0x200A, 0x2028, 0x2029, 0x202F, 0x205F, 0x3000}
  {
  }

  function TrimStart(s: string): string {
    if s != "" && White(s[0]) then TrimStart(s[1..]) else s
  }

  function TrimEnd(s: string): string {
    if s != "" && White(s[|s| - 1]) then TrimEnd(s[..|s| - 1]) else s
  }

  function Trim(s: string): string {
    TrimEnd(TrimStart(s))
  }

  /** What is trimmed off is white space on both sides, and none is left there. */
  ghost predicate Trimmed(s: string, i: nat, j: nat) {
    i <= j <= |s|
    && (forall k | 0 <= k < i || j <= k < |s| :: White(s[k]))
    && (i < j ==> !White(s[i]) && !White(s[j - 1]))
  }

  lemma {:induction false} TrimStartExactly(s: string) returns (i: nat)
    ensures i <= |s| && TrimStart(s) == s[i..] && (forall k | 0 <= k < i :: White(s[k])) && (i < |s| ==> !White(s[i]))
  {
    i := 0;
    if s != "" && White(s[0]) {
      i := TrimStartExactly(s[1..]);
      i := i + 1;
    }
  }

  lemma {:induction false} TrimEndExactly(s: string) returns (j: nat)
    ensures j <= |s| && TrimEnd(s) == s[..j] && (forall k | j <= k < |s| :: White(s[k])) && (0 < j ==> !White(s[j - 1]))
  {
    j := |s|;
    if s != "" && White(s[|s| - 1]) {
      j := TrimEndExactly(s[..|s| - 1]);
    }
  }

  lemma TrimExactly(s: string) returns (i: nat, j: nat)
    ensures Trimmed(s, i, j) && Trim(s) == s[i..j]
  {
    i := TrimStartExactly(s);
    var e := TrimEndExactly(s[i..]);
    j := i + e;
    assert forall k | j <= k < |s| :: s[k] == s[i..][k - i];
  }

  /** The pieces between commas. */
  function Pieces(s: string): (r: seq<string>)
    ensures r != []
  {
    if s == "" then [""]
    else
      var r := Pieces(s[1..]);
      if s[0] == ',' then [""] + r else [[s[0]] + r[0]] + r[1..]
  }

  lemma {:induction false} PiecesOfBoth(a: string, b: string)
    ensures Pieces(a + "," + b) == Pieces(a) + Pieces(b)
  {
    var s := a + "," + b;
    if a == "" {
      assert s == "," + b && s[1..] == b;
    } else {
      assert s[1..] == a[1..] + "," + b;
      PiecesOfBoth(a[1..], b);
    }
  }

  function Joined(pieces: seq<string>): string
    requires pieces != []
  {
    if |pieces| == 1 then pieces[0] else pieces[0] + "," + Joined(pieces[1..])
  }

  lemma {:induction false} NoComma(s: string)
    requires ',' !in s
    ensures Pieces(s) == [s]
  {
    if s != "" {
      NoComma(s[1..]);
      assert s == [s[0]] + s[1..];
    }
  }

  /** Splitting undoes joining. */
  lemma {:induction false} JoinedReadBack(pieces: seq<string>)
    requires pieces != [] && forall i | 0 <= i < |pieces| :: ',' !in pieces[i]
    ensures Pieces(Joined(pieces)) == pieces
  {
    NoComma(pieces[0]);
    if |pieces| == 1 {
      assert pieces == [pieces[0]];
    } else {
      PiecesOfBoth(pieces[0], Joined(pieces[1..]));
      JoinedReadBack(pieces[1..]);
      assert pieces == [pieces[0]] + pieces[1..];
    }
  }
}
