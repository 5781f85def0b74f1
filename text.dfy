/** The JavaScript string operations the schedule component uses, on strings
    as sequences of characters: integer-to-string conversion (template
    literals and `toString`), `padStart(n, "0")`, `split(sep)`, `trim`,
    `toLowerCase`, `toUpperCase`, and the component's own `capitalize`. */
module Text {

  function Digit(d: int): (c: char)
    requires 0 <= d < 10
    ensures '0' <= c <= '9'
  {
    (48 + d) as char
  }

  predicate IsDigit(c: char) { '0' <= c <= '9' }

  /** Decimal rendering of a natural number, most significant digit first. */
  function NatToString(n: nat): (s: string)
    ensures |s| >= 1
    ensures forall i :: 0 <= i < |s| ==> IsDigit(s[i])
    ensures (|s| == 1) == (n < 10)
    decreases n
  {
    if n < 10 then [Digit(n)] else NatToString(n / 10) + [Digit(n % 10)]
  }

  /** `String(i)` for an integer-valued number. */
  function IntToString(i: int): string
  {
    if i < 0 then "-" + NatToString(-i) else NatToString(i)
  }

  lemma {:induction false} NatToStringInjective(a: nat, b: nat)
    requires NatToString(a) == NatToString(b)
    ensures a == b
    decreases a
  {
    var s := NatToString(a);
    if a >= 10 {
      assert b >= 10;
      assert s[..|s| - 1] == NatToString(a / 10) == NatToString(b / 10);
      NatToStringInjective(a / 10, b / 10);
      assert s[|s| - 1] == Digit(a % 10) == Digit(b % 10);
    }
  }

  lemma IntToStringInjective(a: int, b: int)
    requires IntToString(a) == IntToString(b)
    ensures a == b
  {
    var s := IntToString(a);
    if a < 0 {
      assert s[0] == '-';
      assert b < 0;
      assert s[1..] == NatToString(-a) == NatToString(-b);
      NatToStringInjective(-a, -b);
    } else {
      assert IsDigit(s[0]);
      assert b >= 0;
      NatToStringInjective(a, b);
    }
  }

  lemma NatToStringFourDigits(n: nat)
    requires 1000 <= n <= 9999
    ensures |NatToString(n)| == 4
  {
    assert NatToString(n) == NatToString(n / 10) + [Digit(n % 10)];
    assert NatToString(n / 10) == NatToString(n / 100) + [Digit((n / 10) % 10)];
    assert NatToString(n / 100) == NatToString(n / 1000) + [Digit((n / 100) % 10)];
  }

  /** `s.padStart(width, "0")`. */
  function PadStart(s: string, width: nat): (r: string)
    ensures |r| == if |s| >= width then |s| else width
    ensures r[|r| - |s|..] == s
    ensures forall i :: 0 <= i < |r| - |s| ==> r[i] == '0'
  {
    if |s| >= width then s else seq(width - |s|, _ => '0') + s
  }

  /** `k.toString().padStart(2, "0")`, the two-digit day and month fields. */
  function Pad2(k: int): string
  {
    PadStart(IntToString(k), 2)
  }

  lemma Pad2Digits(k: int)
    requires 0 <= k < 100
    ensures Pad2(k) == [Digit(k / 10), Digit(k % 10)]
  {
    if k >= 10 {
      var q, r := k / 10, k % 10;
      assert 1 <= q < 10 && 0 <= r < 10;
      assert NatToString(q) == [Digit(q)];
      assert NatToString(k) == [Digit(q)] + [Digit(r)];
    } else {
      assert k / 10 == 0 && k % 10 == k;
      assert NatToString(k) == [Digit(k)];
      assert PadStart([Digit(k)], 2) == seq(1, _ => '0') + [Digit(k)];
    }
  }

  /** A padded field below 100 is two digits, so it holds no separator. */
  lemma Pad2Shape(k: int)
    requires 0 <= k < 100
    ensures |Pad2(k)| == 2 && IsDigit(Pad2(k)[0]) && IsDigit(Pad2(k)[1])
    ensures '/' !in Pad2(k) && '-' !in Pad2(k)
  {
    Pad2Digits(k);
    var p := Pad2(k);
    assert p == [Digit(k / 10), Digit(k % 10)];
    assert p[0] != '/' && p[1] != '/' && p[0] != '-' && p[1] != '-';
  }

  lemma Pad2Injective(a: int, b: int)
    requires 0 <= a < 100 && 0 <= b < 100
    requires Pad2(a) == Pad2(b)
    ensures a == b
  {
    Pad2Digits(a);
    Pad2Digits(b);
    assert Digit(a / 10) == Pad2(a)[0] == Pad2(b)[0] == Digit(b / 10);
    assert Digit(a % 10) == Pad2(a)[1] == Pad2(b)[1] == Digit(b % 10);
  }

  /** `s.split(sep)` for a one-character separator: the pieces between
      separators, so a string with k separators gives k + 1 pieces, and the
      empty string gives one empty piece. */
  function Split(s: string, sep: char): (r: seq<string>)
    ensures |r| >= 1
    ensures forall i :: 0 <= i < |r| ==> sep !in r[i]
  {
    if s == [] then [""]
    else if s[0] == sep then [""] + Split(s[1..], sep)
    else
      var t := Split(s[1..], sep);
      [[s[0]] + t[0]] + t[1..]
  }

  /** `pieces.join(sep)`, the inverse of `Split`. */
  function Join(pieces: seq<string>, sep: char): string
    requires |pieces| >= 1
  {
    if |pieces| == 1 then pieces[0] else pieces[0] + [sep] + Join(pieces[1..], sep)
  }

  lemma {:induction false} JoinSplit(s: string, sep: char)
    ensures Join(Split(s, sep), sep) == s
  {
    if s != [] {
      JoinSplit(s[1..], sep);
      var t := Split(s[1..], sep);
      if s[0] != sep && |t| > 1 {
        assert t == [t[0]] + t[1..];
      }
    }
  }

  /** A string without the separator is one piece. */
  lemma {:induction false} SplitNoSeparator(s: string, sep: char)
    requires sep !in s
    ensures Split(s, sep) == [s]
  {
    if s != [] {
      SplitNoSeparator(s[1..], sep);
      assert [s[0]] + s[1..] == s;
    }
  }

  /** The text up to the first separator is the first piece, and the rest is
      split on its own. */
  lemma {:induction false} SplitAtSeparator(a: string, sep: char, b: string)
    requires sep !in a
    ensures Split(a + [sep] + b, sep) == [a] + Split(b, sep)
  {
    if a == [] {
      assert a + [sep] + b == [sep] + b;
      assert ([sep] + b)[1..] == b;
    } else {
      assert (a + [sep] + b)[1..] == a[1..] + [sep] + b;
      SplitAtSeparator(a[1..], sep, b);
      assert [a[0]] + a[1..] == a;
    }
  }

  /** Two separator-free pieces joined by the separator split back into them. */
  lemma SplitPair(a: string, sep: char, b: string)
    requires sep !in a && sep !in b
    ensures Split(a + [sep] + b, sep) == [a, b]
  {
    SplitAtSeparator(a, sep, b);
    SplitNoSeparator(b, sep);
  }

  /** `const [x0, x1] = pieces`: the element at `i`, or the string that a
      template literal makes of `undefined` when there are too few. */
  function Nth(pieces: seq<string>, i: nat): string
  {
    if i < |pieces| then pieces[i] else "undefined"
  }

  /** Case mapping. Only the ASCII letters are mapped; every other character
      is left as it is. */
  function LowerChar(c: char): char
  {
    if 'A' <= c <= 'Z' then (c as int + 32) as char else c
  }

  function UpperChar(c: char): char
  {
    if 'a' <= c <= 'z' then (c as int - 32) as char else c
  }

  /** `s.toLowerCase()`. */
  function Lower(s: string): (r: string)
    ensures |r| == |s|
    ensures forall i :: 0 <= i < |s| ==> r[i] == LowerChar(s[i])
  {
    seq(|s|, i requires 0 <= i < |s| => LowerChar(s[i]))
  }

  /** The characters `String.prototype.trim` removes: WhiteSpace (tab, vertical
      tab, form feed, space, no-break space, byte-order mark and the other
      space separators of category Zs) and LineTerminator (LF, CR, U+2028,
      U+2029), per ECMAScript. */
  predicate IsWhitespace(c: char)
  {
    c == '\t' || c == '\n' || c == '\U{000B}' || c == '\U{000C}' || c == '\r' || c == ' '
    || c == '\U{00A0}' || c == '\U{1680}' || ('\U{2000}' <= c <= '\U{200A}')
    || c == '\U{2028}' || c == '\U{2029}' || c == '\U{202F}' || c == '\U{205F}'
    || c == '\U{3000}' || c == '\U{FEFF}'
  }

  predicate AllWhitespace(s: string)
  {
    forall i :: 0 <= i < |s| ==> IsWhitespace(s[i])
  }

  function TrimStart(s: string): (r: string)
    ensures r == [] || !IsWhitespace(r[0])
    decreases |s|
  {
    if s != [] && IsWhitespace(s[0]) then TrimStart(s[1..]) else s
  }

  function TrimEnd(s: string): (r: string)
    ensures r == [] || !IsWhitespace(r[|r| - 1])
    decreases |s|
  {
    if s != [] && IsWhitespace(s[|s| - 1]) then TrimEnd(s[..|s| - 1]) else s
  }

  /** `s.trim()`. */
  function Trim(s: string): string
  {
    TrimEnd(TrimStart(s))
  }

  lemma {:induction false} TrimStartEmpty(s: string)
    ensures TrimStart(s) == [] <==> AllWhitespace(s)
    decreases |s|
  {
    if s != [] && IsWhitespace(s[0]) {
      TrimStartEmpty(s[1..]);
      assert AllWhitespace(s) <==> AllWhitespace(s[1..]) by {
        if AllWhitespace(s[1..]) {
          forall i | 0 <= i < |s| ensures IsWhitespace(s[i]) {
            if i > 0 { assert s[i] == s[1..][i - 1]; }
          }
        }
      }
    }
  }

  lemma {:induction false} TrimEndKeepsFirst(s: string)
    requires s != [] && !IsWhitespace(s[0])
    ensures TrimEnd(s) != []
    decreases |s|
  {
    if IsWhitespace(s[|s| - 1]) {
      TrimEndKeepsFirst(s[..|s| - 1]);
    }
  }

  /** `!s.trim()` holds exactly for strings made only of whitespace. */
  lemma TrimEmptyIffBlank(s: string)
    ensures Trim(s) == [] <==> AllWhitespace(s)
  {
    TrimStartEmpty(s);
    if TrimStart(s) != [] {
      TrimEndKeepsFirst(TrimStart(s));
    }
  }

  /** `capitalize` (lines 60-63): the first character upper-cased, the rest
      lower-cased, and the empty string for the empty string. */
  function Capitalize(s: string): (r: string)
    ensures |r| == |s|
  {
    if s == "" then "" else [UpperChar(s[0])] + Lower(s[1..])
  }

  lemma CapitalizeIdempotent(s: string)
    ensures Capitalize(Capitalize(s)) == Capitalize(s)
  {
    if s != "" {
      var c := Capitalize(s);
      assert c[1..] == Lower(s[1..]);
      assert Lower(c[1..]) == c[1..];
    }
  }

  /** Capitalising changes no letter's identity: it is invisible to the
      lower-cased comparison the store uses to match names. */
  lemma LowerCapitalize(s: string)
    ensures Lower(Capitalize(s)) == Lower(s)
  {
    if s != "" {
      var c := Capitalize(s);
      forall i | 0 <= i < |s| ensures Lower(c)[i] == Lower(s)[i] {
        if i > 0 {
          assert c[i] == Lower(s[1..])[i - 1];
        }
      }
    }
  }

  /** Lower-casing works character by character, so it distributes over
      concatenation. */
  lemma LowerAppend(a: string, b: string)
    ensures Lower(a + b) == Lower(a) + Lower(b)
  {
    assert forall i :: 0 <= i < |a + b| ==> Lower(a + b)[i] == (Lower(a) + Lower(b))[i];
  }

  /** Case mapping leaves whitespace alone and makes none, so capitalising
      a string keeps it blank or non-blank. */
  lemma CapitalizeBlank(s: string)
    ensures AllWhitespace(Capitalize(s)) <==> AllWhitespace(s)
  {
    if s != "" {
      var c := Capitalize(s);
      forall i | 0 <= i < |s| ensures IsWhitespace(c[i]) <==> IsWhitespace(s[i]) {
        if i > 0 {
          assert c[i] == Lower(s[1..])[i - 1] == LowerChar(s[i]);
        }
      }
    }
  }
}
