/**
 * The string operations the crawler applies when it turns a record into a
 * row of the output file: Python's `str()` of an integer, and the clean-up of
 * a description, `.replace('\r', '').replace('\n', ' ')`.
 */
module Text {

  // ---------------------------------------------------------------------
  // Decimal text of an integer (Python's str(int)) and its inverse, int(s)
  // ---------------------------------------------------------------------

  predicate IsDigit(c: char) {
    '0' <= c <= '9'
  }

  function DigitValue(c: char): int {
    (c as int) - ('0' as int)
  }

  function DigitChar(d: nat): (c: char)
    requires d < 10
    ensures IsDigit(c) && DigitValue(c) == d
  {
    ('0' as int + d) as char
  }

  /** The decimal digits of n, most significant first, without leading zeros. */
  function NatToText(n: nat): (s: string)
    ensures |s| >= 1
    ensures forall i :: 0 <= i < |s| ==> IsDigit(s[i])
    ensures s[0] == '0' <==> n == 0
    ensures s[0] == '0' ==> |s| == 1
    decreases n
  {
    if n < 10 then [DigitChar(n)] else NatToText(n / 10) + [DigitChar(n % 10)]
  }

  /** Python's str() of an int: a minus sign for negative values, then the digits. */
  function IntToText(n: int): (s: string)
    ensures |s| >= 1
    ensures s[0] == '-' <==> n < 0
    ensures forall i :: (if n < 0 then 1 else 0) <= i < |s| ==> IsDigit(s[i])
    ensures n < 0 ==> |s| >= 2 && s[1] != '0'
  {
    if n < 0 then "-" + NatToText(-n) else NatToText(n)
  }

  /** The value of a string of decimal digits (the partner of NatToText). */
  function ParseDigits(s: string): int
  {
    if s == [] then 0 else 10 * ParseDigits(s[..|s| - 1]) + DigitValue(s[|s| - 1])
  }

  /** Python's int() on the text str() produces. */
  function ParseInt(s: string): int
  {
    if |s| > 0 && s[0] == '-' then -ParseDigits(s[1..]) else ParseDigits(s)
  }

  lemma {:induction false} ParseDigitsOfNatToText(n: nat)
    ensures ParseDigits(NatToText(n)) == n
    decreases n
  {
    if n >= 10 {
      var t := NatToText(n / 10);
      var s := t + [DigitChar(n % 10)];
      assert s[..|s| - 1] == t;
      ParseDigitsOfNatToText(n / 10);
    }
  }

  /** The text written for a star or fork count reads back as that count. */
  lemma ParseIntOfIntToText(n: int)
    ensures ParseInt(IntToText(n)) == n
  {
    if n < 0 {
      assert IntToText(n)[1..] == NatToText(-n);
      ParseDigitsOfNatToText(-n);
    } else {
      ParseDigitsOfNatToText(n);
    }
  }

  // ---------------------------------------------------------------------
  // str.replace on single characters
  // ---------------------------------------------------------------------

  /** s.replace(c, ''): every occurrence of c deleted. */
  function RemoveAll(s: string, c: char): (r: string)
    ensures c !in r
  {
    if s == [] then [] else (if s[0] == c then [] else [s[0]]) + RemoveAll(s[1..], c)
  }

  /**
   * Deleting c keeps every other character as often as it occurred, so the
   * result is shorter by the number of c.
   */
  lemma {:induction false} RemoveAllKeepsOthers(s: string, c: char)
    ensures multiset(RemoveAll(s, c)) == multiset(s)[c := 0]
    ensures |RemoveAll(s, c)| == |s| - multiset(s)[c]
  {
    if s != [] {
      assert s == [s[0]] + s[1..];
      RemoveAllKeepsOthers(s[1..], c);
    }
  }

  /** s.replace(c, d) for single characters c and d: each c becomes a d. */
  function ReplaceAll(s: string, c: char, d: char): (r: string)
    ensures |r| == |s|
    ensures forall i :: 0 <= i < |s| ==> r[i] == (if s[i] == c then d else s[i])
  {
    if s == [] then []
    else [if s[0] == c then d else s[0]] + ReplaceAll(s[1..], c, d)
  }

  /**
   * The description clean-up: carriage returns deleted, then line feeds
   * turned into spaces, so the field holds no line break.
   */
  function Clean(s: string): (r: string)
    ensures '\r' !in r && '\n' !in r
    ensures |r| == |s| - multiset(s)['\r']
  {
    RemoveAllKeepsOthers(s, '\r');
    ReplaceAll(RemoveAll(s, '\r'), '\n', ' ')
  }

  /** What the clean-up makes of one character. */
  function CleanChar(c: char): string {
    if c == '\r' then "" else if c == '\n' then " " else [c]
  }

  /** A reference definition of the clean-up, one character at a time. */
  function CleanEach(s: string): string {
    if s == [] then "" else CleanChar(s[0]) + CleanEach(s[1..])
  }

  lemma {:induction false} RemoveAllAppend(a: string, b: string, c: char)
    ensures RemoveAll(a + b, c) == RemoveAll(a, c) + RemoveAll(b, c)
  {
    if a == [] {
      assert a + b == b;
    } else {
      assert (a + b)[0] == a[0];
      assert (a + b)[1..] == a[1..] + b;
      RemoveAllAppend(a[1..], b, c);
    }
  }

  lemma ReplaceAllAppend(a: string, b: string, c: char, d: char)
    ensures ReplaceAll(a + b, c, d) == ReplaceAll(a, c, d) + ReplaceAll(b, c, d)
  {
    var l, r := ReplaceAll(a + b, c, d), ReplaceAll(a, c, d) + ReplaceAll(b, c, d);
    assert |l| == |r|;
    forall i | 0 <= i < |l| ensures l[i] == r[i] {
      if i >= |a| {
        assert (a + b)[i] == b[i - |a|];
      }
    }
  }

  /** Cleaning distributes over concatenation. */
  lemma CleanAppend(a: string, b: string)
    ensures Clean(a + b) == Clean(a) + Clean(b)
  {
    RemoveAllAppend(a, b, '\r');
    ReplaceAllAppend(RemoveAll(a, '\r'), RemoveAll(b, '\r'), '\n', ' ');
  }

  /** Clean agrees with the character-by-character reference definition. */
  lemma {:induction false} CleanMatchesCleanEach(s: string)
    ensures Clean(s) == CleanEach(s)
  {
    if s != [] {
      assert s == [s[0]] + s[1..];
      CleanAppend([s[0]], s[1..]);
      CleanMatchesCleanEach(s[1..]);
    }
  }

  /**
   * Every character other than a carriage return survives, in order: the
   * character at index i lands after the cleaned prefix s[..i], as itself or,
   * for a line feed, as a space.
   */
  lemma CleanAt(s: string, i: int)
    requires 0 <= i < |s| && s[i] != '\r'
    ensures i - multiset(s[..i])['\r'] < |Clean(s)|
    ensures Clean(s)[i - multiset(s[..i])['\r']] == (if s[i] == '\n' then ' ' else s[i])
  {
    assert s == s[..i] + ([s[i]] + s[i + 1..]);
    CleanAppend(s[..i], [s[i]] + s[i + 1..]);
    CleanAppend([s[i]], s[i + 1..]);
  }

  lemma {:induction false} RemoveAllAbsent(s: string, c: char)
    requires c !in s
    ensures RemoveAll(s, c) == s
  {
    if s != [] {
      RemoveAllAbsent(s[1..], c);
    }
  }

  /** A text left unchanged by cleaning is exactly one without line breaks. */
  lemma CleanIsIdentityIff(s: string)
    ensures Clean(s) == s <==> ('\r' !in s && '\n' !in s)
  {
    if '\r' !in s && '\n' !in s {
      RemoveAllAbsent(s, '\r');
      assert ReplaceAll(s, '\n', ' ') == s;
    }
  }

  /** Cleaning a cleaned description changes nothing. */
  lemma CleanIdempotent(s: string)
    ensures Clean(Clean(s)) == Clean(s)
  {
    CleanIsIdentityIff(Clean(s));
  }
}
