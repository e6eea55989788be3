/** The text functions the translations rest on: decimal numbers, splitting and ordering. */
module Text {
  import opened Common

  // ---------------------------------------------------------------------------
  // Decimal numbers
  // ---------------------------------------------------------------------------

  predicate IsDigit(c: char) {
    '0' <= c <= '9'
  }

  function DigitText(d: nat): (c: char)
    requires d < 10
    ensures IsDigit(c) && DigitValue(c) == d
  {
    '0' + d as char
  }

  function DigitValue(c: char): (d: nat)
    requires IsDigit(c)
    ensures d < 10
  {
    (c - '0') as int
  }

  function NatText(n: nat): (s: string)
    ensures s != "" && forall i :: 0 <= i < |s| ==> IsDigit(s[i])
  {
    if n < 10 then [DigitText(n)] else NatText(n / 10) + [DigitText(n % 10)]
  }

  function Itoa(n: int): string {
    if n < 0 then "-" + NatText(-n) else NatText(n)
  }

  function ParseDigits(s: string): Option<int> {
    if s == "" then Some(0)
    else
      match ParseDigits(s[..|s| - 1])
      case None => None
      case Some(v) => if IsDigit(s[|s| - 1]) then Some(10 * v + DigitValue(s[|s| - 1])) else None
  }

  /** A number of any size, with an optional sign. */
  function ParseInt(s: string): Option<int> {
    if s == "" then None
    else if s[0] == '-' then
      if s[1..] == "" then None
      else match ParseDigits(s[1..]) case None => None case Some(v) => Some(-v)
    else
      var digits := if s[0] == '+' then s[1..] else s;
      if digits == "" then None
      else match ParseDigits(digits) case None => None case Some(v) => Some(v)
  }

  lemma {:induction false} ParseNatText(n: nat)
    ensures ParseDigits(NatText(n)) == Some(n)
  {
    if n < 10 {
      assert [DigitText(n)][..0] == "";
    } else {
      ParseNatText(n / 10);
      var s := NatText(n);
      assert s[..|s| - 1] == NatText(n / 10);
    }
  }

  predicate IsInt64(n: int) {
    -0x8000_0000_0000_0000 <= n < 0x8000_0000_0000_0000
  }

  /** `strconv.Atoi`: a number out of range is an error. */
  function Atoi(s: string): Option<int> {
    match ParseInt(s)
    case Some(n) => if IsInt64(n) then Some(n) else None
    case None => None
  }

  /** The range of a 64-bit integer, in decimal. */
  lemma AtoiRange(s: string, n: int)
    ensures Atoi(s) == Some(n) <==> ParseInt(s) == Some(n) && -9223372036854775808 <= n <= 9223372036854775807
  {
  }

  lemma ParseIntItoa(n: int)
    ensures ParseInt(Itoa(n)) == Some(n)
  {
    if n < 0 {
      ParseNatText(-n);
      assert Itoa(n)[1..] == NatText(-n);
    } else {
      ParseNatText(n);
      assert IsDigit(NatText(n)[0]);
    }
  }

  /** Printing and reading back a number. */
  lemma AtoiItoa(n: int)
    ensures Atoi(Itoa(n)) == if IsInt64(n) then Some(n) else None
  {
    ParseIntItoa(n);
  }

  lemma ItoaInjective(a: int, b: int)
    ensures Itoa(a) == Itoa(b) ==> a == b
  {
    ParseIntItoa(a);
    ParseIntItoa(b);
  }

  lemma ItoaChars(n: int, c: char)
    requires !IsDigit(c) && c != '-'
    ensures c !in Itoa(n)
  {
  }

  ghost predicate AllDigits(s: string) {
    s != "" && forall i :: 0 <= i < |s| ==> '0' <= s[i] <= '9'
  }

  lemma {:induction false} ParseDigitsDefined(s: string)
    ensures ParseDigits(s).Some? <==> forall i :: 0 <= i < |s| ==> '0' <= s[i] <= '9'
    ensures ParseDigits(s).Some? ==> ParseDigits(s).value >= 0
  {
    if s != "" {
      ParseDigitsDefined(s[..|s| - 1]);
      assert s == s[..|s| - 1] + [s[|s| - 1]];
    }
  }

  lemma OneDigit(d: char)
    requires '0' <= d <= '9'
    ensures ParseInt([d]) == Some(d as int - '0' as int)
  {
    var s := [d];
    assert s[..0] == "" && s[0] == d && ParseDigits("") == Some(0);
    assert ParseDigits(s) == Some(10 * 0 + DigitValue(d));
  }

  /** Each further digit counts ten times what stands before it. */
  lemma OneMoreDigit(s: string, d: char)
    requires AllDigits(s) && '0' <= d <= '9'
    ensures ParseInt(s).Some? && ParseInt(s + [d]) == Some(10 * ParseInt(s).value + (d as int - '0' as int))
  {
    ParseDigitsDefined(s);
    assert (s + [d])[..|s|] == s;
  }

  /** Exactly digits behind at most one sign are a number; a minus negates. */
  lemma NumbersAreDigits(s: string)
    ensures ParseInt(s).Some? <==> AllDigits(s) || (s != "" && (s[0] == '-' || s[0] == '+') && AllDigits(s[1..]))
    ensures AllDigits(s) ==> ParseInt("-" + s) == Some(-ParseInt(s).value) && ParseInt("+" + s) == ParseInt(s)
  {
    ParseDigitsDefined(s);
    if s != "" {
      ParseDigitsDefined(s[1..]);
    }
    assert ("-" + s)[1..] == s && ("+" + s)[1..] == s;
  }

  /** A printed number is its digits without a zero in front, behind a minus when it is negative. */
  lemma NumbersPrintPlain(n: int)
    ensures n >= 0 ==> AllDigits(Itoa(n)) && (Itoa(n)[0] == '0' ==> Itoa(n) == "0")
    ensures n < 0 ==> Itoa(n) == "-" + Itoa(-n)
  {
    if n >= 0 {
      NoLeadingZero(n);
    }
  }

  lemma {:induction false} NoLeadingZero(n: nat)
    ensures NatText(n)[0] == '0' <==> n == 0
    ensures n < 10 ==> |NatText(n)| == 1
  {
    if n >= 10 {
      NoLeadingZero(n / 10);
    } else {
      assert NatText(n)[0] == '0' + n as char;
    }
  }

  // ---------------------------------------------------------------------------
  // Splitting
  // ---------------------------------------------------------------------------

  function Count(s: string, c: char): nat {
    if s == "" then 0 else Count(s[..|s| - 1], c) + if s[|s| - 1] == c then 1 else 0
  }

  /** `strings.Split` with a separator of one character. */
  function Split(s: string, c: char): (parts: seq<string>)
    ensures parts != []
  {
    if s == "" then [""]
    else
      var parts := Split(s[..|s| - 1], c);
      if s[|s| - 1] == c then parts + [""]
      else parts[..|parts| - 1] + [parts[|parts| - 1] + [s[|s| - 1]]]
  }

  lemma {:induction false} SplitCount(s: string, c: char)
    ensures |Split(s, c)| == Count(s, c) + 1
  {
    if s != "" {
      SplitCount(s[..|s| - 1], c);
    }
  }

  lemma {:induction false} CountAppend(a: string, b: string, c: char)
    ensures Count(a + b, c) == Count(a, c) + Count(b, c)
  {
    if b == "" {
      assert a + b == a;
    } else {
      assert (a + b)[..|a + b| - 1] == a + b[..|b| - 1];
      CountAppend(a, b[..|b| - 1], c);
    }
  }

  lemma {:induction false} CountZero(s: string, c: char)
    ensures Count(s, c) == 0 <==> c !in s
  {
    if s != "" {
      CountZero(s[..|s| - 1], c);
      assert s == s[..|s| - 1] + [s[|s| - 1]];
    }
  }

  lemma {:induction false} SplitNone(s: string, c: char)
    requires c !in s
    ensures Split(s, c) == [s]
  {
    if s != "" {
      SplitNone(s[..|s| - 1], c);
      assert s == s[..|s| - 1] + [s[|s| - 1]];
    }
  }

  lemma {:induction false} SplitOne(s: string, c: char)
    requires |Split(s, c)| == 1
    ensures Split(s, c) == [s] && c !in s
  {
    if s != "" {
      SplitOne(s[..|s| - 1], c);
      assert s == s[..|s| - 1] + [s[|s| - 1]];
    }
  }

  /** Two parts join to the text again, and neither has the separator. */
  lemma {:induction false} SplitBack(s: string, c: char)
    requires |Split(s, c)| == 2
    ensures s == Split(s, c)[0] + [c] + Split(s, c)[1] && c !in Split(s, c)[0] && c !in Split(s, c)[1]
  {
    var front, last := s[..|s| - 1], s[|s| - 1];
    assert s == front + [last];
    if last == c {
      SplitOne(front, c);
    } else {
      SplitBack(front, c);
    }
  }

  lemma {:induction false} SplitTwo(a: string, b: string, c: char)
    requires c !in a && c !in b
    ensures Split(a + [c] + b, c) == [a, b]
  {
    var s := a + [c] + b;
    if b == "" {
      assert s[..|s| - 1] == a;
      SplitNone(a, c);
    } else {
      assert s[..|s| - 1] == a + [c] + b[..|b| - 1];
      SplitTwo(a, b[..|b| - 1], c);
      assert b == b[..|b| - 1] + [b[|b| - 1]];
    }
  }

  function LowerChar(c: char): char {
    if 'A' <= c <= 'Z' then c - 'A' + 'a' else c
  }

  function Lower(s: string): string {
    seq(|s|, i requires 0 <= i < |s| => LowerChar(s[i]))
  }

  predicate HasPrefix(s: string, prefix: string) {
    prefix <= s
  }

  // ---------------------------------------------------------------------------
  // Order
  // ---------------------------------------------------------------------------

  /** The order of the language's `<` on strings. */
  predicate Less(a: string, b: string) {
    b != "" && (a == "" || a[0] < b[0] || (a[0] == b[0] && Less(a[1..], b[1..])))
  }

  /** One text is less than another when it is a proper beginning of it, or has the smaller character
      at the first place where they differ. */
  lemma {:induction false} LessMeans(a: string, b: string)
    ensures Less(a, b) <==> (|a| < |b| && a == b[..|a|]) || exists i :: DiffersFirstAt(a, b, i) && a[i] < b[i]
  {
    if a != "" && b != "" && a[0] == b[0] {
      LessMeans(a[1..], b[1..]);
      assert a == [a[0]] + a[1..];
      assert |a| < |b| ==> b[..|a|] == [b[0]] + b[1..][..|a| - 1];
      forall i
        ensures DiffersFirstAt(a[1..], b[1..], i) ==> DiffersFirstAt(a, b, i + 1)
        ensures DiffersFirstAt(a, b, i) ==> i > 0 && DiffersFirstAt(a[1..], b[1..], i - 1)
      {
        if DiffersFirstAt(a[1..], b[1..], i) {
          assert forall j :: 1 <= j <= i + 1 ==> a[j] == a[1..][j - 1] && b[j] == b[1..][j - 1];
        }
      }
    } else if a != "" && b != "" {
      assert DiffersFirstAt(a, b, 0);
    }
  }

  ghost predicate DiffersFirstAt(a: string, b: string, i: int) {
    0 <= i < |a| && i < |b| && a[i] != b[i] && forall j :: 0 <= j < i ==> a[j] == b[j]
  }

  lemma {:induction false} LessAsymmetric(a: string, b: string)
    ensures !(Less(a, b) && Less(b, a))
  {
    if a != "" && b != "" {
      LessAsymmetric(a[1..], b[1..]);
    }
  }

  lemma {:induction false} LessTotal(a: string, b: string)
    ensures a == b || Less(a, b) || Less(b, a)
  {
    if a != "" && b != "" {
      LessTotal(a[1..], b[1..]);
      assert a == [a[0]] + a[1..] && b == [b[0]] + b[1..];
    }
  }

  lemma {:induction false} LessTransitive(a: string, b: string, c: string)
    requires Less(a, b) && Less(b, c)
    ensures Less(a, c)
  {
    if a != "" && a[0] == b[0] == c[0] {
      LessTransitive(a[1..], b[1..], c[1..]);
    }
  }
}
