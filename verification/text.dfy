/** The string functions of the two platforms that the share format relies on. */
module Text {
  import opened Wrappers

  predicate IsDigit(c: char) { '0' <= c <= '9' }

  predicate AllDigits(s: string) {
    forall i :: 0 <= i < |s| ==> IsDigit(s[i])
  }

  /** The decimal rendering of a number. */
  function Decimal(n: nat): (s: string)
    ensures s != "" && AllDigits(s)
  {
    if n < 10 then ['0' + n as char] else Decimal(n / 10) + ['0' + (n % 10) as char]
  }

  function DigitsValue(s: string): nat
    requires AllDigits(s)
  {
    if s == "" then 0 else DigitsValue(s[..|s| - 1]) * 10 + (s[|s| - 1] - '0') as nat
  }

  const MAX_INT := 0x7fff_ffff_ffff_ffff

  /** Go's strconv.Atoi: an optional sign, at least one digit, and a value that fits 64 bits. */
  function Atoi(s: string): Option<int> {
    var signed := s != "" && (s[0] == '-' || s[0] == '+');
    var digits := if signed then s[1..] else s;
    if digits == "" || !AllDigits(digits) then None
    else
      var d: int := DigitsValue(digits);
      var v := if signed && s[0] == '-' then -d else d;
      if -MAX_INT - 1 <= v <= MAX_INT then Some(v) else None
  }

  /** The browser's test for one or more digits, followed by parseInt. */
  function ParseDigits(s: string): Option<int> {
    if s != "" && AllDigits(s) then Some(DigitsValue(s)) else None
  }

  /** The pieces between the dots; there is always at least one. */
  function SplitDots(s: string): (parts: seq<string>)
    ensures |parts| >= 1
  {
    if s == "" then [""]
    else
      var rest := SplitDots(s[1..]);
      if s[0] == '.' then [""] + rest else [[s[0]] + rest[0]] + rest[1..]
  }

  predicate NoDots(s: string) {
    forall i :: 0 <= i < |s| ==> s[i] != '.'
  }

  lemma {:induction false} DecimalValue(n: nat)
    ensures DigitsValue(Decimal(n)) == n
  {
    if n < 10 {
      assert DigitsValue(Decimal(n)) == DigitsValue(Decimal(n)[..0]) * 10 + n;
    } else {
      var s := Decimal(n);
      DecimalValue(n / 10);
      assert s[..|s| - 1] == Decimal(n / 10) && (s[|s| - 1] - '0') as nat == n % 10;
    }
  }

  /** Decimal notation: the last digit is the remainder by ten, and no number but zero begins with a zero. */
  lemma {:induction false} DecimalDigits(n: nat)
    ensures var s := Decimal(n);
            && (s[|s| - 1] - '0') as nat == n % 10
            && (s[0] == '0' <==> n == 0)
            && (|s| == 1 <==> n < 10)
    ensures n >= 10 ==> Decimal(n)[..|Decimal(n)| - 1] == Decimal(n / 10)
  {
    if n >= 10 { DecimalDigits(n / 10); }
  }

  /** Both parsers read a rendered number back. */
  lemma ParseDecimal(n: nat)
    requires n <= 255
    ensures Atoi(Decimal(n)) == Some(n) && ParseDigits(Decimal(n)) == Some(n)
  {
    DecimalValue(n);
    assert IsDigit(Decimal(n)[0]);
  }

  /** In the range a share may use, the two parsers differ only on a leading plus sign. */
  lemma ParsersAgree(s: string, lo: int, hi: int)
    requires 0 < lo <= hi <= 255 && (s == "" || s[0] != '+')
    ensures var a, b := Atoi(s), ParseDigits(s);
            (a.Some? && lo <= a.value <= hi <==> b.Some? && lo <= b.value <= hi)
            && (a.Some? && lo <= a.value <= hi ==> a == b)
  {
    if s != "" && AllDigits(s) { assert IsDigit(s[0]); }
  }

  lemma {:induction false} SplitNoDots(a: string)
    requires NoDots(a)
    ensures SplitDots(a) == [a]
  {
    if a != "" {
      assert NoDots(a[1..]);
      SplitNoDots(a[1..]);
      assert a == [a[0]] + a[1..];
    }
  }

  lemma {:induction false} SplitFirst(a: string, rest: string)
    requires NoDots(a)
    ensures SplitDots(a + "." + rest) == [a] + SplitDots(rest)
  {
    var s := a + "." + rest;
    if a == "" {
      assert s[1..] == rest;
    } else {
      assert s[1..] == a[1..] + "." + rest && NoDots(a[1..]);
      SplitFirst(a[1..], rest);
      assert a == [a[0]] + a[1..];
    }
  }

  /** The pieces, joined by dots again. */
  function JoinDots(parts: seq<string>): string
    requires |parts| > 0
  {
    if |parts| == 1 then parts[0] else parts[0] + "." + JoinDots(parts[1..])
  }

  /** Splitting gives the pieces without dots that join to the string. */
  lemma {:induction false} SplitJoins(s: string)
    ensures JoinDots(SplitDots(s)) == s
    ensures forall i :: 0 <= i < |SplitDots(s)| ==> NoDots(SplitDots(s)[i])
  {
    if s != "" {
      var rest, parts := SplitDots(s[1..]), SplitDots(s);
      SplitJoins(s[1..]);
      assert s == [s[0]] + s[1..];
      if s[0] == '.' {
        assert parts[1..] == rest;
        assert [] + "." + JoinDots(rest) == "." + s[1..];
      } else {
        assert parts[1..] == rest[1..];
        if |rest| > 1 {
          assert [s[0]] + rest[0] + "." + JoinDots(rest[1..]) == [s[0]] + (rest[0] + "." + JoinDots(rest[1..]));
        }
      }
    }
  }

  /** A property of every character but the dot carries over to every piece. */
  lemma {:induction false} SplitPreserves(s: string, p: char -> bool)
    requires forall i :: 0 <= i < |s| ==> s[i] == '.' || p(s[i])
    ensures forall j, i :: 0 <= j < |SplitDots(s)| && 0 <= i < |SplitDots(s)[j]| ==> p(SplitDots(s)[j][i])
  {
    if s != "" {
      SplitPreserves(s[1..], p);
      var rest := SplitDots(s[1..]);
      forall j, i | 0 <= j < |SplitDots(s)| && 0 <= i < |SplitDots(s)[j]|
        ensures p(SplitDots(s)[j][i])
      {
        if s[0] != '.' && j == 0 {
          if i > 0 { assert SplitDots(s)[0][i] == rest[0][i - 1]; }
        } else {
          assert SplitDots(s)[j] == rest[if s[0] == '.' then j - 1 else j];
        }
      }
    }
  }
}
