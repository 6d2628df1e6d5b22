/** Trimmed and decimal text. */
module Text {

  predicate Blank(c: char) {
    c == ' ' || c == '\t' || c == '\n' || c == '\r' || c == '\U{0B}' || c == '\U{0C}'
  }

  function TrimLeft(s: string): string {
    if s != "" && Blank(s[0]) then TrimLeft(s[1..]) else s
  }

  function TrimRight(s: string): string {
    if s != "" && Blank(s[|s| - 1]) then TrimRight(s[..|s| - 1]) else s
  }

  function Trim(s: string): string {
    TrimRight(TrimLeft(s))
  }

  /** Text the trimming leaves alone. */
  predicate Solid(s: string) {
    s != "" && !Blank(s[0]) && !Blank(s[|s| - 1])
  }

  lemma SolidIsTrimmed(s: string)
    requires Solid(s)
    ensures Trim(s) == s
  {
    assert TrimLeft(s) == s;
  }

  predicate AllBlank(s: string) {
    forall i :: 0 <= i < |s| ==> Blank(s[i])
  }

  lemma {:induction false} TrimLeftTakes(a: string, s: string)
    requires AllBlank(a) && (s == "" || !Blank(s[0]))
    ensures TrimLeft(a + s) == s
  {
    if a == "" {
      assert a + s == s;
    } else {
      assert (a + s)[1..] == a[1..] + s;
      TrimLeftTakes(a[1..], s);
    }
  }

  lemma {:induction false} TrimRightTakes(s: string, b: string)
    requires AllBlank(b) && (s == "" || !Blank(s[|s| - 1]))
    ensures TrimRight(s + b) == s
  {
    if b == "" {
      assert s + b == s;
    } else {
      var k := |b| - 1;
      assert (s + b)[..|s + b| - 1] == s + b[..k] && (s + b)[|s + b| - 1] == b[k];
      TrimRightTakes(s, b[..k]);
    }
  }

  /** Trimming takes away exactly the blanks around a text that neither starts nor ends with one. */
  lemma TrimTakesBlanks(a: string, s: string, b: string)
    requires AllBlank(a) && AllBlank(b) && (s == "" || Solid(s))
    ensures Trim(a + s + b) == s
  {
    if s == "" {
      assert a + s + b == (a + b) + "";
      TrimLeftTakes(a + b, "");
      assert TrimRight("") == "";
    } else {
      assert a + s + b == a + (s + b);
      TrimLeftTakes(a, s + b);
      TrimRightTakes(s, b);
    }
  }

  lemma {:induction false} TrimLeftStarts(s: string)
    ensures TrimLeft(s) == "" || !Blank(TrimLeft(s)[0])
  {
    if s != "" && Blank(s[0]) {
      TrimLeftStarts(s[1..]);
    }
  }

  lemma {:induction false} TrimRightEnds(s: string)
    ensures TrimRight(s) <= s && (TrimRight(s) == "" || !Blank(TrimRight(s)[|TrimRight(s)| - 1]))
  {
    if s != "" && Blank(s[|s| - 1]) {
      TrimRightEnds(s[..|s| - 1]);
      assert s == s[..|s| - 1] + [s[|s| - 1]];
    }
  }

  lemma TrimIsTrimmed(s: string)
    ensures Trim(s) == "" || Solid(Trim(s))
    ensures Trim(Trim(s)) == Trim(s)
  {
    hide TrimLeft, TrimRight;
    var l := TrimLeft(s);
    TrimLeftStarts(s);
    TrimRightEnds(l);
    var t := TrimRight(l);
    if t == "" {
      TrimTakesBlanks("", "", "");
      assert "" + "" + "" == "";
    } else {
      assert t[0] == l[0];
      SolidIsTrimmed(t);
    }
  }

  predicate IsDigit(c: char) { '0' <= c <= '9' }

  predicate Numeric(x: string) {
    x != "" && forall i :: 0 <= i < |x| ==> IsDigit(x[i])
  }

  function Digit(c: char): (d: nat)
    requires IsDigit(c)
    ensures d < 10
  {
    c as int - '0' as int
  }

  function Value(x: string): nat
    requires forall i :: 0 <= i < |x| ==> IsDigit(x[i])
  {
    if x == "" then 0 else 10 * Value(x[..|x| - 1]) + Digit(x[|x| - 1])
  }

  /** A numeric text has no leading zero. */
  predicate Canonical(x: string) {
    Numeric(x) && |x| > 1 ==> x[0] != '0'
  }

  lemma {:induction false} ValuePositive(x: string)
    requires Numeric(x) && x[0] != '0'
    ensures Value(x) > 0
  {
    if |x| > 1 {
      ValuePositive(x[..|x| - 1]);
    } else {
      assert x[..0] == "";
    }
  }

  /** Canonical decimals of the same value are the same text. */
  lemma {:induction false} CanonicalValue(x: string, y: string)
    requires Numeric(x) && Numeric(y) && Canonical(x) && Canonical(y) && Value(x) == Value(y)
    ensures x == y
    decreases |x|
  {
    var x', y' := x[..|x| - 1], y[..|y| - 1];
    assert x == x' + [x[|x| - 1]] && y == y' + [y[|y| - 1]];
    if |x| > 1 {
      ValuePositive(x');
    }
    if |y| > 1 {
      ValuePositive(y');
    }
    assert Value(x') == Value(y') && Digit(x[|x| - 1]) == Digit(y[|y| - 1]);
    if |x| > 1 && |y| > 1 {
      CanonicalValue(x', y');
    }
  }

  function DigitChar(d: nat): (c: char)
    requires d < 10
    ensures IsDigit(c) && Digit(c) == d
  {
    '0' + d as char
  }

  /** A natural number in decimal. */
  function Decimal(n: nat): (x: string)
    ensures Numeric(x) && Value(x) == n
    ensures n > 0 ==> x[0] != '0'
  {
    if n < 10 then
      var x := [DigitChar(n)];
      assert x[..0] == "";
      x
    else
      var x := Decimal(n / 10) + [DigitChar(n % 10)];
      assert x[..|x| - 1] == Decimal(n / 10);
      x
  }
}
