/**
 * `int.TryParse(string, out int)` with the default `NumberStyles.Integer` and ASCII
 * signs: optional leading white space, an optional `+` or `-`, one or more ASCII
 * digits, optional trailing white space, and a value that fits in 32 bits.
 */
module IntParsing {
  import opened Wrappers

  const Int32Min: int := -0x8000_0000
  const Int32Max: int := 0x7FFF_FFFF

  /** The white space the number parser skips: U+0009 to U+000D and the space. */
  predicate IsNumberWhite(c: char) {
    c == ' ' || ('\t' <= c <= '\r')
  }

  predicate IsSign(c: char) {
    c == '+' || c == '-'
  }

  predicate IsDigit(c: char) {
    '0' <= c <= '9'
  }

  predicate AllNumberWhite(s: string) {
    forall i :: 0 <= i < |s| ==> IsNumberWhite(s[i])
  }

  predicate AllDigits(s: string) {
    forall i :: 0 <= i < |s| ==> IsDigit(s[i])
  }

  /** The length of the longest prefix of `s` made of number white space. */
  function WhiteRun(s: string): (n: nat)
    ensures n <= |s| && AllNumberWhite(s[..n])
    ensures n < |s| ==> !IsNumberWhite(s[n])
  {
    if s == [] || !IsNumberWhite(s[0]) then 0 else 1 + WhiteRun(s[1..])
  }

  /** The length of the longest prefix of `s` made of ASCII digits. */
  function DigitRun(s: string): (n: nat)
    ensures n <= |s| && AllDigits(s[..n])
    ensures n < |s| ==> !IsDigit(s[n])
  {
    if s == [] || !IsDigit(s[0]) then 0 else 1 + DigitRun(s[1..])
  }

  /** The decimal value of a string of ASCII digits. */
  function DigitsValue(d: string): nat
    requires AllDigits(d)
  {
    if d == [] then 0 else 10 * DigitsValue(d[..|d| - 1]) + (d[|d| - 1] as int - '0' as int)
  }

  function Pow10(n: nat): nat {
    if n == 0 then 1 else 10 * Pow10(n - 1)
  }

  /**
   * The layout the parser accepts: `s[..i]` white space, `s[i..j]` an optional sign,
   * `s[j..k]` at least one digit, `s[k..]` white space.
   */
  predicate IntegerShape(s: string, i: nat, j: nat, k: nat) {
    && i <= j < k <= |s|
    && AllNumberWhite(s[..i])
    && (j == i || (j == i + 1 && IsSign(s[i])))
    && AllDigits(s[j..k])
    && AllNumberWhite(s[k..])
  }

  /** The value a text of that layout denotes. */
  function ShapeValue(s: string, i: nat, j: nat, k: nat): int
    requires i <= j <= k <= |s| && AllDigits(s[j..k])
  {
    var m: int := DigitsValue(s[j..k]);
    if j == i + 1 && s[i] == '-' then -m else m
  }

  predicate InInt32(v: int) {
    Int32Min <= v <= Int32Max
  }

  /** The parser: `Some(value)` where `int.TryParse` returns true, `None` where it returns false. */
  function TryParseInt32(s: string): (r: Option<int>)
    ensures r.Some? ==> InInt32(r.value)
  {
    var i := WhiteRun(s);
    var j := if i < |s| && IsSign(s[i]) then i + 1 else i;
    var k := j + DigitRun(s[j..]);
    assert s[j..k] == s[j..][..k - j];
    if k == j || !AllNumberWhite(s[k..]) then None
    else
      var v := ShapeValue(s, i, j, k);
      if InInt32(v) then Some(v) else None
  }

  /** In a text of the integer layout, every character between two digits is a digit too. */
  lemma ShapeDigitsContiguous(s: string, i: nat, j: nat, k: nat, q: nat, p: nat, r: nat)
    requires IntegerShape(s, i, j, k)
    requires q < p < r < |s| && IsDigit(s[q]) && IsDigit(s[r])
    ensures IsDigit(s[p])
  {
    forall n | 0 <= n < i ensures IsNumberWhite(s[n]) {
      assert s[..i][n] == s[n];
    }
    forall n | k <= n < |s| ensures IsNumberWhite(s[n]) {
      assert s[k..][n - k] == s[n];
    }
    forall n | j <= n < k ensures IsDigit(s[n]) {
      assert s[j..k][n - j] == s[n];
    }
  }

  /** White space between two digits breaks the integer layout, so the parser refuses the text. */
  lemma WhiteBetweenDigitsRejected(s: string, q: nat, p: nat, r: nat)
    requires q < p < r < |s|
    requires IsDigit(s[q]) && IsNumberWhite(s[p]) && IsDigit(s[r])
    ensures forall i: nat, j: nat, k: nat :: !IntegerShape(s, i, j, k)
    ensures TryParseInt32(s).None?
  {
    forall i: nat, j: nat, k: nat | IntegerShape(s, i, j, k) ensures false {
      ShapeDigitsContiguous(s, i, j, k, q, p, r);
    }
    TryParseInt32Sound(s);
  }

  /** Whatever the parser accepts has the integer layout, and its value is that layout's value. */
  lemma TryParseInt32Sound(s: string)
    ensures TryParseInt32(s).Some? ==>
      exists i: nat, j: nat, k: nat :: IntegerShape(s, i, j, k) && ShapeValue(s, i, j, k) == TryParseInt32(s).value
  {
    var i := WhiteRun(s);
    var j := if i < |s| && IsSign(s[i]) then i + 1 else i;
    var k := j + DigitRun(s[j..]);
    assert s[j..k] == s[j..][..k - j];
    if TryParseInt32(s).Some? {
      assert IntegerShape(s, i, j, k);
    }
  }

  /** A prefix of white space followed by something else is exactly the white-space run. */
  lemma {:induction false} WhiteRunUnique(s: string, n: nat)
    requires n <= |s| && AllNumberWhite(s[..n]) && (n < |s| ==> !IsNumberWhite(s[n]))
    ensures WhiteRun(s) == n
    decreases n
  {
    if n > 0 {
      assert s[..n][0] == s[0];
      var t := s[1..][..n - 1];
      forall i | 0 <= i < |t| ensures IsNumberWhite(t[i]) {
        assert t[i] == s[..n][i + 1];
      }
      WhiteRunUnique(s[1..], n - 1);
    }
  }

  /** A prefix of digits followed by something else is exactly the digit run. */
  lemma {:induction false} DigitRunUnique(s: string, n: nat)
    requires n <= |s| && AllDigits(s[..n]) && (n < |s| ==> !IsDigit(s[n]))
    ensures DigitRun(s) == n
    decreases n
  {
    if n > 0 {
      assert s[..n][0] == s[0];
      var t := s[1..][..n - 1];
      forall i | 0 <= i < |t| ensures IsDigit(t[i]) {
        assert t[i] == s[..n][i + 1];
      }
      DigitRunUnique(s[1..], n - 1);
    }
  }

  /** Every text of the integer layout is parsed, and to its value when that fits in 32 bits. */
  lemma {:induction false} TryParseInt32Complete(s: string, i: nat, j: nat, k: nat)
    requires IntegerShape(s, i, j, k)
    ensures TryParseInt32(s) == if InInt32(ShapeValue(s, i, j, k)) then Some(ShapeValue(s, i, j, k)) else None
  {
    assert s[j..k][0] == s[j];
    if i < j {
      assert !IsNumberWhite(s[i]);
    } else {
      assert !IsNumberWhite(s[j]);
    }
    WhiteRunUnique(s, i);
    assert (i < |s| && IsSign(s[i])) <==> j == i + 1 by {
      if j == i {
        assert !IsSign(s[j]);
      }
    }
    var t := s[j..];
    assert t[..k - j] == s[j..k];
    if k < |s| {
      assert t[k - j] == s[k] && s[k..][0] == s[k];
      assert !IsDigit(s[k]);
    }
    DigitRunUnique(t, k - j);
  }

  lemma {:induction false} DigitsValueBound(d: string)
    requires AllDigits(d)
    ensures DigitsValue(d) < Pow10(|d|)
  {
    if d != [] {
      DigitsValueBound(d[..|d| - 1]);
    }
  }

  lemma {:induction false} Pow10Monotonic(m: nat, n: nat)
    requires m <= n
    ensures Pow10(m) <= Pow10(n)
  {
    if m < n {
      Pow10Monotonic(m, n - 1);
    }
  }

  /** A text of at most nine characters never overflows: it parses iff it has the integer layout. */
  lemma ShortTextParses(s: string)
    requires |s| <= 9
    ensures TryParseInt32(s).Some? <==> exists i: nat, j: nat, k: nat :: IntegerShape(s, i, j, k)
  {
    TryParseInt32Sound(s);
    if i: nat, j: nat, k: nat :| IntegerShape(s, i, j, k) {
      DigitsValueBound(s[j..k]);
      Pow10Monotonic(k - j, 9);
      assert Pow10(9) == 1_000_000_000;
      TryParseInt32Complete(s, i, j, k);
    }
  }
}
