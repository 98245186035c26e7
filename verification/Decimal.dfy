/** The decimal printer of internal/middleware/ratelimit_principal.go. */
module Decimal {

  predicate IsDigit(c: char) {
    '0' <= c <= '9'
  }

  predicate Digits(s: string) {
    forall i :: 0 <= i < |s| ==> IsDigit(s[i])
  }

  /** Reading on in base 10, from the value read so far. */
  function Read(acc: nat, s: string): nat
    requires Digits(s)
    decreases |s|
  {
    if s == "" then acc else Read(acc * 10 + (s[0] as int - '0' as int), s[1..])
  }

  /** Digits count in tens. */
  lemma ReadTens(s: string, d: char)
    requires Digits(s) && IsDigit(d)
    ensures Read(0, [d]) == d as int - '0' as int < 10
    ensures Read(0, s + [d]) == 10 * Read(0, s) + Read(0, [d])
  {
    ReadLast(0, s + [d]);
    assert (s + [d])[..|s|] == s;
    assert [d][1..] == "" && Read(0, [d]) == Read(d as int - '0' as int, "");
  }

  /** A decimal numeral without needless leading zeros. */
  predicate Numeral(s: string) {
    s != "" && Digits(s) && (s[0] == '0' ==> |s| == 1)
  }

  lemma {:induction false} ReadLast(acc: nat, s: string)
    requires s != "" && Digits(s)
    ensures Read(acc, s) == Read(acc, s[..|s| - 1]) * 10 + (s[|s| - 1] as int - '0' as int)
    decreases |s|
  {
    if |s| > 1 {
      ReadLast(acc * 10 + (s[0] as int - '0' as int), s[1..]);
      assert s[1..][..|s| - 2] == s[..|s| - 1][1..];
    }
  }

  lemma {:induction false} ReadPositive(s: string)
    requires Numeral(s) && s != "0"
    ensures Read(0, s) >= 1
    ensures |s| > 1 ==> Read(0, s) >= 10
  {
    ReadLast(0, s);
    if |s| > 1 {
      ReadPositive(s[..|s| - 1]);
    } else {
      assert s[..0] == "" && s[0] != '0';
    }
  }

  /** Every number has one numeral only. */
  lemma {:induction false} NumeralUnique(s: string, t: string)
    requires Numeral(s) && Numeral(t) && Read(0, s) == Read(0, t)
    ensures s == t
  {
    ReadLast(0, s);
    ReadLast(0, t);
    assert s[|s| - 1] == t[|t| - 1];
    if |s| == 1 || |t| == 1 {
      assert s[..|s| - 1] == "" || t[..|t| - 1] == "";
      if s != "0" {
        ReadPositive(s);
      }
      if t != "0" {
        ReadPositive(t);
      }
    } else {
      NumeralUnique(s[..|s| - 1], t[..|t| - 1]);
      assert s == s[..|s| - 1] + [s[|s| - 1]] && t == t[..|t| - 1] + [t[|t| - 1]];
    }
  }

  /** Prints the numeral of n; NumeralUnique makes it the only possible result. */
  method IntToStr(n: nat) returns (s: string)
    ensures Numeral(s) && Read(0, s) == n
  {
    if n < 10 {
      s := [('0' as int + n) as char];
      assert s[1..] == "";
      return;
    }
    s := "";
    var rest := n;
    while rest > 0
      invariant Digits(s) && Read(rest, s) == n
      invariant rest == 0 ==> s != "" && s[0] != '0'
    {
      var digit := ('0' as int + rest % 10) as char;
      assert ([digit] + s)[1..] == s;
      s := [digit] + s;
      rest := rest / 10;
    }
  }
}
