/**
 The string functions the server relies on: PostgreSQL's `TRIM` (spaces
 only, both ends) and `LOWER` (modelled on ASCII letters), which together
 key the merge of custom items, and the decimal rendering of event codes
 (`Number.prototype.toString`).
 */
module Text {

  predicate AllSpaces(s: string)
  {
    forall i :: 0 <= i < |s| ==> s[i] == ' '
  }

  /** `s` with its leading spaces removed. */
  function TrimStart(s: string): string
  {
    if |s| > 0 && s[0] == ' ' then TrimStart(s[1..]) else s
  }

  /** `s` with its trailing spaces removed. */
  function TrimEnd(s: string): string
  {
    if |s| > 0 && s[|s| - 1] == ' ' then TrimEnd(s[..|s| - 1]) else s
  }

  /** `TrimStart(s)` is what follows a run of leading spaces of `s`, and starts with a non-space. */
  lemma {:induction false} TrimStartSplits(s: string)
    ensures var r := TrimStart(s);
            && |r| <= |s| && r == s[|s| - |r|..]
            && (r == [] || r[0] != ' ')
            && AllSpaces(s[..|s| - |r|])
  {
    if |s| > 0 && s[0] == ' ' {
      TrimStartSplits(s[1..]);
      var r := TrimStart(s);
      assert s[..|s| - |r|] == [' '] + s[1..][..|s| - 1 - |r|];
    }
  }

  /** `TrimEnd(s)` is what precedes a run of trailing spaces of `s`, and ends with a non-space. */
  lemma {:induction false} TrimEndSplits(s: string)
    ensures var r := TrimEnd(s);
            && |r| <= |s| && r == s[..|r|]
            && (r == [] || r[|r| - 1] != ' ')
            && AllSpaces(s[|r|..])
  {
    if |s| > 0 && s[|s| - 1] == ' ' {
      var t := s[..|s| - 1];
      TrimEndSplits(t);
      var r := TrimEnd(s);
      assert s[|r|..] == t[|r|..] + [' '];
    }
  }

  /** PostgreSQL `TRIM(s)`: spaces removed from both ends. */
  function Trim(s: string): string
  {
    TrimEnd(TrimStart(s))
  }

  function LowerChar(c: char): char
  {
    if 'A' <= c <= 'Z' then (c as int - 'A' as int + 'a' as int) as char else c
  }

  /** PostgreSQL `LOWER(s)`, on ASCII letters. */
  function Lower(s: string): string
  {
    seq(|s|, i requires 0 <= i < |s| => LowerChar(s[i]))
  }

  /** The key two item names are compared by: `LOWER(TRIM(name))`. */
  function NameKey(s: string): string
  {
    Lower(Trim(s))
  }

  lemma {:induction false} TrimStartPadded(a: string, t: string)
    requires AllSpaces(a)
    ensures TrimStart(a + t) == TrimStart(t)
  {
    if |a| > 0 {
      assert (a + t)[1..] == a[1..] + t;
      TrimStartPadded(a[1..], t);
    } else {
      assert a + t == t;
    }
  }

  lemma {:induction false} TrimEndPadded(t: string, b: string)
    requires AllSpaces(b)
    ensures TrimEnd(t + b) == TrimEnd(t)
  {
    if |b| > 0 {
      assert (t + b)[..|t + b| - 1] == t + b[..|b| - 1];
      TrimEndPadded(t, b[..|b| - 1]);
    } else {
      assert t + b == t;
    }
  }

  /** Trailing text survives the removal of leading spaces when `s` has a non-space. */
  lemma {:induction false} TrimStartAppend(s: string, t: string)
    requires !AllSpaces(s)
    ensures TrimStart(s + t) == TrimStart(s) + t
  {
    if s[0] == ' ' {
      assert (s + t)[1..] == s[1..] + t;
      TrimStartAppend(s[1..], t);
    }
  }

  lemma TrimStartOfSpaces(s: string)
    requires AllSpaces(s)
    ensures TrimStart(s) == []
  {
  }

  /** Spaces around a name do not change its key. */
  lemma NameKeyIgnoresPadding(a: string, s: string, b: string)
    requires AllSpaces(a) && AllSpaces(b)
    ensures NameKey(a + s + b) == NameKey(s)
  {
    assert a + s + b == a + (s + b);
    TrimStartPadded(a, s + b);
    if AllSpaces(s) {
      assert AllSpaces(s + b);
      TrimStartOfSpaces(s + b);
      TrimStartOfSpaces(s);
    } else {
      TrimStartAppend(s, b);
      TrimEndPadded(TrimStart(s), b);
    }
  }

  lemma {:induction false} TrimStartLower(s: string)
    ensures TrimStart(Lower(s)) == Lower(TrimStart(s))
  {
    if |s| > 0 {
      assert Lower(s)[1..] == Lower(s[1..]);
      TrimStartLower(s[1..]);
    }
  }

  lemma {:induction false} TrimEndLower(s: string)
    ensures TrimEnd(Lower(s)) == Lower(TrimEnd(s))
  {
    if |s| > 0 {
      assert Lower(s)[..|s| - 1] == Lower(s[..|s| - 1]);
      TrimEndLower(s[..|s| - 1]);
    }
  }

  lemma LowerTwice(t: string)
    ensures Lower(Lower(t)) == Lower(t)
  {
    forall i | 0 <= i < |t|
      ensures Lower(Lower(t))[i] == Lower(t)[i]
    {
      var c := t[i];
      if 'A' <= c <= 'Z' {
        assert 'a' <= LowerChar(c) <= 'z';
      }
    }
  }

  /** The case of a name does not change its key. */
  lemma NameKeyIgnoresCase(s: string)
    ensures NameKey(Lower(s)) == NameKey(s)
  {
    calc {
      NameKey(Lower(s));
      Lower(TrimEnd(TrimStart(Lower(s))));
      { TrimStartLower(s); }
      Lower(TrimEnd(Lower(TrimStart(s))));
      { TrimEndLower(TrimStart(s)); }
      Lower(Lower(Trim(s)));
      { LowerTwice(Trim(s)); }
      NameKey(s);
    }
  }

  predicate IsDigits(s: string)
  {
    forall i :: 0 <= i < |s| ==> '0' <= s[i] <= '9'
  }

  function Digit(d: nat): char
    requires d < 10
  {
    ('0' as int + d) as char
  }

  /** Decimal rendering of a natural number, most significant digit first, no leading zeros. */
  function Decimal(n: nat): (r: string)
    ensures 1 <= |r| && IsDigits(r)
    ensures r[0] != '0' || n == 0
  {
    if n < 10 then [Digit(n)] else Decimal(n / 10) + [Digit(n % 10)]
  }

  /** The value of a string of decimal digits. */
  function ParseDecimal(s: string): nat
    requires IsDigits(s)
  {
    if |s| == 0 then 0
    else ParseDecimal(s[..|s| - 1]) * 10 + (s[|s| - 1] as int - '0' as int)
  }

  /** Parsing a rendered number gives the number back. */
  lemma {:induction false} ParseDecimalInverse(n: nat)
    ensures ParseDecimal(Decimal(n)) == n
  {
    if n >= 10 {
      var r := Decimal(n);
      assert r[..|r| - 1] == Decimal(n / 10);
      ParseDecimalInverse(n / 10);
    }
  }

  /** Every number from 1000 to 9999 renders as exactly four digits. */
  lemma DecimalFourDigits(n: nat)
    requires 1000 <= n <= 9999
    ensures |Decimal(n)| == 4
  {
    assert |Decimal(n / 1000)| == 1;
    assert n / 1000 == n / 10 / 10 / 10;
    assert |Decimal(n / 100)| == 2;
    assert n / 100 == n / 10 / 10;
    assert |Decimal(n / 10)| == 3;
  }
}
