/**
 * Python's `str(n)` for integers and `int(s)` for the strings that `str`
 * produces (an optional leading '-' followed by ASCII digits).  Both lab_4
 * scripts go through these conversions to move between digit lists and
 * numbers.
 */
module Decimal {
  import opened Wrappers

  predicate IsDigitChar(c: char) {
    '0' <= c <= '9'
  }

  predicate AllDigits(s: seq<char>) {
    forall i :: 0 <= i < |s| ==> IsDigitChar(s[i])
  }

  /** The character `str(d)` prints for a digit `d`. */
  function DigitChar(d: int): (c: char)
    requires 0 <= d <= 9
    ensures IsDigitChar(c) && CharValue(c) == d
  {
    (d + '0' as int) as char
  }

  /** `int(c)` for one ASCII digit. */
  function CharValue(c: char): int
    requires IsDigitChar(c)
  {
    c as int - '0' as int
  }

  /** `str(n)` for `n >= 0`: the shortest decimal spelling. */
  function NatToDecimal(n: nat): (s: seq<char>)
    ensures |s| >= 1
    ensures s[0] == '0' ==> n == 0
    decreases n
  {
    if n < 10 then [DigitChar(n)] else NatToDecimal(n / 10) + [DigitChar(n % 10)]
  }

  lemma {:induction false} NatToDecimalDigits(n: nat)
    ensures AllDigits(NatToDecimal(n))
    decreases n
  {
    if n >= 10 {
      NatToDecimalDigits(n / 10);
      AllDigitsAppend(NatToDecimal(n / 10), [DigitChar(n % 10)]);
    }
  }

  /** `str(n)` for any integer. */
  function IntToDecimal(n: int): (s: seq<char>)
    ensures |s| >= 1
  {
    if n < 0 then ['-'] + NatToDecimal(-n) else NatToDecimal(n)
  }

  /** `str(n)` is all digits exactly when `n >= 0`; otherwise a '-' and digits. */
  lemma IntToDecimalShape(n: int)
    ensures n >= 0 ==> AllDigits(IntToDecimal(n))
    ensures n < 0 ==> var s := IntToDecimal(n); |s| >= 2 && s[0] == '-' && !IsDigitChar(s[0]) && AllDigits(s[1..])
    ensures n > 0 ==> IntToDecimal(n)[0] != '0'
  {
    if n < 0 {
      NatToDecimalDigits(-n);
      assert IntToDecimal(n)[1..] == NatToDecimal(-n);
    } else {
      NatToDecimalDigits(n);
    }
  }

  /** The number spelled by a string of digits, most significant first. */
  function DigitsValue(s: seq<char>): nat
    requires AllDigits(s)
  {
    if s == [] then 0 else DigitsValue(s[..|s| - 1]) * 10 + CharValue(s[|s| - 1])
  }

  /**
   * `int(s)`: an optional '-' and at least one digit, else a ValueError
   * (`None`).  Python also accepts blanks, '+' and '_' separators; those
   * never occur in strings built from `str` of integers.
   */
  function ParseInt(s: seq<char>): (r: Option<int>)
    ensures r.Some? <==> (|s| >= 1 && AllDigits(s)) || (|s| >= 2 && s[0] == '-' && AllDigits(s[1..]))
    ensures AllDigits(s) && r.Some? ==> r.value >= 0
  {
    if |s| >= 2 && s[0] == '-' && AllDigits(s[1..]) then Some(-(DigitsValue(s[1..]) as int))
    else if |s| >= 1 && AllDigits(s) then Some(DigitsValue(s))
    else None
  }

  lemma AllDigitsAppend(a: seq<char>, b: seq<char>)
    ensures AllDigits(a + b) <==> AllDigits(a) && AllDigits(b)
  {
    if AllDigits(a + b) {
      forall i | 0 <= i < |a| ensures IsDigitChar(a[i]) {
        assert a[i] == (a + b)[i];
      }
      forall i | 0 <= i < |b| ensures IsDigitChar(b[i]) {
        assert b[i] == (a + b)[|a| + i];
      }
    }
    if AllDigits(a) && AllDigits(b) {
      forall i | 0 <= i < |a + b| ensures IsDigitChar((a + b)[i]) {
        if i < |a| { assert (a + b)[i] == a[i]; } else { assert (a + b)[i] == b[i - |a|]; }
      }
    }
  }

  lemma DigitsValueSnoc(t: seq<char>, c: char)
    requires AllDigits(t) && IsDigitChar(c)
    ensures AllDigits(t + [c]) && DigitsValue(t + [c]) == DigitsValue(t) * 10 + CharValue(c)
  {
    AllDigitsAppend(t, [c]);
    assert (t + [c])[..|t|] == t;
  }

  /** `int(c)` for a one-character string. */
  lemma ParseIntOneChar(c: char)
    ensures ParseInt([c]) == if IsDigitChar(c) then Some(CharValue(c)) else None
  {
    if IsDigitChar(c) {
      assert AllDigits([c]);
      assert [c][..0] == [];
      assert DigitsValue([c]) == CharValue(c);
    } else {
      assert !IsDigitChar([c][0]);
    }
  }

  lemma {:induction false} DigitsValueOfDecimal(n: nat)
    ensures AllDigits(NatToDecimal(n)) && DigitsValue(NatToDecimal(n)) == n
    decreases n
  {
    NatToDecimalDigits(n);
    if n >= 10 {
      DigitsValueOfDecimal(n / 10);
      var s := NatToDecimal(n);
      assert s[..|s| - 1] == NatToDecimal(n / 10);
    }
  }

  /** `int(str(n)) == n`. */
  lemma ParseIntToDecimal(n: int)
    ensures ParseInt(IntToDecimal(n)) == Some(n)
  {
    var s := IntToDecimal(n);
    if n < 0 {
      DigitsValueOfDecimal(-n);
      assert s[1..] == NatToDecimal(-n);
      assert |s| >= 2 && s[0] == '-';
      assert ParseInt(s) == Some(-(DigitsValue(s[1..]) as int));
    } else {
      DigitsValueOfDecimal(n);
      assert s == NatToDecimal(n) && !IsDigitChar('-');
      assert !IsDigitChar(s[0]) ==> !AllDigits(s);
      assert ParseInt(s) == Some(DigitsValue(s));
    }
  }

  /** `map(str, vs)`. */
  function Spellings(vs: seq<int>): (ss: seq<string>)
    ensures |ss| == |vs| && forall i {:trigger ss[i]} :: 0 <= i < |vs| ==> ss[i] == IntToDecimal(vs[i])
  {
    if vs == [] then [] else Spellings(vs[..|vs| - 1]) + [IntToDecimal(vs[|vs| - 1])]
  }

  /** Every spelling has at least one character. */
  lemma {:induction false} SpellingsLength(vs: seq<int>)
    ensures TotalLength(Spellings(vs)) >= |vs|
    decreases |vs|
  {
    if vs != [] {
      var init := vs[..|vs| - 1];
      SpellingsLength(init);
      assert Spellings(vs)[..|vs| - 1] == Spellings(init);
    }
  }

  /** The total length of the strings in `parts`. */
  function TotalLength(parts: seq<string>): nat
  {
    if parts == [] then 0 else TotalLength(parts[..|parts| - 1]) + |parts[|parts| - 1]|
  }

  /** `sep.join(parts)`. */
  function JoinWith(parts: seq<string>, sep: string): string
  {
    if |parts| == 0 then ""
    else if |parts| == 1 then parts[0]
    else JoinWith(parts[..|parts| - 1], sep) + sep + parts[|parts| - 1]
  }

  /**
   * `sep.join(parts)` starts with the first part, ends with the last, and
   * holds every part and one separator between each two.
   */
  lemma {:induction false} JoinWithShape(parts: seq<string>, sep: string)
    ensures |parts| >= 1 ==> parts[0] <= JoinWith(parts, sep)
    ensures |parts| >= 1 ==> var r, last := JoinWith(parts, sep), parts[|parts| - 1];
      |last| <= |r| && r[|r| - |last|..] == last
    ensures |JoinWith(parts, sep)| == TotalLength(parts) + if parts == [] then 0 else (|parts| - 1) * |sep|
    decreases |parts|
  {
    if |parts| >= 2 {
      var init := parts[..|parts| - 1];
      JoinWithShape(init, sep);
      assert init[0] == parts[0];
      assert (|parts| - 1) * |sep| == (|init| - 1) * |sep| + |sep|;
    }
  }

  /** With an empty separator, joining distributes over concatenation. */
  lemma {:induction false} JoinAppend(a: seq<string>, b: seq<string>)
    ensures JoinWith(a + b, "") == JoinWith(a, "") + JoinWith(b, "")
    decreases |b|
  {
    if b == [] {
      assert a + b == a;
    } else if a == [] {
      assert a + b == b;
    } else {
      var init, last := b[..|b| - 1], b[|b| - 1];
      JoinAppend(a, init);
      assert (a + b)[..|a + b| - 1] == a + init;
      if init == [] {
        assert JoinWith(b, "") == last;
      }
    }
  }
}
