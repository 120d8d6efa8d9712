/** Splitting and joining texts, and decimal numbers as text. */
module Text {
  import opened Arithmetic

  datatype Option<+T> = None | Some(value: T)

  /** The pieces of `s` between the separators `c`; always at least one. */
  function Split(s: string, c: char): (r: seq<string>)
    ensures r != []
  {
    if s == "" then [""]
    else
      var r := Split(s[1..], c);
      if s[0] == c then [""] + r
      else [[s[0]] + r[0]] + r[1..]
  }

  function Join(parts: seq<string>, c: char): string
    requires parts != []
  {
    if |parts| == 1 then parts[0] else parts[0] + [c] + Join(parts[1..], c)
  }

  lemma {:induction false} SplitPrefix(a: string, s: string, c: char)
    requires c !in a
    ensures var r := Split(s, c); Split(a + s, c) == [a + r[0]] + r[1..]
  {
    if a == "" {
      assert a + s == s;
      var r := Split(s, c);
      assert a + r[0] == r[0] && [r[0]] + r[1..] == r;
    } else {
      assert (a + s)[1..] == a[1..] + s;
      SplitPrefix(a[1..], s, c);
      assert [a[0]] + (a[1..] + Split(s, c)[0]) == a + Split(s, c)[0];
    }
  }

  lemma SplitWord(a: string, c: char)
    requires c !in a
    ensures Split(a, c) == [a]
  {
    SplitPrefix(a, "", c);
    assert a + "" == a;
  }

  lemma SplitAtSeparator(a: string, s: string, c: char)
    requires c !in a
    ensures Split(a + [c] + s, c) == [a] + Split(s, c)
  {
    assert a + [c] + s == a + ([c] + s);
    SplitPrefix(a, [c] + s, c);
    assert ([c] + s)[1..] == s;
    assert Split([c] + s, c) == [""] + Split(s, c);
    assert a + "" == a;
  }

  /** Splitting undoes joining when no part contains the separator. */
  lemma {:induction false} SplitJoin(parts: seq<string>, c: char)
    requires parts != [] && forall i :: 0 <= i < |parts| ==> c !in parts[i]
    ensures Split(Join(parts, c), c) == parts
  {
    if |parts| == 1 {
      SplitWord(parts[0], c);
    } else {
      SplitJoin(parts[1..], c);
      SplitAtSeparator(parts[0], Join(parts[1..], c), c);
    }
  }

  /** Joining undoes splitting, for every text. */
  lemma {:induction false} JoinSplit(s: string, c: char)
    ensures Join(Split(s, c), c) == s
  {
    if s != "" {
      JoinSplit(s[1..], c);
      var r := Split(s[1..], c);
      assert s == [s[0]] + s[1..];
      if s[0] == c {
        assert ([""] + r)[1..] == r;
      } else {
        assert Split(s, c)[1..] == r[1..];
      }
    }
  }

  lemma {:induction false} SplitPieces(s: string, c: char)
    ensures forall i :: 0 <= i < |Split(s, c)| ==> c !in Split(s, c)[i]
  {
    if s != "" {
      SplitPieces(s[1..], c);
    }
  }

  // ----- numbers -----

  predicate IsDigit(c: char) {
    '0' <= c <= '9'
  }

  predicate IsNumeral(s: string) {
    s != "" && forall i :: 0 <= i < |s| ==> IsDigit(s[i])
  }

  function DigitValue(c: char): nat
    requires IsDigit(c)
  {
    c as int - '0' as int
  }

  function NumValue(s: string): nat
    requires forall i :: 0 <= i < |s| ==> IsDigit(s[i])
  {
    if s == "" then 0 else 10 * NumValue(s[..|s| - 1]) + DigitValue(s[|s| - 1])
  }

  /** The decimal text of `n`. */
  function NumText(n: nat): (s: string)
    ensures IsNumeral(s)
  {
    if n < 10 then [('0' as int + n) as char] else NumText(n / 10) + [('0' as int + n % 10) as char]
  }

  /** The decimal text of `x`, with a minus sign if it is negative. */
  function IntText(x: int): string {
    if x < 0 then "-" + NumText(-x) else NumText(x)
  }

  lemma {:induction false} NumTextValue(n: nat)
    ensures NumValue(NumText(n)) == n
  {
    if n < 10 {
      assert NumText(n)[..0] == "";
    } else {
      NumTextValue(n / 10);
      assert NumText(n)[..|NumText(n)| - 1] == NumText(n / 10);
    }
  }

  function PowerOfTen(i: nat): (p: nat)
    ensures p > 0
  {
    if i == 0 then 1 else 10 * PowerOfTen(i - 1)
  }

  lemma DivideTwice(n: nat, p: nat)
    requires p > 0
    ensures n / 10 / p == n / (10 * p)
  {
    var q, r := n / 10, n % 10;
    var a, b := q / p, q % p;
    assert 10 * (p * a) == 10 * p * a;
    RemainderIsUnique(n, 10 * p, a, 10 * b + r);
  }

  /** The digits of a number: counted from the right, digit `i` is the remainder of `n / 10^i` by 10. */
  lemma {:induction false} NumTextDigits(n: nat, i: nat)
    ensures i < |NumText(n)| ==> NumText(n)[|NumText(n)| - 1 - i] == "0123456789"[n / PowerOfTen(i) % 10]
    decreases n
  {
    if i == 0 {
      DigitIs(n % 10);
      assert n / PowerOfTen(0) == n;
    } else if n >= 10 {
      NumTextDigits(n / 10, i - 1);
      DivideTwice(n, PowerOfTen(i - 1));
    }
  }

  /** There are no zeros before a number, and all its digits are there. */
  lemma {:induction false} NumTextLength(n: nat, i: nat)
    ensures i < |NumText(n)| <==> i == 0 || PowerOfTen(i) <= n
    ensures NumText(n)[0] == '0' <==> n == 0
    decreases n
  {
    if n >= 10 {
      NumTextLength(n / 10, if i > 0 then i - 1 else 0);
    }
    if i > 0 {
      TenTimes(PowerOfTen(i - 1), n);
    }
  }

  lemma TenTimes(p: nat, n: nat)
    ensures 10 * p <= n <==> p <= n / 10
  {
  }

  lemma DigitIs(d: nat)
    requires d < 10
    ensures ('0' as int + d) as char == "0123456789"[d]
  {
    assert d == 0 || d == 1 || d == 2 || d == 3 || d == 4 || d == 5 || d == 6 || d == 7 || d == 8 || d == 9;
  }

  const SIZE_MAX := 0xFFFF_FFFF_FFFF_FFFF

  /** `boost::lexical_cast<size_t>` on texts without a minus sign: an optional plus sign and
      decimal digits whose value fits. */
  function LexicalCast(s: string): Option<nat> {
    var d := if s != "" && s[0] == '+' then s[1..] else s;
    if IsNumeral(d) && NumValue(d) <= SIZE_MAX then Some(NumValue(d)) else None
  }

  lemma PlusSignIsIgnored(s: string)
    requires IsNumeral(s)
    ensures LexicalCast("+" + s) == LexicalCast(s)
  {
    assert ("+" + s)[1..] == s;
    assert IsDigit(s[0]);
  }
}
