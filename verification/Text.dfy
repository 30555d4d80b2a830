/** Character-level vocabulary shared by the models: positions in a text,
    ASCII digits, and decimal rendering of natural numbers. */
module Text {

  /** The word `w` occurs in `t` at position `i`. */
  predicate At(t: string, i: nat, w: string) {
    i + |w| <= |t| && t[i..i + |w|] == w
  }

  lemma AtConcat(t: string, i: nat, a: string, b: string)
    requires At(t, i, a + b)
    ensures At(t, i, a) && At(t, i + |a|, b)
  {
    var w := t[i..i + |a + b|];
    assert w[..|a|] == a && w[|a|..] == b;
    assert w[..|a|] == t[i..i + |a|] && w[|a|..] == t[i + |a|..i + |a| + |b|];
  }

  lemma AtJoin(t: string, i: nat, a: string, b: string)
    requires At(t, i, a) && At(t, i + |a|, b)
    ensures At(t, i, a + b)
  {
  }

  lemma AtHead(t: string, i: nat, w: string)
    requires At(t, i, w) && w != ""
    ensures i < |t| && t[i] == w[0] && At(t, i + 1, w[1..])
  {
    assert w == [w[0]] + w[1..];
    AtConcat(t, i, [w[0]], w[1..]);
    assert t[i..i + 1][0] == w[0];
  }

  predicate IsDigit(c: char) { '0' <= c <= '9' }

  predicate AllDigits(s: string) { forall k :: 0 <= k < |s| ==> IsDigit(s[k]) }

  function DigitOf(c: char): (d: nat)
    requires IsDigit(c)
    ensures d < 10
  {
    c as int - '0' as int
  }

  /** The number a digit string denotes in base ten; leading zeros are allowed. */
  function DigitsValue(s: string): nat
    requires AllDigits(s)
  {
    if s == "" then 0 else 10 * DigitsValue(s[..|s| - 1]) + DigitOf(s[|s| - 1])
  }

  /** The usual rendering of a natural number: no leading zeros, "0" for zero. */
  function Decimal(n: nat): (s: string)
    ensures s != "" && AllDigits(s)
    ensures s[0] == '0' <==> n == 0
    ensures n == 0 ==> s == "0"
  {
    if n < 10 then [('0' as int + n) as char]
    else Decimal(n / 10) + [('0' as int + n % 10) as char]
  }

  lemma {:induction false} DecimalValue(n: nat)
    ensures DigitsValue(Decimal(n)) == n
  {
    if n < 10 {
      assert Decimal(n)[..0] == "";
    } else {
      DecimalValue(n / 10);
      assert Decimal(n)[..|Decimal(n)| - 1] == Decimal(n / 10);
    }
  }

  lemma {:induction false} DecimalInjective(m: nat, n: nat)
    requires Decimal(m) == Decimal(n)
    ensures m == n
  {
    DecimalValue(m);
    DecimalValue(n);
  }

  /** The rendering of an integer. */
  function IntText(n: int): string {
    if n < 0 then "-" + Decimal(-n) else Decimal(n)
  }

  // --------------------------------------------------------------- separators

  predicate Lacks(s: string, c: char) { forall i :: 0 <= i < |s| ==> s[i] != c }

  /** A text is split in one way at its last `c`. */
  lemma SplitAtLast(head1: string, tail1: string, head2: string, tail2: string, c: char)
    requires Lacks(tail1, c) && Lacks(tail2, c) && head1 + [c] + tail1 == head2 + [c] + tail2
    ensures head1 == head2 && tail1 == tail2
  {
    var all, other := head1 + [c] + tail1, head2 + [c] + tail2;
    assert all[|head1|] == c && other[|head2|] == c;
    NoneLater(head1, tail1, c);
    NoneLater(head2, tail2, c);
    assert head1 == all[..|head1|] && head2 == other[..|head2|];
    assert tail1 == all[|head1| + 1..] && tail2 == other[|head2| + 1..];
  }

  lemma NoneLater(head: string, tail: string, c: char)
    requires Lacks(tail, c)
    ensures forall j :: |head| < j < |head + [c] + tail| ==> (head + [c] + tail)[j] != c
  {
    forall j | |head| < j < |head + [c] + tail| ensures (head + [c] + tail)[j] != c {
      assert (head + [c] + tail)[j] == tail[j - |head| - 1];
    }
  }

  // ----------------------------------------------------------- dictionary order

  /** The order of `<` on strings: by the first character that differs. */
  predicate Less(a: string, b: string) {
    b != "" && (a == "" || a[0] < b[0] || (a[0] == b[0] && Less(a[1..], b[1..])))
  }

  lemma {:induction false} LessIrreflexive(a: string)
    ensures !Less(a, a)
  {
    if a != "" { LessIrreflexive(a[1..]); }
  }

  lemma {:induction false} LessTransitive(a: string, b: string, c: string)
    requires Less(a, b) && Less(b, c)
    ensures Less(a, c)
  {
    if a != "" && a[0] == b[0] == c[0] { LessTransitive(a[1..], b[1..], c[1..]); }
  }

  lemma {:induction false} LessTotal(a: string, b: string)
    ensures a == b || Less(a, b) || Less(b, a)
  {
    if a != "" && b != "" && a[0] == b[0] {
      LessTotal(a[1..], b[1..]);
      if a[1..] == b[1..] { assert a == [a[0]] + a[1..] && b == [b[0]] + b[1..]; }
    }
  }
}
