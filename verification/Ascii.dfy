/** Bytes, the character codes the programs test for, and the libc character classes. */
module Ascii {

  type byte = c: int | 0 <= c < 256

  const SUB: byte := 26
  const ESC: byte := 27
  const SPACE: byte := 32
  const PLUS: byte := 43
  const MINUS: byte := 45
  const DOT: byte := 46
  const ZERO: byte := 48
  const NINE: byte := 57
  const SEMICOLON: byte := 59
  const LEFT_BRACKET: byte := 91
  const LEFT_BRACE: byte := 123

  predicate IsDigit(c: int) {
    ZERO <= c <= NINE
  }

  /** Space, form feed, newline, carriage return, tab and vertical tab. */
  predicate IsSpace(c: int) {
    c == SPACE || 9 <= c <= 13
  }
}

/** Texts as the codes of their characters. */
module Texts {
  import opened Ascii

  function Codes(s: string): (c: seq<byte>)
    requires forall i :: 0 <= i < |s| ==> s[i] as int < 128
    ensures |c| == |s| && forall i :: 0 <= i < |c| ==> c[i] == s[i] as int && c[i] < 128
  {
    seq(|s|, i requires 0 <= i < |s| => s[i] as int)
  }
}

module Wrappers {

  datatype Option<+T> = None | Some(value: T)
}

module Sequences {

  lemma Regroup<T>(a: seq<T>, b: seq<T>, c: seq<T>)
    ensures (a + b) + c == a + (b + c)
  {
  }
}

/** Unsigned decimal numbers, as `%u` and `%d` print them. */
module Decimal {
  import opened Arithmetic
  import opened Ascii

  predicate AllDigits(s: seq<int>) {
    forall i :: 0 <= i < |s| ==> IsDigit(s[i])
  }

  function Print(n: nat): (s: seq<byte>)
    ensures |s| >= 1 && AllDigits(s)
  {
    if n < 10 then [ZERO + n] else Print(n / 10) + [ZERO + n % 10]
  }

  function Value(s: seq<int>): (n: nat)
    requires AllDigits(s)
  {
    if s == [] then 0 else Value(s[..|s| - 1]) * 10 + (s[|s| - 1] - ZERO)
  }

  lemma ValueAppend(s: seq<int>, d: int)
    requires AllDigits(s) && IsDigit(d)
    ensures Value(s + [d]) == Value(s) * 10 + (d - ZERO)
  {
    assert (s + [d])[..|s|] == s;
  }

  lemma {:induction false} ValueOfPrint(n: nat)
    ensures Value(Print(n)) == n
  {
    if n >= 10 {
      ValueOfPrint(n / 10);
      ValueAppend(Print(n / 10), ZERO + n % 10);
    } else {
      assert [ZERO + n][..0] == [];
    }
  }

  /** No prefix of a number exceeds it, so accumulating digit by digit never overflows a
      machine word that can hold the whole number. */
  lemma {:induction false} PrefixValue(s: seq<int>, i: nat)
    requires AllDigits(s) && i <= |s|
    ensures Value(s[..i]) <= Value(s)
    decreases |s| - i
  {
    if i < |s| {
      assert s[..i + 1] == s[..i] + [s[i]];
      ValueAppend(s[..i], s[i]);
      PrefixValue(s, i + 1);
    } else {
      assert s[..i] == s;
    }
  }

  /** The digits by their weight, and no zero in front. */
  lemma {:induction false} PrintedDigit(n: nat, i: nat)
    requires i < |Print(n)|
    ensures Print(n)[|Print(n)| - 1 - i] == ZERO + n / Power10(i) % 10
    ensures n > 0 ==> Print(n)[0] != ZERO
  {
    if n >= 10 {
      if i > 0 {
        PrintedDigit(n / 10, i - 1);
        DivideTwice(n, Power10(i - 1));
      } else {
        PrintedDigit(n / 10, 0);
      }
    }
  }

  lemma DivideTwice(n: nat, k: nat)
    requires k > 0
    ensures n / 10 / k == n / (10 * k)
  {
    var q, r := n / 10 / k, n / 10 % k;
    assert n == (q * k + r) * 10 + n % 10;
    assert n == q * (10 * k) + (r * 10 + n % 10);
    DivUnique(q, 10 * k, r * 10 + n % 10);
  }

  lemma {:induction false} PrintLength(n: nat, k: nat, bound: nat)
    requires k >= 1 && n < bound && bound == Power10(k)
    ensures |Print(n)| <= k
  {
    if n >= 10 {
      assert Power10(1) == 10 * Power10(0);
      assert bound == 10 * Power10(k - 1);
      PrintLength(n / 10, k - 1, Power10(k - 1));
    }
  }

  function Power10(k: nat): (p: nat)
    ensures p > 0
  {
    if k == 0 then 1 else 10 * Power10(k - 1)
  }
}
