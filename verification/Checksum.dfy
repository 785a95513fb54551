/** The Internet checksum of RFC 1071 as the ping utility computes it: 16-bit words in the
    machine's own byte order, added in a 32-bit accumulator, the carries folded back at the
    end. */
module Checksum {
  import opened Arithmetic
  import opened Ascii

  const WORD: int := 0x1_0000
  const ONES: int := 0xFFFF
  const ACCUMULATOR: int := 0x1_0000_0000

  type word = w: int | 0 <= w < 0x1_0000

  /** The two bytes at p read as a word on a machine of the given byte order. */
  function WordOf(first: byte, second: byte, little: bool): (w: word) {
    if little then second * 256 + first else first * 256 + second
  }

  function Words(data: seq<byte>, little: bool): (ws: seq<word>) {
    seq(|data| / 2, i requires 0 <= i < |data| / 2 => WordOf(data[2 * i], data[2 * i + 1], little))
  }

  function Sum(ws: seq<word>): (s: nat) {
    if ws == [] then 0 else Sum(ws[..|ws| - 1]) + ws[|ws| - 1]
  }

  /** What the accumulator would hold if it were unbounded; an odd last byte counts as the
      high half of a word whatever the byte order. */
  function Total(data: seq<byte>, little: bool): nat {
    Sum(Words(data, little)) + if |data| % 2 == 1 then data[|data| - 1] as int * 256 else 0
  }

  /** Adding the high half to the low half until nothing is carried. */
  function Fold(sum: nat): (f: nat)
    decreases sum
  {
    if sum / WORD == 0 then sum else Fold(sum % WORD + sum / WORD)
  }

  function OfWords(ws: seq<word>): int {
    ONES - Fold(Sum(ws))
  }

  method Checksum16(data: seq<byte>, little: bool) returns (r: word)
    ensures r == ONES - Fold(Total(data, little) % ACCUMULATOR)
  {
    hide Words;
    hide Sum;
    hide Fold;
    var sum := AddWords(data, little);
    if |data| % 2 == 1 {
      ModAdd(Sum(Words(data, little)), data[|data| - 1] as int * 256, ACCUMULATOR);
      sum := (sum + data[|data| - 1] as int * 256) % ACCUMULATOR;
    }
    sum := FoldCarries(sum);
    DivUnique(ONES, WORD, ONES - sum);
    r := (ACCUMULATOR - 1 - sum) % WORD;
  }

  /** The loop over the whole words, in the 32-bit accumulator. */
  method AddWords(data: seq<byte>, little: bool) returns (sum: nat)
    ensures sum == Sum(Words(data, little)) % ACCUMULATOR
  {
    hide WordOf;
    hide Sum;
    ghost var ws := Words(data, little);
    sum := 0;
    var length := |data|;
    var i := 0;
    SumOfNone();
    while length > 1
      invariant 0 <= i <= |ws| && length == |data| - 2 * i
      invariant sum == Sum(ws[..i]) % ACCUMULATOR
    {
      AddOneWord(ws, i);
      sum := (sum + WordOf(data[2 * i], data[2 * i + 1], little)) % ACCUMULATOR;
      i, length := i + 1, length - 2;
    }
    assert ws[..i] == ws;
  }

  lemma SumOfNone()
    ensures Sum([]) % ACCUMULATOR == 0
  {
  }

  lemma AddOneWord(ws: seq<word>, i: nat)
    requires i < |ws|
    ensures (Sum(ws[..i]) % ACCUMULATOR + ws[i]) % ACCUMULATOR == Sum(ws[..i + 1]) % ACCUMULATOR
  {
    assert ws[..i + 1][..i] == ws[..i];
    ModAdd(Sum(ws[..i]), ws[i], ACCUMULATOR);
  }

  /** The loop that brings the carries back in. */
  method FoldCarries(total: nat) returns (sum: nat)
    ensures sum == Fold(total) && sum < WORD
  {
    sum := total;
    while sum / WORD != 0
      invariant Fold(sum) == Fold(total)
      decreases sum
    {
      sum := sum % WORD + sum / WORD;
    }
  }

  // ----- Folding is reduction modulo 65535

  /** The folded sum is the representative of the sum modulo 65535 in 1..65535, and zero only
      for zero. */
  lemma {:induction false} FoldClosedForm(sum: nat)
    ensures Fold(sum) == if sum == 0 then 0 else 1 + (sum - 1) % ONES
    decreases sum
  {
    if sum / WORD == 0 {
      if sum > 0 {
        DivUnique(0, ONES, sum - 1);
      }
    } else {
      var next := sum % WORD + sum / WORD;
      FoldClosedForm(next);
      var q := (next - 1) / ONES;
      DivUnique(q + sum / WORD, ONES, (next - 1) % ONES);
    }
  }

  /** For up to 65537 words the 32-bit accumulator never overflows. */
  lemma {:induction false} SumBound(ws: seq<word>)
    ensures Sum(ws) <= |ws| * ONES
  {
    if ws != [] {
      SumBound(ws[..|ws| - 1]);
    }
  }

  lemma NoOverflow(data: seq<byte>, little: bool)
    requires |data| % 2 == 0 && |data| <= 2 * 65537
    ensures Total(data, little) < ACCUMULATOR
    ensures ONES - Fold(Total(data, little) % ACCUMULATOR) == OfWords(Words(data, little))
  {
    hide Words;
    hide Fold;
    SumBound(Words(data, little));
    WordCount(data, little);
    DivUnique(0, ACCUMULATOR, Total(data, little));
  }

  lemma WordCount(data: seq<byte>, little: bool)
    ensures |Words(data, little)| == |data| / 2
  {
  }

  /** An odd last byte is the high half of a word: on a big-endian machine it is padded with a zero
      behind it, as section 4.1 of RFC 1071 does, on a little-endian one with a zero in front. */
  lemma OddTail(data: seq<byte>, last: byte)
    requires |data| % 2 == 0
    ensures Total(data + [last], false) == Total(data + [last, 0], false)
    ensures Total(data + [last], true) == Total(data + [0, last], true)
  {
    hide Words;
    WordsOfEven(data, last, 0, false);
    WordsOfEven(data, 0, last, true);
    WordsOfOdd(data, last, false);
    WordsOfOdd(data, last, true);
  }

  lemma WordsOfOdd(data: seq<byte>, last: byte, little: bool)
    requires |data| % 2 == 0
    ensures Words(data + [last], little) == Words(data, little)
  {
    assert |data + [last]| / 2 == |data| / 2;
  }

  lemma WordsOfEven(data: seq<byte>, a: byte, b: byte, little: bool)
    requires |data| % 2 == 0
    ensures Sum(Words(data + [a, b], little)) == Sum(Words(data, little)) + WordOf(a, b, little)
  {
    var ws := Words(data + [a, b], little);
    assert |data + [a, b]| / 2 == |data| / 2 + 1;
    assert ws[..|ws| - 1] == Words(data, little);
  }

  // ----- A stored checksum verifies

  lemma {:induction false} SumUpdate(ws: seq<word>, k: nat, w: word)
    requires k < |ws|
    ensures Sum(ws[k := w]) == Sum(ws) - ws[k] + w
  {
    var n := |ws| - 1;
    if k == n {
      assert ws[k := w][..n] == ws[..n];
    } else {
      SumUpdate(ws[..n], k, w);
      assert ws[k := w][..n] == ws[..n][k := w];
    }
  }

  /** A block of words passes the receiver's test exactly when its sum is a positive multiple
      of 65535. */
  lemma ValidIff(ws: seq<word>)
    ensures OfWords(ws) == 0 <==> Sum(ws) > 0 && Sum(ws) % ONES == 0
  {
    FoldClosedForm(Sum(ws));
    var s := Sum(ws);
    if s > 0 {
      var q, r := (s - 1) / ONES, (s - 1) % ONES;
      if r == ONES - 1 {
        DivUnique(q + 1, ONES, 0);
      } else {
        DivUnique(q, ONES, r + 1);
      }
    }
  }

  lemma ComplementCancels(ws: seq<word>)
    ensures (Sum(ws) + OfWords(ws)) % ONES == 0 && Sum(ws) + OfWords(ws) > 0
    ensures 0 <= OfWords(ws) <= ONES
  {
    hide Fold;
    hide Sum;
    FoldClosedForm(Sum(ws));
    var s := Sum(ws);
    if s == 0 {
      DivUnique(1, ONES, 0);
    } else {
      DivUnique((s - 1) / ONES + 1, ONES, 0);
    }
  }

  /** Storing the checksum in a word that was zero makes the checksum of the whole zero. */
  lemma StoredChecksumVerifies(ws: seq<word>, k: nat)
    requires k < |ws| && ws[k] == 0
    ensures 0 <= OfWords(ws) <= ONES
    ensures OfWords(ws[k := OfWords(ws)]) == 0
  {
    ComplementCancels(ws);
    SumUpdate(ws, k, OfWords(ws));
    ValidIff(ws[k := OfWords(ws)]);
  }

  /** Damage to one word of a valid block goes unnoticed exactly when it exchanges the two
      representations of zero and leaves a non-zero sum. */
  lemma SingleWordDamage(ws: seq<word>, k: nat, w: word)
    requires k < |ws| && OfWords(ws) == 0
    ensures OfWords(ws[k := w]) == 0
       <==> w == ws[k] || (ws[k] == 0 && w == ONES) || (ws[k] == ONES && w == 0 && Sum(ws) > ONES)
  {
    SumUpdate(ws, k, w);
    ValidIff(ws);
    ValidIff(ws[k := w]);
    var q := Sum(ws) / ONES;
    assert Sum(ws) == q * ONES;
    var d := w - ws[k];
    if d == ONES {
      DivUnique(q + 1, ONES, 0);
    } else if d == -ONES {
      DivUnique(q - 1, ONES, 0);
    } else if d > 0 {
      DivUnique(q, ONES, d);
    } else if d < 0 {
      DivUnique(q - 1, ONES, d + ONES);
    }
  }

  // ----- Byte order does not matter

  function Swap(w: word): (s: word) {
    w % 256 * 256 + w / 256
  }

  function Swapped(ws: seq<word>): seq<word> {
    seq(|ws|, i requires 0 <= i < |ws| => Swap(ws[i]))
  }

  lemma WordsOfOtherOrder(data: seq<byte>, little: bool)
    ensures Words(data, !little) == Swapped(Words(data, little))
  {
    forall i | 0 <= i < |data| / 2
      ensures Words(data, !little)[i] == Swap(Words(data, little)[i])
    {
      var a, b := data[2 * i], data[2 * i + 1];
      DivUnique(a, 256, b);
      DivUnique(b, 256, a);
    }
  }

  /** Swapping multiplies by 256 modulo 65535. */
  lemma {:induction false} SumOfSwapped(ws: seq<word>) returns (q: int)
    ensures Sum(Swapped(ws)) == 256 * Sum(ws) - q * ONES
    ensures Sum(Swapped(ws)) == 0 <==> Sum(ws) == 0
  {
    if ws == [] {
      q := 0;
    } else {
      var n := |ws| - 1;
      q := SumOfSwapped(ws[..n]);
      assert Swapped(ws)[..n] == Swapped(ws[..n]);
      var w := ws[n];
      assert Swap(w) == 256 * w - (w / 256) * ONES;
      q := q + w / 256;
    }
  }

  lemma FoldDetermined(s: nat, f: nat, q: int)
    requires s > 0 && 1 <= f <= ONES && s == f + q * ONES
    ensures Fold(s) == f
  {
    FoldClosedForm(s);
    DivUnique(q, ONES, f - 1);
  }

  lemma SwapComplement(w: word)
    ensures Swap(ONES - w) == ONES - Swap(w)
  {
    DivUnique(255 - w / 256, 256, 255 - w % 256);
  }

  /** Summing byte-swapped words gives the byte-swapped checksum. */
  lemma ByteOrderIndependence(ws: seq<word>)
    ensures 0 <= OfWords(ws) <= ONES
    ensures OfWords(Swapped(ws)) == Swap(OfWords(ws))
  {
    ComplementCancels(ws);
    var f := Fold(Sum(ws));
    FoldClosedForm(Sum(ws));
    var q := SumOfSwapped(ws);
    if Sum(ws) > 0 {
      var t := (Sum(ws) - 1) / ONES;
      assert Sum(ws) == f + t * ONES;
      assert Swap(f) == 256 * f - (f / 256) * ONES;
      assert Sum(Swapped(ws)) == Swap(f) + (256 * t + f / 256 - q) * ONES;
      assert Swap(f) >= 1 by { if f % 256 == 0 { assert f / 256 >= 1; } }
      FoldDetermined(Sum(Swapped(ws)), Swap(f), 256 * t + f / 256 - q);
    }
    SwapComplement(f);
  }

  // ----- The same at the level of bytes

  /** Writing a word at word index k in the machine's byte order. */
  function StoreWord(data: seq<byte>, k: nat, w: word, little: bool): (after: seq<byte>)
    requires 2 * k + 1 < |data|
    ensures |after| == |data|
  {
    data[2 * k := if little then w % 256 else w / 256][2 * k + 1 := if little then w / 256 else w % 256]
  }

  lemma WordsAfterStore(data: seq<byte>, k: nat, w: word, little: bool)
    requires |data| % 2 == 0 && 2 * k + 1 < |data|
    ensures Words(StoreWord(data, k, w, little), little) == Words(data, little)[k := w]
  {
  }

  /** Storing a word in one byte order is storing the swapped word in the other. */
  lemma StoreSwapped(data: seq<byte>, k: nat, w: word, little: bool)
    requires 2 * k + 1 < |data|
    ensures StoreWord(data, k, Swap(w), !little) == StoreWord(data, k, w, little)
  {
    DivUnique(w % 256, 256, w / 256);
  }

  lemma WordsOfZero(data: seq<byte>, k: nat, little: bool)
    requires 2 * k + 1 < |data| && data[2 * k] == 0 && data[2 * k + 1] == 0
    ensures Words(data, little)[k] == 0
  {
  }

  /** The whole claim for a buffer whose checksum field is zero: what is stored verifies on a
      machine of either byte order, and both orders would have stored the same bytes. */
  lemma StoredChecksumIsPortable(data: seq<byte>, k: nat, little: bool)
    requires |data| % 2 == 0 && 2 * k + 1 < |data| && data[2 * k] == 0 && data[2 * k + 1] == 0
    ensures 0 <= OfWords(Words(data, little)) <= ONES && 0 <= OfWords(Words(data, !little)) <= ONES
    ensures var stored := StoreWord(data, k, OfWords(Words(data, little)), little);
            && stored == StoreWord(data, k, OfWords(Words(data, !little)), !little)
            && OfWords(Words(stored, little)) == 0 && OfWords(Words(stored, !little)) == 0
  {
    var ws := Words(data, little);
    WordsOfZero(data, k, little);
    StoredChecksumVerifies(ws, k);
    WordsAfterStore(data, k, OfWords(ws), little);
    WordsOfOtherOrder(data, little);
    ByteOrderIndependence(ws);
    StoreSwapped(data, k, OfWords(ws), little);
    var stored := StoreWord(data, k, OfWords(ws), little);
    WordsOfOtherOrder(stored, little);
    ByteOrderIndependence(Words(stored, little));
  }
}
