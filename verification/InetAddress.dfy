/** Dotted-quad addresses: `formatIp`, and `parseIp` on top of the C library's `strtol`.

    The library's `strtol` leaves the end pointer behind the spaces and the sign even when no
    digit follows, where section 7.22.1.4 of N1548 wants it back at the start. When a number does
    not fit, the library stops at the digit that is too much and clamps to LONG_MAX and its
    negation, where the standard wants all digits consumed and LONG_MIN on the negative side. The
    parameter `standard` chooses between the two; the program runs with `false`. */
module InetAddress {
  import opened Arithmetic
  import opened Ascii
  import opened Wrappers
  import Decimal

  /** For x86_64, the default target. */
  const LONG_MAX: int := 0x7FFF_FFFF_FFFF_FFFF

  // ----- strtol, base 10, on the text from position p on

  function SkipSpaces(t: seq<byte>, p: nat): (q: nat)
    requires p <= |t|
    ensures p <= q <= |t|
    ensures forall i :: p <= i < q ==> IsSpace(t[i])
    ensures q < |t| ==> !IsSpace(t[q])
    decreases |t| - p
  {
    if p < |t| && IsSpace(t[p]) then SkipSpaces(t, p + 1) else p
  }

  /** Reading digits into `result` until one does not follow or would not fit. */
  function ReadDigits(t: seq<byte>, p: nat, result: nat): (r: (nat, nat))
    requires p <= |t|
    ensures p <= r.1 <= |t|
    decreases |t| - p
  {
    if p < |t| && IsDigit(t[p]) then
      if result > (LONG_MAX - (t[p] - ZERO)) / 10 then (LONG_MAX, p)
      else ReadDigits(t, p + 1, result * 10 + (t[p] - ZERO))
    else (result, p)
  }

  function SkipDigits(t: seq<byte>, p: nat): (q: nat)
    requires p <= |t|
    ensures p <= q <= |t|
    ensures q == p <==> p == |t| || !IsDigit(t[p])
    decreases |t| - p
  {
    if p < |t| && IsDigit(t[p]) then SkipDigits(t, p + 1) else p
  }

  predicate HasSign(t: seq<byte>, p: nat) {
    p < |t| && (t[p] == PLUS || t[p] == MINUS)
  }

  /** The value and the end position. */
  function Strtol(t: seq<byte>, p: nat, standard: bool): (r: (int, nat))
    requires p <= |t|
    ensures p <= r.1 <= |t|
  {
    var q := SkipSpaces(t, p);
    var start := if HasSign(t, q) then q + 1 else q;
    var (magnitude, end) := ReadDigits(t, start, 0);
    var negative := q < |t| && t[q] == MINUS;
    var value := if negative then -(magnitude as int) else magnitude;
    if !standard then (value, end)
    else
      var behind := SkipDigits(t, end);
      (if negative && behind > end then -LONG_MAX - 1 else value, if behind == start then p else behind)
  }

  method StrtolLoop(t: seq<byte>, p: nat) returns (value: int, end: nat)
    requires p <= |t|
    ensures (value, end) == Strtol(t, p, false)
  {
    var q := p;
    while q < |t| && IsSpace(t[q])
      invariant p <= q <= |t| && SkipSpaces(t, q) == SkipSpaces(t, p)
    {
      q := q + 1;
    }
    var sign := 1;
    if q < |t| && (t[q] == PLUS || t[q] == MINUS) {
      if t[q] == MINUS {
        sign := -1;
      }
      q := q + 1;
    }
    var result := 0;
    ghost var start := q;
    while q < |t| && IsDigit(t[q]) && result <= (LONG_MAX - (t[q] - ZERO)) / 10
      invariant start <= q <= |t| && 0 <= result
      invariant ReadDigits(t, q, result) == ReadDigits(t, start, 0)
    {
      result := result * 10 + (t[q] - ZERO);
      q := q + 1;
    }
    if q < |t| && IsDigit(t[q]) {
      result := LONG_MAX;
    }
    value := sign * result;
    end := q;
  }

  // ----- parseIp

  /** One part from position p on and the position after it and its dot. */
  function ParsePart(t: seq<byte>, p: nat, last: bool, standard: bool): (r: Option<(byte, nat)>)
    requires p <= |t|
    ensures r.Some? ==> r.value.1 <= |t|
  {
    var (value, end) := Strtol(t, p, standard);
    if end == p || value < 0 || value > 255 then None
    else if last then Some((value, end))
    else if end == |t| || t[end] != DOT then None
    else Some((value, end + 1))
  }

  /** `count` parts from position p to the end of the text, separated by dots. */
  function ParseParts(t: seq<byte>, p: nat, count: nat, standard: bool): (r: Option<seq<byte>>)
    requires p <= |t|
    ensures r.Some? ==> |r.value| == count
    decreases count
  {
    if count == 0 then (if p == |t| then Some([]) else None)
    else
      match ParsePart(t, p, count == 1, standard)
      case None => None
      case Some((value, next)) => Prepend([value], ParseParts(t, next, count - 1, standard))
  }

  function Prepend(parts: seq<byte>, rest: Option<seq<byte>>): Option<seq<byte>> {
    match rest
    case None => None
    case Some(more) => Some(parts + more)
  }

  function Combine(parts: seq<byte>): (ip: nat)
    requires |parts| == 4
  {
    ((parts[0] as int * 256 + parts[1]) * 256 + parts[2]) * 256 + parts[3]
  }

  function Parse(t: seq<byte>, standard: bool): (r: Option<nat>) {
    match ParseParts(t, 0, 4, standard)
    case None => None
    case Some(parts) => Some(Combine(parts))
  }

  method ParseIp(t: seq<byte>) returns (r: Option<nat>)
    ensures r == Parse(t, false)
  {
    hide Strtol;
    var parts: seq<byte> := [];
    var cursor := 0;
    PrependNothing(ParseParts(t, 0, 4, false));
    for i := 0 to 4
      invariant 0 <= cursor <= |t| && |parts| == i
      invariant ParseParts(t, 0, 4, false) == Prepend(parts, ParseParts(t, cursor, 4 - i, false))
    {
      var value, end := StrtolLoop(t, cursor);
      if end == cursor || value < 0 || value > 255 {
        return None;
      }
      if i < 3 && (end == |t| || t[end] != DOT) {
        return None;
      }
      PrependTwice(parts, value, ParseParts(t, if i < 3 then end + 1 else end, 3 - i, false));
      parts := parts + [value];
      cursor := if i < 3 then end + 1 else end;
    }
    if cursor != |t| {
      return None;
    }
    r := Some(((parts[0] as int * 256 + parts[1]) * 256 + parts[2]) * 256 + parts[3]);
  }

  lemma PrependNothing(r: Option<seq<byte>>)
    ensures Prepend([], r) == r
  {
    assert r.Some? ==> [] + r.value == r.value;
  }

  lemma PrependTwice(parts: seq<byte>, b: byte, r: Option<seq<byte>>)
    ensures Prepend(parts, Prepend([b], r)) == Prepend(parts + [b], r)
  {
    assert r.Some? ==> parts + ([b] + r.value) == (parts + [b]) + r.value;
  }

  // ----- formatIp

  function Parts(ip: nat): (parts: seq<byte>)
    requires ip < 0x1_0000_0000
    ensures |parts| == 4
  {
    [ip / 0x100_0000 % 256, ip / 0x1_0000 % 256, ip / 0x100 % 256, ip % 256]
  }

  function Format(ip: nat): seq<byte>
    requires ip < 0x1_0000_0000
  {
    var p := Parts(ip);
    Decimal.Print(p[0]) + [DOT] + Decimal.Print(p[1]) + [DOT]
      + Decimal.Print(p[2]) + [DOT] + Decimal.Print(p[3])
  }

  // ----- The accepted texts

  /** A field the library's `strtol` reads to its end: spaces, an optional sign, digits. */
  datatype Field = Field(spaces: seq<byte>, sign: Option<byte>, digits: seq<byte>)
  {
    predicate Valid() {
      && (forall i :: 0 <= i < |spaces| ==> IsSpace(spaces[i]))
      && (sign.Some? ==> sign.value == PLUS || sign.value == MINUS)
      && Decimal.AllDigits(digits)
    }

    function Text(): seq<byte> {
      spaces + (if sign.Some? then [sign.value] else []) + digits
    }

    function Magnitude(): nat
      requires Valid()
    {
      Decimal.Value(digits)
    }

    /** Not empty, at most 255, and below zero not at all; "-0" is zero. */
    predicate Accepted(standard: bool)
      requires Valid()
    {
      && Text() != []
      && (standard ==> digits != [])
      && Magnitude() <= 255
      && (sign == Some(MINUS) ==> Magnitude() == 0)
    }
  }

  predicate FieldsAccepted(fields: seq<Field>, standard: bool) {
    forall i :: 0 <= i < |fields| ==> fields[i].Valid() && fields[i].Accepted(standard)
  }

  /** Fields joined by dots. */
  function Dotted(fields: seq<Field>): seq<byte> {
    if fields == [] then []
    else if |fields| == 1 then fields[0].Text()
    else fields[0].Text() + ([DOT] + Dotted(fields[1..]))
  }

  function Magnitudes(fields: seq<Field>): (ms: seq<byte>)
    requires FieldsAccepted(fields, false)
  {
    seq(|fields|, i requires 0 <= i < |fields| => fields[i].Magnitude())
  }

  // ----- What strtol reads

  lemma {:induction false} SkipAllSpaces(t: seq<byte>, p: nat, q: nat)
    requires p <= q <= |t| && forall i :: p <= i < q ==> IsSpace(t[i])
    requires q == |t| || !IsSpace(t[q])
    ensures SkipSpaces(t, p) == q
    decreases q - p
  {
    if p < q {
      SkipAllSpaces(t, p + 1, q);
    }
  }

  /** Digits are read to the end of their run, or up to the one that would not fit. */
  lemma {:induction false} DigitsRead(t: seq<byte>, s: nat, p: nat, result: nat)
    requires s <= p <= |t| && Decimal.AllDigits(t[s..p])
    requires result == Decimal.Value(t[s..p]) && result <= LONG_MAX
    ensures var (v, e) := ReadDigits(t, p, result);
            && Decimal.AllDigits(t[s..e])
            && ((v == Decimal.Value(t[s..e]) && (e == |t| || !IsDigit(t[e])))
                || (v == LONG_MAX && e < |t| && IsDigit(t[e]) && Decimal.Value(t[s..e]) * 10 + (t[e] - ZERO) > LONG_MAX))
    decreases |t| - p
  {
    hide Decimal.Value;
    if p < |t| && IsDigit(t[p]) {
      if result <= (LONG_MAX - (t[p] - ZERO)) / 10 {
        assert t[s..p + 1] == t[s..p] + [t[p]];
        Decimal.ValueAppend(t[s..p], t[p]);
        DigitsRead(t, s, p + 1, result * 10 + (t[p] - ZERO));
      }
    }
  }

  lemma DigitsAt(t: seq<byte>, s: nat, e: nat)
    requires s <= e <= |t| && Decimal.AllDigits(t[s..e])
    ensures forall i :: s <= i < e ==> IsDigit(t[i])
  {
    assert forall i :: s <= i < e ==> t[i] == t[s..e][i - s];
  }

  /** A small number is read whole. */
  lemma SmallNumberRead(t: seq<byte>, s: nat, e: nat)
    requires s <= e <= |t| && Decimal.AllDigits(t[s..e]) && (e == |t| || !IsDigit(t[e]))
    requires Decimal.Value(t[s..e]) <= 255
    ensures ReadDigits(t, s, 0) == (Decimal.Value(t[s..e]), e)
  {
    assert t[s..s] == [];
    DigitsRead(t, s, s, 0);
    var (v, d) := ReadDigits(t, s, 0);
    DigitsAt(t, s, d);
    if d < e {
      assert t[s..e][d - s] == t[d];
      assert t[s..e][..d - s] == t[s..d];
      assert t[s..e][..d - s + 1] == t[s..d] + [t[d]];
      Decimal.ValueAppend(t[s..d], t[d]);
      Decimal.PrefixValue(t[s..e], d - s + 1);
    }
  }

  /** strtol reads an accepted field to its end. */
  lemma FieldRead(t: seq<byte>, p: nat, f: Field, standard: bool)
    requires f.Valid() && f.Accepted(false)
    requires p + |f.Text()| <= |t| && t[p..p + |f.Text()|] == f.Text()
    requires p + |f.Text()| == |t| || t[p + |f.Text()|] == DOT
    ensures Strtol(t, p, standard) == (f.Magnitude(), if standard && f.digits == [] then p else p + |f.Text()|)
  {
    hide Decimal.Value;
    hide ReadDigits;
    hide SkipSpaces;
    var q := p + |f.spaces|;
    var start := if f.sign.Some? then q + 1 else q;
    var e := p + |f.Text()|;
    var text := f.Text();
    assert forall i :: p <= i < e ==> t[i] == text[i - p] by {
      assert forall i :: p <= i < e ==> t[p..e][i - p] == t[i];
    }
    assert t[start..e] == f.digits;
    assert f.digits != [] ==> IsDigit(t[start]) by {
      assert f.digits != [] ==> f.digits[0] == t[start];
    }
    SkipAllSpaces(t, p, q);
    SmallNumberRead(t, start, e);
  }

  lemma NumberRead(t: seq<byte>, start: nat)
    requires start <= |t|
    ensures var (v, e) := ReadDigits(t, start, 0);
      Decimal.AllDigits(t[start..e]) && (v <= 255 ==> v == Decimal.Value(t[start..e]))
  {
    assert t[start..start] == [];
    DigitsRead(t, start, start, 0);
  }

  /** Conversely, whatever strtol read with a value in range was such a field. */
  lemma FieldOf(t: seq<byte>, p: nat) returns (f: Field)
    requires p <= |t|
    requires Strtol(t, p, false).1 != p && 0 <= Strtol(t, p, false).0 <= 255
    ensures f.Valid() && f.Accepted(false)
    ensures f.Text() == t[p..Strtol(t, p, false).1] && f.Magnitude() == Strtol(t, p, false).0
  {
    hide ReadDigits;
    hide SkipSpaces;
    hide Decimal.Value;
    var e := Strtol(t, p, false).1;
    var q := SkipSpaces(t, p);
    var start := if HasSign(t, q) then q + 1 else q;
    NumberRead(t, start);
    hide Decimal.AllDigits;
    f := Field(t[p..q], if HasSign(t, q) then Some(t[q]) else None, t[start..e]);
    var sign := if f.sign.Some? then [f.sign.value] else [];
    assert t[q..start] == sign;
    ThreePieces(t, p, q, start, e);
    assert f.Text() == t[p..q] + sign + t[start..e];
  }

  lemma ThreePieces(t: seq<byte>, a: nat, b: nat, c: nat, d: nat)
    requires a <= b <= c <= d <= |t|
    ensures t[a..d] == t[a..b] + t[b..c] + t[c..d]
  {
  }

  // ----- parseIp accepts exactly the dotted fields

  lemma SliceOfTail(t: seq<byte>, p: nat, head: seq<byte>, tail: seq<byte>)
    requires p <= |t| && t[p..] == head + tail
    ensures p + |head| <= |t| && t[p..p + |head|] == head && t[p + |head|..] == tail
  {
    assert t[p..p + |head|] == t[p..][..|head|];
    assert t[p + |head|..] == t[p..][|head|..];
  }

  lemma SomeDigitless(fields: seq<Field>)
    requires |fields| >= 1
    ensures (exists i :: 0 <= i < |fields| && fields[i].digits == [])
       <==> fields[0].digits == [] || exists i :: 0 <= i < |fields[1..]| && fields[1..][i].digits == []
  {
    if i :| 0 <= i < |fields| && fields[i].digits == [] {
      assert i > 0 ==> fields[1..][i - 1].digits == [];
    }
  }

  lemma PartRead(t: seq<byte>, p: nat, f: Field, last: bool, standard: bool)
    requires f.Valid() && f.Accepted(false)
    requires p + |f.Text()| <= |t| && t[p..p + |f.Text()|] == f.Text()
    requires if last then p + |f.Text()| == |t| else p + |f.Text()| < |t| && t[p + |f.Text()|] == DOT
    ensures ParsePart(t, p, last, standard)
         == if standard && f.digits == [] then None
            else Some((f.Magnitude(), p + |f.Text()| + if last then 0 else 1))
  {
    FieldRead(t, p, f, standard);
  }

  /** On dotted fields the parser returns the magnitudes; with the standard's strtol it gives
      up if some field has no digit. */
  lemma {:induction false} FieldsParsed(t: seq<byte>, p: nat, fields: seq<Field>, standard: bool)
    requires |fields| >= 1 && FieldsAccepted(fields, false)
    requires p <= |t| && t[p..] == Dotted(fields)
    ensures ParseParts(t, p, |fields|, standard)
         == if standard && exists i :: 0 <= i < |fields| && fields[i].digits == [] then None
            else Some(Magnitudes(fields))
    decreases |fields|
  {
    hide ParsePart;
    hide Strtol;
    hide Field.Text;
    hide Field.Magnitude;
    hide Field.Accepted;
    hide Field.Valid;
    FirstOfFields(fields);
    SomeDigitless(fields);
    var f := fields[0];
    if |fields| == 1 {
      assert t[p..] == f.Text() + [];
      SliceOfTail(t, p, f.Text(), []);
      PartRead(t, p, f, true, standard);
      var m: seq<byte> := [f.Magnitude()];
      assert Prepend(m, ParseParts(t, |t|, 0, standard)) == Some(m + []);
      assert Magnitudes(fields) == m + [];
    } else {
      hide Magnitudes;
      hide FieldsAccepted;
      SliceOfTail(t, p, f.Text(), [DOT] + Dotted(fields[1..]));
      SliceOfTail(t, p + |f.Text()|, [DOT], Dotted(fields[1..]));
      PartRead(t, p, f, false, standard);
      FieldsParsed(t, p + |f.Text()| + 1, fields[1..], standard);
    }
  }

  lemma FirstOfFields(fields: seq<Field>)
    requires |fields| >= 1 && FieldsAccepted(fields, false)
    ensures fields[0].Valid() && fields[0].Accepted(false) && 0 <= fields[0].Magnitude() <= 255
    ensures FieldsAccepted(fields[1..], false)
    ensures Magnitudes(fields) == [fields[0].Magnitude()] + Magnitudes(fields[1..])
  {
    hide Field.Text;
    hide Decimal.Value;
  }

  lemma {:induction false} FieldsOf(t: seq<byte>, p: nat, count: nat) returns (fields: seq<Field>)
    requires p <= |t| && count >= 1 && ParseParts(t, p, count, false).Some?
    ensures |fields| == count && FieldsAccepted(fields, false)
    ensures t[p..] == Dotted(fields)
    decreases count
  {
    hide Strtol;
    hide Field.Text;
    var f := FieldOf(t, p);
    var e := Strtol(t, p, false).1;
    if count == 1 {
      fields := [f];
      assert t[p..] == t[p..e];
    } else {
      var rest := FieldsOf(t, e + 1, count - 1);
      fields := [f] + rest;
      assert fields[1..] == rest;
      assert t[p..] == t[p..e] + ([t[e]] + t[e + 1..]);
    }
  }

  /** parseIp accepts a text exactly when it is four such fields joined by dots, and the
      address is made of their magnitudes. */
  lemma ParseIff(t: seq<byte>, ip: nat)
    ensures Parse(t, false) == Some(ip)
       <==> exists fields :: |fields| == 4 && FieldsAccepted(fields, false)
              && t == Dotted(fields) && ip == Combine(Magnitudes(fields))
  {
    assert t[0..] == t;
    if Parse(t, false) == Some(ip) {
      var fields := FieldsOf(t, 0, 4);
      FieldsParsed(t, 0, fields, false);
    }
    forall fields: seq<Field> | |fields| == 4 && FieldsAccepted(fields, false) && t == Dotted(fields)
      ensures Parse(t, false) == Some(Combine(Magnitudes(fields)))
    {
      FieldsParsed(t, 0, fields, false);
    }
  }

  /** Where the standard's strtol reads a part, the library's reads the same. */
  lemma PartOfStandard(t: seq<byte>, p: nat, last: bool)
    requires p <= |t| && ParsePart(t, p, last, true).Some?
    ensures ParsePart(t, p, last, false) == ParsePart(t, p, last, true)
  {
    hide ReadDigits;
    hide SkipSpaces;
    var q := SkipSpaces(t, p);
    var start := if HasSign(t, q) then q + 1 else q;
    assert t[start..start] == [];
    DigitsRead(t, start, start, 0);
  }

  lemma {:induction false} PartsOfStandard(t: seq<byte>, p: nat, count: nat)
    requires p <= |t| && ParseParts(t, p, count, true).Some?
    ensures ParseParts(t, p, count, false) == ParseParts(t, p, count, true)
    decreases count
  {
    if count > 0 {
      hide ParsePart;
      PartOfStandard(t, p, count == 1);
      PartsOfStandard(t, ParsePart(t, p, count == 1, true).value.1, count - 1);
    }
  }

  /** Some field has no digit. */
  predicate Digitless(fields: seq<Field>) {
    exists i :: 0 <= i < |fields| && fields[i].digits == []
  }

  /** With the standard's strtol parseIp would accept nothing else and nothing differently. The
      two disagree on exactly the dotted fields with a digitless one, which the standard refuses. */
  lemma StandardDiffersIff(t: seq<byte>)
    ensures Parse(t, true).Some? ==> Parse(t, true) == Parse(t, false)
    ensures Parse(t, true) != Parse(t, false)
       <==> exists fields :: |fields| == 4 && FieldsAccepted(fields, false) && t == Dotted(fields) && Digitless(fields)
  {
    hide ParseParts;
    assert t[0..] == t;
    if ParseParts(t, 0, 4, true).Some? {
      PartsOfStandard(t, 0, 4);
    }
    if ParseParts(t, 0, 4, false).Some? {
      var fields := FieldsOf(t, 0, 4);
      FieldsParsed(t, 0, fields, false);
      FieldsParsed(t, 0, fields, true);
    }
    forall fields: seq<Field> | |fields| == 4 && FieldsAccepted(fields, false) && t == Dotted(fields) && Digitless(fields)
      ensures Parse(t, true) != Parse(t, false)
    {
      FieldsParsed(t, 0, fields, false);
      FieldsParsed(t, 0, fields, true);
    }
  }

  /** "+", "-", a blank and "+" as fields. */
  const DIGITLESS: seq<Field> :=
    [Field([], Some(PLUS), []), Field([], Some(MINUS), []), Field([SPACE], None, []), Field([], Some(PLUS), [])]

  lemma DigitlessFields()
    ensures |DIGITLESS| == 4 && FieldsAccepted(DIGITLESS, false) && Magnitudes(DIGITLESS) == [0, 0, 0, 0]
    ensures exists i :: 0 <= i < |DIGITLESS| && DIGITLESS[i].digits == []
  {
    assert Decimal.Value([]) == 0;
    assert DIGITLESS[0].digits == [];
  }

  lemma DigitlessText()
    ensures Dotted(DIGITLESS) == [PLUS, DOT, MINUS, DOT, SPACE, DOT, PLUS]
  {
    DottedFour(DIGITLESS[0], DIGITLESS[1], DIGITLESS[2], DIGITLESS[3]);
  }

  lemma ParsedParts(t: seq<byte>, standard: bool)
    ensures ParseParts(t, 0, 4, standard) == Some([0, 0, 0, 0]) ==> Parse(t, standard) == Some(0)
    ensures ParseParts(t, 0, 4, standard) == None ==> Parse(t, standard) == None
  {
    hide ParseParts;
  }

  /** "+.-. .+" is the address 0.0.0.0 to the library and nothing to the standard. */
  lemma DigitlessAddress()
    ensures Parse([PLUS, DOT, MINUS, DOT, SPACE, DOT, PLUS], false) == Some(0)
    ensures Parse([PLUS, DOT, MINUS, DOT, SPACE, DOT, PLUS], true) == None
  {
    hide *;
    var t: seq<byte> := [PLUS, DOT, MINUS, DOT, SPACE, DOT, PLUS];
    DigitlessFields();
    DigitlessText();
    assert t[0..] == t;
    FieldsParsed(t, 0, DIGITLESS, false);
    FieldsParsed(t, 0, DIGITLESS, true);
    ParsedParts(t, false);
    ParsedParts(t, true);
  }

  // ----- Round trip

  lemma CombineParts(ip: nat)
    requires ip < 0x1_0000_0000
    ensures Combine(Parts(ip)) == ip
  {
    var a, b, c := ip / 0x100_0000, ip / 0x1_0000, ip / 0x100;
    assert c / 256 == b && b / 256 == a;
  }

  lemma CombineBound(parts: seq<byte>)
    requires |parts| == 4
    ensures Combine(parts) < 0x1_0000_0000
  {
  }

  lemma DottedFour(a: Field, b: Field, c: Field, d: Field)
    ensures Dotted([a, b, c, d])
         == a.Text() + [DOT] + b.Text() + [DOT] + c.Text() + [DOT] + d.Text()
  {
    hide Field.Text;
    assert [a, b, c, d][1..] == [b, c, d];
    assert [b, c, d][1..] == [c, d];
    assert [c, d][1..] == [d];
    assert Dotted([c, d]) == c.Text() + ([DOT] + d.Text());
    assert Dotted([b, c, d]) == b.Text() + ([DOT] + Dotted([c, d]));
  }

  function Plain(n: byte): Field {
    Field([], None, Decimal.Print(n))
  }

  lemma PlainAccepted(n: byte)
    ensures Plain(n).Valid() && Plain(n).Accepted(true) && Plain(n).Magnitude() == n
    ensures Plain(n).Text() == Decimal.Print(n) && 1 <= |Decimal.Print(n)| <= 3
  {
    Decimal.ValueOfPrint(n);
    assert Decimal.Power10(3) == 1000;
    Decimal.PrintLength(n, 3, 1000);
  }

  /** Parsing what formatIp prints gives the address back, with either strtol, and the text
      and its terminator fit the program's 32-byte buffers. */
  lemma ParseOfFormat(ip: nat, standard: bool)
    requires ip < 0x1_0000_0000
    ensures Parse(Format(ip), standard) == Some(ip)
    ensures |Format(ip)| < 32
  {
    hide Field.Text;
    hide Parts;
    hide ParseParts;
    var p := Parts(ip);
    PlainAccepted(p[0]);
    PlainAccepted(p[1]);
    PlainAccepted(p[2]);
    PlainAccepted(p[3]);
    DottedFour(Plain(p[0]), Plain(p[1]), Plain(p[2]), Plain(p[3]));
    var fields := [Plain(p[0]), Plain(p[1]), Plain(p[2]), Plain(p[3])];
    var t := Format(ip);
    assert t[0..] == t;
    FieldsParsed(t, 0, fields, standard);
    assert Magnitudes(fields) == p;
    CombineParts(ip);
  }

  /** A number of four bytes, divided one byte at a time. */
  lemma FourBytes(a: byte, b: byte, c: byte, d: byte)
    ensures var ip := ((a * 256 + b) * 256 + c) * 256 + d;
      && 0 <= ip < 0x1_0000_0000
      && ip % 256 == d && ip / 256 == (a * 256 + b) * 256 + c
  {
    DivUnique((a * 256 + b) * 256 + c, 256, d);
  }

  lemma PartsOf(a: byte, b: byte, c: byte, d: byte)
    ensures var ip := ((a * 256 + b) * 256 + c) * 256 + d;
      0 <= ip < 0x1_0000_0000 && Parts(ip) == [a, b, c, d]
  {
    FourBytes(a, b, c, d);
    var ip := ((a * 256 + b) * 256 + c) * 256 + d;
    var third := (a * 256 + b) * 256 + c;
    assert ip / 0x100 == third;
    DivUnique(a * 256 + b, 256, c);
    DivUnique(a, 256, b);
    DivUnique(0, 256, a);
    DivUnique(a * 256 + b, 0x1_0000, c * 256 + d);
    DivUnique(a, 0x100_0000, b * 0x1_0000 + c * 256 + d);
  }

  /** The first number is the most significant byte, in both directions. */
  lemma AddressOfNumbers(a: byte, b: byte, c: byte, d: byte)
    ensures var ip := ((a * 256 + b) * 256 + c) * 256 + d;
      && 0 <= ip < 0x1_0000_0000
      && Format(ip) == Decimal.Print(a) + [DOT] + Decimal.Print(b) + [DOT] + Decimal.Print(c) + [DOT] + Decimal.Print(d)
      && Parse(Format(ip), false) == Some(ip)
  {
    hide *;
    PartsOf(a, b, c, d);
    var ip := ((a * 256 + b) * 256 + c) * 256 + d;
    FormatOfParts(ip, a, b, c, d);
    ParseOfFormat(ip, false);
  }

  lemma FormatOfParts(ip: nat, a: byte, b: byte, c: byte, d: byte)
    requires ip < 0x1_0000_0000 && Parts(ip) == [a, b, c, d]
    ensures Format(ip)
         == Decimal.Print(a) + [DOT] + Decimal.Print(b) + [DOT] + Decimal.Print(c) + [DOT] + Decimal.Print(d)
  {
    hide Parts;
    hide Decimal.Print;
  }

  /** Every accepted text has a canonical form that means the same. */
  lemma CanonicalForm(t: seq<byte>, ip: nat)
    requires Parse(t, false) == Some(ip)
    ensures ip < 0x1_0000_0000 && Parse(Format(ip), false) == Parse(t, false)
  {
    CombineBound(ParseParts(t, 0, 4, false).value);
    ParseOfFormat(ip, false);
  }
}
