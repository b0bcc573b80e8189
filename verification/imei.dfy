/** The IMEI helpers inside `EM7455.RepairIMEI`: the nested `luhn` check
    (the Luhn check digit of ISO/IEC 7812-1, Annex B) applied to
    `int(IMEI)`, and the argument encoding of `!NVENCRYPTIMEI`. */
module Imei {
  import opened Results
  import opened Text

  /** `s[::-1]`. */
  function Reverse<T>(s: seq<T>): (r: seq<T>)
    ensures |r| == |s|
  {
    if s == [] then [] else [s[|s| - 1]] + Reverse(s[..|s| - 1])
  }

  /** `s[0::2]`: the elements at even positions. */
  function EveryOther<T>(s: seq<T>): seq<T>
  {
    if |s| < 2 then s else [s[0]] + EveryOther(s[2..])
  }

  /** `s[1:]`, which is empty for an empty `s`. */
  function Tail<T>(s: seq<T>): seq<T>
  {
    if s == [] then [] else s[1..]
  }

  /** `sum(s)`. */
  function Sum(s: seq<nat>): nat
  {
    if s == [] then 0 else s[0] + Sum(s[1..])
  }

  /** `sum(divmod(d * 2, 10))`: the digit sum of a doubled digit. */
  function DoubledDigitSum(d: nat): nat
  {
    (2 * d) / 10 + (2 * d) % 10
  }

  /** `sum(sum(divmod(d * 2, 10)) for d in s)`. */
  function SumDoubled(s: seq<nat>): nat
  {
    if s == [] then 0 else DoubledDigitSum(s[0]) + SumDoubled(s[1..])
  }

  /** `[int(ch) for ch in s]` for a string of digits. */
  function DigitValues(s: string): (r: seq<nat>)
    requires AllDigits(s)
    ensures |r| == |s|
  {
    if s == [] then [] else DigitValues(s[..|s| - 1]) + [DigitValue(s[|s| - 1])]
  }

  /** The sum `luhn` reduces modulo 10, over the digits written most
      significant first: the digits at even positions from the right, plus
      the digit sums of the doubled digits at odd positions. */
  function LuhnSum(ds: seq<nat>): nat
  {
    var r := Reverse(ds);
    Sum(EveryOther(r)) + SumDoubled(EveryOther(Tail(r)))
  }

  predicate LuhnValid(ds: seq<nat>)
  {
    LuhnSum(ds) % 10 == 0
  }

  /** The nested `luhn(n)`: the check runs over the characters of `str(n)`,
      so a negative `n` raises on `int('-')`. */
  function Luhn(n: int): (r: Result<bool>)
    ensures n >= 0 ==> r.Ok?
    ensures r.Err? ==> r.error == InvalidLiteral("-")
  {
    var s := IntToDecimal(n);
    if AllDigits(s) then Ok(LuhnValid(DigitValues(s))) else Err(InvalidLiteral("-"))
  }

  /** `luhn(int(IMEI))`, as RepairIMEI evaluates it. */
  function ImeiChecksum(imei: string): (r: Result<bool>)
    ensures ParseInt(imei).Err? ==> r == Err(ParseInt(imei).error)
    ensures ParseInt(imei).Ok? && ParseInt(imei).value >= 0 ==> r.Ok?
  {
    match ParseInt(imei)
    case Err(e) => Err(e)
    case Ok(n) => Luhn(n)
  }

  /** The weight of one digit: doubled (and digit-summed) or as it is. */
  function Weight(d: nat, doubled: bool): nat
  {
    if doubled then DoubledDigitSum(d) else d
  }

  /** The textbook Luhn sum over digits listed from the right, with every
      second digit doubled; `doubled` says whether the first one is. */
  function Weighted(r: seq<nat>, doubled: bool): nat
  {
    if r == [] then 0 else Weight(r[0], doubled) + Weighted(r[1..], !doubled)
  }

  /** The ISO/IEC 7812-1 check digit that makes `payload + [d]` valid. */
  function CheckDigit(payload: seq<nat>): (d: nat)
    ensures d < 10
  {
    (10 - Weighted(Reverse(payload), true) % 10) % 10
  }

  lemma {:induction false} EveryOtherCons(a: nat, t: seq<nat>)
    ensures EveryOther([a] + t) == [a] + EveryOther(Tail(t))
  {
    if t != [] {
      assert ([a] + t)[2..] == t[1..];
    }
  }

  /** The comprehension-and-slice sum `luhn` computes is the position-weighted
      sum, whichever parity the first digit has. */
  lemma {:induction false} SlicedSumIsWeighted(r: seq<nat>)
    ensures Sum(EveryOther(r)) + SumDoubled(EveryOther(Tail(r))) == Weighted(r, false)
    ensures SumDoubled(EveryOther(r)) + Sum(EveryOther(Tail(r))) == Weighted(r, true)
  {
    if r != [] {
      var a, t := r[0], r[1..];
      assert r == [a] + t;
      EveryOtherCons(a, t);
      var e := EveryOther(Tail(t));
      assert ([a] + e)[1..] == e;
      SlicedSumIsWeighted(t);
    }
  }

  lemma LuhnSumIsWeighted(ds: seq<nat>)
    ensures LuhnSum(ds) == Weighted(Reverse(ds), false)
  {
    SlicedSumIsWeighted(Reverse(ds));
  }

  lemma ReverseSnoc<T>(s: seq<T>, x: T)
    ensures Reverse(s + [x]) == [x] + Reverse(s)
  {
    assert (s + [x])[..|s|] == s;
  }

  lemma {:induction false} ReverseCons<T>(x: T, s: seq<T>)
    ensures Reverse([x] + s) == Reverse(s) + [x]
  {
    if s != [] {
      var init := s[..|s| - 1];
      assert ([x] + s)[..|s|] == [x] + init;
      ReverseCons(x, init);
    } else {
      assert [x] + s == [x];
    }
  }

  /** A digit appended to a payload is valid exactly when it is the check
      digit of the payload (ISO/IEC 7812-1, Annex B). */
  lemma CheckDigitIff(payload: seq<nat>, d: nat)
    requires d < 10
    ensures LuhnValid(payload + [d]) <==> d == CheckDigit(payload)
  {
    LuhnSumIsWeighted(payload + [d]);
    ReverseSnoc(payload, d);
    var rest := Reverse(payload);
    assert ([d] + rest)[1..] == rest;
  }

  lemma {:induction false} WeightedZeroSuffix(r: seq<nat>, doubled: bool)
    ensures Weighted(r + [0], doubled) == Weighted(r, doubled)
  {
    if r == [] {
      assert r + [0] == [0];
    } else {
      assert (r + [0])[1..] == r[1..] + [0];
      WeightedZeroSuffix(r[1..], !doubled);
    }
  }

  /** A leading zero changes nothing. */
  lemma LeadingZero(ds: seq<nat>)
    ensures LuhnValid([0] + ds) <==> LuhnValid(ds)
  {
    LuhnSumIsWeighted([0] + ds);
    LuhnSumIsWeighted(ds);
    ReverseCons(0, ds);
    WeightedZeroSuffix(Reverse(ds), false);
  }

  lemma WeightedReverseSnoc(ds: seq<nat>, d: nat, doubled: bool)
    ensures Weighted(Reverse(ds + [d]), doubled) == Weight(d, doubled) + Weighted(Reverse(ds), !doubled)
  {
    ReverseSnoc(ds, d);
    assert ([d] + Reverse(ds))[1..] == Reverse(ds);
  }

  lemma DigitValuesSnoc(q: string, d: nat)
    requires AllDigits(q) && d < 10
    ensures AllDigits(q + [DigitChar(d)])
    ensures DigitValues(q + [DigitChar(d)]) == DigitValues(q) + [d]
  {
    assert (q + [DigitChar(d)])[..|q|] == q;
  }

  /** The digits of `str(10 * v + d)`, for `v > 0`, are those of `str(v)`
      followed by `d`. */
  lemma DecimalSnoc(v: nat, d: nat)
    requires v > 0 && d < 10
    ensures NatToDecimal(10 * v + d) == NatToDecimal(v) + [DigitChar(d)]
  {
    var n := 10 * v + d;
    assert n / 10 == v && n % 10 == d;
  }

  /** The weighted digits of `str(n)`, listed from the right. */
  function WeightedOfNat(n: nat, doubled: bool): nat
  {
    Weighted(Reverse(DigitValues(NatToDecimal(n))), doubled)
  }

  lemma WeightedOfNatZero(doubled: bool)
    ensures WeightedOfNat(0, doubled) == 0
  {
    WeightedOfNatDigit(0, doubled);
  }

  lemma WeightedOfNatDigit(d: nat, doubled: bool)
    requires d < 10
    ensures WeightedOfNat(d, doubled) == Weight(d, doubled)
  {
    assert NatToDecimal(d) == [DigitChar(d)];
    assert DigitValues([DigitChar(d)]) == DigitValues([]) + [d];
    assert Reverse([d]) == [d] + Reverse([]);
    assert Weighted([d], doubled) == Weight(d, doubled) + Weighted([], !doubled);
  }

  lemma WeightedOfNatStep(v: nat, d: nat, doubled: bool)
    requires v > 0 && d < 10
    ensures WeightedOfNat(10 * v + d, doubled) == Weight(d, doubled) + WeightedOfNat(v, !doubled)
  {
    DecimalSnoc(v, d);
    DigitValuesSnoc(NatToDecimal(v), d);
    WeightedReverseSnoc(DigitValues(NatToDecimal(v)), d, doubled);
  }

  lemma {:induction false} WeightedOfParsed(s: string, doubled: bool)
    requires AllDigits(s)
    ensures WeightedOfNat(DecimalValue(s), doubled) == Weighted(Reverse(DigitValues(s)), doubled)
    decreases |s|
  {
    if s == [] {
      WeightedOfNatZero(doubled);
    } else {
      var p := s[..|s| - 1];
      var v, d := DecimalValue(p), DigitValue(s[|s| - 1]);
      assert s == p + [DigitChar(d)];
      assert DecimalValue(s) == 10 * v + d;
      WeightedOfParsed(p, !doubled);
      DigitValuesSnoc(p, d);
      WeightedReverseSnoc(DigitValues(p), d, doubled);
      if v == 0 {
        WeightedOfNatZero(!doubled);
        WeightedOfNatDigit(d, doubled);
      } else {
        WeightedOfNatStep(v, d, doubled);
      }
    }
  }

  /** `luhn(int(s))` for a plain digit string judges the digits as written:
      the leading zeros that `int` drops do not change the verdict. */
  lemma ChecksumOfDigits(s: string)
    requires s != [] && AllDigits(s)
    ensures ImeiChecksum(s) == Ok(LuhnValid(DigitValues(s)))
  {
    ParseDigits(s);
    var t := NatToDecimal(DecimalValue(s));
    assert IntToDecimal(DecimalValue(s)) == t;
    WeightedOfParsed(s, false);
    LuhnSumIsWeighted(DigitValues(t));
    LuhnSumIsWeighted(DigitValues(s));
  }

  /** `luhn(n)` for a non-negative `n` is the weighted-sum test on its digits. */
  lemma LuhnOfNat(n: nat)
    ensures Luhn(n) == Ok(WeightedOfNat(n, false) % 10 == 0)
  {
    LuhnSumIsWeighted(DigitValues(NatToDecimal(n)));
  }

  /** One more position flips the parity. */
  lemma ParityStep(m: nat)
    ensures ((m + 1) % 2 == 1) == !(m % 2 == 1)
  {
  }

  /** The weighted sum of a concatenation, listed from the right: the digits
      of `b` first, then those of `a` with the parity shifted by `|b|`. */
  lemma {:induction false} WeightedReverseAppend(a: seq<nat>, b: seq<nat>, doubled: bool)
    ensures Weighted(Reverse(a + b), doubled)
         == Weighted(Reverse(b), doubled) + Weighted(Reverse(a), doubled != (|b| % 2 == 1))
    decreases |b|
  {
    if b == [] {
      assert a + b == a;
    } else {
      var b', x := b[..|b| - 1], b[|b| - 1];
      assert a + b == (a + b') + [x] && b == b' + [x];
      WeightedReverseSnoc(a + b', x, doubled);
      WeightedReverseSnoc(b', x, doubled);
      WeightedReverseAppend(a, b', !doubled);
      ParityStep(|b'|);
    }
  }

  lemma ReverseExample(x0: nat, x1: nat, x2: nat, x3: nat, x4: nat)
    ensures Reverse([x0, x1, x2, x3, x4]) == [x4, x3, x2, x1, x0]
  {
    assert Reverse([x0]) == [x0] + Reverse([]);
    ReverseSnoc([x0], x1);
    assert [x0] + [x1] == [x0, x1];
    ReverseSnoc([x0, x1], x2);
    assert [x0, x1] + [x2] == [x0, x1, x2];
    ReverseSnoc([x0, x1, x2], x3);
    assert [x0, x1, x2] + [x3] == [x0, x1, x2, x3];
    ReverseSnoc([x0, x1, x2, x3], x4);
    assert [x0, x1, x2, x3] + [x4] == [x0, x1, x2, x3, x4];
  }

  lemma WeightedCons(x: nat, t: seq<nat>, doubled: bool)
    ensures Weighted([x] + t, doubled) == Weight(x, doubled) + Weighted(t, !doubled)
  {
    assert ([x] + t)[1..] == t;
  }

  /** The weighted sum of five digits listed from the right. */
  lemma WeightedFive(x0: nat, x1: nat, x2: nat, x3: nat, x4: nat, doubled: bool)
    ensures Weighted([x0, x1, x2, x3, x4], doubled)
         == Weight(x0, doubled) + Weight(x1, !doubled) + Weight(x2, doubled)
          + Weight(x3, !doubled) + Weight(x4, doubled)
  {
    WeightedCons(x4, [], doubled);
    assert [x4] + [] == [x4];
    WeightedCons(x3, [x4], !doubled);
    assert [x3] + [x4] == [x3, x4];
    WeightedCons(x2, [x3, x4], doubled);
    assert [x2] + [x3, x4] == [x2, x3, x4];
    WeightedCons(x1, [x2, x3, x4], !doubled);
    assert [x1] + [x2, x3, x4] == [x1, x2, x3, x4];
    WeightedCons(x0, [x1, x2, x3, x4], doubled);
    assert [x0] + [x1, x2, x3, x4] == [x0, x1, x2, x3, x4];
  }

  /** The three blocks of five digits of the IMEI 490154203237518, each
      weighted as its position in the whole number asks. */
  lemma FirstBlock(a: seq<nat>)
    requires a == [4, 9, 0, 1, 5]
    ensures Weighted(Reverse(a), false) == 20
  {
    ReverseExample(4, 9, 0, 1, 5);
    WeightedFive(5, 1, 0, 9, 4, false);
  }

  lemma MiddleBlock(b: seq<nat>)
    requires b == [4, 2, 0, 3, 2]
    ensures Weighted(Reverse(b), true) == 17
  {
    ReverseExample(4, 2, 0, 3, 2);
    WeightedFive(2, 3, 0, 2, 4, true);
  }

  lemma LastBlock(c: seq<nat>)
    requires c == [3, 7, 5, 1, 8]
    ensures Weighted(Reverse(c), false) == 23
  {
    ReverseExample(3, 7, 5, 1, 8);
    WeightedFive(8, 1, 5, 7, 3, false);
  }

  lemma AlteredLastBlock(c: seq<nat>)
    requires c == [3, 7, 5, 1, 9]
    ensures Weighted(Reverse(c), false) == 24
  {
    ReverseExample(3, 7, 5, 1, 9);
    WeightedFive(9, 1, 5, 7, 3, false);
  }

  /** The Luhn sum of fifteen digits, from its three blocks of five. */
  lemma LuhnSumOfBlocks(ds: seq<nat>)
    requires |ds| == 15
    ensures LuhnSum(ds) == Weighted(Reverse(ds[10..]), false) + Weighted(Reverse(ds[5..10]), true)
                           + Weighted(Reverse(ds[..5]), false)
  {
    var a, b, c := ds[..5], ds[5..10], ds[10..];
    WeightedReverseAppend(a, b, true);
    WeightedReverseAppend(a + b, c, false);
    assert a + b + c == ds;
    LuhnSumIsWeighted(ds);
  }

  /** The digits of the IMEI 490154203237518 pass the check. */
  lemma LuhnAcceptsExample(ds: seq<nat>)
    requires ds == [4, 9, 0, 1, 5, 4, 2, 0, 3, 2, 3, 7, 5, 1, 8]
    ensures LuhnValid(ds)
  {
    FirstBlock(ds[..5]);
    MiddleBlock(ds[5..10]);
    LastBlock(ds[10..]);
    LuhnSumOfBlocks(ds);
  }

  /** The same digits with the last one changed to 9 fail it. */
  lemma LuhnRejectsExample(ds: seq<nat>)
    requires ds == [4, 9, 0, 1, 5, 4, 2, 0, 3, 2, 3, 7, 5, 1, 9]
    ensures !LuhnValid(ds)
  {
    FirstBlock(ds[..5]);
    MiddleBlock(ds[5..10]);
    AlteredLastBlock(ds[10..]);
    LuhnSumOfBlocks(ds);
  }

  /** The digit values of two strings put together. */
  lemma {:induction false} DigitValuesAppend(a: string, b: string)
    requires AllDigits(a) && AllDigits(b)
    ensures AllDigits(a + b)
    ensures DigitValues(a + b) == DigitValues(a) + DigitValues(b)
    decreases |b|
  {
    if b == [] {
      assert a + b == a;
    } else {
      var c := b[..|b| - 1];
      assert (a + b)[..|a + b| - 1] == a + c;
      assert (a + b)[|a + b| - 1] == b[|b| - 1];
      DigitValuesAppend(a, c);
    }
  }

  /** The digit values of a five-digit string. */
  lemma DigitValuesFive(s: string)
    requires |s| == 5 && AllDigits(s)
    ensures DigitValues(s) == [DigitValue(s[0]), DigitValue(s[1]), DigitValue(s[2]),
                               DigitValue(s[3]), DigitValue(s[4])]
  {
    assert s[..4][..3] == s[..3] && s[..3][..2] == s[..2] && s[..2][..1] == s[..1];
    assert DigitValues(s[..1]) == [DigitValue(s[0])];
    assert DigitValues(s[..2]) == DigitValues(s[..1]) + [DigitValue(s[1])];
    assert DigitValues(s[..3]) == DigitValues(s[..2]) + [DigitValue(s[2])];
    assert DigitValues(s[..4]) == DigitValues(s[..3]) + [DigitValue(s[3])];
  }

  /** The digits of the blocks of the example IMEIs. */
  lemma BlockDigits(s: string, ds: seq<nat>)
    requires |s| == 5 && |ds| == 5
    requires forall k :: 0 <= k < 5 ==> ds[k] < 10 && s[k] == DigitChar(ds[k])
    ensures AllDigits(s) && DigitValues(s) == ds
  {
    DigitValuesFive(s);
  }

  /** The Luhn verdict on fifteen digits, from the weighted sums of their
      three blocks of five. */
  lemma LuhnOfBlocks(ds: seq<nat>, wa: nat, wb: nat, wc: nat)
    requires |ds| == 15
    requires Weighted(Reverse(ds[..5]), false) == wa
    requires Weighted(Reverse(ds[5..10]), true) == wb
    requires Weighted(Reverse(ds[10..]), false) == wc
    ensures LuhnValid(ds) == ((wa + wb + wc) % 10 == 0)
  {
    LuhnSumOfBlocks(ds);
    assert LuhnSum(ds) == wa + wb + wc;
  }

  /** `luhn(int(a + b + c))` for three blocks of five digit characters, from
      the weighted sums of the blocks. */
  lemma ChecksumOfBlocks(a: string, b: string, c: string, wa: nat, wb: nat, wc: nat)
    requires |a| == 5 && |b| == 5 && |c| == 5
    requires AllDigits(a) && Weighted(Reverse(DigitValues(a)), false) == wa
    requires AllDigits(b) && Weighted(Reverse(DigitValues(b)), true) == wb
    requires AllDigits(c) && Weighted(Reverse(DigitValues(c)), false) == wc
    ensures ImeiChecksum(a + b + c) == Ok((wa + wb + wc) % 10 == 0)
  {
    DigitValuesAppend(a, b);
    DigitValuesAppend(a + b, c);
    var ds := DigitValues(a + b + c);
    assert ds == DigitValues(a) + DigitValues(b) + DigitValues(c);
    assert ds[..5] == DigitValues(a) && ds[5..10] == DigitValues(b) && ds[10..] == DigitValues(c);
    LuhnOfBlocks(ds, wa, wb, wc);
    ChecksumOfDigits(a + b + c);
  }

  /** The blocks of the example IMEIs, as characters. */
  lemma FirstBlockText(t: string)
    requires t == "49015"
    ensures AllDigits(t) && Weighted(Reverse(DigitValues(t)), false) == 20
  {
    BlockDigits(t, [4, 9, 0, 1, 5]);
    FirstBlock([4, 9, 0, 1, 5]);
  }

  lemma MiddleBlockText(t: string)
    requires t == "42032"
    ensures AllDigits(t) && Weighted(Reverse(DigitValues(t)), true) == 17
  {
    BlockDigits(t, [4, 2, 0, 3, 2]);
    MiddleBlock([4, 2, 0, 3, 2]);
  }

  lemma LastBlockText(t: string)
    requires t == "37518"
    ensures AllDigits(t) && Weighted(Reverse(DigitValues(t)), false) == 23
  {
    BlockDigits(t, [3, 7, 5, 1, 8]);
    LastBlock([3, 7, 5, 1, 8]);
  }

  lemma AlteredLastBlockText(t: string)
    requires t == "37519"
    ensures AllDigits(t) && Weighted(Reverse(DigitValues(t)), false) == 24
  {
    BlockDigits(t, [3, 7, 5, 1, 9]);
    AlteredLastBlock([3, 7, 5, 1, 9]);
  }

  /** The worked example as RepairIMEI evaluates it, the IMEI written as its
      three blocks: `luhn(int("490154203237518"))` is True. */
  lemma ImeiChecksumAcceptsExample(a: string, b: string, c: string)
    requires a == "49015" && b == "42032" && c == "37518"
    ensures ImeiChecksum(a + b + c) == Ok(true)
  {
    FirstBlockText(a);
    MiddleBlockText(b);
    LastBlockText(c);
    ChecksumOfBlocks(a, b, c, 20, 17, 23);
  }

  /** With the last digit changed to 9, `luhn(int("490154203237519"))` is
      False. */
  lemma ImeiChecksumRejectsExample(a: string, b: string, c: string)
    requires a == "49015" && b == "42032" && c == "37519"
    ensures ImeiChecksum(a + b + c) == Ok(false)
  {
    FirstBlockText(a);
    MiddleBlockText(b);
    AlteredLastBlockText(c);
    ChecksumOfBlocks(a, b, c, 20, 17, 24);
  }

  /** `luhn` raises exactly on negative numbers. */
  lemma LuhnRaisesIff(n: int)
    ensures Luhn(n).Err? <==> n < 0
  {
    if n < 0 {
      assert !IsDigit(IntToDecimal(n)[0]);
    }
  }

  lemma {:induction false} WeightedUpdate(r: seq<nat>, j: nat, e: nat, doubled: bool)
    requires j < |r|
    ensures Weighted(r[j := e], doubled) + Weight(r[j], doubled != (j % 2 == 1))
         == Weighted(r, doubled) + Weight(e, doubled != (j % 2 == 1))
  {
    if j == 0 {
      assert r[j := e][1..] == r[1..];
    } else {
      assert r[j := e][1..] == r[1..][j - 1 := e];
      WeightedUpdate(r[1..], j - 1, e, !doubled);
      ParityStep(j - 1);
    }
  }

  lemma WeightInjective(a: nat, b: nat, doubled: bool)
    requires a < 10 && b < 10 && a != b
    ensures Weight(a, doubled) < 10 && Weight(b, doubled) < 10
    ensures Weight(a, doubled) != Weight(b, doubled)
  {
  }

  lemma ReverseAt<T>(s: seq<T>, k: nat)
    requires k < |s|
    ensures |Reverse(s)| == |s| && Reverse(s)[k] == s[|s| - 1 - k]
  {
    if k > 0 {
      ReverseAt(s[..|s| - 1], k - 1);
    }
  }

  lemma ReverseUpdate(ds: seq<nat>, i: nat, e: nat)
    requires i < |ds|
    ensures Reverse(ds[i := e]) == Reverse(ds)[|ds| - 1 - i := e]
  {
    var a, b := Reverse(ds[i := e]), Reverse(ds)[|ds| - 1 - i := e];
    forall k | 0 <= k < |ds|
      ensures a[k] == b[k]
    {
      ReverseAt(ds[i := e], k);
      ReverseAt(ds, k);
    }
  }

  lemma ShiftedSumNotMultiple(before: nat, after: nat, wOld: nat, wNew: nat)
    requires after + wOld == before + wNew
    requires before % 10 == 0 && wOld < 10 && wNew < 10 && wOld != wNew
    ensures after % 10 != 0
  {
  }

  /** Changing any single digit of a valid number makes it invalid. */
  lemma SingleDigitErrorDetected(ds: seq<nat>, i: nat, e: nat)
    requires forall k :: 0 <= k < |ds| ==> ds[k] < 10
    requires i < |ds| && e < 10 && e != ds[i]
    requires LuhnValid(ds)
    ensures !LuhnValid(ds[i := e])
  {
    var j := |ds| - 1 - i;
    var r := Reverse(ds);
    ReverseUpdate(ds, i, e);
    ReverseAt(ds, j);
    LuhnSumIsWeighted(ds);
    LuhnSumIsWeighted(ds[i := e]);
    var parity := j % 2 == 1;
    WeightedUpdate(r, j, e, false);
    WeightInjective(ds[i], e, parity);
    ShiftedSumNotMultiple(Weighted(r, false), Weighted(r[j := e], false),
      Weight(ds[i], parity), Weight(e, parity));
  }

  /** `[s[i:i+2] for i in range(0, len(s), 2)]`. */
  function Pairs(s: string): (r: seq<string>)
    ensures |r| == (|s| + 1) / 2
  {
    if s == [] then [] else if |s| <= 2 then [s] else [s[..2]] + Pairs(s[2..])
  }

  /** The argument RepairIMEI sends with `!NVENCRYPTIMEI`: the IMEI padded
      with a "0", cut into two-character groups, joined by commas. */
  function EncryptArg(imei: string): (r: string)
    ensures ',' !in imei ==> Split(r, ',') == Pairs(imei + "0")
  {
    var padded := imei + "0";
    if ',' !in imei then
      assert ',' !in padded;
      PairsHaveNoComma(padded);
      SplitJoin(Pairs(padded), ',');
      Join(Pairs(padded), ',')
    else
      Join(Pairs(padded), ',')
  }

  /** The groups, put back together, are the string. */
  lemma {:induction false} PairsConcat(s: string)
    ensures Concat(Pairs(s)) == s
  {
    if |s| > 2 {
      PairsConcat(s[2..]);
      assert s == s[..2] + s[2..];
    }
  }

  /** There are ceil(|s| / 2) groups; all of them have two characters except
      that the last has one when |s| is odd. */
  lemma {:induction false} PairsShape(s: string)
    ensures |Pairs(s)| == (|s| + 1) / 2
    ensures forall k :: 0 <= k < |Pairs(s)| ==>
      |Pairs(s)[k]| == (if k == |Pairs(s)| - 1 && |s| % 2 == 1 then 1 else 2)
  {
    if |s| > 2 {
      PairsShape(s[2..]);
    }
  }

  lemma {:induction false} PairsHaveNoComma(s: string)
    requires ',' !in s
    ensures forall k :: 0 <= k < |Pairs(s)| ==> ',' !in Pairs(s)[k]
  {
    if |s| > 2 {
      assert ',' !in s[2..] && ',' !in s[..2];
      PairsHaveNoComma(s[2..]);
    }
  }

  /** A 15-digit IMEI goes out as eight two-character groups whose
      concatenation is the IMEI followed by "0". */
  lemma FifteenDigitArg(imei: string)
    requires |imei| == 15
    ensures |Pairs(imei + "0")| == 8
    ensures forall k :: 0 <= k < 8 ==> |Pairs(imei + "0")[k]| == 2
    ensures Concat(Pairs(imei + "0")) == imei + "0"
  {
    PairsShape(imei + "0");
    PairsConcat(imei + "0");
  }

  /** What the modem recovers from the argument: the groups between the
      commas, put together, without the padding digit. */
  function ImeiOfArg(arg: string): string
  {
    var padded := Concat(Split(arg, ','));
    if padded == [] then [] else padded[..|padded| - 1]
  }

  /** The encoding loses nothing: an IMEI without commas is recovered. */
  lemma EncryptArgRoundTrip(imei: string)
    requires ',' !in imei
    ensures ImeiOfArg(EncryptArg(imei)) == imei
  {
    PairsConcat(imei + "0");
  }

  lemma PairsStep(a: string, b: string)
    requires |a| == 2 && b != []
    ensures Pairs(a + b) == [a] + Pairs(b)
  {
    assert (a + b)[..2] == a && (a + b)[2..] == b;
  }

  lemma JoinStep(a: string, rest: seq<string>, sep: char)
    requires rest != []
    ensures Join([a] + rest, sep) == a + [sep] + Join(rest, sep)
  {
    assert ([a] + rest)[1..] == rest;
  }

  /** Cutting at an even position cuts no group in two. */
  lemma {:induction false} PairsAppend(a: string, b: string)
    requires |a| % 2 == 0 && b != []
    ensures Pairs(a + b) == Pairs(a) + Pairs(b)
    decreases |a|
  {
    if a != [] {
      assert |a| >= 2 && |a + b| > 2;
      assert (a + b)[..2] == a[..2] && (a + b)[2..] == a[2..] + b;
      assert Pairs(a + b) == [a[..2]] + Pairs(a[2..] + b);
      if |a| == 2 {
        assert a[..2] == a && a[2..] + b == b;
        assert Pairs(a) == [a];
      } else {
        assert Pairs(a) == [a[..2]] + Pairs(a[2..]);
        PairsAppend(a[2..], b);
        assert [a[..2]] + (Pairs(a[2..]) + Pairs(b)) == ([a[..2]] + Pairs(a[2..])) + Pairs(b);
      }
    } else {
      assert a + b == b;
    }
  }

  lemma PairsExample(padded: string)
    requires padded == "4901542032375180"
    ensures Pairs(padded) == ["49", "01", "54", "20", "32", "37", "51", "80"]
  {
    PairsFour("49", "01", "54", "20");
    PairsFour("32", "37", "51", "80");
    assert padded[..8] == "49" + "01" + "54" + "20";
    assert padded[8..] == "32" + "37" + "51" + "80";
    PairsAppend(padded[..8], padded[8..]);
    assert padded[..8] + padded[8..] == padded;
  }

  /** Two two-character groups put together are cut back into those groups. */
  lemma PairsTwo(c: string, d: string)
    requires |c| == 2 && |d| == 2
    ensures Pairs(c + d) == [c, d]
  {
    PairsStep(c, d);
    assert Pairs(d) == [d];
  }

  /** Four two-character groups put together are cut back into those groups. */
  lemma PairsFour(a: string, b: string, c: string, d: string)
    requires |a| == 2 && |b| == 2 && |c| == 2 && |d| == 2
    ensures Pairs(a + b + c + d) == [a, b, c, d]
  {
    var cd := c + d;
    PairsTwo(c, d);
    PairsStep(b, cd);
    assert [b] + [c, d] == [b, c, d];
    PairsStep(a, b + cd);
    assert [a] + [b, c, d] == [a, b, c, d];
    assert a + b + c + d == a + (b + cd);
  }

  /** The worked example of the argument format. */
  lemma EncryptArgExample(imei: string)
    requires imei == "490154203237518"
    ensures EncryptArg(imei) == "49,01,54,20,32,37,51,80"
  {
    PairsExample(imei + "0");
    JoinExample(Pairs(imei + "0"));
  }

  lemma {:induction false} JoinAppend(a: seq<string>, b: seq<string>, sep: char)
    requires a != [] && b != []
    ensures Join(a + b, sep) == Join(a, sep) + [sep] + Join(b, sep)
  {
    if |a| == 1 {
      JoinStep(a[0], b, sep);
      assert [a[0]] + b == a + b;
    } else {
      JoinStep(a[0], a[1..] + b, sep);
      assert [a[0]] + (a[1..] + b) == a + b;
      JoinAppend(a[1..], b, sep);
    }
  }

  /** `','.join` of four groups. */
  lemma JoinFour(ps: seq<string>)
    requires |ps| == 4
    ensures Join(ps, ',') == ps[0] + "," + ps[1] + "," + ps[2] + "," + ps[3]
  {
    JoinStep(ps[2], ps[3..], ',');
    assert [ps[2]] + ps[3..] == ps[2..];
    JoinStep(ps[1], ps[2..], ',');
    assert [ps[1]] + ps[2..] == ps[1..];
    JoinStep(ps[0], ps[1..], ',');
    assert [ps[0]] + ps[1..] == ps;
  }

  lemma JoinExample(ps: seq<string>)
    requires ps == ["49", "01", "54", "20", "32", "37", "51", "80"]
    ensures Join(ps, ',') == "49,01,54,20,32,37,51,80"
  {
    JoinFour(ps[..4]);
    JoinFour(ps[4..]);
    JoinAppend(ps[..4], ps[4..], ',');
    assert ps[..4] + ps[4..] == ps;
  }
}
