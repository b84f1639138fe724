/**
 * The JavaScript values the todo store handles: the values a record can carry
 * in its id position, the property key such a value becomes when it indexes an
 * object (numbers print in decimal), the test that makes a key an array index,
 * and `Array.prototype.filter`.
 */
module JsValues {

  datatype Option<+T> = None | Some(value: T)

  /** A value in the id position of a todo: a number (integers only), a string,
      or one of JavaScript's two empty values. Strict equality (`===`) on these
      is Dafny's `==`: `Num(1) != Str("1")`. */
  datatype Id = Num(n: int) | Str(s: string) | Undefined | Null

  /** Arrays hold at most 2^32 - 1 elements, so an array index is below this bound. */
  const ArrayIndexLimit: nat := 0xFFFF_FFFF

  predicate IsDigit(c: char) { '0' <= c <= '9' }

  predicate AllDigits(s: string) { forall i :: 0 <= i < |s| ==> IsDigit(s[i]) }

  function DigitValue(c: char): nat { if IsDigit(c) then (c as int) - ('0' as int) else 0 }

  function DigitChar(d: nat): (c: char)
    requires d < 10
    ensures IsDigit(c) && DigitValue(c) == d
  {
    (('0' as int) + d) as char
  }

  /** The number a string of decimal digits spells, most significant digit first. */
  function DecimalValue(s: string): nat
  {
    if s == [] then 0 else 10 * DecimalValue(s[..|s| - 1]) + DigitValue(s[|s| - 1])
  }

  /** The decimal spelling of a natural number, without leading zeros. */
  function NatToDecimal(n: nat): (s: string)
    ensures |s| >= 1
  {
    if n < 10 then [DigitChar(n)] else NatToDecimal(n / 10) + [DigitChar(n % 10)]
  }

  /** Number-to-string conversion of an integer: its decimal spelling, with a minus sign when negative. */
  function IntToDecimal(i: int): string
  {
    if i < 0 then "-" + NatToDecimal(-i) else NatToDecimal(i)
  }

  /** A key is an array index when it is the canonical decimal spelling of an
      integer from 0 to 2^32 - 2. */
  predicate IsArrayIndex(k: string)
  {
    && |k| >= 1
    && AllDigits(k)
    && (k[0] != '0' || |k| == 1)
    && DecimalValue(k) < ArrayIndexLimit
  }

  /** The property key an id becomes when it indexes an object (`obj[id]`). */
  function Key(id: Id): string
  {
    match id
    case Num(n) => IntToDecimal(n)
    case Str(s) => s
    case Undefined => "undefined"
    case Null => "null"
  }

  lemma {:induction false} NatToDecimalCanonical(n: nat)
    ensures AllDigits(NatToDecimal(n))
    ensures DecimalValue(NatToDecimal(n)) == n
    ensures NatToDecimal(n)[0] != '0' || n == 0
    ensures n == 0 ==> NatToDecimal(n) == "0"
  {
    var s := NatToDecimal(n);
    if n >= 10 {
      NatToDecimalCanonical(n / 10);
      var p := NatToDecimal(n / 10);
      assert s == p + [DigitChar(n % 10)];
      assert s[..|s| - 1] == p;
      assert s[0] == p[0];
    }
  }

  /** A non-negative number below 2^32 - 1 indexes an array at its own value. */
  lemma NumKeyIsArrayIndex(n: int)
    requires 0 <= n < ArrayIndexLimit
    ensures IsArrayIndex(Key(Num(n)))
    ensures DecimalValue(Key(Num(n))) == n
  {
    NatToDecimalCanonical(n);
  }

  /** A negative number never spells an array index. */
  lemma NegativeNumKeyIsNotArrayIndex(n: int)
    requires n < 0
    ensures !IsArrayIndex(Key(Num(n)))
  {
    assert Key(Num(n))[0] == '-';
  }

  /** Key coercion keeps numbers apart: two numbers share a key only when they are equal. */
  lemma NumKeyInjective(a: int, b: int)
    requires Key(Num(a)) == Key(Num(b))
    ensures a == b
  {
    if a >= 0 && b >= 0 {
      NatToDecimalCanonical(a);
      NatToDecimalCanonical(b);
    } else if a < 0 && b < 0 {
      NatToDecimalCanonical(-a);
      NatToDecimalCanonical(-b);
      assert Key(Num(a))[1..] == NatToDecimal(-a);
      assert Key(Num(b))[1..] == NatToDecimal(-b);
    } else {
      NatToDecimalCanonical(if a >= 0 then a else b);
    }
  }

  /** Key coercion merges a number with its decimal string, which strict equality keeps apart. */
  lemma NumAndStringShareKey(n: int)
    ensures Key(Num(n)) == Key(Str(IntToDecimal(n)))
    ensures Num(n) != Str(IntToDecimal(n))
  {
  }

  /** `Array.prototype.filter` with a side-effect-free callback. */
  function Filter<T(!new)>(s: seq<T>, keep: T -> bool): (r: seq<T>)
    ensures |r| <= |s|
    ensures forall x :: x in r <==> x in s && keep(x)
  {
    if s == [] then []
    else (if keep(s[0]) then [s[0]] else []) + Filter(s[1..], keep)
  }

  /** Filtering distributes over concatenation: kept elements stay in their original order. */
  lemma {:induction false} FilterConcat<T(!new)>(a: seq<T>, b: seq<T>, keep: T -> bool)
    ensures Filter(a + b, keep) == Filter(a, keep) + Filter(b, keep)
  {
    if a == [] {
      assert a + b == b;
    } else {
      assert (a + b)[0] == a[0];
      assert (a + b)[1..] == a[1..] + b;
      FilterConcat(a[1..], b, keep);
    }
  }

  /** Filtering keeps the whole sequence, in order, when every element passes. */
  lemma {:induction false} FilterKeepsAll<T(!new)>(s: seq<T>, keep: T -> bool)
    requires forall i :: 0 <= i < |s| ==> keep(s[i])
    ensures Filter(s, keep) == s
  {
    if s != [] {
      FilterKeepsAll(s[1..], keep);
      assert [s[0]] + s[1..] == s;
    }
  }

  /** Filtering a sequence that starts with `x`: `x` is kept in front exactly when it passes. */
  lemma FilterCons<T(!new)>(x: T, rest: seq<T>, keep: T -> bool)
    ensures Filter([x] + rest, keep) == (if keep(x) then [x] else []) + Filter(rest, keep)
  {
    assert ([x] + rest)[1..] == rest;
  }

  /** Filtering a two-element sequence. */
  lemma FilterOfTwo<T(!new)>(x: T, y: T, keep: T -> bool)
    ensures Filter([x, y], keep) == (if keep(x) then [x] else []) + (if keep(y) then [y] else [])
  {
    FilterCons(x, [y], keep);
    FilterCons(y, [], keep);
    assert [x] + [y] == [x, y] && [y] + [] == [y];
  }

  lemma AddToBothSides<T>(a: multiset<T>, b: multiset<T>, c: multiset<T>, x: T)
    requires a + b == c
    ensures (multiset{x} + a) + b == multiset{x} + c
    ensures a + (multiset{x} + b) == multiset{x} + c
  {
  }

  /** Filtering by a test and by its negation splits the input: together the two results hold
      every element exactly as often as the input does. */
  lemma {:induction false} FilterPartition<T(!new)>(s: seq<T>, keep: T -> bool, drop: T -> bool)
    requires forall x :: drop(x) == !keep(x)
    ensures multiset(Filter(s, keep)) + multiset(Filter(s, drop)) == multiset(s)
  {
    if s != [] {
      var x, rest := s[0], s[1..];
      assert s == [x] + rest;
      FilterPartition(rest, keep, drop);
      FilterCons(x, rest, keep);
      FilterCons(x, rest, drop);
      var mk, md := multiset(Filter(rest, keep)), multiset(Filter(rest, drop));
      AddToBothSides(mk, md, multiset(rest), x);
      if keep(x) {
        assert multiset(Filter(s, keep)) == multiset{x} + mk;
        assert multiset(Filter(s, drop)) == md;
      } else {
        assert multiset(Filter(s, keep)) == mk;
        assert multiset(Filter(s, drop)) == multiset{x} + md;
      }
    }
  }
}
