// The canonical LEB128 length prefix and length-value concatenation.
// Source: length_value.go.
module LengthValue {
  import opened ByteStrings

  // ----- specification -----

  /** The minimal base-128 encoding of n, least significant digit first. */
  function Leb(n: nat): (s: Bytes)
    ensures |s| >= 1
  {
    if n < 128 then [n] else [128 + n % 128] + Leb(n / 128)
  }

  /** Base-128 value of the digits in s, continuation bits ignored. */
  function Value(s: Bytes): nat
  {
    if s == [] then 0 else s[0] % 128 + 128 * Value(s[1..])
  }

  ghost predicate Continued(s: Bytes)
  {
    forall i | 0 <= i < |s| :: s[i] >= 128
  }

  /** A terminated digit string without a superfluous leading zero digit. */
  ghost predicate Canonical(s: Bytes)
  {
    && |s| >= 1
    && Continued(s[..|s| - 1])
    && s[|s| - 1] < 128
    && (|s| > 1 ==> s[|s| - 1] > 0)
  }

  function LV(data: Bytes): Bytes { Leb(|data|) + data }

  function LvCat(args: seq<Bytes>): Bytes
  {
    if args == [] then [] else LV(args[0]) + LvCat(args[1..])
  }

  // ----- LEB128: minimal, unique, prefix-free -----

  lemma {:induction false} LebIsCanonical(n: nat)
    ensures Canonical(Leb(n)) && Value(Leb(n)) == n
  {
    var s := Leb(n);
    if n >= 128 {
      LebIsCanonical(n / 128);
      assert s[1..] == Leb(n / 128);
      forall i | 0 <= i < |s| - 1
        ensures s[i] >= 128
      {
        if i > 0 {
          assert s[i] == s[1..][i - 1] == s[1..][..|s| - 2][i - 1];
        }
      }
      assert s[|s| - 1] == s[1..][|s| - 2];
      if |s| == 2 {
        assert Leb(n / 128) == [n / 128];
      }
    }
  }

  lemma {:induction false} CanonicalIsLeb(s: Bytes)
    requires Canonical(s)
    ensures s == Leb(Value(s))
  {
    if |s| == 1 {
      assert s == [s[0]];
      assert Value(s[1..]) == 0;
    } else {
      var t := s[1..];
      assert t[|t| - 1] == s[|s| - 1];
      assert Continued(t[..|t| - 1]) by {
        assert t[..|t| - 1] == s[..|s| - 1][1..];
      }
      CanonicalIsLeb(t);
      CanonicalPositive(t);
      assert s[..|s| - 1][0] >= 128;
      assert Value(s) / 128 == Value(t) && Value(s) % 128 == s[0] % 128;
      assert s == [s[0]] + t;
    }
  }

  lemma {:induction false} CanonicalPositive(s: Bytes)
    requires |s| >= 1 && 0 < s[|s| - 1] < 128
    ensures Value(s) > 0
  {
    if |s| > 1 {
      assert s[1..][|s| - 2] == s[|s| - 1];
      CanonicalPositive(s[1..]);
    }
  }

  /** No encoding is a prefix of another: a reader never has two choices. */
  lemma {:induction false} LebPrefixFree(m: nat, n: nat, s: Bytes)
    requires Leb(m) <= s && Leb(n) <= s
    ensures m == n
  {
    var a, b := Leb(m), Leb(n);
    assert a[0] == s[0] == b[0];
    if m >= 128 && n >= 128 {
      assert a[1..] == Leb(m / 128) && b[1..] == Leb(n / 128);
      forall i | 0 <= i < |a| - 1 ensures a[1..][i] == s[1..][i] { assert a[i + 1] == s[i + 1]; }
      forall i | 0 <= i < |b| - 1 ensures b[1..][i] == s[1..][i] { assert b[i + 1] == s[i + 1]; }
      LebPrefixFree(m / 128, n / 128, s[1..]);
    }
  }

  /** k digits suffice exactly for the numbers below 2^(7k). */
  lemma {:induction false} LebLengthBound(n: nat, k: nat)
    requires k >= 1
    ensures |Leb(n)| <= k <==> n < Pow2(7 * k)
    decreases k
  {
    SevenBits(k - 1);
    if n >= 128 {
      if k > 1 {
        LebLengthBound(n / 128, k - 1);
      }
    }
  }

  /** Byte i of an encoding: the i-th digit base 128, marked unless it is the
      last. */
  lemma {:induction false} LebDigits(n: nat, i: nat)
    requires i < |Leb(n)|
    ensures Leb(n)[i] == n / Pow2(7 * i) % 128 + if i == |Leb(n)| - 1 then 0 else 128
    decreases i
  {
    if i > 0 {
      LebDigits(n / 128, i - 1);
      SevenBits(i - 1);
      NestedDivision(n, Pow2(7 * (i - 1)));
    }
  }

  lemma NestedDivision(n: nat, q: nat)
    requires q > 0
    ensures n / 128 / q == n / (128 * q)
  {
    var m := n / 128;
    var r := 128 * (m % q) + n % 128;
    assert n == m / q * (128 * q) + r by {
      assert m == m / q * q + m % q;
      assert 128 * (m / q * q) == m / q * (128 * q);
    }
    DivModUnique(n, 128 * q, m / q, r);
  }

  lemma SevenBits(k: nat)
    ensures Pow2(7 * (k + 1)) == 128 * Pow2(7 * k)
    ensures Pow2(7) == 128
  {
    assert Pow2(7) == 128 by {
      assert Pow2(3) == 8;
      Pow2Add(3, 4);
      Pow2Add(3, 1);
    }
    Pow2Add(7, 7 * k);
  }

  // ----- length-value strings: uniquely decodable -----

  lemma LvPrefixFree(a: Bytes, x: Bytes, b: Bytes, y: Bytes)
    requires LV(a) + x == LV(b) + y
    ensures a == b && x == y
  {
    var s := LV(a) + x;
    assert Leb(|a|) <= s && Leb(|b|) <= s;
    LebPrefixFree(|a|, |b|, s);
    var k := |Leb(|a|)|;
    assert s[k..k + |a|] == a && s[k..k + |a|] == b;
    assert s[k + |a|..] == x && s[k + |a|..] == y;
  }

  /** Equal concatenations come from equal lists, whatever their lengths. */
  lemma {:induction false} LvCatInjective(xs: seq<Bytes>, ys: seq<Bytes>)
    requires LvCat(xs) == LvCat(ys)
    ensures xs == ys
  {
    if xs != [] && ys != [] {
      LvPrefixFree(xs[0], LvCat(xs[1..]), ys[0], LvCat(ys[1..]));
      LvCatInjective(xs[1..], ys[1..]);
      assert xs == [xs[0]] + xs[1..] && ys == [ys[0]] + ys[1..];
    }
  }

  /** The concatenation, field by field: length, then bytes. */
  lemma LvCatLast(xs: seq<Bytes>, x: Bytes)
    ensures LvCat([]) == []
    ensures LvCat(xs + [x]) == LvCat(xs) + Leb(|x|) + x
  {
    LvCatAppend(xs, [x]);
    assert LvCat([x]) == Leb(|x|) + x;
  }

  lemma Assoc(a: Bytes, b: Bytes, c: Bytes)
    ensures (a + b) + c == a + (b + c)
  {
  }

  lemma {:induction false} LvCatAppend(xs: seq<Bytes>, ys: seq<Bytes>)
    ensures LvCat(xs + ys) == LvCat(xs) + LvCat(ys)
  {
    if xs == [] {
      assert xs + ys == ys;
    } else {
      var zs := xs + ys;
      assert zs[0] == xs[0] && zs[1..] == xs[1..] + ys;
      LvCatAppend(xs[1..], ys);
      Assoc(LV(xs[0]), LvCat(xs[1..]), LvCat(ys));
    }
  }

  // ----- the digit arithmetic of the two loops -----

  lemma LebDigit(n: nat)
    ensures BitAnd(n, 0x7f) == n % 128 && ShiftRight(n, 7) == n / 128
    ensures BitOr(n % 128, 0x80) == 128 + n % 128
  {
    SevenBits(0);
    AndLowMask(n, 7);
    ShiftRightDivides(n, 7);
    OrDisjoint(n % 128, 1, 7);
  }

  /** The digit to emit, continuation bit included, and what is left. */
  method NextDigit(value: nat) returns (b: byte, n: nat)
    ensures n == value / 128
    ensures b == if n == 0 then value % 128 else 128 + value % 128
    ensures forall o: object | Store(o) :: !fresh(o)
  {
    LebDigit(value);
    b := BitAnd(value, 0x7f);
    n := ShiftRight(value, 7);
    if n != 0 {
      b := BitOr(b, 0x80);
    }
  }

  lemma LebStep(n: nat, before: Bytes)
    ensures n / 128 == 0 ==> before + Leb(n) == before + [n % 128]
    ensures n / 128 != 0 ==> before + Leb(n) == (before + [128 + n % 128]) + Leb(n / 128)
  {
    if n >= 128 {
      Assoc(before, [128 + n % 128], Leb(n / 128));
    }
  }

  lemma ContinuationBit(b: byte)
    ensures BitAnd(b, 0x7f) == b % 128
    ensures BitAnd(b, 0x80) == 0 <==> b < 128
  {
    LebDigit(b);
    HighBit(b);
    SevenBits(0);
  }

  lemma HighBit(b: byte)
    ensures BitAnd(b, Pow2(7)) == 0 <==> b < 128
  {
    AndBit(b, 7);
    SevenBits(0);
    assert b / 128 == if b < 128 then 0 else 1;
  }

  /** One round of the reading loop: OR in the next digit. */
  method AddDigit(n: nat, b: byte, i: nat) returns (sum: nat, last: bool)
    requires n < Pow2(7 * i)
    ensures sum == n + b % 128 * Pow2(7 * i) < Pow2(7 * (i + 1))
    ensures last <==> b < 128
    ensures forall o: object | Store(o) :: !fresh(o)
  {
    ContinuationBit(b);
    OrDisjoint(n, b % 128, 7 * i);
    SevenBits(i);
    DigitBound(n, b % 128, Pow2(7 * i));
    sum := BitOr(n, ShiftLeft(BitAnd(b, 0x7f), 7 * i));
    last := BitAnd(b, 0x80) == 0;
  }

  /** The canonicality test detects exactly a zero top digit. */
  lemma TopDigit(v: nat, d: nat, p: nat)
    requires v < p
    ensures v + d * p < p <==> d == 0
  {
    if d > 0 {
      ZeroDigit(d, p);
    }
  }

  // ----- a growable slice with its backing array -----

  /** A Go slice under append: `data` is the backing array, `len` its used
      part, and what lies beyond is zero. */
  class Buffer {
    var data: array<byte>
    var len: nat

    ghost predicate Valid()
      reads this, data
    {
      len <= data.Length && forall i | len <= i < data.Length :: data[i] == 0
    }

    ghost function Contents(): Bytes
      reads this, data
      requires Valid()
    {
      data[..len]
    }

    constructor (capacity: nat)
      ensures Valid() && fresh(data) && data.Length == capacity
      ensures Contents() == []
      ensures forall o: object | Store(o) && fresh(o) :: o == data
    {
      data := new byte[capacity](_ => 0);
      len := 0;
    }

    /** append of a whole slice: in place while capacity lasts, else into one
        larger array; the array left behind keeps what it held. */
    method Append(bs: Bytes)
      requires Valid()
      modifies this, data
      ensures Valid() && Contents() == old(Contents()) + bs
      ensures data == old(data) || fresh(data)
      ensures data != old(data) ==> old(data)[..] == old(data[..]) && Padded(old(data), old(Contents()))
      ensures old(len) + |bs| <= old(data.Length) ==> data == old(data)
      ensures forall o: object | Store(o) && fresh(o) :: o == data
    {
      if len + |bs| > data.Length {
        var grown := new byte[2 * (len + |bs|)](_ => 0);
        forall i | 0 <= i < len {
          grown[i] := data[i];
        }
        data := grown;
      }
      forall i | 0 <= i < |bs| {
        data[len + i] := bs[i];
      }
      len := len + |bs|;
    }

    /** Stated for every natural number, hence for every uint64: the loop only
        shifts right. */
    method AppendLEB128(value: nat)
      requires Valid()
      modifies this, data
      ensures Valid() && Contents() == old(Contents()) + Leb(value)
      ensures data == old(data) || fresh(data)
      ensures old(len) + |Leb(value)| <= old(data.Length) ==> data == old(data) && forall o: object | Store(o) :: !fresh(o)
    {
      var n := value;
      ghost var emitted: Bytes := [];
      ghost var fits := len + |Leb(value)| <= data.Length;
      while true
        invariant Valid() && Contents() == old(Contents()) + emitted
        invariant emitted + Leb(n) == Leb(value)
        invariant data == old(data) || fresh(data)
        invariant fits ==> data == old(data) && len + |Leb(n)| <= data.Length
        invariant fits ==> forall o: object | Store(o) :: !fresh(o)
        decreases n
      {
        LebStep(n, emitted);
        var b;
        b, n := NextDigit(n);
        Append([b]);
        emitted := emitted + [b];
        if n == 0 {
          return;
        }
      }
    }

    method AppendLengthValue(bs: Bytes)
      requires Valid()
      modifies this, data
      ensures Valid() && Contents() == old(Contents()) + LV(bs)
      ensures data == old(data) || fresh(data)
      ensures old(len) + |LV(bs)| <= old(data.Length) ==> data == old(data) && forall o: object | Store(o) :: !fresh(o)
    {
      AppendLEB128(|bs|);
      Append(bs);
    }
  }

  // ----- the codec's free functions -----

  method Leb128LenInt(value: nat) returns (out: nat)
    ensures out == |Leb(value)|
    ensures forall o: object | Store(o) :: !fresh(o)
  {
    var n := value;
    out := 1;
    while n >= 0x80
      invariant out - 1 + |Leb(n)| == |Leb(value)|
      invariant forall o: object | Store(o) :: !fresh(o)
      decreases n
    {
      LebDigit(n);
      n := ShiftRight(n, 7);
      out := out + 1;
    }
  }

  method LengthValueLen(n: nat) returns (r: nat)
    ensures forall data: Bytes | |data| == n :: r == |LV(data)|
    ensures forall o: object | Store(o) :: !fresh(o)
  {
    r := Leb128LenInt(n);
    r := r + n;
  }

  lemma {:induction false} LvCatSnoc(args: seq<Bytes>, i: nat)
    requires i < |args|
    ensures LvCat(args[..i + 1]) == LvCat(args[..i]) + LV(args[i])
  {
    assert args[..i + 1] == args[..i] + [args[i]];
    LvCatAppend(args[..i], [args[i]]);
    assert LvCat([args[i]]) == LV(args[i]) + [];
  }

  /** Sums the encoded lengths, allocates once, and fills that one array: no
      other array of the call has held any part of args. */
  method LvCatInto(args: seq<Bytes>) returns (out: Buffer)
    ensures fresh(out) && fresh(out.data) && out.Valid()
    ensures out.Contents() == LvCat(args)
    ensures out.data.Length == out.len
    ensures forall o: object | Store(o) && fresh(o) :: o == out.data
  {
    var total := 0;
    for i := 0 to |args|
      invariant total == |LvCat(args[..i])|
      invariant forall o: object | Store(o) :: !fresh(o)
    {
      var l := LengthValueLen(|args[i]|);
      total := total + l;
      LvCatSnoc(args, i);
    }
    assert args[..|args|] == args;
    out := new Buffer(total);
    for i := 0 to |args|
      invariant fresh(out) && fresh(out.data) && out.Valid()
      invariant out.Contents() == LvCat(args[..i])
      invariant out.data.Length == total
      invariant forall o: object | Store(o) && fresh(o) :: o == out.data
    {
      LvCatSnoc(args, i);
      LvCatPrefix(args, i + 1);
      out.AppendLengthValue(args[i]);
    }
  }

  lemma LvCatPrefix(args: seq<Bytes>, i: nat)
    requires i <= |args|
    ensures |LvCat(args[..i])| <= |LvCat(args)|
  {
    LvCatAppend(args[..i], args[i..]);
    assert args[..i] + args[i..] == args;
  }

  datatype LebError = Truncated | NonCanonical | Malformed
  datatype LebResult = Found(n: nat, next: nat) | Rejected(why: LebError)

  /** Every byte string read as a length is the one minimal encoding of it, and
      every rejection means no number has an encoding of at most maxBytes bytes
      here. The reason given is exact. maxBytes <= 9 keeps 7*maxBytes within
      the value bits of an int. */
  method ReadLEB128(buf: Bytes, off0: nat, maxBytes: nat) returns (r: LebResult)
    requires off0 <= |buf|
    requires maxBytes <= 9
    ensures r.Found? ==> off0 < r.next <= |buf| && r.next - off0 <= maxBytes && buf[off0..r.next] == Leb(r.n)
    ensures r.Found? ==> r.n < Pow2(7 * maxBytes)
    ensures r.Rejected? ==> forall n: nat | |Leb(n)| <= maxBytes :: !(Leb(n) <= buf[off0..])
    ensures forall o: object | Store(o) :: !fresh(o)
    ensures r == Rejected(Truncated) ==> |buf| - off0 < maxBytes && Continued(buf[off0..])
    ensures r == Rejected(Malformed) ==> off0 + maxBytes <= |buf| && Continued(buf[off0..off0 + maxBytes])
    ensures r == Rejected(NonCanonical) ==>
              exists k :: off0 < k < |buf| && k - off0 < maxBytes && Continued(buf[off0..k]) && buf[k] == 0
  {
    var n, off := 0, off0;
    ghost var rest := buf[off0..];
    for i := 0 to maxBytes
      invariant off == off0 + i <= |buf|
      invariant Continued(rest[..i])
      invariant n == Value(rest[..i]) < Pow2(7 * i)
      invariant forall o: object | Store(o) :: !fresh(o)
    {
      if off >= |buf| {
        assert rest[..i] == rest;
        NoLebInContinued(rest, maxBytes);
        return Rejected(Truncated);
      }
      var b := buf[off];
      ghost var read := rest[..i];
      off := off + 1;
      assert rest[..i + 1] == read + [b];
      ValueSnoc(read, b);
      var last;
      n, last := AddDigit(n, b, i);
      if last {
        TopDigit(Value(read), b % 128, Pow2(7 * i));
        assert ShiftLeft(1, 7 * i) == Pow2(7 * i);
        if i > 0 && n < ShiftLeft(1, 7 * i) {
          NoLebInPadded(rest, i, maxBytes);
          assert buf[off0..off0 + i] == read && buf[off0 + i] == 0;
          return Rejected(NonCanonical);
        }
        CanonicalSnoc(read, b);
        Pow2Monotone(7 * (i + 1), 7 * maxBytes);
        assert buf[off0..off] == read + [b];
        return Found(n, off);
      }
    }
    assert buf[off0..off0 + maxBytes] == rest[..maxBytes];
    NoLebInContinued(rest, maxBytes);
    return Rejected(Malformed);
  }

  lemma CanonicalSnoc(s: Bytes, b: byte)
    requires Continued(s) && b < 128 && (s != [] ==> b > 0)
    ensures s + [b] == Leb(Value(s + [b]))
  {
    assert (s + [b])[..|s + [b]| - 1] == s;
    CanonicalIsLeb(s + [b]);
  }

  lemma DigitBound(v: nat, d: nat, p: nat)
    requires v < p && d < 128
    ensures v + d * p < 128 * p
  {
    assert d * p <= 127 * p;
  }

  lemma ZeroDigit(b: nat, p: nat)
    ensures b > 0 ==> b * p >= p
  {
    if b > 0 {
      assert b * p == (b - 1) * p + p;
    }
  }

  lemma {:induction false} ValueSnoc(s: Bytes, b: byte)
    ensures Value(s + [b]) == Value(s) + (b % 128) * Pow2(7 * |s|)
  {
    if s == [] {
      assert s + [b] == [b];
      assert Value([b][1..]) == 0;
    } else {
      ValueSnoc(s[1..], b);
      assert (s + [b])[1..] == s[1..] + [b];
      SevenBits(|s| - 1);
      assert 128 * ((b % 128) * Pow2(7 * (|s| - 1))) == (b % 128) * Pow2(7 * |s|);
    }
  }

  /** Continuation bits throughout the first max bytes leave no room for a
      terminated encoding. */
  lemma NoLebInContinued(s: Bytes, max: nat)
    requires Continued(if |s| < max then s else s[..max])
    ensures forall n: nat | |Leb(n)| <= max :: !(Leb(n) <= s)
  {
    forall n: nat | |Leb(n)| <= max
      ensures !(Leb(n) <= s)
    {
      LebIsCanonical(n);
      var last := |Leb(n)| - 1;
      if last < |s| {
        assert Leb(n)[last] < 128 <= s[last];
      }
    }
  }

  lemma NoLebInPadded(s: Bytes, i: nat, max: nat)
    requires 0 < i < |s| && Continued(s[..i]) && s[i] == 0
    ensures forall n: nat | |Leb(n)| <= max :: !(Leb(n) <= s)
  {
    forall n: nat | |Leb(n)| <= max
      ensures !(Leb(n) <= s)
    {
      LebIsCanonical(n);
      var e, last := Leb(n), |Leb(n)| - 1;
      if last < i {
        assert e[last] < 128 <= s[..i][last];
      } else if last < |s| {
        assert e[i] != s[i] by {
          if i < last {
            assert e[..last][i] >= 128;
          }
        }
      }
    }
  }
}
