/** Bytes, text and big-endian integers: the vocabulary every other module is written in. */
module Basics {

  datatype Option<+T> = None | Some(value: T)
  datatype Result<+T, +E> = Ok(value: T) | Err(error: E)

  type byte = b: int | 0 <= b < 0x100
  type bytes = seq<byte>

  /** An element of a Python `str`: any Unicode code point, lone surrogates included. */
  type codepoint = c: int | 0 <= c <= 0x10_FFFF
  type text = seq<codepoint>

  /** Seven-bit characters: at once bytes and text. */
  type ascii = c: int | 0 <= c < 0x80

  /** The characters of a literal. */
  function Ascii(literal: string): (r: seq<ascii>)
    requires forall i :: 0 <= i < |literal| ==> literal[i] as int < 0x80
    ensures |r| == |literal|
    ensures forall i :: 0 <= i < |r| ==> r[i] == literal[i] as int
  {
    seq(|literal|, i requires 0 <= i < |literal| => literal[i] as int)
  }

  /** `s.startswith(prefix)` */
  predicate StartsWith<T(==)>(s: seq<T>, prefix: seq<T>) {
    |prefix| <= |s| && s[..|prefix|] == prefix
  }

  /** `"".join(parts)` */
  function Join<T>(parts: seq<seq<T>>): seq<T> {
    if parts == [] then [] else parts[0] + Join(parts[1..])
  }

  lemma HeadTail<T>(s: seq<T>)
    requires s != []
    ensures s == [s[0]] + s[1..]
  {
  }

  lemma SumAssociates<T>(a: seq<T>, b: seq<T>, c: seq<T>)
    ensures (a + b) + c == a + (b + c)
  {
  }

  /** The index of the first element equal to x, or the length when there is none. */
  function IndexOf<T(==)>(s: seq<T>, x: T): (n: nat)
    ensures n <= |s|
    ensures forall i :: 0 <= i < n ==> s[i] != x
    ensures n < |s| ==> s[n] == x
  {
    if s == [] || s[0] == x then 0 else 1 + IndexOf(s[1..], x)
  }

  lemma IndexOfFirst<T>(a: seq<T>, x: T, b: seq<T>)
    requires x !in a
    ensures IndexOf(a + [x] + b, x) == |a|
  {
    var s := a + [x] + b;
    assert s[|a|] == x;
    assert forall i :: 0 <= i < |a| ==> s[i] == a[i];
  }

  /** `s.split(x)` on a one-character separator. */
  function Split<T(==)>(s: seq<T>, x: T): seq<seq<T>> {
    var n := IndexOf(s, x);
    if n == |s| then [s] else [s[..n]] + Split(s[n + 1..], x)
  }

  lemma SplitFirst<T>(a: seq<T>, x: T, rest: seq<T>)
    requires x !in a
    ensures Split(a + [x] + rest, x) == [a] + Split(rest, x)
  {
    var s := a + [x] + rest;
    IndexOfFirst(a, x, rest);
    assert s[..|a|] == a && s[|a| + 1..] == rest;
  }

  lemma SplitNothing<T>(a: seq<T>, x: T)
    requires x !in a
    ensures Split(a, x) == [a]
  {
    hide IndexOf;
    assert IndexOf(a, x) == |a|;
  }

  lemma SplitThree<T>(a: seq<T>, b: seq<T>, c: seq<T>, x: T)
    requires x !in a && x !in b && x !in c
    ensures Split(a + [x] + b + [x] + c, x) == [a, b, c]
  {
    hide IndexOf, Split;
    SplitNothing(c, x);
    SplitFirst(b, x, c);
    SplitFirst(a, x, b + [x] + c);
    assert a + [x] + b + [x] + c == a + [x] + (b + [x] + c);
    assert [a] + ([b] + [c]) == [a, b, c];
  }

  /** A separator that occurs in neither left part cuts both sums at the same place. */
  lemma CutAtSeparator<T>(a: seq<T>, b: seq<T>, a': seq<T>, b': seq<T>, x: T)
    requires x !in a && x !in a' && a + [x] + b == a' + [x] + b'
    ensures a == a' && b == b'
  {
    IndexOfFirst(a, x, b);
    IndexOfFirst(a', x, b');
    var s := a + [x] + b;
    assert s[..|a|] == a && s[|a| + 1..] == b;
    assert s[..|a|] == a' && s[|a| + 1..] == b';
  }

  lemma CutAtOnlySeparator<T>(a: seq<T>, b: seq<T>, a': seq<T>, b': seq<T>, x: T)
    requires x !in a && x !in b && a + [x] + b == a' + [x] + b'
    ensures a == a' && b == b'
  {
    var s := a + [x] + b;
    assert s[|a'|] == x;
    assert s[..|a'|] == a' && s[|a'| + 1..] == b' && s[..|a|] == a && s[|a| + 1..] == b;
  }

  lemma ThreeParts<T>(a: seq<T>, b: seq<T>, c: seq<T>, x: T)
    ensures var s := a + [x] + b + [x] + c;
      var m, n := |a|, |a| + 1 + |b|;
      && |s| == n + 1 + |c| && s[m] == x && s[n] == x
      && s[..m] == a && s[m + 1..n] == b && s[n + 1..] == c
      && forall k :: 0 <= k < |s| && k != m && k != n ==> s[k] in a || s[k] in b || s[k] in c
  {
  }

  /** Where x occurs only as the separators, the three parts are determined. */
  lemma CutAtOnlySeparators<T>(a: seq<T>, b: seq<T>, c: seq<T>, a': seq<T>, b': seq<T>, c': seq<T>, x: T)
    requires x !in a && x !in b && x !in c
    requires a + [x] + b + [x] + c == a' + [x] + b' + [x] + c'
    ensures a == a' && b == b' && c == c'
  {
    ThreeParts(a, b, c, x);
    ThreeParts(a', b', c', x);
  }

  // ---- big-endian integers (struct.pack ">I" and ">Q") ----

  function Pow256(n: nat): (p: nat)
    ensures p > 0
  {
    if n == 0 then 1 else 0x100 * Pow256(n - 1)
  }

  /** The `width` low-order bytes of n, most significant first. */
  function BigEndian(n: nat, width: nat): (b: bytes)
    ensures |b| == width
  {
    if width == 0 then [] else BigEndian(n / 0x100, width - 1) + [n % 0x100]
  }

  function FromBigEndian(b: bytes): (n: nat)
    ensures n < Pow256(|b|)
  {
    if b == [] then 0 else FromBigEndian(b[..|b| - 1]) * 0x100 + b[|b| - 1]
  }

  lemma HighPart(n: nat, width: nat)
    requires width > 0 && n < Pow256(width)
    ensures n / 0x100 < Pow256(width - 1)
  {
    var p := Pow256(width - 1);
    assert Pow256(width) == 0x100 * p;
  }

  lemma AppendLow(front: bytes, high: nat, low: byte)
    requires FromBigEndian(front) == high
    ensures FromBigEndian(front + [low]) == high * 0x100 + low
  {
    assert (front + [low])[..|front|] == front;
  }

  lemma {:induction false} BigEndianRoundTrip(n: nat, width: nat)
    requires n < Pow256(width)
    ensures FromBigEndian(BigEndian(n, width)) == n
  {
    if width > 0 {
      hide FromBigEndian, Pow256;
      var high := n / 0x100;
      HighPart(n, width);
      BigEndianRoundTrip(high, width - 1);
      AppendLow(BigEndian(high, width - 1), high, n % 0x100);
    }
  }

  lemma HighAndLow(high: nat, low: nat)
    requires low < 0x100
    ensures (high * 0x100 + low) / 0x100 == high && (high * 0x100 + low) % 0x100 == low
  {
  }

  lemma FrontAndLast<T>(s: seq<T>)
    requires s != []
    ensures s == s[..|s| - 1] + [s[|s| - 1]]
  {
  }

  lemma {:induction false} FromBigEndianRoundTrip(b: bytes)
    ensures BigEndian(FromBigEndian(b), |b|) == b
  {
    if b != [] {
      var front, last := b[..|b| - 1], b[|b| - 1];
      assert FromBigEndian(b) == FromBigEndian(front) * 0x100 + last;
      hide FromBigEndian, Pow256;
      HighAndLow(FromBigEndian(front), last);
      FromBigEndianRoundTrip(front);
      FrontAndLast(b);
    }
  }

  const TWO32: nat := 0x1_0000_0000
  const TWO64: nat := 0x1_0000_0000_0000_0000

  lemma Pow256Values()
    ensures Pow256(4) == TWO32 && Pow256(8) == TWO64
  {
    assert Pow256(2) == 0x1_0000;
    assert Pow256(4) == 0x1_0000_0000;
    assert Pow256(6) == 0x1_0000_0000_0000;
  }

  /** `struct.pack(">I", n)`; the callers check that n fits. */
  function U32(n: nat): (b: bytes)
    ensures |b| == 4
  {
    BigEndian(n, 4)
  }

  /** `struct.pack(">Q", n & 0xFFFFFFFFFFFFFFFF)`: n may be negative or exceed 64 bits. */
  function U64(n: int): (b: bytes)
    ensures |b| == 8
  {
    BigEndian(n % TWO64, 8)
  }

  lemma U32RoundTrip(n: nat)
    requires n < TWO32
    ensures FromBigEndian(U32(n)) == n
  {
    Pow256Values();
    BigEndianRoundTrip(n, 4);
  }

  lemma U32Unique(b: bytes)
    requires |b| == 4
    ensures FromBigEndian(b) < TWO32 && U32(FromBigEndian(b)) == b
  {
    Pow256Values();
    FromBigEndianRoundTrip(b);
  }

  /** U64 keeps the number modulo 2^64. */
  lemma U64Value(n: int)
    ensures FromBigEndian(U64(n)) == n % TWO64
  {
    Pow256Values();
    BigEndianRoundTrip(n % TWO64, 8);
  }

  /** The index encoding identifies two integers exactly when they agree modulo 2^64. */
  lemma U64Equal(m: int, n: int)
    ensures U64(m) == U64(n) <==> m % TWO64 == n % TWO64
  {
    Pow256Values();
    BigEndianRoundTrip(m % TWO64, 8);
    BigEndianRoundTrip(n % TWO64, 8);
  }

  /** Big-endian, position by position: byte i counts for the power of 256 that has as many zeros as bytes
      follow it. */
  lemma {:induction false} BigEndianAt(n: nat, width: nat, i: nat)
    requires i < width
    ensures BigEndian(n, width)[i] as int == n / Pow256(width - 1 - i) % 0x100
  {
    if i < width - 1 {
      var p := Pow256(width - 2 - i);
      BigEndianAt(n / 0x100, width - 1, i);
      assert Pow256(width - 1 - i) == 0x100 * p;
      DivideTwice(n, p);
    }
  }

  lemma AtLeastOnce(k: int, d: int)
    requires d > 0
    ensures k >= 1 ==> k * d >= d
    ensures k <= -1 ==> k * d <= -d
  {
  }

  lemma QuotientUnique(n: nat, d: nat, q: nat, r: nat)
    requires d > 0 && r < d && n == q * d + r
    ensures n / d == q
  {
    var k := n / d - q;
    assert n == n / d * d + n % d;
    assert k * d == r - n % d;
    AtLeastOnce(k, d);
  }

  lemma DivideTwice(n: nat, b: nat)
    requires b > 0
    ensures n / 0x100 / b == n / (0x100 * b)
  {
    var m := n / 0x100;
    var q, r := m / b, m % b;
    var t := n % 0x100;
    assert n == 0x100 * m + t && m == q * b + r;
    assert q * (0x100 * b) == 0x100 * (q * b);
    assert n == q * (0x100 * b) + (0x100 * r + t);
    QuotientUnique(n, 0x100 * b, q, 0x100 * r + t);
  }

  /** The two integer encodings of the package, byte by byte. */
  lemma IntegerBytes(n: int)
    ensures forall i :: 0 <= i < 8 ==> U64(n)[i] as int == n % TWO64 / Pow256(7 - i) % 0x100
    ensures 0 <= n < TWO32 ==> forall i :: 0 <= i < 4 ==> U32(n)[i] as int == n / Pow256(3 - i) % 0x100
  {
    forall i | 0 <= i < 8
      ensures U64(n)[i] as int == n % TWO64 / Pow256(7 - i) % 0x100
    {
      BigEndianAt(n % TWO64, 8, i);
    }
    if 0 <= n < TWO32 {
      forall i | 0 <= i < 4
        ensures U32(n)[i] as int == n / Pow256(3 - i) % 0x100
      {
        BigEndianAt(n, 4, i);
      }
    }
  }
}
