/** Fixed-width integers as bytes, and the byte order RocksDB sorts keys by. */
module Wire {
  import opened Base

  function Pow256(w: nat): (p: nat)
    ensures p >= 1
  {
    if w == 0 then 1 else 0x100 * Pow256(w - 1)
  }

  lemma Pow256Values()
    ensures Pow256(1) == 0x100 && Pow256(2) == U16_LIMIT && Pow256(4) == U32_LIMIT && Pow256(8) == U64_LIMIT
  {
    assert Pow256(5) == 0x100 * Pow256(4);
    assert Pow256(6) == 0x100 * Pow256(5);
    assert Pow256(7) == 0x100 * Pow256(6);
  }

  // ---------------------------------------------------------------- integers

  /** The low `w` bytes of `n`, most significant first. */
  function BigEndian(n: nat, w: nat): (b: Bytes)
    ensures |b| == w
  {
    if w == 0 then [] else BigEndian(n / 0x100, w - 1) + [n % 0x100]
  }

  function FromBigEndian(b: Bytes): (n: nat)
    ensures n < Pow256(|b|)
  {
    if b == [] then 0 else FromBigEndian(b[..|b| - 1]) * 0x100 + b[|b| - 1]
  }

  lemma BigEndianLast(n: nat, w: nat)
    requires w > 0
    ensures BigEndian(n, w) == BigEndian(n / 0x100, w - 1) + [n % 0x100]
  {
  }

  lemma FromBigEndianLast(b: Bytes, x: byte)
    ensures FromBigEndian(b + [x]) == FromBigEndian(b) * 0x100 + x
  {
    assert (b + [x])[..|b|] == b;
  }

  lemma Digits(high: nat, low: byte)
    ensures (high * 0x100 + low) / 0x100 == high && (high * 0x100 + low) % 0x100 == low
  {
  }

  lemma HighDigits(m: nat, p: nat)
    requires m < 0x100 * p
    ensures m / 0x100 < p && m / 0x100 * 0x100 + m % 0x100 == m
  {
  }

  lemma {:induction false} BigEndianRoundTrip(n: nat, w: nat)
    requires n < Pow256(w)
    ensures FromBigEndian(BigEndian(n, w)) == n
  {
    if w > 0 {
      HighDigits(n, Pow256(w - 1));
      BigEndianRoundTrip(n / 0x100, w - 1);
      BigEndianLast(n, w);
      FromBigEndianLast(BigEndian(n / 0x100, w - 1), n % 0x100);
    }
  }

  lemma AppendDigit(high: nat, low: byte, n: nat, b: Bytes)
    requires BigEndian(high, |b|) == b && n / 0x100 == high && n % 0x100 == low
    ensures BigEndian(n, |b| + 1) == b + [low]
  {
  }

  lemma {:induction false} BigEndianCanonical(b: Bytes)
    ensures BigEndian(FromBigEndian(b), |b|) == b
  {
    if b != [] {
      var init, last := b[..|b| - 1], b[|b| - 1];
      BigEndianCanonical(init);
      Digits(FromBigEndian(init), last);
      AppendDigit(FromBigEndian(init), last, FromBigEndian(b), init);
      assert b == init + [last];
    }
  }

  /** The low `w` bytes of `n`, least significant first. */
  function LittleEndian(n: nat, w: nat): (b: Bytes)
    ensures |b| == w
  {
    if w == 0 then [] else [n % 0x100] + LittleEndian(n / 0x100, w - 1)
  }

  function FromLittleEndian(b: Bytes): (n: nat)
    ensures n < Pow256(|b|)
  {
    if b == [] then 0 else b[0] + FromLittleEndian(b[1..]) * 0x100
  }

  lemma {:induction false} LittleEndianRoundTrip(n: nat, w: nat)
    requires n < Pow256(w)
    ensures FromLittleEndian(LittleEndian(n, w)) == n
  {
    if w > 0 {
      LittleEndianRoundTrip(n / 0x100, w - 1);
      assert LittleEndian(n, w)[1..] == LittleEndian(n / 0x100, w - 1);
    }
  }

  // ---------------------------------------------------------------- byte order

  predicate LexAtMost(a: Bytes, b: Bytes) {
    a == [] || (b != [] && (a[0] < b[0] || (a[0] == b[0] && LexAtMost(a[1..], b[1..]))))
  }

  lemma {:induction false} LexRefl(a: Bytes)
    ensures LexAtMost(a, a)
  {
    if a != [] {
      LexRefl(a[1..]);
    }
  }

  lemma {:induction false} LexTotal(a: Bytes, b: Bytes)
    ensures LexAtMost(a, b) || LexAtMost(b, a)
  {
    if a != [] && b != [] {
      LexTotal(a[1..], b[1..]);
    }
  }

  lemma {:induction false} LexAntisym(a: Bytes, b: Bytes)
    requires LexAtMost(a, b) && LexAtMost(b, a)
    ensures a == b
  {
    if a != [] && b != [] {
      LexAntisym(a[1..], b[1..]);
      assert a == [a[0]] + a[1..] && b == [b[0]] + b[1..];
    }
  }

  lemma {:induction false} LexTrans(a: Bytes, b: Bytes, c: Bytes)
    requires LexAtMost(a, b) && LexAtMost(b, c)
    ensures LexAtMost(a, c)
  {
    if a != [] && a[0] == b[0] == c[0] {
      LexTrans(a[1..], b[1..], c[1..]);
    }
  }

  lemma {:induction false} LexAfterPrefix(p: Bytes, a: Bytes, b: Bytes)
    ensures LexAtMost(p + a, p + b) <==> LexAtMost(a, b)
  {
    if p == [] {
      assert p + a == a && p + b == b;
    } else {
      LexAfterPrefix(p[1..], a, b);
      assert (p + a)[1..] == p[1..] + a && (p + b)[1..] == p[1..] + b;
    }
  }

  /** Comparing strings of equal length: the leading parts decide unless they are equal. */
  lemma {:induction false} LexByHalves(a: Bytes, x: byte, b: Bytes, y: byte)
    requires |a| == |b|
    ensures LexAtMost(a + [x], b + [y]) <==> (a != b && LexAtMost(a, b)) || (a == b && x <= y)
  {
    if a != [] {
      LexByHalves(a[1..], x, b[1..], y);
      assert (a + [x])[1..] == a[1..] + [x] && (b + [y])[1..] == b[1..] + [y];
      assert a == [a[0]] + a[1..] && b == [b[0]] + b[1..];
    }
  }

  lemma DigitOrder(m: nat, n: nat)
    ensures m <= n <==> m / 0x100 < n / 0x100 || (m / 0x100 == n / 0x100 && m % 0x100 <= n % 0x100)
  {
  }

  /** Big-endian encodings of one width sort as the numbers do. */
  lemma {:induction false} BigEndianOrder(m: nat, n: nat, w: nat)
    requires m < Pow256(w) && n < Pow256(w)
    ensures LexAtMost(BigEndian(m, w), BigEndian(n, w)) <==> m <= n
  {
    if w > 0 {
      var a, b := m / 0x100, n / 0x100;
      HighDigits(m, Pow256(w - 1));
      HighDigits(n, Pow256(w - 1));
      BigEndianOrder(a, b, w - 1);
      BigEndianInjective(a, b, w - 1);
      BigEndianLast(m, w);
      BigEndianLast(n, w);
      LastDigitDecides(a, m % 0x100, BigEndian(a, w - 1), b, n % 0x100, BigEndian(b, w - 1));
      DigitOrder(m, n);
    }
  }

  lemma BigEndianInjective(a: nat, b: nat, w: nat)
    requires a < Pow256(w) && b < Pow256(w)
    ensures BigEndian(a, w) == BigEndian(b, w) <==> a == b
  {
    BigEndianRoundTrip(a, w);
    BigEndianRoundTrip(b, w);
  }

  lemma LastDigitDecides(a: nat, x: byte, high: Bytes, b: nat, y: byte, high': Bytes)
    requires |high| == |high'| && (LexAtMost(high, high') <==> a <= b) && (high == high' <==> a == b)
    ensures LexAtMost(high + [x], high' + [y]) <==> a < b || (a == b && x <= y)
  {
    LexByHalves(high, x, high', y);
  }
}
