/** Unsigned bytes, big-endian numbers and the byte-wise orders used by the
    identifier layout. */
module Bytes {

  /** An unsigned 8-bit value, as .NET's `byte`. */
  type byte = b: int | 0 <= b < 256

  /** 256^n: one more than the largest value of an n-byte unsigned number. */
  function Pow256(n: nat): (r: nat)
    ensures r >= 1
  {
    if n == 0 then 1 else 256 * Pow256(n - 1)
  }

  /** The unsigned number whose big-endian (most significant byte first)
      representation is `s`. */
  function BigEndianValue(s: seq<byte>): (v: nat)
    ensures v < Pow256(|s|)
  {
    if s == [] then 0 else
      var p, rest := Pow256(|s| - 1), BigEndianValue(s[1..]);
      MulLeftMonotonic(s[0], 255, p);
      s[0] * p + rest
  }

  /** The low `n` bytes of `v`, most significant first. */
  function BigEndianBytes(v: nat, n: nat): (r: seq<byte>)
    ensures |r| == n
  {
    if n == 0 then [] else [(v / Pow256(n - 1)) % 256] + BigEndianBytes(v, n - 1)
  }

  /** `s` read back to front (what `Array.Reverse` leaves in an array). */
  function Reversed(s: seq<byte>): (r: seq<byte>)
    ensures |r| == |s|
    ensures forall i :: 0 <= i < |s| ==> r[i] == s[|s| - 1 - i]
  {
    seq(|s|, i requires 0 <= i < |s| => s[|s| - 1 - i])
  }

  /** Unsigned byte-wise lexicographic order, byte 0 ranked first. */
  predicate LexLess(a: seq<byte>, b: seq<byte>)
    requires |a| == |b|
  {
    |a| > 0 && (a[0] < b[0] || (a[0] == b[0] && LexLess(a[1..], b[1..])))
  }

  predicate LexLessOrEqual(a: seq<byte>, b: seq<byte>)
    requires |a| == |b|
  {
    a == b || LexLess(a, b)
  }

  // ---------------------------------------------------------------------
  // Arithmetic facts
  // ---------------------------------------------------------------------

  lemma MulLeftMonotonic(a: int, b: int, m: nat)
    requires a <= b
    ensures a * m <= b * m
  {
  }

  lemma DivModUnique(v: int, m: int, q: int, r: int)
    requires m > 0 && 0 <= r < m && v == q * m + r
    ensures v / m == q && v % m == r
  {
    var q', r' := v / m, v % m;
    assert v == q' * m + r';
    if q > q' {
      MulLeftMonotonic(q' + 1, q, m);
      assert false;
    } else if q < q' {
      MulLeftMonotonic(q + 1, q', m);
      assert false;
    }
  }

  /** Splitting a number into its low `b` part and the next `a` part. */
  lemma ModOfProduct(v: int, a: nat, b: nat)
    requires a > 0 && b > 0
    ensures v % (a * b) == ((v / b) % a) * b + v % b
    ensures (v % (a * b)) % b == v % b
  {
    var q, r := v / b, v % b;
    var q2, r2 := q / a, q % a;
    assert v == q * b + r;
    assert q * b == q2 * (a * b) + r2 * b by {
      assert q == q2 * a + r2;
    }
    assert r2 * b + r < a * b by {
      MulLeftMonotonic(r2, a - 1, b);
      assert (a - 1) * b == a * b - b;
    }
    DivModUnique(v, a * b, q2, r2 * b + r);
    DivModUnique(r2 * b + r, b, r2, r);
  }

  // ---------------------------------------------------------------------
  // Big-endian encoding: the two directions of the round trip
  // ---------------------------------------------------------------------

  /** Encoding `v` in `n` bytes keeps exactly its low `n` bytes. */
  lemma {:induction false} ValueOfBytes(v: nat, n: nat)
    ensures BigEndianValue(BigEndianBytes(v, n)) == v % Pow256(n)
  {
    if n > 0 {
      var s := BigEndianBytes(v, n);
      assert s[1..] == BigEndianBytes(v, n - 1);
      ValueOfBytes(v, n - 1);
      ModOfProduct(v, 256, Pow256(n - 1));
    }
  }

  /** Two byte strings of one length with the same value are equal. */
  lemma {:induction false} ValueInjective(s: seq<byte>, t: seq<byte>)
    requires |s| == |t|
    ensures BigEndianValue(s) == BigEndianValue(t) ==> s == t
  {
    if |s| > 0 && BigEndianValue(s) == BigEndianValue(t) {
      var p := Pow256(|s| - 1);
      DivModUnique(BigEndianValue(s), p, s[0], BigEndianValue(s[1..]));
      DivModUnique(BigEndianValue(t), p, t[0], BigEndianValue(t[1..]));
      ValueInjective(s[1..], t[1..]);
      assert s == [s[0]] + s[1..] && t == [t[0]] + t[1..];
    }
  }

  /** Decoding then re-encoding at the same width gives the bytes back. */
  lemma BytesOfValue(s: seq<byte>)
    ensures BigEndianBytes(BigEndianValue(s), |s|) == s
  {
    ValueOfBytes(BigEndianValue(s), |s|);
    DivModUnique(BigEndianValue(s), Pow256(|s|), 0, BigEndianValue(s));
    ValueInjective(BigEndianBytes(BigEndianValue(s), |s|), s);
  }

  /** Leading zero bytes do not change a big-endian value. */
  lemma {:induction false} LeadingZeros(z: seq<byte>, s: seq<byte>)
    requires forall i :: 0 <= i < |z| ==> z[i] == 0
    ensures BigEndianValue(z + s) == BigEndianValue(s)
  {
    if |z| > 0 {
      var zs := z + s;
      assert zs[0] == 0;
      assert zs[1..] == z[1..] + s;
      LeadingZeros(z[1..], s);
      assert BigEndianValue(zs) == 0 * Pow256(|zs| - 1) + BigEndianValue(zs[1..]);
    } else {
      assert z + s == s;
    }
  }

  /** Reducing `v` modulo a wider power of 256 does not change its low `m`
      bytes. */
  lemma LowBytesOfReduced(v: int, m: nat, n: nat)
    requires m <= n
    ensures BigEndianBytes(v % Pow256(n), m) == BigEndianBytes(v % Pow256(m), m)
  {
    PowAdd(n - m, m);
    ValueOfBytes(v % Pow256(n), m);
    ValueOfBytes(v % Pow256(m), m);
    ModOfProduct(v, Pow256(n - m), Pow256(m));
    DivModUnique(v % Pow256(m), Pow256(m), 0, v % Pow256(m));
    ValueInjective(BigEndianBytes(v % Pow256(n), m), BigEndianBytes(v % Pow256(m), m));
  }

  lemma {:induction false} PowAdd(a: nat, b: nat)
    ensures Pow256(a + b) == Pow256(a) * Pow256(b)
  {
    if a > 0 {
      PowAdd(a - 1, b);
      assert Pow256(a + b) == 256 * (Pow256(a - 1) * Pow256(b));
    }
  }

  /** The trailing `m` bytes of an `n`-byte encoding are the `m`-byte encoding. */
  lemma {:induction false} SuffixOfBytes(v: nat, m: nat, n: nat)
    requires m <= n
    ensures BigEndianBytes(v, n)[n - m..] == BigEndianBytes(v, m)
  {
    if m < n {
      var s := BigEndianBytes(v, n);
      assert s[1..] == BigEndianBytes(v, n - 1);
      SuffixOfBytes(v, m, n - 1);
      assert s[n - m..] == s[1..][n - 1 - m..];
    }
  }

  // ---------------------------------------------------------------------
  // Order
  // ---------------------------------------------------------------------

  lemma LeadingByteDecides(a: nat, x: nat, b: nat, y: nat, p: nat)
    requires a < b && x < p
    ensures a * p + x < b * p + y
  {
    MulLeftMonotonic(a + 1, b, p);
  }

  /** Big-endian is what makes byte-wise order agree with numeric order. */
  lemma {:induction false} LexLessIsNumericLess(s: seq<byte>, t: seq<byte>)
    requires |s| == |t|
    ensures LexLess(s, t) <==> BigEndianValue(s) < BigEndianValue(t)
  {
    if |s| > 0 {
      var p := Pow256(|s| - 1);
      var vs, vt := BigEndianValue(s[1..]), BigEndianValue(t[1..]);
      assert BigEndianValue(s) == s[0] * p + vs;
      assert BigEndianValue(t) == t[0] * p + vt;
      if s[0] < t[0] {
        LeadingByteDecides(s[0], vs, t[0], vt, p);
      } else if s[0] > t[0] {
        LeadingByteDecides(t[0], vt, s[0], vs, p);
      } else {
        LexLessIsNumericLess(s[1..], t[1..]);
      }
    }
  }

  /** Comparing two concatenations ranks the first parts before the second. */
  lemma {:induction false} LexLessConcat(x: seq<byte>, y: seq<byte>, x': seq<byte>, y': seq<byte>)
    requires |x| == |x'| && |y| == |y'|
    ensures LexLess(x + y, x' + y') <==> LexLess(x, x') || (x == x' && LexLess(y, y'))
  {
    if |x| == 0 {
      assert x + y == y && x' + y' == y';
    } else {
      assert (x + y)[1..] == x[1..] + y;
      assert (x' + y')[1..] == x'[1..] + y';
      LexLessConcat(x[1..], y, x'[1..], y');
      if x[0] == x'[0] && x[1..] == x'[1..] {
        assert x == [x[0]] + x[1..] && x' == [x'[0]] + x'[1..];
      }
    }
  }

  /** A byte string that is at most another at every position is at most it
      in lexicographic order. */
  lemma {:induction false} PointwiseLexLessOrEqual(a: seq<byte>, b: seq<byte>)
    requires |a| == |b|
    requires forall i :: 0 <= i < |a| ==> a[i] <= b[i]
    ensures LexLessOrEqual(a, b)
  {
    if |a| > 0 {
      PointwiseLexLessOrEqual(a[1..], b[1..]);
      if a[0] == b[0] && a[1..] == b[1..] {
        assert a == [a[0]] + a[1..] && b == [b[0]] + b[1..];
      }
    }
  }
}
