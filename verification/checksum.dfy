/** The two frame checksums of `support.py`: the 8-bit two's-complement
    ("modulo") sum and the XOR sum, over byte values held as Python ints. */
module Checksum {

  /** One byte, as Python holds it: an int in 0..255. */
  type byte = x: int | 0 <= x < 256

  /** Python's built-in `sum` over byte values, as an unbounded integer. */
  function Sum(b: seq<byte>): nat
  {
    if |b| == 0 then 0 else Sum(b[..|b| - 1]) + b[|b| - 1]
  }

  lemma {:induction false} SumAppend(a: seq<byte>, c: seq<byte>)
    ensures Sum(a + c) == Sum(a) + Sum(c)
    decreases |c|
  {
    if |c| == 0 {
      assert a + c == a;
    } else {
      var c' := c[..|c| - 1];
      assert (a + c)[..|a + c| - 1] == a + c';
      SumAppend(a, c');
    }
  }

  /** Reducing a sum modulo 256 may reduce its first addend first. */
  lemma ModOfSum(n: nat, c: int)
    ensures (n + c) % 256 == (n % 256 + c) % 256
  {
    var q := n / 256;
    assert n == 256 * q + n % 256;
    assert n + c == 256 * q + (n % 256 + c);
  }

  /** `sum_mod`: `(255 - sum % 256) + 1`, with the raw value 256 (a sum
      that is already a multiple of 256) wrapped to 0. The result is the
      byte that completes the sum to a multiple of 256. */
  function SumMod(b: seq<byte>): (r: byte)
    ensures (Sum(b) + r) % 256 == 0
    ensures r == 0 <==> Sum(b) % 256 == 0
  {
    var d := (255 - Sum(b) % 256) + 1;
    ModOfSum(Sum(b), if d > 255 then 0 else d);
    if d > 255 then 0 else d
  }

  /** The modulo checksum is the only byte completing the sum to a
      multiple of 256. */
  lemma SumModUnique(b: seq<byte>, c: byte)
    ensures (Sum(b) + c) % 256 == 0 <==> c == SumMod(b)
  {
    ModOfSum(Sum(b), c);
    ModOfSum(Sum(b), SumMod(b));
  }

  /** Appending the modulo checksum makes the total a multiple of 256. */
  lemma ModFrameSumsToZero(b: seq<byte>)
    ensures Sum(b + [SumMod(b)]) % 256 == 0
  {
    SumAppend(b, [SumMod(b)]);
    assert [SumMod(b)][..0] == [];
  }

  // ---------------------------------------------------------------------
  // Python's `^` on non-negative ints

  /** Bitwise exclusive or, one binary digit at a time. */
  function Xor(a: nat, b: nat): nat
    decreases a + b
  {
    if a == 0 && b == 0 then 0 else 2 * Xor(a / 2, b / 2) + (if a % 2 == b % 2 then 0 else 1)
  }

  lemma XorUnfold(a: nat, b: nat)
    ensures Xor(a, b) == 2 * Xor(a / 2, b / 2) + (if a % 2 == b % 2 then 0 else 1)
    ensures Xor(a, b) / 2 == Xor(a / 2, b / 2)
    ensures Xor(a, b) % 2 == (if a % 2 == b % 2 then 0 else 1)
  {}

  lemma {:induction false} XorZero(a: nat)
    ensures Xor(a, 0) == a
    decreases a
  {
    if a > 0 {
      XorZero(a / 2);
    }
  }

  lemma {:induction false} XorSelf(a: nat)
    ensures Xor(a, a) == 0
    decreases a
  {
    if a > 0 {
      XorSelf(a / 2);
    }
  }

  lemma {:induction false} XorAssoc(a: nat, b: nat, c: nat)
    ensures Xor(Xor(a, b), c) == Xor(a, Xor(b, c))
    decreases a + b + c
  {
    if a + b + c > 0 {
      var ab, bc := Xor(a, b), Xor(b, c);
      XorUnfold(a, b);
      XorUnfold(b, c);
      XorUnfold(ab, c);
      XorUnfold(a, bc);
      XorAssoc(a / 2, b / 2, c / 2);
      assert Xor(ab, c) % 2 == Xor(a, bc) % 2;
    }
  }

  function Pow2(k: nat): nat
  {
    if k == 0 then 1 else 2 * Pow2(k - 1)
  }

  /** The XOR of two k-bit numbers is a k-bit number. */
  lemma {:induction false} XorBound(a: nat, b: nat, k: nat)
    requires a < Pow2(k) && b < Pow2(k)
    ensures Xor(a, b) < Pow2(k)
    decreases k
  {
    if k > 0 && a + b > 0 {
      XorBound(a / 2, b / 2, k - 1);
    }
  }

  /** The XOR of two bytes is a byte. */
  function XorByte(a: byte, b: byte): (r: byte)
    ensures r == Xor(a, b)
  {
    assert Pow2(8) == 256;
    XorBound(a, b, 8);
    Xor(a, b)
  }

  // ---------------------------------------------------------------------
  // `sum_xor`

  /** The XOR of all bytes of `b`, 0 for the empty sequence: the reference
      definition that the source's loop computes. */
  function XorOf(b: seq<byte>): byte
  {
    if |b| == 0 then 0 else XorByte(XorOf(b[..|b| - 1]), b[|b| - 1])
  }

  /** `sum_xor`: the source's loop, folding `^` over the bytes from 0. */
  method SumXor(b: seq<byte>) returns (x: byte)
    ensures x == XorOf(b)
    ensures |b| == 0 ==> x == 0
  {
    x := 0;
    for i := 0 to |b|
      invariant x == XorOf(b[..i])
    {
      assert b[..i + 1][..i] == b[..i];
      x := XorByte(x, b[i]);
    }
    assert b[..|b|] == b;
  }

  /** XOR over a concatenation combines the XORs of the parts. */
  lemma {:induction false} XorAppend(a: seq<byte>, c: seq<byte>)
    ensures XorOf(a + c) == Xor(XorOf(a), XorOf(c))
    decreases |c|
  {
    if |c| == 0 {
      assert a + c == a;
      XorZero(XorOf(a));
    } else {
      var c' := c[..|c| - 1];
      assert (a + c)[..|a + c| - 1] == a + c';
      XorAppend(a, c');
      XorAssoc(XorOf(a), XorOf(c'), c[|c| - 1]);
    }
  }

  /** A byte appended to `b` makes the XOR of the whole frame zero exactly
      when it is `b`'s XOR checksum. */
  lemma XorFrameCheck(b: seq<byte>, c: byte)
    ensures XorOf(b + [c]) == 0 <==> c == XorOf(b)
  {
    assert (b + [c])[..|b|] == b;
    XorSelf(c);
    if XorOf(b + [c]) == 0 {
      XorInverse(XorOf(b), c);
    }
  }

  /** `a ^ c == 0` only when `a == c`. */
  lemma XorInverse(a: nat, c: nat)
    requires Xor(a, c) == 0
    ensures a == c
  {
    XorAssoc(a, c, c);
    XorSelf(c);
    XorZero(a);
    assert Xor(0, c) == c by {
      XorZeroLeft(c);
    }
  }

  lemma {:induction false} XorZeroLeft(a: nat)
    ensures Xor(0, a) == a
    decreases a
  {
    if a > 0 {
      XorZeroLeft(a / 2);
    }
  }

  /** Appending the XOR checksum makes the XOR of the whole frame zero. */
  lemma XorFrameIsZero(b: seq<byte>)
    ensures XorOf(b + [XorOf(b)]) == 0
  {
    XorFrameCheck(b, XorOf(b));
  }

  lemma ModCancel(s: nat, x: byte, y: byte)
    requires (s + x) % 256 == 0 && (s + y) % 256 == 0
    ensures x == y
  {
    ModOfSum(s, x);
    ModOfSum(s, y);
  }

  lemma XorOfSingle(x: byte)
    ensures XorOf([x]) == x
  {
    assert [x][..0] == [];
    XorZeroLeft(x);
  }

  /** Equal XOR sums around two bytes force the bytes to be equal. */
  lemma XorCancel(a: nat, c: nat, x: nat, y: nat)
    requires Xor(Xor(a, x), c) == 0 && Xor(Xor(a, y), c) == 0
    ensures x == y
  {
    XorInverse(Xor(a, x), c);
    XorInverse(Xor(a, y), c);
    assert Xor(a, x) == Xor(a, y);
    XorAssoc(a, a, x);
    XorAssoc(a, a, y);
    XorSelf(a);
    XorZeroLeft(x);
    XorZeroLeft(y);
  }

  /** A byte string whose sum is a multiple of 256 stops being one when
      any single byte changes. */
  lemma SumDetectsOneByte(f: seq<byte>, i: nat, v: byte)
    requires Sum(f) % 256 == 0 && i < |f| && v != f[i]
    ensures Sum(f[i := v]) % 256 != 0
  {
    var pre, post := f[..i], f[i + 1..];
    assert f == pre + [f[i]] + post;
    assert f[i := v] == pre + [v] + post;
    SumAppend(pre + [f[i]], post);
    SumAppend(pre, [f[i]]);
    SumAppend(pre + [v], post);
    SumAppend(pre, [v]);
    assert Sum([f[i]]) == f[i] && Sum([v]) == v by {
      assert [f[i]][..0] == [] && [v][..0] == [];
    }
    if Sum(f[i := v]) % 256 == 0 {
      ModCancel(Sum(pre) + Sum(post), f[i], v);
    }
  }

  /** A byte string whose XOR is zero stops being one when any single
      byte changes. */
  lemma XorDetectsOneByte(f: seq<byte>, i: nat, v: byte)
    requires XorOf(f) == 0 && i < |f| && v != f[i]
    ensures XorOf(f[i := v]) != 0
  {
    var pre, post := f[..i], f[i + 1..];
    assert f == pre + [f[i]] + post;
    assert f[i := v] == pre + [v] + post;
    XorAppend(pre + [f[i]], post);
    XorAppend(pre, [f[i]]);
    XorAppend(pre + [v], post);
    XorAppend(pre, [v]);
    XorOfSingle(f[i]);
    XorOfSingle(v);
    if XorOf(f[i := v]) == 0 {
      XorCancel(XorOf(pre), XorOf(post), f[i], v);
    }
  }
}
