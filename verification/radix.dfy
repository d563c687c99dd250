/** Radix conversions shared by the two base-85 codecs: base-85 digit strings
    (most significant digit first) and big-endian byte packing. The source keeps
    these values in `unsigned long` (64 bits in ascii85.c) or `uint32_t`
    (base85.c); here they are unbounded and every truncation is written out by
    the codec that performs it. */
module Radix {
  import opened CType

  /** k copies of x. */
  function Repeat<T>(x: T, k: nat): (r: seq<T>)
    ensures |r| == k && forall i | 0 <= i < k :: r[i] == x
  {
    if k == 0 then [] else Repeat(x, k - 1) + [x]
  }

  function Pow85(n: nat): (r: nat)
    ensures r >= 1
  {
    if n == 0 then 1 else 85 * Pow85(n - 1)
  }

  function Pow256(n: nat): (r: nat)
    ensures r >= 1
  {
    if n == 0 then 1 else 256 * Pow256(n - 1)
  }

  /** The accumulation `value = value * 85 + digit` over ds, first digit first. */
  function Value85(ds: seq<nat>): nat
    decreases |ds|
  {
    if |ds| == 0 then 0 else Value85(ds[..|ds| - 1]) * 85 + ds[|ds| - 1]
  }

  lemma Value85Snoc(ds: seq<nat>, d: nat)
    ensures Value85(ds + [d]) == Value85(ds) * 85 + d
  {
    assert (ds + [d])[..|ds|] == ds;
  }

  /** The n lowest base-85 digits of v, most significant first: the encoders'
      loop `out[i] = v % 85; v /= 85` for i from n - 1 down to 0. */
  function Digits85(v: nat, n: nat): (r: seq<nat>)
    ensures |r| == n
    ensures forall i | 0 <= i < n :: r[i] < 85
    decreases n
  {
    if n == 0 then [] else Digits85(v / 85, n - 1) + [v % 85]
  }

  /** v with its k lowest base-85 digits shifted out. */
  function Shift85(v: nat, k: nat): nat
    decreases k
  {
    if k == 0 then v else Shift85(v / 85, k - 1)
  }

  /** Reading back n digits of a value below 85^n gives the value. */
  lemma {:induction false} DigitsValue(v: nat, n: nat)
    requires v < Pow85(n)
    ensures Value85(Digits85(v, n)) == v
    decreases n
  {
    if n > 0 {
      DigitsValue(v / 85, n - 1);
      Value85Snoc(Digits85(v / 85, n - 1), v % 85);
    }
  }

  /** The leading n - k digits of v are the digits of v shifted by k. */
  lemma {:induction false} DigitsPrefix(v: nat, n: nat, k: nat)
    requires k <= n
    ensures Digits85(v, n)[..n - k] == Digits85(Shift85(v, k), n - k)
    decreases k
  {
    if k > 0 {
      DigitsPrefix(v / 85, n - 1, k - 1);
      assert Digits85(v, n)[..n - k] == Digits85(v / 85, n - 1)[..n - k];
    }
  }

  lemma {:induction false} ShiftBound(v: nat, n: nat, k: nat)
    requires k <= n && v < Pow85(n)
    ensures Shift85(v, k) < Pow85(n - k)
    decreases k
  {
    if k > 0 {
      ShiftBound(v / 85, n - 1, k - 1);
    }
  }

  /** Big-endian value of a byte string: `value = (value << 8) | byte`. */
  function Pack(bs: seq<byte>): nat
    decreases |bs|
  {
    if |bs| == 0 then 0 else Pack(bs[..|bs| - 1]) * 256 + bs[|bs| - 1]
  }

  lemma PackSnoc(bs: seq<byte>, b: byte)
    ensures Pack(bs + [b]) == Pack(bs) * 256 + b
  {
    assert (bs + [b])[..|bs|] == bs;
  }

  lemma PackFour(a: byte, b: byte, c: byte, d: byte)
    ensures Pack([a, b, c, d]) == ((a * 256 + b) * 256 + c) * 256 + d
  {
    PackSnoc([a, b, c], d);
    PackSnoc([a, b], c);
    PackSnoc([a], b);
    PackSnoc([], a);
    assert [a, b, c] + [d] == [a, b, c, d];
    assert [a, b] + [c] == [a, b, c];
    assert [a] + [b] == [a, b];
    assert [] + [a] == [a];
  }

  lemma {:induction false} PackBound(bs: seq<byte>)
    ensures Pack(bs) < Pow256(|bs|)
    decreases |bs|
  {
    if |bs| > 0 {
      PackBound(bs[..|bs| - 1]);
    }
  }

  /** The n lowest bytes of v, most significant first: `b = v & 0xFF; v >>= 8`
      repeated, stored from the last position backwards. */
  function BytesBE(v: nat, n: nat): (r: seq<byte>)
    ensures |r| == n
    decreases n
  {
    if n == 0 then [] else BytesBE(v / 256, n - 1) + [v % 256]
  }

  /** v with its k lowest bytes shifted out. */
  function Shift256(v: nat, k: nat): nat
    decreases k
  {
    if k == 0 then v else Shift256(v / 256, k - 1)
  }

  /** Unpacking a packed byte string gives the bytes back. */
  lemma {:induction false} BytesPack(bs: seq<byte>)
    ensures BytesBE(Pack(bs), |bs|) == bs
    decreases |bs|
  {
    if |bs| > 0 {
      var init := bs[..|bs| - 1];
      BytesPack(init);
      assert Pack(bs) / 256 == Pack(init);
      assert init + [bs[|bs| - 1]] == bs;
    }
  }

  /** Packing the n lowest bytes of a value below 256^n gives the value. */
  lemma {:induction false} PackBytes(v: nat, n: nat)
    requires v < Pow256(n)
    ensures Pack(BytesBE(v, n)) == v
    decreases n
  {
    if n > 0 {
      PackBytes(v / 256, n - 1);
      PackSnoc(BytesBE(v / 256, n - 1), v % 256);
    }
  }

  /** The leading n - k of the n lowest bytes of v are those of v shifted by k. */
  lemma {:induction false} BytesPrefix(v: nat, n: nat, k: nat)
    requires k <= n
    ensures BytesBE(v, n)[..n - k] == BytesBE(Shift256(v, k), n - k)
    decreases k
  {
    if k > 0 {
      BytesPrefix(v / 256, n - 1, k - 1);
      assert BytesBE(v, n)[..n - k] == BytesBE(v / 256, n - 1)[..n - k];
    }
  }

  lemma MulShift(a: int, b: int, c: int)
    ensures (a * b) * c == a * (c * b)
  {
  }

  /** Zero bytes appended to a byte string multiply its value. */
  lemma {:induction false} PackZeros(bs: seq<byte>, k: nat)
    ensures Pack(bs + Repeat(0, k)) == Pack(bs) * Pow256(k)
    decreases k
  {
    if k > 0 {
      var init := bs + Repeat(0, k - 1);
      PackZeros(bs, k - 1);
      assert bs + Repeat(0, k) == init + [0];
      PackSnoc(init, 0);
      MulShift(Pack(bs), Pow256(k - 1), 256);
    } else {
      assert bs + Repeat(0, k) == bs;
    }
  }

  /** Digits 84 appended to a digit string: the value is scaled and rounded
      up to the last value with that leading part. */
  lemma {:induction false} ValuePad(ds: seq<nat>, k: nat)
    ensures Value85(ds + Repeat(84, k)) == Value85(ds) * Pow85(k) + Pow85(k) - 1
    decreases k
  {
    if k > 0 {
      var init := ds + Repeat(84, k - 1);
      ValuePad(ds, k - 1);
      assert ds + Repeat(84, k) == init + [84];
      Value85Snoc(init, 84);
      var v, p := Value85(ds), Pow85(k - 1);
      calc {
        (v * p + p - 1) * 85 + 84;
        == (v * p) * 85 + p * 85 - 1;
        == { MulShift(v, p, 85); }
        v * (85 * p) + 85 * p - 1;
      }
    } else {
      assert ds + Repeat(84, k) == ds;
    }
  }

  /** For up to three missing bytes, rounding the shifted base-85 value of
      p followed by k zero bytes up again never reaches the next multiple of
      256^k, so shifting out k bytes gives p back. */
  lemma RoundUpShift(p: nat, k: nat)
    requires 1 <= k <= 3
    ensures Shift256(Shift85(p * Pow256(k), k) * Pow85(k) + Pow85(k) - 1, k) == p
  {
    var v := p * Pow256(k);
    if k == 1 {
      assert Pow256(1) == 256 && Pow85(1) == 85;
      var x := (v / 85) * 85 + 84;
      assert x / 256 == p;
    } else if k == 2 {
      assert Pow256(2) == 65536 && Pow85(2) == 7225;
      var x := ((v / 85) / 85) * 7225 + 7224;
      assert (x / 256) / 256 == p;
    } else {
      assert Pow256(3) == 16777216 && Pow85(3) == 614125;
      var x := (((v / 85) / 85) / 85) * 614125 + 614124;
      assert ((x / 256) / 256) / 256 == p;
    }
  }

  /** A partial group of 4 - k bytes, with value p, padded with k zero bytes:
      reading back its leading 5 - k base-85 digits followed by k digits 84
      and shifting out k bytes gives p. */
  lemma PartialDigits(p: nat, k: nat)
    requires 1 <= k <= 3 && p < Pow256(4 - k)
    ensures Shift256(Value85(Digits85(p * Pow256(k), 5)[..5 - k] + Repeat(84, k)), k) == p
  {
    var v := p * Pow256(k);
    assert v < Pow85(5) by {
      assert Pow256(4 - k) * Pow256(k) == Pow256(4) by {
        if k == 1 {} else if k == 2 {} else {}
      }
      MulShift(1, p, Pow256(k));
      assert Pow256(4) < Pow85(5);
    }
    DigitsPrefix(v, 5, k);
    ShiftBound(v, 5, k);
    DigitsValue(Shift85(v, k), 5 - k);
    ValuePad(Digits85(v, 5)[..5 - k], k);
    RoundUpShift(p, k);
  }
}
