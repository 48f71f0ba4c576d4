/**
  Incremental hashing. The compression function and the permutation are parameters: what
  is modelled is the buffering of `add`, the padding, and what `get_hash` leaves behind.
 */
module HashStream {
  import opened Octets

  type Compression<!S> = (S, seq<byte>) -> S

  /** Compresses the whole blocks of `s`; what is left is shorter than a block. */
  function Absorb<S>(f: Compression<S>, size: nat, h: S, s: seq<byte>): (r: (S, seq<byte>))
    requires size > 0
    ensures |r.1| < size
    decreases |s|
  {
    if |s| < size then (h, s) else Absorb(f, size, f(h, s[..size]), s[size..])
  }

  /** Where the input is cut makes no difference. */
  lemma {:induction false} AbsorbAppend<S>(f: Compression<S>, size: nat, h: S, s: seq<byte>, t: seq<byte>)
    requires size > 0
    ensures var r := Absorb(f, size, h, s); Absorb(f, size, h, s + t) == Absorb(f, size, r.0, r.1 + t)
    decreases |s|
  {
    if |s| >= size {
      assert (s + t)[..size] == s[..size] && (s + t)[size..] == s[size..] + t;
      AbsorbAppend(f, size, f(h, s[..size]), s[size..], t);
    }
  }

  lemma AbsorbBlock<S>(f: Compression<S>, size: nat, h: S, block: seq<byte>, t: seq<byte>)
    requires size > 0 && |block| == size
    ensures Absorb(f, size, h, block + t) == Absorb(f, size, f(h, block), t)
  {
    assert (block + t)[..size] == block && (block + t)[size..] == t;
  }

  lemma AbsorbShort<S>(f: Compression<S>, size: nat, h: S, s: seq<byte>)
    requires |s| < size
    ensures Absorb(f, size, h, s) == (h, s)
  {
  }

  lemma {:induction false} AbsorbLeftover<S>(f: Compression<S>, size: nat, h: S, s: seq<byte>)
    requires size > 0
    ensures |Absorb(f, size, h, s).1| <= |s|
    decreases |s|
  {
    if |s| >= size {
      AbsorbLeftover(f, size, f(h, s[..size]), s[size..]);
    }
  }

  function Zeros(n: nat): (r: seq<byte>)
    ensures |r| == n
  {
    seq(n, _ => 0)
  }

  /** The low `k` bytes of `v`, most significant first. */
  function BigEndian(v: nat, k: nat): (r: seq<byte>)
    ensures |r| == k
  {
    if k == 0 then [] else BigEndian(v / 256, k - 1) + [v % 256]
  }

  function Number(s: seq<byte>): nat {
    if s == [] then 0 else 256 * Number(s[..|s| - 1]) + s[|s| - 1]
  }

  lemma {:induction false} NumberBigEndian(v: nat, k: nat)
    requires v < Power256(k)
    ensures Number(BigEndian(v, k)) == v
  {
    if k > 0 {
      NumberBigEndian(v / 256, k - 1);
      assert BigEndian(v, k)[..k - 1] == BigEndian(v / 256, k - 1);
    }
  }

  lemma DivideTwice(v: nat, p: nat)
    requires p > 0
    ensures v / 256 / p == v / (256 * p)
  {
    var q := v / (256 * p);
    var r := v % (256 * p);
    assert v == 256 * (p * q) + r;
    assert v / 256 == p * q + r / 256;
    QuotientOf(p, q, r / 256);
  }

  lemma QuotientOf(p: nat, q: nat, r: nat)
    requires r < p
    ensures (p * q + r) / p == q
  {
    var x := (p * q + r) / p;
    assert p * x <= p * q + r < p * x + p;
    assert x < q ==> p * (x + 1) <= p * q;
    assert x > q ==> p * (q + 1) <= p * x;
  }

  lemma {:induction false} PowerPositive(n: nat)
    ensures Power256(n) > 0
  {
    if n > 0 {
      PowerPositive(n - 1);
    }
  }

  /** The byte `i` places from the end. */
  lemma {:induction false} BigEndianAt(v: nat, k: nat, i: nat)
    requires i < k
    ensures Power256(i) > 0 && BigEndian(v, k)[k - 1 - i] == v / Power256(i) % 256
    decreases k
  {
    PowerPositive(i);
    if i > 0 {
      BigEndianAt(v / 256, k - 1, i - 1);
      PowerPositive(i - 1);
      DivideTwice(v, Power256(i - 1));
    }
  }

  lemma {:induction false} AbsorbedIsShort<S>(f: Compression<S>, size: nat, h: S, s: seq<byte>, t: seq<byte>)
    requires size > 0 && |s| + |t| == size
    ensures Absorb(f, size, h, s + t) == (f(h, s + t), [])
  {
    AbsorbBlock(f, size, h, s + t, []);
    assert (s + t) + [] == s + t;
  }
}
