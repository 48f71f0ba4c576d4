/**
  Chaining modes over an arbitrary block function, shared by the block ciphers:
  electronic code book, cipher block chaining and counter mode.
 */
module BlockModes {
  import opened CryptoTypes
  import opened Octets

  /** `f` maps blocks of `n` bytes to blocks of `n` bytes. */
  ghost predicate IsBlockFunction(f: Bytes --> Bytes, n: nat) {
    forall b: Bytes :: |b| == n ==> f.requires(b) && |f(b)| == n
  }

  ghost predicate Undoes(g: Bytes --> Bytes, f: Bytes --> Bytes, n: nat) {
    && IsBlockFunction(f, n) && IsBlockFunction(g, n)
    && forall b: Bytes :: |b| == n ==> g(f(b)) == b
  }

  lemma UndoneAt(g: Bytes --> Bytes, f: Bytes --> Bytes, n: nat, b: Bytes)
    requires Undoes(g, f, n) && |b| == n
    ensures f.requires(b) && |f(b)| == n && g.requires(f(b)) && g(f(b)) == b
  {
  }

  lemma UndoesBlocks(g: Bytes --> Bytes, f: Bytes --> Bytes, n: nat)
    requires Undoes(g, f, n)
    ensures IsBlockFunction(f, n) && IsBlockFunction(g, n)
  {
  }

  function Xor(a: Bytes, b: Bytes): (r: Bytes)
    requires |a| <= |b|
    ensures |r| == |a|
  {
    seq(|a|, i requires 0 <= i < |a| => a[i] ^ b[i])
  }

  lemma XorTwice(a: Bytes, b: Bytes)
    requires |a| <= |b|
    ensures Xor(Xor(a, b), b) == a
  {
    forall i | 0 <= i < |a|
      ensures Xor(Xor(a, b), b)[i] == a[i]
    {
      XorByteTwice(a[i], b[i]);
    }
  }

  lemma XorByteTwice(x: bv8, y: bv8)
    ensures (x ^ y) ^ y == x
  {
  }

  /** The input divides into blocks of `n` bytes. */
  predicate WholeBlocks(s: Bytes, n: nat)
    requires n > 0
    decreases |s|
  {
    s == [] || (|s| >= n && WholeBlocks(s[n..], n))
  }

  lemma {:induction false} WholeBlocksLength(s: Bytes)
    ensures WholeBlocks(s, 16) <==> |s| % 16 == 0
    decreases |s|
  {
    if |s| >= 16 {
      WholeBlocksLength(s[16..]);
      assert |s| == |s[16..]| + 16;
    }
  }

  lemma {:induction false} WholeHalfBlocksLength(s: Bytes)
    ensures WholeBlocks(s, 8) <==> |s| % 8 == 0
    decreases |s|
  {
    if |s| >= 8 {
      WholeHalfBlocksLength(s[8..]);
      assert |s| == |s[8..]| + 8;
    }
  }

  ghost function Ecb(f: Bytes --> Bytes, n: nat, input: Bytes): (r: Bytes)
    requires n > 0 && IsBlockFunction(f, n) && WholeBlocks(input, n)
    ensures |r| == |input|
    decreases |input|
  {
    if input == [] then []
    else f(input[..n]) + Ecb(f, n, input[n..])
  }

  /** C_i = E(P_i xor C_{i-1}). */
  ghost function CbcEncrypt(f: Bytes --> Bytes, n: nat, feedback: Bytes, input: Bytes): (r: Bytes)
    requires n > 0 && IsBlockFunction(f, n) && WholeBlocks(input, n) && |feedback| == n
    ensures |r| == |input|
    decreases |input|
  {
    if input == [] then []
    else
      var block := f(Xor(input[..n], feedback));
      block + CbcEncrypt(f, n, block, input[n..])
  }

  /** P_i = D(C_i) xor C_{i-1}. */
  ghost function CbcDecrypt(g: Bytes --> Bytes, n: nat, feedback: Bytes, input: Bytes): (r: Bytes)
    requires n > 0 && IsBlockFunction(g, n) && WholeBlocks(input, n) && |feedback| == n
    ensures |r| == |input|
    decreases |input|
  {
    if input == [] then []
    else Xor(g(input[..n]), feedback) + CbcDecrypt(g, n, input[..n], input[n..])
  }

  // ------------------------------------------------------------------ one block at a time

  lemma EcbEmpty(f: Bytes --> Bytes, n: nat)
    requires n > 0 && IsBlockFunction(f, n)
    ensures WholeBlocks([], n) && Ecb(f, n, []) == []
  {
  }

  lemma EcbStep(f: Bytes --> Bytes, n: nat, input: Bytes)
    requires n > 0 && IsBlockFunction(f, n) && WholeBlocks(input, n) && input != []
    ensures |input| >= n && WholeBlocks(input[n..], n)
    ensures Ecb(f, n, input) == f(input[..n]) + Ecb(f, n, input[n..])
  {
  }

  lemma CbcEmpty(f: Bytes --> Bytes, n: nat, feedback: Bytes)
    requires n > 0 && IsBlockFunction(f, n) && |feedback| == n
    ensures WholeBlocks([], n) && CbcEncrypt(f, n, feedback, []) == [] && CbcDecrypt(f, n, feedback, []) == []
  {
  }

  lemma CbcEncryptStep(f: Bytes --> Bytes, n: nat, feedback: Bytes, input: Bytes)
    requires n > 0 && IsBlockFunction(f, n) && WholeBlocks(input, n) && input != [] && |feedback| == n
    ensures |input| >= n && WholeBlocks(input[n..], n)
    ensures var block := f(Xor(input[..n], feedback));
            CbcEncrypt(f, n, feedback, input) == block + CbcEncrypt(f, n, block, input[n..])
  {
  }

  lemma CbcDecryptStep(g: Bytes --> Bytes, n: nat, feedback: Bytes, input: Bytes)
    requires n > 0 && IsBlockFunction(g, n) && WholeBlocks(input, n) && input != [] && |feedback| == n
    ensures |input| >= n && WholeBlocks(input[n..], n)
    ensures CbcDecrypt(g, n, feedback, input)
         == Xor(g(input[..n]), feedback) + CbcDecrypt(g, n, input[..n], input[n..])
  {
  }

  // ---------------------------------------------------------------------- block by block

  /** Block `j` of `s`. */
  function Block(s: Bytes, n: nat, j: nat): (r: Bytes)
    requires n * j + n <= |s|
    ensures |r| == n
  {
    s[n * j..n * j + n]
  }

  lemma FirstBlock(s: Bytes, n: nat)
    requires n <= |s|
    ensures n * 0 == 0 && Block(s, n, 0) == s[..n]
  {
  }

  lemma LaterBlock(s: Bytes, n: nat, j: nat)
    requires j >= 1 && n * j + n <= |s|
    ensures n * j == n + n * (j - 1) && n <= |s| && n * (j - 1) + n <= |s[n..]|
    ensures Block(s, n, j) == Block(s[n..], n, j - 1)
  {
    assert n * j == n + n * (j - 1);
  }

  /** Each block is enciphered on its own. */
  lemma {:induction false} EcbAt(f: Bytes --> Bytes, n: nat, input: Bytes, j: nat)
    requires n > 0 && IsBlockFunction(f, n) && WholeBlocks(input, n) && n * j + n <= |input|
    ensures Block(Ecb(f, n, input), n, j) == f(Block(input, n, j))
    decreases j
  {
    hide Ecb, Block, WholeBlocks;
    EcbStep(f, n, input);
    var r := Ecb(f, n, input);
    assert r[n..] == Ecb(f, n, input[n..]) && r[..n] == f(input[..n]);
    FirstBlock(input, n);
    FirstBlock(r, n);
    if j > 0 {
      LaterBlock(input, n, j);
      LaterBlock(r, n, j);
      EcbAt(f, n, input[n..], j - 1);
    }
  }

  /** Each block is added to the enciphered one before it, the first to the initial vector, and then enciphered. */
  lemma {:induction false} CbcEncryptAt(f: Bytes --> Bytes, n: nat, iv: Bytes, input: Bytes, j: nat)
    requires n > 0 && IsBlockFunction(f, n) && WholeBlocks(input, n) && |iv| == n && n * j + n <= |input|
    ensures j >= 1 ==> n * (j - 1) + n <= |input|
    ensures var c := CbcEncrypt(f, n, iv, input);
            Block(c, n, j) == f(Xor(Block(input, n, j), if j == 0 then iv else Block(c, n, j - 1)))
    decreases j
  {
    hide CbcEncrypt, Block, WholeBlocks, Xor;
    CbcEncryptStep(f, n, iv, input);
    var c := CbcEncrypt(f, n, iv, input);
    var block := f(Xor(input[..n], iv));
    assert c[n..] == CbcEncrypt(f, n, block, input[n..]) && c[..n] == block;
    FirstBlock(input, n);
    FirstBlock(c, n);
    if j > 0 {
      LaterBlock(input, n, j);
      LaterBlock(c, n, j);
      CbcEncryptAt(f, n, block, input[n..], j - 1);
      if j > 1 {
        LaterBlock(c, n, j - 1);
      }
    }
  }

  /** Each block is deciphered and added to the one before it, the first to the initial vector. */
  lemma {:induction false} CbcDecryptAt(g: Bytes --> Bytes, n: nat, iv: Bytes, input: Bytes, j: nat)
    requires n > 0 && IsBlockFunction(g, n) && WholeBlocks(input, n) && |iv| == n && n * j + n <= |input|
    ensures j >= 1 ==> n * (j - 1) + n <= |input|
    ensures Block(CbcDecrypt(g, n, iv, input), n, j)
         == Xor(g(Block(input, n, j)), if j == 0 then iv else Block(input, n, j - 1))
    decreases j
  {
    hide CbcDecrypt, Block, WholeBlocks, Xor;
    CbcDecryptStep(g, n, iv, input);
    var p := CbcDecrypt(g, n, iv, input);
    assert p[n..] == CbcDecrypt(g, n, input[..n], input[n..]) && p[..n] == Xor(g(input[..n]), iv);
    FirstBlock(input, n);
    FirstBlock(p, n);
    if j > 0 {
      LaterBlock(input, n, j);
      LaterBlock(p, n, j);
      CbcDecryptAt(g, n, input[..n], input[n..], j - 1);
      if j > 1 {
        LaterBlock(input, n, j - 1);
      }
    }
  }

  // ------------------------------------------------------------------------ round trips

  lemma EcbSplit(g: Bytes --> Bytes, n: nat, head: Bytes, rest: Bytes)
    requires n > 0 && IsBlockFunction(g, n) && |head| == n && WholeBlocks(rest, n)
    ensures WholeBlocks(head + rest, n) && Ecb(g, n, head + rest) == g(head) + Ecb(g, n, rest)
  {
    var out := head + rest;
    assert out[..n] == head && out[n..] == rest;
  }

  lemma CbcEncryptSplit(f: Bytes --> Bytes, n: nat, feedback: Bytes, head: Bytes, rest: Bytes)
    requires n > 0 && IsBlockFunction(f, n) && |head| == n && WholeBlocks(rest, n) && |feedback| == n
    ensures WholeBlocks(head + rest, n)
    ensures var block := f(Xor(head, feedback));
            CbcEncrypt(f, n, feedback, head + rest) == block + CbcEncrypt(f, n, block, rest)
  {
    var out := head + rest;
    assert out[..n] == head && out[n..] == rest;
  }

  lemma CbcDecryptSplit(g: Bytes --> Bytes, n: nat, feedback: Bytes, head: Bytes, rest: Bytes)
    requires n > 0 && IsBlockFunction(g, n) && |head| == n && WholeBlocks(rest, n) && |feedback| == n
    ensures WholeBlocks(head + rest, n)
    ensures CbcDecrypt(g, n, feedback, head + rest) == Xor(g(head), feedback) + CbcDecrypt(g, n, head, rest)
  {
    var out := head + rest;
    assert out[..n] == head && out[n..] == rest;
  }

  lemma {:induction false} EcbRoundTrip(f: Bytes --> Bytes, g: Bytes --> Bytes, n: nat, input: Bytes)
    requires n > 0 && Undoes(g, f, n) && WholeBlocks(input, n)
    ensures WholeBlocks(Ecb(f, n, input), n) && Ecb(g, n, Ecb(f, n, input)) == input
    decreases |input|
  {
    hide Ecb, WholeBlocks, Undoes, IsBlockFunction;
    UndoesBlocks(g, f, n);
    if input == [] {
      EcbEmpty(f, n);
      EcbEmpty(g, n);
    } else {
      EcbStep(f, n, input);
      EcbRoundTrip(f, g, n, input[n..]);
      UndoneAt(g, f, n, input[..n]);
      EcbSplit(g, n, f(input[..n]), Ecb(f, n, input[n..]));
      assert input == input[..n] + input[n..];
    }
  }

  lemma {:induction false} CbcRoundTrip(f: Bytes --> Bytes, g: Bytes --> Bytes, n: nat, feedback: Bytes, input: Bytes)
    requires n > 0 && Undoes(g, f, n) && WholeBlocks(input, n) && |feedback| == n
    ensures WholeBlocks(CbcEncrypt(f, n, feedback, input), n)
    ensures CbcDecrypt(g, n, feedback, CbcEncrypt(f, n, feedback, input)) == input
    decreases |input|
  {
    hide CbcEncrypt, CbcDecrypt, WholeBlocks, Xor, Undoes, IsBlockFunction;
    UndoesBlocks(g, f, n);
    if input == [] {
      CbcEmpty(f, n, feedback);
      CbcEmpty(g, n, feedback);
    } else {
      CbcEncryptStep(f, n, feedback, input);
      UndoneAt(g, f, n, Xor(input[..n], feedback));
      var head := f(Xor(input[..n], feedback));
      CbcRoundTrip(f, g, n, head, input[n..]);
      CbcDecryptSplit(g, n, feedback, head, CbcEncrypt(f, n, head, input[n..]));
      XorTwice(input[..n], feedback);
      assert input == input[..n] + input[n..];
    }
  }

  /** Encryption undoes decryption, when its block function undoes the other. */
  lemma {:induction false} CbcReverseTrip(f: Bytes --> Bytes, g: Bytes --> Bytes, n: nat, feedback: Bytes, input: Bytes)
    requires n > 0 && Undoes(f, g, n) && WholeBlocks(input, n) && |feedback| == n
    ensures WholeBlocks(CbcDecrypt(g, n, feedback, input), n)
    ensures CbcEncrypt(f, n, feedback, CbcDecrypt(g, n, feedback, input)) == input
    decreases |input|
  {
    hide CbcEncrypt, CbcDecrypt, WholeBlocks, Xor, Undoes, IsBlockFunction;
    UndoesBlocks(f, g, n);
    if input == [] {
      CbcEmpty(f, n, feedback);
      CbcEmpty(g, n, feedback);
    } else {
      CbcDecryptStep(g, n, feedback, input);
      UndoneAt(f, g, n, input[..n]);
      var head := Xor(g(input[..n]), feedback);
      CbcReverseTrip(f, g, n, input[..n], input[n..]);
      XorTwice(g(input[..n]), feedback);
      CbcEncryptSplit(f, n, feedback, head, CbcDecrypt(g, n, input[..n], input[n..]));
      assert input == input[..n] + input[n..];
    }
  }

  // ---------------------------------------------------------------------------- counters

  /** The counter as a big-endian number. */
  function CounterValue(c: Bytes): nat {
    if c == [] then 0 else 256 * CounterValue(c[..|c| - 1]) + c[|c| - 1] as nat
  }

  /** The counter plus one, with the carry out of the block dropped. */
  function Increment(c: Bytes): (r: Bytes)
    ensures |r| == |c|
  {
    if c == [] then []
    else if c[|c| - 1] == 0xff then Increment(c[..|c| - 1]) + [0]
    else c[..|c| - 1] + [c[|c| - 1] + 1]
  }

  lemma {:induction false} IncrementAddsOne(c: Bytes)
    ensures CounterValue(c) < Power256(|c|)
    ensures CounterValue(Increment(c)) == if CounterValue(c) + 1 == Power256(|c|) then 0 else CounterValue(c) + 1
  {
    if c != [] {
      var init, last := c[..|c| - 1], c[|c| - 1];
      IncrementAddsOne(init);
      if last == 0xff {
        assert Increment(c)[..|c| - 1] == Increment(init);
      } else {
        LastPlusOne(last);
        assert Increment(c)[..|c| - 1] == init;
      }
    }
  }

  /** The last byte below 0xff goes up by one, those behind it become zero, those before it stay. */
  lemma {:induction false} IncrementCarries(c: Bytes, i: nat)
    requires i < |c| && c[i] != 0xff && forall k :: i < k < |c| ==> c[k] == 0xff
    ensures Increment(c)[..i] == c[..i] && Increment(c)[i] == c[i] + 1
    ensures forall k :: i < k < |c| ==> Increment(c)[k] == 0
    decreases |c|
  {
    var init := c[..|c| - 1];
    if i < |c| - 1 {
      IncrementCarries(init, i);
      assert Increment(c) == Increment(init) + [0];
      assert Increment(c)[..i] == Increment(init)[..i] && init[..i] == c[..i];
    } else {
      assert Increment(c)[..i] == init;
    }
  }

  lemma LastPlusOne(x: bv8)
    requires x != 0xff
    ensures (x + 1) as nat == x as nat + 1
  {
  }

  lemma IncrementNone()
    ensures Increment([]) == []
  {
  }

  lemma IncrementLast(c: Bytes)
    requires c != []
    ensures var init, last := c[..|c| - 1], c[|c| - 1];
            Increment(c) == if last == 0xff then Increment(init) + [0] else init + [last + 1]
  {
  }

  /** The input masked with the ciphers of successive counters, the last one cut short. */
  ghost function Ctr(f: Bytes --> Bytes, counter: Bytes, input: Bytes): (r: Bytes)
    requires IsBlockFunction(f, 16) && |counter| == 16
    ensures |r| == |input|
    decreases |input|
  {
    if |input| <= 16 then Xor(input, f(counter))
    else Xor(input[..16], f(counter)) + Ctr(f, Increment(counter), input[16..])
  }

  lemma {:induction false} CtrTwice(f: Bytes --> Bytes, counter: Bytes, input: Bytes)
    requires IsBlockFunction(f, 16) && |counter| == 16
    ensures Ctr(f, counter, Ctr(f, counter, input)) == input
    decreases |input|
  {
    hide Xor, Increment;
    var stream := f(counter);
    if |input| <= 16 {
      XorTwice(input, stream);
    } else {
      XorTwice(input[..16], stream);
      var head, rest := Xor(input[..16], stream), Ctr(f, Increment(counter), input[16..]);
      CtrTwice(f, Increment(counter), input[16..]);
      assert (head + rest)[..16] == head && (head + rest)[16..] == rest;
      assert input == input[..16] + input[16..];
    }
  }

  function Advance(counter: Bytes, j: nat): (r: Bytes)
    ensures |r| == |counter|
    decreases j
  {
    if j == 0 then counter else Advance(Increment(counter), j - 1)
  }

  /** Byte `16 j + k` is masked with byte `k` of the cipher of the counter advanced `j` times. */
  lemma {:induction false} CtrAt(f: Bytes --> Bytes, counter: Bytes, input: Bytes, j: nat, k: nat)
    requires IsBlockFunction(f, 16) && |counter| == 16 && k < 16 && 16 * j + k < |input|
    ensures Ctr(f, counter, input)[16 * j + k] == input[16 * j + k] ^ f(Advance(counter, j))[k]
    decreases j
  {
    hide Increment;
    if j > 0 {
      CtrAt(f, Increment(counter), input[16..], j - 1, k);
    }
  }

  lemma CtrEmpty(f: Bytes --> Bytes, counter: Bytes)
    requires IsBlockFunction(f, 16) && |counter| == 16
    ensures Ctr(f, counter, []) == []
  {
  }

  lemma CtrStep(f: Bytes --> Bytes, counter: Bytes, input: Bytes, take: nat)
    requires IsBlockFunction(f, 16) && |counter| == 16
    requires take == if |input| < 16 then |input| else 16
    ensures Ctr(f, counter, input) == Xor(input[..take], f(counter)) + Ctr(f, Increment(counter), input[take..])
  {
    hide Increment, Xor;
    if |input| <= 16 {
      assert input[..take] == input && input[take..] == [];
      CtrEmpty(f, Increment(counter));
    }
  }
}
