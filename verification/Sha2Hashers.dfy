/** The hasher class behind SHA256, SHA384 and SHA512. */
module Sha2Hashers {
  import opened Octets
  import opened HashStream
  import opened Sha2

  // ------------------------------------------------------------------- the length field

  function FourBytes(v: nat): (r: seq<byte>)
    ensures |r| == 4
  {
    [v / 0x100_0000 % 256, v / 0x1_0000 % 256, v / 0x100 % 256, v % 256]
  }

  /** The eight bytes of a 64-bit value, as stored one by one. */
  function EightBytes(v: nat): (r: seq<byte>)
    ensures |r| == 8
  {
    FourBytes(v / 0x1_0000_0000) + FourBytes(v % 0x1_0000_0000)
  }

  lemma BigEndianFour(v: nat)
    ensures BigEndian(v, 4) == FourBytes(v)
  {
    var a, b, c := v / 256, v / 256 / 256, v / 256 / 256 / 256;
    assert BigEndian(v, 4) == BigEndian(a, 3) + [v % 256];
    assert BigEndian(a, 3) == BigEndian(b, 2) + [a % 256];
    assert BigEndian(b, 2) == BigEndian(c, 1) + [b % 256];
    assert BigEndian(c, 1) == BigEndian(c / 256, 0) + [c % 256];
    assert b == v / 0x1_0000 && c == v / 0x100_0000;
  }

  /** The bytes of a number are those of its high part, then those of its low part. */
  lemma {:induction false} BigEndianJoin(high: nat, low: nat, j: nat, k: nat)
    requires low < Power256(k)
    ensures BigEndian(high * Power256(k) + low, j + k) == BigEndian(high, j) + BigEndian(low, k)
    decreases k
  {
    if k > 0 {
      var p := high * Power256(k - 1);
      assert high * Power256(k) == 256 * p;
      var v := 256 * p + low;
      assert v / 256 == p + low / 256 && v % 256 == low % 256;
      BigEndianJoin(high, low / 256, j, k - 1);
      assert BigEndian(v, j + k) == BigEndian(v / 256, j + k - 1) + [v % 256];
    }
  }

  lemma EightBytesIs(v: nat)
    ensures EightBytes(v) == BigEndian(v, 8)
  {
    hide BigEndian, FourBytes;
    var high, low := v / 0x1_0000_0000, v % 0x1_0000_0000;
    BigEndianFour(high);
    BigEndianFour(low);
    assert Power256(4) == 0x1_0000_0000;
    BigEndianJoin(high, low, 4, 4);
  }

  /** The length field, from the byte count held in 64 bits. */
  method EncodeLength(wide: bool, total: nat) returns (field: seq<byte>)
    ensures field == LengthField(wide, total)
  {
    hide BigEndian, EightBytes;
    var bytes := total % TWO64;
    if wide {
      var high, low := bytes / 0x2000_0000_0000_0000, 8 * bytes % TWO64;
      field := EightBytes(high) + EightBytes(low);
      EightBytesIs(high);
      EightBytesIs(low);
      assert Power256(8) == TWO64;
      assert 8 * bytes == high * TWO64 + low;
      BigEndianJoin(high, low, 8, 8);
    } else {
      var bits := 8 * bytes % TWO64;
      field := EightBytes(bits);
      EightBytesIs(bits);
    }
  }

  // ------------------------------------------------------------------------ the hasher

  /** The hasher behind SHA256, SHA384 and SHA512; `kept` words are put back by `get_hash`. */
  class Hasher<W(!new)> {
    const compress: Compression<seq<W>>
    const wide: bool
    const kept: nat
    const iv: seq<W>
    const buffer: array<byte>
    var numBytes: nat
    var bufferSize: nat
    var hash: seq<W>

    /** What holds inside `add`, where the buffer may be full. */
    ghost predicate Sound()
      reads this
    {
      && buffer.Length == BlockSize(wide) && bufferSize <= buffer.Length
      && numBytes < TWO64 && Remainder(wide, numBytes) == 0
      && |hash| == |iv| && kept <= |iv| && KeepsWidth(compress, |iv|)
    }

    ghost predicate Valid()
      reads this
    {
      Sound() && bufferSize < buffer.Length
    }

    ghost function View(): Machine<W>
      requires Sound()
      reads this, buffer
    {
      Machine(hash, numBytes, buffer[..bufferSize])
    }

    constructor (compress: Compression<seq<W>>, wide: bool, kept: nat, iv: seq<W>)
      requires kept <= |iv| && KeepsWidth(compress, |iv|)
      ensures Valid() && fresh(buffer) && View() == Machine(iv, 0, [])
      ensures this.compress == compress && this.wide == wide && this.kept == kept && this.iv == iv
    {
      this.compress := compress;
      this.wide := wide;
      this.kept := kept;
      this.iv := iv;
      buffer := new byte[BlockSize(wide)](_ => 0);
      numBytes, bufferSize, hash := 0, 0, iv;
    }

    method Reset()
      requires Valid()
      modifies this
      ensures Valid() && View() == Machine(iv, 0, [])
    {
      numBytes, bufferSize, hash := 0, 0, iv;
    }

    /** `n` bytes of `data` have been taken since `before`. */
    ghost predicate Taken(before: Machine<W>, data: seq<byte>, n: nat)
      requires Sound() && n <= |data|
      reads this, buffer
    {
      && Absorb(compress, BlockSize(wide), before.hash, before.pending + data)
           == Absorb(compress, BlockSize(wide), hash, buffer[..bufferSize] + data[n..])
      && before.count + |before.pending| + n >= bufferSize
      && numBytes == (before.count + |before.pending| + n - bufferSize) % TWO64
    }

    lemma TakenAll(before: Machine<W>, data: seq<byte>)
      requires Valid() && Taken(before, data, |data|)
      ensures View() == Added(compress, wide, before, data)
    {
      assert buffer[..bufferSize] + data[|data|..] == buffer[..bufferSize];
      AbsorbShort(compress, BlockSize(wide), hash, buffer[..bufferSize]);
    }

    lemma CountStep()
      requires Sound()
      ensures Remainder(wide, (numBytes + BlockSize(wide)) % TWO64) == 0
    {
      RemainderOfLow(wide, numBytes + BlockSize(wide));
      RemainderSum(wide, numBytes, BlockSize(wide));
    }

    /** Compresses one block and counts it. */
    method ProcessBlock(block: seq<byte>)
      requires Sound() && |block| == BlockSize(wide)
      modifies this`hash, this`numBytes
      ensures Sound() && hash == compress(old(hash), block)
      ensures numBytes == (old(numBytes) + BlockSize(wide)) % TWO64
    {
      CountStep();
      hash := compress(hash, block);
      numBytes := (numBytes + BlockSize(wide)) % TWO64;
    }

    /** Appends bytes to the buffer until it is full or the data ends. */
    method Buffer(ghost before: Machine<W>, data: seq<byte>, start: nat) returns (n: nat)
      requires Sound() && start <= |data| && Taken(before, data, start)
      modifies this`bufferSize, buffer
      ensures Sound() && start <= n <= |data| && Taken(before, data, n)
      ensures bufferSize == old(bufferSize) + n - start && (bufferSize == buffer.Length || n == |data|)
    {
      hide Absorb, KeepsWidth, Remainder;
      n := start;
      while n < |data| && bufferSize < buffer.Length
        invariant Sound() && start <= n <= |data| && Taken(before, data, n)
        invariant bufferSize == old(bufferSize) + n - start
        decreases |data| - n
      {
        ghost var held := buffer[..bufferSize];
        buffer[bufferSize] := data[n];
        bufferSize := bufferSize + 1;
        assert buffer[..bufferSize] == held + [data[n]];
        assert held + data[n..] == buffer[..bufferSize] + data[n + 1..];
        n := n + 1;
      }
    }

    /** Compresses the full buffer. */
    method Flush(ghost before: Machine<W>, data: seq<byte>, ghost n: nat)
      requires Sound() && n <= |data| && Taken(before, data, n) && bufferSize == buffer.Length
      modifies this`hash, this`numBytes, this`bufferSize
      ensures Sound() && Taken(before, data, n) && bufferSize == 0
    {
      hide Absorb, KeepsWidth, Remainder;
      AbsorbBlock(compress, BlockSize(wide), hash, buffer[..bufferSize], data[n..]);
      ModAdd(before.count + |before.pending| + n - bufferSize, bufferSize);
      assert buffer[..bufferSize] == buffer[..];
      ProcessBlock(buffer[..]);
      bufferSize := 0;
      assert buffer[..bufferSize] + data[n..] == data[n..];
    }

    /** Compresses the whole blocks of the data in place. */
    method Blocks(ghost before: Machine<W>, data: seq<byte>, start: nat) returns (n: nat)
      requires Sound() && start <= |data| && Taken(before, data, start) && bufferSize == 0
      modifies this`hash, this`numBytes
      ensures Sound() && start <= n <= |data| && Taken(before, data, n) && |data| - n < buffer.Length
    {
      hide Absorb, KeepsWidth, Remainder;
      n := start;
      while |data| - n >= buffer.Length
        invariant Sound() && start <= n <= |data| && Taken(before, data, n)
        decreases |data| - n
      {
        var block := data[n..n + buffer.Length];
        assert buffer[..0] + data[n..] == block + data[n + buffer.Length..];
        AbsorbBlock(compress, BlockSize(wide), hash, block, data[n + buffer.Length..]);
        ModAdd(before.count + |before.pending| + n, buffer.Length);
        ProcessBlock(block);
        n := n + buffer.Length;
        assert buffer[..0] + data[n..] == data[n..];
      }
    }

    /** Adds bytes: the buffer is filled up, whole blocks go straight in, the rest waits. */
    method Add(data: seq<byte>)
      requires Valid()
      modifies this, buffer
      ensures Valid() && View() == Added(compress, wide, old(View()), data)
    {
      hide Absorb, KeepsWidth, Remainder;
      ghost var before := View();
      assert data[0..] == data;
      SmallCount();
      var n := 0;
      if bufferSize > 0 {
        n := Buffer(before, data, 0);
      }
      if bufferSize == buffer.Length {
        Flush(before, data, n);
      }
      if n == |data| {
        TakenAll(before, data);
        return;
      }
      n := Blocks(before, data, n);
      n := Buffer(before, data, n);
      TakenAll(before, data);
    }

    lemma SmallCount()
      requires Valid()
      ensures numBytes == (numBytes + bufferSize - bufferSize) % TWO64
    {
    }

    /** Where the length field starts: the end of this block or of the next. */
    method PaddedLength() returns (padded: nat)
      requires Valid()
      ensures padded == bufferSize + 1 + ZeroCount(wide, bufferSize)
      ensures padded == BlockSize(wide) - LengthSize(wide) || padded == 2 * BlockSize(wide) - LengthSize(wide)
    {
      if wide {
        padded := bufferSize + 1;
        var low := padded % 128;
        padded := padded + if low <= 112 then 112 - low else 128 + 112 - low;
      } else {
        padded := 8 * bufferSize + 1;
        var low := padded % 512;
        padded := padded + if low <= 448 then 448 - low else 512 + 448 - low;
        padded := padded / 8;
      }
    }

    /** Writes the marker and zeros behind the pending bytes. */
    method WriteMarker()
      requires Valid()
      modifies buffer
      ensures buffer[..] == old(buffer[..bufferSize]) + [128] + Zeros(buffer.Length - bufferSize - 1)
    {
      hide KeepsWidth, Remainder, Zeros;
      ghost var held := buffer[..bufferSize];
      buffer[bufferSize] := 128;
      assert buffer[..bufferSize + 1] == held + [128];
      Clear(buffer, bufferSize + 1, buffer.Length);
      assert buffer[..] == buffer[..bufferSize + 1] + buffer[bufferSize + 1..buffer.Length];
    }

    /** Writes marker, zeros and length, over one block or two. */
    method WritePadding(padded: nat, field: seq<byte>, extra: array<byte>)
      requires Valid() && extra != buffer && extra.Length == buffer.Length && |field| == LengthSize(wide)
      requires padded == buffer.Length - |field| || padded == 2 * buffer.Length - |field|
      requires padded > bufferSize
      modifies buffer, extra
      ensures var padding := old(buffer[..bufferSize]) + [128] + Zeros(padded - bufferSize - 1) + field;
              padding == if padded < buffer.Length then buffer[..] else buffer[..] + extra[..]
      ensures buffer[..bufferSize] == old(buffer[..bufferSize])
    {
      hide KeepsWidth, Remainder, Zeros;
      ghost var held := buffer[..bufferSize];
      WriteMarker();
      if padded < buffer.Length {
        MarkerCut(held, buffer.Length - bufferSize - 1, padded);
        Store(buffer, padded, field);
        FrontOf(held, [128] + Zeros(padded - bufferSize - 1) + field, buffer[..]);
      } else {
        var start := padded - buffer.Length;
        Clear(extra, 0, start);
        assert extra[..start] == extra[0..start];
        Store(extra, start, field);
        MarkerJoin(held, buffer.Length - bufferSize - 1, start, field);
        FrontOf(held, [128] + Zeros(buffer.Length - bufferSize - 1), buffer[..]);
      }
    }

    /** Pads and compresses what is pending; the buffer is scratch beyond the pending bytes. */
    method ProcessBuffer()
      requires Valid()
      modifies this`hash, buffer
      ensures Valid() && hash == Finished(compress, wide, old(View()))
      ensures buffer[..bufferSize] == old(buffer[..bufferSize])
    {
      hide Absorb, KeepsWidth, Remainder, ZeroCount, LengthField, Zeros;
      ghost var m := View();
      var padded := PaddedLength();
      var field := EncodeLength(wide, numBytes + bufferSize);
      var extra := new byte[buffer.Length];
      PaddedFrom(numBytes, bufferSize);
      WritePadding(padded, field, extra);
      ghost var all := m.pending + Padding(wide, m.count + |m.pending|);
      AppendPadding(m.pending, ZeroCount(wide, bufferSize), field);
      if padded > buffer.Length {
        AbsorbBlock(compress, BlockSize(wide), hash, buffer[..], extra[..]);
      }
      AbsorbExact(compress, BlockSize(wide), hash, buffer[..]);
      WidthStays(compress, hash, buffer[..]);
      hash := compress(hash, buffer[..]);
      if padded > buffer.Length {
        AbsorbExact(compress, BlockSize(wide), hash, extra[..]);
        WidthStays(compress, hash, extra[..]);
        hash := compress(hash, extra[..]);
      }
    }

    lemma PaddedFrom(count: nat, rest: nat)
      requires Remainder(wide, count) == 0 && rest < BlockSize(wide)
      ensures Padding(wide, count + rest) == [128] + Zeros(ZeroCount(wide, rest)) + LengthField(wide, count + rest)
    {
      hide Zeros, LengthField, ZeroCount, Remainder;
      RemainderSum(wide, count, rest);
      RemainderSmall(wide, rest);
    }

    /** Returns the first words of the digest and puts back as many of the running words. */
    method GetHash() returns (digest: seq<W>)
      requires Valid()
      modifies this`hash, buffer
      ensures Valid() && View() == Asked(compress, wide, kept, old(View()))
      ensures kept <= |Finished(compress, wide, old(View()))|
      ensures digest == Finished(compress, wide, old(View()))[..kept]
    {
      hide KeepsWidth, Remainder, Finished, Restored;
      var before := hash;
      ProcessBuffer();
      digest, hash := PutBack(hash, before, kept);
    }
  }

  /** Reads out the first words, putting back each one as it goes. */
  method PutBack<W>(finished: seq<W>, before: seq<W>, kept: nat) returns (digest: seq<W>, hash: seq<W>)
    requires kept <= |before| == |finished|
    ensures digest == finished[..kept] && hash == Restored(kept, before, finished) && |hash| == |before|
  {
    digest, hash := [], finished;
    var i := 0;
    while i < kept
      invariant 0 <= i <= kept
      invariant hash == before[..i] + finished[i..] && digest == finished[..i]
    {
      digest := digest + [hash[i]];
      hash := hash[i := before[i]];
      i := i + 1;
    }
  }

  lemma AbsorbExact<S>(f: Compression<S>, size: nat, h: S, block: seq<byte>)
    requires size > 0 && |block| == size
    ensures Absorb(f, size, h, block) == (f(h, block), [])
  {
    AbsorbBlock(f, size, h, block, []);
    assert block + [] == block;
  }

  lemma WidthStays<W(!new)>(f: Compression<seq<W>>, h: seq<W>, block: seq<byte>)
    requires KeepsWidth(f, |h|)
    ensures |f(h, block)| == |h|
  {
  }

  lemma MarkerCut(held: seq<byte>, n: nat, padded: nat)
    requires |held| < padded <= |held| + 1 + n
    ensures (held + [128] + Zeros(n))[..padded] == held + [128] + Zeros(padded - |held| - 1)
  {
  }

  lemma MarkerJoin(held: seq<byte>, m: nat, n: nat, field: seq<byte>)
    ensures (held + [128] + Zeros(m)) + (Zeros(n) + field) == held + [128] + Zeros(m + n) + field
  {
  }

  lemma FrontOf(held: seq<byte>, rest: seq<byte>, all: seq<byte>)
    requires |held| <= |all|
    ensures all == held + rest ==> all[..|held|] == held
  {
  }

  lemma AppendPadding(held: seq<byte>, zeros: nat, field: seq<byte>)
    ensures held + ([128] + Zeros(zeros) + field) == held + [128] + Zeros(zeros) + field
  {
  }

  /** Zeroes `a` from `start` to `end`. */
  method Clear(a: array<byte>, start: nat, end: nat)
    requires start <= end <= a.Length
    modifies a
    ensures a[..start] == old(a[..start]) && a[start..end] == Zeros(end - start) && a[end..] == old(a[end..])
  {
    var i := start;
    while i < end
      invariant start <= i <= end
      invariant a[..start] == old(a[..start]) && a[start..i] == Zeros(i - start) && a[i..] == old(a[i..])
    {
      a[i] := 0;
      assert a[start..i + 1] == a[start..i] + [0];
      i := i + 1;
    }
  }

  /** Writes `s` into `a` at `start`. */
  method Store(a: array<byte>, start: nat, s: seq<byte>)
    requires start + |s| <= a.Length
    modifies a
    ensures a[..] == old(a[..start]) + s + old(a[start + |s|..])
  {
    var i := 0;
    while i < |s|
      invariant 0 <= i <= |s|
      invariant a[..start] == old(a[..start]) && a[start..start + i] == s[..i]
      invariant a[start + i..] == old(a[start + i..])
    {
      a[start + i] := s[i];
      assert a[start..start + i + 1] == a[start..start + i] + [s[i]];
      i := i + 1;
    }
  }

  /**
    Any calls on a fresh hasher, then a digest. With all words put back it is the hash of
    everything added.
   */
  method Perform<W(!new)>(f: Compression<seq<W>>, wide: bool, kept: nat, iv: seq<W>, calls: seq<Call>)
    returns (digest: seq<W>)
    requires kept <= |iv| && KeepsWidth(f, |iv|)
    ensures kept <= |Digest(f, wide, kept, iv, calls)| && digest == Digest(f, wide, kept, iv, calls)[..kept]
    ensures kept == |iv| ==> digest == Hash(f, wide, iv, Message(calls))
    ensures !Asks(calls) ==> |iv| == |Hash(f, wide, iv, Message(calls))| && digest == Hash(f, wide, iv, Message(calls))[..kept]
  {
    hide Added, Asked, Finished, Hash, KeepsWidth;
    Widths(f, wide, kept, iv, calls);
    var hasher := new Hasher(f, wide, kept, iv);
    var i := 0;
    while i < |calls|
      invariant 0 <= i <= |calls|
      invariant fresh(hasher) && fresh(hasher.buffer) && hasher.Valid()
      invariant hasher.compress == f && hasher.wide == wide && hasher.kept == kept && hasher.iv == iv
      invariant hasher.View() == After(f, wide, kept, iv, calls[..i])
    {
      assert calls[..i + 1][..i] == calls[..i];
      match calls[i] {
        case Add(data) => hasher.Add(data);
        case GetHash => var _ := hasher.GetHash();
      }
      i := i + 1;
    }
    assert calls[..i] == calls;
    digest := hasher.GetHash();
    if kept == |iv| {
      DigestOfMessage(f, wide, iv, calls);
    }
    if !Asks(calls) {
      RightBeforeAsked(f, wide, kept, iv, calls);
    }
  }
}
