/** SHA-256, SHA-384 and SHA-512 (sections 5.1.1 and 5.1.2 of FIPS 180-4). */
module Sha2 {
  import opened Octets
  import opened HashStream

  const TWO64: nat := 0x1_0000_0000_0000_0000

  /** The block size: 128 bytes for the 64-bit word family, 64 for SHA-256. */
  function BlockSize(wide: bool): (b: nat)
    ensures b > 0
  {
    if wide then 128 else 64
  }

  function Remainder(wide: bool, n: nat): (r: nat)
    ensures r < BlockSize(wide)
  {
    if wide then n % 128 else n % 64
  }

  /** The message length in bits, from a byte count kept modulo 2^64. */
  function LengthField(wide: bool, n: nat): (r: seq<byte>)
    ensures |r| == if wide then 16 else 8
  {
    if wide then BigEndian(8 * (n % TWO64), 16) else BigEndian(8 * (n % TWO64) % TWO64, 8)
  }

  function LengthSize(wide: bool): nat {
    if wide then 16 else 8
  }

  /** The zero bytes between the marker and the length. */
  function ZeroCount(wide: bool, rest: nat): nat
    requires rest < BlockSize(wide)
  {
    var free := BlockSize(wide) - LengthSize(wide) - 1 - rest;
    if free >= 0 then free else free + BlockSize(wide)
  }

  function Padding(wide: bool, n: nat): seq<byte> {
    [128] + Zeros(ZeroCount(wide, Remainder(wide, n))) + LengthField(wide, n)
  }

  /** The padding is the shortest that fills the last block. */
  lemma PaddingFillsBlock(wide: bool, n: nat)
    ensures Remainder(wide, n + |Padding(wide, n)|) == 0
    ensures LengthSize(wide) < |Padding(wide, n)| <= LengthSize(wide) + BlockSize(wide)
  {
    hide LengthField;
  }

  /** Below 2^61 bytes the length field is the standard's. */
  lemma LengthFieldIsBitCount(wide: bool, n: nat)
    requires n < 0x2000_0000_0000_0000
    ensures Number(LengthField(wide, n)) == 8 * n
  {
    hide Number, BigEndian;
    assert Power256(8) == TWO64;
    assert Power256(16) == TWO64 * TWO64;
    NumberBigEndian(8 * n, LengthSize(wide));
  }

  /**
    The padding byte by byte, for messages below 2^61 bytes: 0x80, zeros, and the number
    of bits with its last byte last; with the message it makes whole blocks.
   */
  lemma PaddingBytes(wide: bool, n: nat)
    requires n < 0x2000_0000_0000_0000
    ensures var p, l := Padding(wide, n), if wide then 16 else 8;
            && l < |p| <= l + (if wide then 128 else 64) && (n + |p|) % (if wide then 128 else 64) == 0
            && p[0] == 0x80 && (forall i :: 1 <= i < |p| - l ==> p[i] == 0)
            && forall i :: 0 <= i < l ==> Power256(i) > 0 && p[|p| - 1 - i] == 8 * n / Power256(i) % 256
  {
    hide LengthField, Power256;
    PaddingFillsBlock(wide, n);
    var p, field := Padding(wide, n), LengthField(wide, n);
    forall i | 0 <= i < |field|
      ensures Power256(i) > 0 && p[|p| - 1 - i] == 8 * n / Power256(i) % 256
    {
      FieldIs(wide, n);
      BigEndianAt(8 * n, |field|, i);
      assert p[|p| - 1 - i] == field[|field| - 1 - i];
    }
  }

  lemma FieldIs(wide: bool, n: nat)
    requires n < 0x2000_0000_0000_0000
    ensures LengthField(wide, n) == BigEndian(8 * n, if wide then 16 else 8)
  {
    hide BigEndian;
  }

  /** The padded message, compressed block by block. */
  function Hash<W>(f: Compression<seq<W>>, wide: bool, iv: seq<W>, message: seq<byte>): seq<W> {
    Absorb(f, BlockSize(wide), iv, message + Padding(wide, |message|)).0
  }

  // -------------------------------------------------------------------- runs of a hasher

  /** The running words, the byte count of the compressed blocks and the pending bytes. */
  datatype Machine<W> = Machine(hash: seq<W>, count: nat, pending: seq<byte>)

  function Added<W>(f: Compression<seq<W>>, wide: bool, m: Machine<W>, data: seq<byte>): Machine<W> {
    var r := Absorb(f, BlockSize(wide), m.hash, m.pending + data);
    Machine(r.0, (m.count + |m.pending| + |data| - |r.1|) % TWO64, r.1)
  }

  function Finished<W>(f: Compression<seq<W>>, wide: bool, m: Machine<W>): seq<W> {
    Absorb(f, BlockSize(wide), m.hash, m.pending + Padding(wide, m.count + |m.pending|)).0
  }

  /** What `get_hash` leaves: the first `kept` words put back, the others as finished. */
  function Restored<W>(kept: nat, before: seq<W>, finished: seq<W>): seq<W>
    requires kept <= |before|
  {
    before[..kept] + if kept <= |finished| then finished[kept..] else []
  }

  function Asked<W>(f: Compression<seq<W>>, wide: bool, kept: nat, m: Machine<W>): Machine<W> {
    m.(hash := if kept <= |m.hash| then Restored(kept, m.hash, Finished(f, wide, m)) else m.hash)
  }

  datatype Call = Add(data: seq<byte>) | GetHash

  function After<W>(f: Compression<seq<W>>, wide: bool, kept: nat, iv: seq<W>, calls: seq<Call>): Machine<W> {
    if calls == [] then Machine(iv, 0, [])
    else
      var m := After(f, wide, kept, iv, calls[..|calls| - 1]);
      match calls[|calls| - 1]
      case Add(data) => Added(f, wide, m, data)
      case GetHash => Asked(f, wide, kept, m)
  }

  /** Everything added so far. */
  function Message(calls: seq<Call>): seq<byte> {
    if calls == [] then []
    else Message(calls[..|calls| - 1]) + if calls[|calls| - 1].Add? then calls[|calls| - 1].data else []
  }

  /** The compression function keeps the number of words. */
  ghost predicate KeepsWidth<W(!new)>(f: Compression<seq<W>>, width: nat) {
    forall h: seq<W>, b :: |h| == width ==> |f(h, b)| == width
  }

  lemma {:induction false} AbsorbWidth<W(!new)>(f: Compression<seq<W>>, size: nat, h: seq<W>, s: seq<byte>)
    requires size > 0 && KeepsWidth(f, |h|)
    ensures |Absorb(f, size, h, s).0| == |h|
    decreases |s|
  {
    if |s| >= size {
      AbsorbWidth(f, size, f(h, s[..size]), s[size..]);
    }
  }

  /** The machine holds the compressed blocks of `message` and its tail. */
  ghost predicate Holds<W>(f: Compression<seq<W>>, wide: bool, iv: seq<W>, message: seq<byte>, m: Machine<W>) {
    && (m.hash, m.pending) == Absorb(f, BlockSize(wide), iv, message)
    && m.count == (|message| - |m.pending|) % TWO64 && |m.pending| <= |message|
  }

  lemma ModAdd(a: int, b: int)
    ensures (a % TWO64 + b) % TWO64 == (a + b) % TWO64
  {
  }

  lemma AddedHolds<W>(f: Compression<seq<W>>, wide: bool, iv: seq<W>, message: seq<byte>, m: Machine<W>, data: seq<byte>)
    requires Holds(f, wide, iv, message, m)
    ensures Holds(f, wide, iv, message + data, Added(f, wide, m, data))
  {
    hide Absorb;
    var size := BlockSize(wide);
    AbsorbAppend(f, size, iv, message, data);
    var r := Absorb(f, size, m.hash, m.pending + data);
    AbsorbLeftover(f, size, m.hash, m.pending + data);
    ModAdd(|message| - |m.pending|, |m.pending| + |data| - |r.1|);
  }

  lemma SamePadding(wide: bool, count: nat, total: nat, rest: nat)
    requires rest <= total && count == (total - rest) % TWO64
    ensures Padding(wide, count + rest) == Padding(wide, total)
  {
    ModAdd(total - rest, rest);
    assert (count + rest) % TWO64 == total % TWO64;
    SameRemainder(wide, count + rest, total);
  }

  lemma RemainderOfLow(wide: bool, a: nat)
    ensures Remainder(wide, a) == Remainder(wide, a % TWO64)
  {
    var q, m := a / TWO64, a % TWO64;
    assert a == q * TWO64 + m;
    if wide {
      Multiple128(q * 0x200_0000_0000_0000, m);
    } else {
      Multiple64(q * 0x400_0000_0000_0000, m);
    }
  }

  lemma SameRemainder(wide: bool, a: nat, b: nat)
    requires a % TWO64 == b % TWO64
    ensures Remainder(wide, a) == Remainder(wide, b)
  {
    hide Remainder;
    RemainderOfLow(wide, a);
    RemainderOfLow(wide, b);
  }

  lemma Multiple128(k: nat, b: nat)
    ensures (128 * k + b) % 128 == b % 128
  {
    var q, m := b / 128, b % 128;
    assert 128 * k + b == 128 * (k + q) + m;
  }

  lemma Multiple64(k: nat, b: nat)
    ensures (64 * k + b) % 64 == b % 64
  {
    var q, m := b / 64, b % 64;
    assert 64 * k + b == 64 * (k + q) + m;
  }

  lemma RemainderSum(wide: bool, a: nat, b: nat)
    requires Remainder(wide, a) == 0
    ensures Remainder(wide, a + b) == Remainder(wide, b)
  {
    if wide {
      Multiple128(a / 128, b);
    } else {
      Multiple64(a / 64, b);
    }
  }

  lemma RemainderSmall(wide: bool, a: nat)
    requires a < BlockSize(wide)
    ensures Remainder(wide, a) == a
  {
  }

  lemma FinishedIsHash<W>(f: Compression<seq<W>>, wide: bool, iv: seq<W>, message: seq<byte>, m: Machine<W>)
    requires Holds(f, wide, iv, message, m)
    ensures Finished(f, wide, m) == Hash(f, wide, iv, message)
  {
    hide Absorb, Padding;
    SamePadding(wide, m.count, |message|, |m.pending|);
    AbsorbAppend(f, BlockSize(wide), iv, message, Padding(wide, |message|));
  }

  /**
    With every word put back, a hasher holds its message after any calls, however the
    message was split and wherever digests were asked for.
   */
  lemma {:induction false} RunHolds<W(!new)>(f: Compression<seq<W>>, wide: bool, iv: seq<W>, calls: seq<Call>)
    requires KeepsWidth(f, |iv|)
    ensures Holds(f, wide, iv, Message(calls), After(f, wide, |iv|, iv, calls))
    decreases |calls|
  {
    hide Absorb, Finished, Added, KeepsWidth;
    if calls == [] {
      AbsorbShort(f, BlockSize(wide), iv, []);
    } else {
      var before := calls[..|calls| - 1];
      RunHolds(f, wide, iv, before);
      var m := After(f, wide, |iv|, iv, before);
      match calls[|calls| - 1] {
        case Add(data) =>
          AddedHolds(f, wide, iv, Message(before), m, data);
        case GetHash =>
          AbsorbWidth(f, BlockSize(wide), iv, Message(before));
          FinishedWidth(f, wide, m);
          assert Restored(|iv|, m.hash, Finished(f, wide, m)) == m.hash;
          assert Message(calls) == Message(before);
      }
    }
  }

  lemma FinishedWidth<W(!new)>(f: Compression<seq<W>>, wide: bool, m: Machine<W>)
    requires KeepsWidth(f, |m.hash|)
    ensures |Finished(f, wide, m)| == |m.hash|
  {
    AbsorbWidth(f, BlockSize(wide), m.hash, m.pending + Padding(wide, m.count + |m.pending|));
  }

  /** The digest asked for after `calls`. */
  function Digest<W>(f: Compression<seq<W>>, wide: bool, kept: nat, iv: seq<W>, calls: seq<Call>): seq<W> {
    Finished(f, wide, After(f, wide, kept, iv, calls))
  }

  /** SHA-256 and SHA-512: every digest is that of the message so far. */
  lemma DigestOfMessage<W(!new)>(f: Compression<seq<W>>, wide: bool, iv: seq<W>, calls: seq<Call>)
    requires KeepsWidth(f, |iv|)
    ensures Digest(f, wide, |iv|, iv, calls) == Hash(f, wide, iv, Message(calls))
  {
    RunHolds(f, wide, iv, calls);
    FinishedIsHash(f, wide, iv, Message(calls), After(f, wide, |iv|, iv, calls));
  }

  // ------------------------------------------------- SHA-384: six of eight words put back

  ghost predicate Asks(calls: seq<Call>) {
    exists i :: 0 <= i < |calls| && calls[i].GetHash?
  }

  /** Before the first `get_hash` nothing depends on how many words it puts back. */
  lemma {:induction false} NotYetAsked<W>(f: Compression<seq<W>>, wide: bool, kept: nat, other: nat, iv: seq<W>, calls: seq<Call>)
    requires !Asks(calls)
    ensures After(f, wide, kept, iv, calls) == After(f, wide, other, iv, calls)
    decreases |calls|
  {
    if calls != [] {
      var before := calls[..|calls| - 1];
      forall i | 0 <= i < |before|
        ensures !before[i].GetHash?
      {
        assert calls[i] == before[i];
      }
      NotYetAsked(f, wide, kept, other, iv, before);
      assert calls[|calls| - 1].Add?;
    }
  }

  /** `get_hash` leaves the hasher alone exactly when finishing leaves the other words alone. */
  lemma LeavesAloneIff<W>(f: Compression<seq<W>>, wide: bool, kept: nat, m: Machine<W>)
    requires kept <= |m.hash| == |Finished(f, wide, m)|
    ensures Asked(f, wide, kept, m) == m <==> Finished(f, wide, m)[kept..] == m.hash[kept..]
  {
    hide Finished;
    assert m.hash == m.hash[..kept] + m.hash[kept..];
    var r := Restored(kept, m.hash, Finished(f, wide, m));
    assert r[kept..] == Finished(f, wide, m)[kept..];
  }

  /** A word of 64 bits. */
  type word64 = x: int | 0 <= x < TWO64

  function Wrap(x: int): word64 {
    x % TWO64
  }

  lemma WrapAdd(x: int, n: int)
    ensures Wrap(Wrap(x) as int + n) == Wrap(x + n)
  {
    ModAdd(x, n);
  }

  lemma WrapSmall(x: word64)
    ensures Wrap(x) == x
  {
  }

  /** A compression that counts blocks in word 6, modulo 2^64, and shows the count in the others. */
  function Tally(h: seq<word64>, block: seq<byte>): (r: seq<word64>)
    ensures |h| == 8 ==> |r| == 8
  {
    if |h| == 8 then [h[6], h[6], h[6], h[6], h[6], h[6], Wrap(h[6] as int + 1), h[7]] else h
  }

  lemma TallyKeepsWidth()
    ensures KeepsWidth(Tally, 8)
  {
  }

  function Blocks(size: nat, s: seq<byte>): (n: nat)
    requires size > 0
    ensures |s| >= size <==> n >= 1
    decreases |s|
  {
    if |s| < size then 0 else 1 + Blocks(size, s[size..])
  }

  lemma {:induction false} TallyCounts(size: nat, h: seq<word64>, s: seq<byte>)
    requires size > 0 && |h| == 8
    ensures var r := Absorb(Tally, size, h, s).0;
            && |r| == 8 && r[6] == Wrap(h[6] as int + Blocks(size, s))
            && (|s| >= size ==> r[0] == Wrap(h[6] as int + Blocks(size, s) - 1))
    decreases |s|
  {
    if |s| >= size {
      var rest := s[size..];
      TallyCounts(size, Tally(h, s[..size]), rest);
      WrapAdd(h[6] as int + 1, Blocks(size, rest));
      WrapAdd(h[6] as int + 1, Blocks(size, rest) - 1);
      WrapSmall(h[6]);
    }
  }

  /** The bytes left over do not depend on the words. */
  lemma {:induction false} SameLeftover<S>(f: Compression<S>, size: nat, g: S, h: S, s: seq<byte>)
    requires size > 0
    ensures Absorb(f, size, g, s).1 == Absorb(f, size, h, s).1
    decreases |s|
  {
    if |s| >= size {
      SameLeftover(f, size, f(g, s[..size]), f(h, s[..size]), s[size..]);
    }
  }

  /** `a` is `b` with the tally `drift` too high. */
  ghost predicate Drifted(wide: bool, a: Machine<word64>, b: Machine<word64>, drift: nat) {
    && |a.hash| == 8 && |b.hash| == 8 && a.pending == b.pending && a.count == b.count
    && Remainder(wide, a.count) == 0 && |a.pending| < BlockSize(wide)
    && a.hash[6] == Wrap(b.hash[6] as int + drift)
  }

  lemma DriftAdded(wide: bool, a: Machine<word64>, b: Machine<word64>, drift: nat, data: seq<byte>)
    requires Drifted(wide, a, b, drift)
    ensures Drifted(wide, Added(Tally, wide, a, data), Added(Tally, wide, b, data), drift)
  {
    hide Absorb, Tally, Wrap, Remainder;
    var size, s := BlockSize(wide), a.pending + data;
    TallyCounts(size, a.hash, s);
    TallyCounts(size, b.hash, s);
    SameLeftover(Tally, size, a.hash, b.hash, s);
    CountStaysWhole(Tally, wide, a, data);
    WrapAdd(b.hash[6] as int + drift, Blocks(size, s));
    WrapAdd(b.hash[6] as int + Blocks(size, s), drift);
  }

  lemma DriftAsked(wide: bool, a: Machine<word64>, b: Machine<word64>, drift: nat) returns (n: nat)
    requires Drifted(wide, a, b, drift)
    ensures 1 <= n <= 2 && Drifted(wide, Asked(Tally, wide, 6, a), Asked(Tally, wide, 8, b), drift + n)
  {
    hide Finished, Tally, Wrap, Remainder, Padding;
    n := TallyFinished(wide, a);
    var _ := TallyFinished(wide, b);
    WrapAdd(b.hash[6] as int + drift, n);
  }

  /** With six words put back, each `get_hash` leaves the tally one or two too high. */
  lemma {:induction false} TallyDrifts(wide: bool, iv: seq<word64>, calls: seq<Call>) returns (drift: nat)
    requires |iv| == 8
    ensures Drifted(wide, After(Tally, wide, 6, iv, calls), After(Tally, wide, 8, iv, calls), drift)
    ensures drift <= 2 * |calls| && (Asks(calls) ==> drift > 0)
    decreases |calls|
  {
    hide Drifted, After, Asks, Tally;
    if calls == [] {
      DriftStart(wide, iv);
      drift := 0;
    } else {
      var before, call := calls[..|calls| - 1], calls[|calls| - 1];
      drift := TallyDrifts(wide, iv, before);
      AsksLast(calls);
      AfterLast(Tally, wide, 6, iv, calls);
      AfterLast(Tally, wide, 8, iv, calls);
      var a, b := After(Tally, wide, 6, iv, before), After(Tally, wide, 8, iv, before);
      match call {
        case Add(data) =>
          DriftAdded(wide, a, b, drift, data);
        case GetHash =>
          var n := DriftAsked(wide, a, b, drift);
          drift := drift + n;
      }
    }
  }

  lemma DriftStart(wide: bool, iv: seq<word64>)
    requires |iv| == 8
    ensures Drifted(wide, After(Tally, wide, 6, iv, []), After(Tally, wide, 8, iv, []), 0) && !Asks([])
  {
    WrapSmall(iv[6]);
  }

  lemma AfterLast<W>(f: Compression<seq<W>>, wide: bool, kept: nat, iv: seq<W>, calls: seq<Call>)
    requires calls != []
    ensures var m := After(f, wide, kept, iv, calls[..|calls| - 1]);
            After(f, wide, kept, iv, calls) ==
            match calls[|calls| - 1] { case Add(data) => Added(f, wide, m, data) case GetHash => Asked(f, wide, kept, m) }
  {
    hide Added, Asked;
  }

  lemma AsksLast(calls: seq<Call>)
    requires calls != []
    ensures Asks(calls) <==> Asks(calls[..|calls| - 1]) || calls[|calls| - 1].GetHash?
  {
    var before := calls[..|calls| - 1];
    if i :| 0 <= i < |before| && before[i].GetHash? {
      assert calls[i].GetHash?;
    }
    if i :| 0 <= i < |calls| && calls[i].GetHash? {
      assert i < |before| ==> before[i].GetHash?;
    }
  }

  lemma PaddedIsWhole(wide: bool, count: nat, rest: nat)
    requires Remainder(wide, count) == 0 && rest < BlockSize(wide)
    ensures var total := rest + |Padding(wide, count + rest)|;
            total == BlockSize(wide) || total == 2 * BlockSize(wide)
  {
    hide LengthField, Remainder;
    RemainderSum(wide, count, rest);
    RemainderSmall(wide, rest);
  }

  lemma {:induction false} AbsorbsWholeBlocks<S>(f: Compression<S>, wide: bool, h: S, s: seq<byte>)
    ensures var rest := |Absorb(f, BlockSize(wide), h, s).1|;
            rest <= |s| && Remainder(wide, |s| - rest) == 0
    decreases |s|
  {
    var size := BlockSize(wide);
    if |s| >= size {
      AbsorbsWholeBlocks(f, wide, f(h, s[..size]), s[size..]);
    }
  }

  lemma CountStaysWhole<W>(f: Compression<seq<W>>, wide: bool, m: Machine<W>, data: seq<byte>)
    requires Remainder(wide, m.count) == 0
    ensures Remainder(wide, Added(f, wide, m, data).count) == 0
  {
    hide Absorb, Remainder;
    AbsorbsWholeBlocks(f, wide, m.hash, m.pending + data);
    var r := Absorb(f, BlockSize(wide), m.hash, m.pending + data);
    var taken := |m.pending| + |data| - |r.1|;
    RemainderSum(wide, m.count, taken);
    RemainderOfLow(wide, m.count + taken);
  }

  /** Finishing compresses one block or two. */
  lemma TallyFinished(wide: bool, m: Machine<word64>) returns (n: nat)
    requires |m.hash| == 8 && Remainder(wide, m.count) == 0 && |m.pending| < BlockSize(wide)
    ensures n == Blocks(BlockSize(wide), m.pending + Padding(wide, m.count + |m.pending|)) && 1 <= n <= 2
    ensures var r := Finished(Tally, wide, m);
            |r| == 8 && r[6] == Wrap(m.hash[6] as int + n) && r[0] == Wrap(m.hash[6] as int + n - 1)
  {
    hide Absorb, Blocks, Padding, Remainder, Wrap;
    var s := m.pending + Padding(wide, m.count + |m.pending|);
    PaddedIsWhole(wide, m.count, |m.pending|);
    TallyCounts(BlockSize(wide), m.hash, s);
    n := Blocks(BlockSize(wide), s);
    AtMostTwo(BlockSize(wide), s);
  }

  lemma AtMostTwo(size: nat, s: seq<byte>)
    requires size > 0 && (|s| == size || |s| == 2 * size)
    ensures 1 <= Blocks(size, s) <= 2
  {
    if |s| == 2 * size {
      assert Blocks(size, s) == 1 + Blocks(size, s[size..]);
      assert Blocks(size, s[size..]) == 1 + Blocks(size, s[size..][size..]);
    }
  }

  /** The digest shown: SHA-384 cuts it to the words it puts back. */
  ghost predicate RightDigest<W>(f: Compression<seq<W>>, wide: bool, kept: nat, iv: seq<W>, calls: seq<Call>)
    requires kept <= |Digest(f, wide, kept, iv, calls)| && kept <= |Hash(f, wide, iv, Message(calls))|
  {
    Digest(f, wide, kept, iv, calls)[..kept] == Hash(f, wide, iv, Message(calls))[..kept]
  }

  lemma Widths<W(!new)>(f: Compression<seq<W>>, wide: bool, kept: nat, iv: seq<W>, calls: seq<Call>)
    requires KeepsWidth(f, |iv|) && kept <= |iv|
    ensures |After(f, wide, kept, iv, calls).hash| == |iv|
    ensures |Digest(f, wide, kept, iv, calls)| == |iv| && |Hash(f, wide, iv, Message(calls))| == |iv|
    decreases |calls|
  {
    hide Absorb, KeepsWidth, Padding;
    AbsorbWidth(f, BlockSize(wide), iv, Message(calls) + Padding(wide, |Message(calls)|));
    if calls != [] {
      var before := calls[..|calls| - 1];
      Widths(f, wide, kept, iv, before);
      var m := After(f, wide, kept, iv, before);
      FinishedWidth(f, wide, m);
      if calls[|calls| - 1].Add? {
        AbsorbWidth(f, BlockSize(wide), m.hash, m.pending + calls[|calls| - 1].data);
      }
    }
    FinishedWidth(f, wide, After(f, wide, kept, iv, calls));
  }

  /** A digest that is right whatever the compression function of eight 64-bit words computes. */
  ghost predicate AlwaysRight(wide: bool, kept: nat, calls: seq<Call>) {
    forall f: Compression<seq<word64>>, iv: seq<word64> :: KeepsWidth(f, 8) && |iv| == 8 ==>
      && kept <= |Digest(f, wide, kept, iv, calls)| && kept <= |Hash(f, wide, iv, Message(calls))|
      && RightDigest(f, wide, kept, iv, calls)
  }

  lemma RightBeforeAsked<W(!new)>(f: Compression<seq<W>>, wide: bool, kept: nat, iv: seq<W>, calls: seq<Call>)
    requires KeepsWidth(f, |iv|) && !Asks(calls)
    ensures Digest(f, wide, kept, iv, calls) == Hash(f, wide, iv, Message(calls))
  {
    NotYetAsked(f, wide, kept, |iv|, iv, calls);
    DigestOfMessage(f, wide, iv, calls);
  }

  /** After a `get_hash`, in any run that a 64-bit counter can number twice over, the tally is off. */
  lemma WrongAfterAsked(wide: bool, iv: seq<word64>, calls: seq<Call>)
    requires |iv| == 8 && Asks(calls) && 2 * |calls| < TWO64
    ensures |Digest(Tally, wide, 6, iv, calls)| == 8 && |Hash(Tally, wide, iv, Message(calls))| == 8
    ensures Digest(Tally, wide, 6, iv, calls)[0] != Hash(Tally, wide, iv, Message(calls))[0]
  {
    hide Asks, Finished, Hash, KeepsWidth, Tally, Wrap, Remainder, Padding;
    TallyKeepsWidth();
    var drift := TallyDrifts(wide, iv, calls);
    var a, b := After(Tally, wide, 6, iv, calls), After(Tally, wide, 8, iv, calls);
    DigestOfMessage(Tally, wide, iv, calls);
    var n := TallyFinished(wide, a);
    var m := TallyFinished(wide, b);
    WrapAdd(b.hash[6] as int + drift, n - 1);
    WrapDiffers(b.hash[6] as int + n - 1, drift);
  }

  lemma WrapDiffers(x: nat, e: nat)
    requires 0 < e < TWO64
    ensures Wrap(x + e) != Wrap(x)
  {
    var q, m := x / TWO64, x % TWO64;
    assert x == TWO64 * q + m;
    if m + e < TWO64 {
      Quotient(q, m + e);
      assert x + e == TWO64 * q + (m + e);
    } else {
      Quotient(q + 1, m + e - TWO64);
      assert x + e == TWO64 * (q + 1) + (m + e - TWO64);
    }
  }

  lemma Quotient(q: nat, m: nat)
    requires m < TWO64
    ensures (TWO64 * q + m) % TWO64 == m
  {
  }

  /**
    SHA-384: a digest is guaranteed exactly when `get_hash` was not called before, in every
    run of fewer than 2^63 calls.
   */
  lemma SixWordsIff(wide: bool, calls: seq<Call>)
    ensures !Asks(calls) ==> AlwaysRight(wide, 6, calls)
    ensures 2 * |calls| < TWO64 ==> (AlwaysRight(wide, 6, calls) <==> !Asks(calls))
  {
    hide Asks, Digest, Hash, KeepsWidth;
    if !Asks(calls) {
      forall f: Compression<seq<word64>>, iv: seq<word64> | KeepsWidth(f, 8) && |iv| == 8
        ensures && 6 <= |Digest(f, wide, 6, iv, calls)| && 6 <= |Hash(f, wide, iv, Message(calls))|
                && RightDigest(f, wide, 6, iv, calls)
      {
        Widths(f, wide, 6, iv, calls);
        RightBeforeAsked(f, wide, 6, iv, calls);
      }
    } else if 2 * |calls| < TWO64 {
      var iv: seq<word64> := [0, 0, 0, 0, 0, 0, 0, 0];
      TallyKeepsWidth();
      WrongAfterAsked(wide, iv, calls);
    }
  }
}
