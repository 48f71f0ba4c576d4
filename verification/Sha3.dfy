/** SHA-3 (section 6.1 of FIPS 202) over an abstract permutation. */
module Sha3 {
  import opened Octets
  import opened HashStream

  /** The domain bits 01, then a one, zeros and a final one, filling the last block. */
  function Padding3(rate: nat, rest: nat): (r: seq<byte>)
    requires rest < rate
    ensures |r| == rate - rest
  {
    if rate - rest == 1 then [0x86] else [0x06] + Zeros(rate - rest - 2) + [0x80]
  }

  /** Bit `i` of a byte string, the least significant of each byte first. */
  predicate BitAt(s: seq<byte>, i: nat)
    requires i < 8 * |s|
  {
    Shifted(s[i / 8], i % 8) % 2 == 1
  }

  function Shifted(v: nat, k: nat): nat {
    if k == 0 then v else Shifted(v / 2, k - 1)
  }

  /** Padding as the standard has it, in bits: 0, 1, then a one, zeros, and a one at the very end. */
  lemma PaddingBits(rate: nat, rest: nat, i: nat)
    requires rest < rate && i < 8 * (rate - rest)
    ensures BitAt(Padding3(rate, rest), i) <==> i == 1 || i == 2 || i == 8 * (rate - rest) - 1
  {
    var p := Padding3(rate, rest);
    ByteBits(i % 8);
    assert i == 8 * (i / 8) + i % 8;
    if i / 8 == 0 {
    } else if i / 8 == |p| - 1 {
    } else {
      assert p[i / 8] == 0;
    }
  }

  lemma ByteBits(k: nat)
    requires k < 8
    ensures Shifted(0, k) % 2 == 0
    ensures Shifted(0x06, k) % 2 == 1 <==> k == 1 || k == 2
    ensures Shifted(0x80, k) % 2 == 1 <==> k == 7
    ensures Shifted(0x86, k) % 2 == 1 <==> k == 1 || k == 2 || k == 7
  {
    if k == 0 {} else if k == 1 {} else if k == 2 {} else if k == 3 {}
    else if k == 4 {} else if k == 5 {} else if k == 6 {} else { assert k == 7; }
  }

  function Leftover(rate: nat, s: seq<byte>): (n: nat)
    requires rate > 0
    ensures n < rate
    decreases |s|
  {
    if |s| < rate then |s| else Leftover(rate, s[rate..])
  }

  /** The state after absorbing the padded message. */
  function Sponge<S>(f: Compression<S>, rate: nat, start: S, message: seq<byte>): S
    requires rate > 0
  {
    Absorb(f, rate, start, message + Padding3(rate, Leftover(rate, message))).0
  }

  lemma {:induction false} LeftoverIs<S>(f: Compression<S>, rate: nat, h: S, s: seq<byte>)
    requires rate > 0
    ensures |Absorb(f, rate, h, s).1| == Leftover(rate, s)
    decreases |s|
  {
    if |s| >= rate {
      LeftoverIs(f, rate, f(h, s[..rate]), s[rate..]);
    }
  }

  class SpongeHasher<S, D> {
    const absorb: Compression<S>
    const squeeze: S -> D
    const start: S
    const rate: nat
    const buffer: array<byte>
    var bufferSize: nat
    var state: S

    ghost predicate Valid()
      reads this
    {
      0 < rate == buffer.Length && bufferSize < rate
    }

    /** The absorbed state and the bytes waiting. */
    ghost function View(): (S, seq<byte>)
      requires Valid()
      reads this, buffer
    {
      (state, buffer[..bufferSize])
    }

    constructor (absorb: Compression<S>, squeeze: S -> D, start: S, rate: nat)
      requires rate > 0
      ensures Valid() && fresh(buffer) && View() == (start, [])
      ensures this.absorb == absorb && this.squeeze == squeeze && this.start == start && this.rate == rate
    {
      this.absorb := absorb;
      this.squeeze := squeeze;
      this.start := start;
      this.rate := rate;
      buffer := new byte[rate](_ => 0);
      bufferSize, state := 0, start;
    }

    method Add(data: seq<byte>)
      requires Valid()
      modifies this, buffer
      ensures Valid() && View() == Absorb(absorb, rate, old(state), old(buffer[..bufferSize]) + data)
    {
      hide Absorb;
      ghost var goal := Absorb(absorb, rate, state, buffer[..bufferSize] + data);
      if |data| == 0 {
        assert buffer[..bufferSize] + data == buffer[..bufferSize];
        AbsorbShort(absorb, rate, state, buffer[..bufferSize]);
        return;
      }
      var cursor := 0;
      if bufferSize > 0 {
        cursor := TopUp(data);
      }
      assert bufferSize == 0 ==> buffer[..bufferSize] + data[cursor..] == data[cursor..];
      while |data| - cursor >= rate
        invariant Valid() && 0 <= cursor <= |data| && (bufferSize == 0 || cursor == |data|)
        invariant Absorb(absorb, rate, state, buffer[..bufferSize] + data[cursor..]) == goal
        invariant bufferSize == 0 ==> buffer[..bufferSize] + data[cursor..] == data[cursor..]
      {
        var block := data[cursor..cursor + rate];
        assert data[cursor..] == block + data[cursor + rate..];
        AbsorbBlock(absorb, rate, state, block, data[cursor + rate..]);
        state := absorb(state, block);
        cursor := cursor + rate;
        assert buffer[..bufferSize] + data[cursor..] == data[cursor..];
      }
      if |data| - cursor > 0 {
        Fill(data[cursor..]);
        assert buffer[..bufferSize] == data[cursor..];
      } else {
        assert buffer[..bufferSize] + data[cursor..] == buffer[..bufferSize];
      }
      AbsorbShort(absorb, rate, state, buffer[..bufferSize]);
    }

    /** Fills a started buffer and absorbs it once full. */
    method TopUp(data: seq<byte>) returns (taken: nat)
      requires Valid() && bufferSize > 0
      modifies this`bufferSize, this`state, buffer
      ensures Valid() && taken <= |data| && (bufferSize == 0 || taken == |data|)
      ensures Absorb(absorb, rate, state, buffer[..bufferSize] + data[taken..])
           == Absorb(absorb, rate, old(state), old(buffer[..bufferSize]) + data)
    {
      hide Absorb;
      ghost var held := buffer[..bufferSize];
      var wanted := rate - bufferSize;
      taken := if |data| < wanted then |data| else wanted;
      Fill(data[..taken]);
      assert data == data[..taken] + data[taken..];
      assert held + data == buffer[..bufferSize] + data[taken..];
      if bufferSize == rate {
        assert buffer[..bufferSize] == buffer[..];
        AbsorbBlock(absorb, rate, state, buffer[..], data[taken..]);
        state := absorb(state, buffer[..]);
        bufferSize := 0;
        assert buffer[..bufferSize] + data[taken..] == data[taken..];
      }
    }

    /** Appends bytes that fit behind the buffered ones. */
    method Fill(s: seq<byte>)
      requires 0 < rate == buffer.Length && bufferSize + |s| <= rate
      modifies this`bufferSize, buffer
      ensures bufferSize == old(bufferSize) + |s| && buffer[..bufferSize] == old(buffer[..bufferSize]) + s
    {
      var i := 0;
      while i < |s|
        invariant 0 <= i <= |s| && bufferSize == old(bufferSize) + i
        invariant buffer[..bufferSize] == old(buffer[..bufferSize]) + s[..i]
      {
        buffer[bufferSize] := s[i];
        bufferSize := bufferSize + 1;
        i := i + 1;
      }
    }

    /** Pads a copy and squeezes it; the hasher itself is not touched. */
    method GetHash() returns (digest: D)
      requires Valid()
      ensures digest == squeeze(Absorb(absorb, rate, state, buffer[..bufferSize] + Padding3(rate, bufferSize)).0)
    {
      var block := new byte[rate](_ => 0);
      ghost var held := buffer[..bufferSize];
      var i := 0;
      while i < bufferSize
        invariant 0 <= i <= bufferSize && fresh(block)
        invariant block[..i] == buffer[..i] && forall k :: i <= k < rate ==> block[k] == 0
        invariant buffer[..bufferSize] == held
      {
        block[i] := buffer[i];
        i := i + 1;
      }
      block[bufferSize] := 0x06;
      var last := block[rate - 1];
      block[rate - 1] := if last < 0x80 then last + 0x80 else last;
      assert block[..] == held + Padding3(rate, bufferSize);
      AbsorbedIsShort(absorb, rate, state, held, Padding3(rate, bufferSize));
      digest := squeeze(absorb(state, block[..]));
    }
  }

  /** Where the message is cut makes no difference to the sponge. */
  lemma SpongeOfParts<S>(f: Compression<S>, rate: nat, start: S, message: seq<byte>)
    requires rate > 0
    ensures var r := Absorb(f, rate, start, message);
            Sponge(f, rate, start, message) == Absorb(f, rate, r.0, r.1 + Padding3(rate, |r.1|)).0
  {
    LeftoverIs(f, rate, start, message);
    AbsorbAppend(f, rate, start, message, Padding3(rate, Leftover(rate, message)));
  }

  function Concat(parts: seq<seq<byte>>): seq<byte> {
    if parts == [] then [] else Concat(parts[..|parts| - 1]) + parts[|parts| - 1]
  }

  /** Any parts, a digest asked for after each: digest `i` is that of the first `i` parts. */
  method Perform<S, D>(absorb: Compression<S>, squeeze: S -> D, start: S, rate: nat, parts: seq<seq<byte>>)
    returns (digests: seq<D>)
    requires rate > 0
    ensures |digests| == |parts|
    ensures forall i :: 0 <= i < |parts| ==> digests[i] == squeeze(Sponge(absorb, rate, start, Concat(parts[..i + 1])))
  {
    hide Absorb, Sponge, Concat;
    var hasher := new SpongeHasher<S, D>(absorb, squeeze, start, rate);
    digests := [];
    ConcatNone(absorb, rate, start, parts);
    var i := 0;
    while i < |parts|
      invariant 0 <= i <= |parts| && |digests| == i
      invariant fresh(hasher) && fresh(hasher.buffer) && hasher.Valid()
      invariant hasher.absorb == absorb && hasher.squeeze == squeeze && hasher.rate == rate
      invariant hasher.View() == Absorb(absorb, rate, start, Concat(parts[..i]))
      invariant forall k :: 0 <= k < i ==> digests[k] == squeeze(Sponge(absorb, rate, start, Concat(parts[..k + 1])))
    {
      AbsorbAppend(absorb, rate, start, Concat(parts[..i]), parts[i]);
      ConcatLast(parts, i);
      hasher.Add(parts[i]);
      SpongeOfParts(absorb, rate, start, Concat(parts[..i + 1]));
      var digest := hasher.GetHash();
      digests := digests + [digest];
      i := i + 1;
    }
  }

  lemma ConcatNone<S>(f: Compression<S>, rate: nat, start: S, parts: seq<seq<byte>>)
    requires rate > 0
    ensures Absorb(f, rate, start, Concat(parts[..0])) == (start, [])
  {
  }

  lemma ConcatLast(parts: seq<seq<byte>>, i: nat)
    requires i < |parts|
    ensures Concat(parts[..i + 1]) == Concat(parts[..i]) + parts[i]
  {
    assert parts[..i + 1][..i] == parts[..i];
  }
}
