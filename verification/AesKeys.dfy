/** Key expansion (section 5.2 of FIPS 197). */
module AesKeys {
  import opened CryptoTypes
  import opened BlockModes
  import opened WordBits
  import opened AesTables
  import opened AesField

  predicate KeyValid(key: Bytes) {
    |key| == 16 || |key| == 24 || |key| == 32
  }

  function RoundCount(keySize: nat): nat {
    if keySize == 16 then 10 else if keySize == 24 then 12 else if keySize == 32 then 14 else 0
  }

  /** A word of the schedule, most significant byte first. */
  datatype Word = Word(a: bv8, b: bv8, c: bv8, d: bv8)

  function RotWord(w: Word): Word {
    Word(w.b, w.c, w.d, w.a)
  }

  function SubWord(w: Word): Word {
    Word(SBox(w.a), SBox(w.b), SBox(w.c), SBox(w.d))
  }

  function XorWord(v: Word, w: Word): Word {
    Word(Plus(v.a, w.a), Plus(v.b, w.b), Plus(v.c, w.c), Plus(v.d, w.d))
  }

  /** The power x^k of the field. */
  function Power(k: nat): bv8 {
    if k == 0 then 1 else XTime(Power(k - 1))
  }

  /** Word `i` of the schedule for a key of `nk` words. */
  function ScheduleWord(key: Bytes, nk: nat, i: nat): Word
    requires nk > 0 && |key| == 4 * nk
  {
    if i < nk then Word(key[4 * i], key[4 * i + 1], key[4 * i + 2], key[4 * i + 3])
    else
      var previous := ScheduleWord(key, nk, i - 1);
      var mixed :=
        if i % nk == 0 then XorWord(SubWord(RotWord(previous)), Word(Power(i / nk - 1), 0, 0, 0))
        else if nk > 6 && i % nk == 4 then SubWord(previous)
        else previous;
      XorWord(ScheduleWord(key, nk, i - nk), mixed)
  }

  function WordBytes(w: Word): (r: Bytes)
    ensures |r| == 4
  {
    [w.a, w.b, w.c, w.d]
  }

  /** The first `n` words of the schedule as bytes. */
  function Schedule(key: Bytes, nk: nat, n: nat): (r: Bytes)
    requires nk > 0 && |key| == 4 * nk
    ensures |r| == 4 * n
  {
    if n == 0 then [] else Schedule(key, nk, n - 1) + WordBytes(ScheduleWord(key, nk, n - 1))
  }

  function RoundKeys(key: Bytes): (r: Bytes)
    requires KeyValid(key)
    ensures |r| == 16 * (RoundCount(|key|) + 1)
  {
    Schedule(key, |key| / 4, 4 * (RoundCount(|key|) + 1))
  }

  // -------------------------------------------------------------- words as 32-bit values

  function Pack(w: Word): bv32 {
    Join(Wide(w.a), Wide(w.b), Wide(w.c), Wide(w.d))
  }

  function Unpack(v: bv32): Word {
    Word(Low(Shift(v, 24)), Low(Shift(v, 16)), Low(Shift(v, 8)), Low(v))
  }

  lemma UnpackPack(w: Word)
    ensures Unpack(Pack(w)) == w
  {
    hide Join, Wide, Low, Shift;
    JoinBytes(w.a, w.b, w.c, w.d);
  }

  lemma PackRot(w: Word)
    ensures Rotate(Pack(w)) == Pack(RotWord(w))
  {
    hide Join, Wide, Rotate;
    WideIsByte(w.a); WideIsByte(w.b); WideIsByte(w.c); WideIsByte(w.d);
    RotateBytes(Wide(w.a), Wide(w.b), Wide(w.c), Wide(w.d));
  }

  lemma PackXor(v: Word, w: Word)
    ensures Exclusive(Pack(v), Pack(w)) == Pack(XorWord(v, w))
  {
    hide Join, Wide, Exclusive;
    WideIsByte(v.a); WideIsByte(v.b); WideIsByte(v.c); WideIsByte(v.d);
    WideIsByte(w.a); WideIsByte(w.b); WideIsByte(w.c); WideIsByte(w.d);
    WideXor(v.a, w.a); WideXor(v.b, w.b); WideXor(v.c, w.c); WideXor(v.d, w.d);
    ExclusiveBytes(Wide(v.a), Wide(v.b), Wide(v.c), Wide(v.d), Wide(w.a), Wide(w.b), Wide(w.c), Wide(w.d));
  }

  lemma PackFirst(x: bv8)
    ensures Top(x) == Pack(Word(x, 0, 0, 0))
  {
  }

  /** The substitution applied to the four bytes of a 32-bit value. */
  function SubPacked(v: bv32): bv32 {
    Pack(SubWord(Unpack(v)))
  }

  /** How many round constants have been used before word `i`. */
  function Turns(i: nat, nk: nat): nat
    requires nk > 0 && i > 0
  {
    (i - 1) / nk
  }

  lemma TurnsStep(i: nat, nk: nat)
    requires nk == 4 || nk == 6 || nk == 8
    requires i >= nk
    ensures Turns(i + 1, nk) == Turns(i, nk) + if i % nk == 0 then 1 else 0
    ensures i % nk == 0 ==> Turns(i, nk) == i / nk - 1
  {
  }

  method KeyExpansion(key: Bytes) returns (roundKeys: Bytes)
    requires KeyValid(key)
    ensures roundKeys == RoundKeys(key)
  {
    hide SBox, Pack, Unpack, XTime, XorWord, RotWord, SubWord, SubPacked, Turns, ScheduleWord, Schedule, Rotate, Exclusive, Top;
    var nk := |key| / 4;
    var total := 4 * (RoundCount(|key|) + 1);
    var words := new bv32[60];
    var i := 0;
    while i < nk
      invariant 0 <= i <= nk
      invariant forall k :: 0 <= k < i ==> words[k] == Pack(ScheduleWord(key, nk, k))
    {
      words[i] := Pack(Word(key[4 * i], key[4 * i + 1], key[4 * i + 2], key[4 * i + 3]));
      FirstWords(key, nk, i);
      i := i + 1;
    }
    var rcon: bv8 := 1;
    TurnsStart(nk);
    while i < total
      invariant nk <= i <= total
      invariant forall k :: 0 <= k < i ==> words[k] == Pack(ScheduleWord(key, nk, k))
      invariant rcon == Power(Turns(i, nk))
    {
      var temp := words[i - 1];
      NextWord(key, nk, i);
      TurnsStep(i, nk);
      if i % nk == 0 {
        temp := Rotate(temp);
        temp := SubPacked(temp);
        temp := Exclusive(temp, Top(rcon));
        rcon := XTime(rcon);
      } else if nk > 6 && i % nk == 4 {
        temp := SubPacked(temp);
      }
      words[i] := Exclusive(words[i - nk], temp);
      i := i + 1;
    }
    roundKeys := [];
    i := 0;
    while i < total
      invariant 0 <= i <= total
      invariant forall k :: 0 <= k < total ==> words[k] == Pack(ScheduleWord(key, nk, k))
      invariant roundKeys == Schedule(key, nk, i)
    {
      UnpackPack(ScheduleWord(key, nk, i));
      roundKeys := roundKeys + WordBytes(Unpack(words[i]));
      NextBytes(key, nk, i);
      i := i + 1;
    }
  }

  lemma FirstWords(key: Bytes, nk: nat, i: nat)
    requires nk > 0 && |key| == 4 * nk && i < nk
    ensures ScheduleWord(key, nk, i) == Word(key[4 * i], key[4 * i + 1], key[4 * i + 2], key[4 * i + 3])
  {
  }

  lemma TurnsStart(nk: nat)
    requires nk > 0
    ensures Turns(nk, nk) == 0 && Power(0) == 1
  {
  }

  lemma NextBytes(key: Bytes, nk: nat, i: nat)
    requires nk > 0 && |key| == 4 * nk
    ensures Schedule(key, nk, i + 1) == Schedule(key, nk, i) + WordBytes(ScheduleWord(key, nk, i))
  {
  }

  /** The recurrence of the schedule, carried out on 32-bit values. */
  lemma NextWord(key: Bytes, nk: nat, i: nat)
    requires (nk == 4 || nk == 6 || nk == 8) && |key| == 4 * nk && i >= nk
    ensures var previous := Pack(ScheduleWord(key, nk, i - 1));
            var mixed :=
              if i % nk == 0 then Exclusive(SubPacked(Rotate(previous)), Top(Power(Turns(i, nk))))
              else if nk > 6 && i % nk == 4 then SubPacked(previous)
              else previous;
            Pack(ScheduleWord(key, nk, i)) == Exclusive(Pack(ScheduleWord(key, nk, i - nk)), mixed)
  {
    hide SubWord, Pack, Unpack, XorWord, RotWord, Turns, Power, Rotate, Exclusive, Top;
    TurnsStep(i, nk);
    var w := ScheduleWord(key, nk, i - 1);
    var rcon := Power(Turns(i, nk));
    PackRot(w);
    UnpackPack(RotWord(w));
    UnpackPack(w);
    PackFirst(rcon);
    PackXor(SubWord(RotWord(w)), Word(rcon, 0, 0, 0));
    PackXor(ScheduleWord(key, nk, i - nk),
            if i % nk == 0 then XorWord(SubWord(RotWord(w)), Word(rcon, 0, 0, 0))
            else if nk > 6 && i % nk == 4 then SubWord(w) else w);
  }
}
