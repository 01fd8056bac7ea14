/**
  The hash that identifies a module's file: XXH32, computed over as many
  pieces as the file is read in.
*/
module XxHash32s {

  type Word = bv32
  type Byte = bv8

  const PRIME1: Word := 2654435761
  const PRIME2: Word := 2246822519
  const PRIME3: Word := 3266489917
  const PRIME4: Word := 668265263
  const PRIME5: Word := 374761393

  const MAX_BUFFER_SIZE: nat := 16
  const LENGTH_RANGE: nat := 0x1_0000_0000_0000_0000
  const WORD_RANGE: nat := 0x1_0000_0000

  datatype Accumulators = Accumulators(first: Word, second: Word, third: Word, fourth: Word)

  function LowWord(n: nat): (low: nat)
    ensures low < WORD_RANGE
  {
    n % WORD_RANGE
  }

  function AsWord(n: nat): Word
    requires n < WORD_RANGE
  {
    n as Word
  }

  function Plus(a: Word, b: Word): Word {
    a + b
  }

  function RotateLeft(x: Word, bits: nat): Word
    requires bits <= 32
  {
    (x << bits) | (x >> (32 - bits))
  }

  /** Four bytes, the lowest first. */
  function Lane(data: seq<Byte>): Word
    requires |data| >= 4
  {
    data[0] as Word | (data[1] as Word << 8) | (data[2] as Word << 16) | (data[3] as Word << 24)
  }

  function Round(acc: Word, lane: Word): Word {
    RotateLeft(acc + lane * PRIME2, 13) * PRIME1
  }

  function Initial(seed: Word): Accumulators {
    Accumulators(seed + PRIME1 + PRIME2, seed + PRIME2, seed, seed - PRIME1)
  }

  function Process(acc: Accumulators, block: seq<Byte>): Accumulators
    requires |block| == MAX_BUFFER_SIZE
  {
    Accumulators(Round(acc.first, Lane(block)), Round(acc.second, Lane(block[4..])),
                 Round(acc.third, Lane(block[8..])), Round(acc.fourth, Lane(block[12..])))
  }

  function Converge(acc: Accumulators): Word {
    RotateLeft(acc.first, 1) + RotateLeft(acc.second, 7) + RotateLeft(acc.third, 12) + RotateLeft(acc.fourth, 18)
  }

  function MixLane(acc: Word, lane: Word): Word {
    RotateLeft(acc + lane * PRIME3, 17) * PRIME4
  }

  function ConsumeLane(acc: Word, data: seq<Byte>): Word
    requires |data| >= 4
  {
    MixLane(acc, Lane(data))
  }

  function ConsumeByte(acc: Word, b: Byte): Word {
    RotateLeft(acc + b as Word * PRIME5, 11) * PRIME1
  }

  function ConsumeRemaining(acc: Word, data: seq<Byte>): Word
    decreases |data|
  {
    if |data| >= 4 then ConsumeRemaining(ConsumeLane(acc, data), data[4..])
    else if |data| > 0 then ConsumeRemaining(ConsumeByte(acc, data[0]), data[1..])
    else acc
  }

  function Avalanche(acc: Word): Word {
    var a := (acc ^ (acc >> 15)) * PRIME2;
    var b := (a ^ (a >> 13)) * PRIME3;
    b ^ (b >> 16)
  }

  // ---- The hash of a whole input, by the six steps of its description ----

  function AfterStripes(input: seq<Byte>, seed: Word, stripes: nat): Accumulators
    requires 16 * stripes <= |input|
  {
    if stripes == 0 then Initial(seed) else
    Process(AfterStripes(input, seed, stripes - 1), input[16 * (stripes - 1)..16 * stripes])
  }

  function Short(seed: Word): Word {
    seed + PRIME5
  }

  function Finish(converged: Word, length: nat, remaining: seq<Byte>): Word
    requires length < WORD_RANGE
  {
    Avalanche(ConsumeRemaining(Plus(converged, AsWord(length)), remaining))
  }

  function XXH32(input: seq<Byte>, seed: Word): Word {
    var stripes := |input| / 16;
    var converged := if |input| < 16 then Short(seed) else Converge(AfterStripes(input, seed, stripes));
    Finish(converged, LowWord(|input|), input[16 * stripes..])
  }

  // ---- A stream of bytes ----

  /** What is remembered of the bytes seen: accumulated blocks, the bytes after them, and how many there were. */
  datatype Stream = Stream(acc: Accumulators, rest: seq<Byte>, total: nat)

  function Blocks(acc: Accumulators, data: seq<Byte>): Accumulators
    decreases |data|
  {
    if |data| < 16 then acc else Blocks(Process(acc, data[..16]), data[16..])
  }

  function Rest(data: seq<Byte>): (rest: seq<Byte>)
    ensures |rest| < 16 && |rest| <= |data|
    decreases |data|
  {
    if |data| < 16 then data else Rest(data[16..])
  }

  /** The length is counted in a 64-bit word. */
  function Counted(length: nat): (counted: nat)
    ensures counted < LENGTH_RANGE && (length < LENGTH_RANGE ==> counted == length)
  {
    length % LENGTH_RANGE
  }

  function Begin(seed: Word): Stream {
    Stream(Initial(seed), [], 0)
  }

  function Absorb(s: Stream, input: seq<Byte>): Stream {
    Stream(Blocks(s.acc, s.rest + input), Rest(s.rest + input), Counted(s.total + |input|))
  }

  /** With less than a block seen, the third accumulator still is the seed. */
  function Digest(s: Stream): Word {
    Finish(if s.total >= MAX_BUFFER_SIZE then Converge(s.acc) else Short(s.acc.third), LowWord(s.total), s.rest)
  }

  lemma {:induction false} BlocksInTwo(acc: Accumulators, data: seq<Byte>, more: seq<Byte>)
    ensures Blocks(acc, data + more) == Blocks(Blocks(acc, data), Rest(data) + more)
    ensures Rest(data + more) == Rest(Rest(data) + more)
    decreases |data|
  {
    hide Process;
    if |data| >= 16 {
      assert (data + more)[..16] == data[..16] && (data + more)[16..] == data[16..] + more;
      BlocksInTwo(Process(acc, data[..16]), data[16..], more);
    }
  }

  /** Where the input is cut in two does not matter. */
  lemma AbsorbInTwo(s: Stream, a: seq<Byte>, b: seq<Byte>)
    ensures Absorb(Absorb(s, a), b) == Absorb(s, a + b)
  {
    hide Blocks, Rest, Counted;
    BlocksInTwo(s.acc, s.rest + a, b);
    AppendInTwo(s.rest, a, b);
    TotalInTwo(s.total, |a|, |b|);
  }

  lemma AppendInTwo(rest: seq<Byte>, a: seq<Byte>, b: seq<Byte>)
    ensures (rest + a) + b == rest + (a + b)
  {
  }

  lemma TotalInTwo(total: nat, a: nat, b: nat)
    ensures Counted(Counted(total + a) + b) == Counted(total + (a + b))
  {
  }

  function Concat(chunks: seq<seq<Byte>>): seq<Byte> {
    if chunks == [] then [] else chunks[0] + Concat(chunks[1..])
  }

  function AbsorbAll(s: Stream, chunks: seq<seq<Byte>>): Stream
    decreases |chunks|
  {
    if chunks == [] then s else AbsorbAll(Absorb(s, chunks[0]), chunks[1..])
  }

  /** Nor does it matter in how many pieces it comes, or whether some are empty. */
  lemma {:induction false} ChunksDoNotMatter(s: Stream, chunks: seq<seq<Byte>>)
    requires |s.rest| < 16 && s.total < LENGTH_RANGE
    ensures AbsorbAll(s, chunks) == Absorb(s, Concat(chunks))
    decreases |chunks|
  {
    if chunks == [] {
      assert s.rest + [] == s.rest;
    } else {
      hide Blocks, Rest;
      ChunksDoNotMatter(Absorb(s, chunks[0]), chunks[1..]);
      AbsorbInTwo(s, chunks[0], Concat(chunks[1..]));
    }
  }

  lemma {:induction false} BlocksAreStripes(input: seq<Byte>, seed: Word, stripes: nat)
    requires 16 * stripes <= |input|
    ensures Blocks(Initial(seed), input) == Blocks(AfterStripes(input, seed, stripes), input[16 * stripes..])
    ensures Rest(input) == Rest(input[16 * stripes..])
  {
    hide Process, Initial;
    if stripes == 0 {
      assert input[0..] == input;
    } else {
      BlocksAreStripes(input, seed, stripes - 1);
      var data := input[16 * (stripes - 1)..];
      assert data[..16] == input[16 * (stripes - 1)..16 * stripes] && data[16..] == input[16 * stripes..];
    }
  }

  lemma ShortDigest(input: seq<Byte>, seed: Word)
    requires |input| < 16
    ensures Digest(Absorb(Begin(seed), input)) == XXH32(input, seed)
  {
    hide Finish, Short, Counted;
    assert [] + input == input;
  }

  lemma LongStream(input: seq<Byte>, seed: Word)
    ensures Absorb(Begin(seed), input) == Stream(AfterStripes(input, seed, |input| / 16),
      input[16 * (|input| / 16)..], Counted(|input|))
  {
    hide Initial, Counted, AfterStripes, Blocks, Rest;
    assert [] + input == input;
    StripesEnd(input, seed);
  }

  lemma LongDigest(input: seq<Byte>, seed: Word)
    requires 16 <= |input| && Counted(|input|) >= 16
    ensures Digest(Absorb(Begin(seed), input)) == XXH32(input, seed)
  {
    LengthInWord(|input|);
    hide Converge, Finish, Counted, LowWord, AfterStripes, Absorb, Begin, Short;
    LongStream(input, seed);
  }

  /** Once the counter has come round, an input of many blocks is taken for one of less than a block. */
  lemma WrappedDigest(input: seq<Byte>, seed: Word)
    requires 16 <= |input| && Counted(|input|) < 16
    ensures Digest(Absorb(Begin(seed), input))
         == Finish(Short(AfterStripes(input, seed, |input| / 16).third), LowWord(|input|), input[16 * (|input| / 16)..])
  {
    LengthInWord(|input|);
    hide Converge, Finish, Counted, LowWord, AfterStripes, Absorb, Begin, Short;
    LongStream(input, seed);
  }

  lemma StripesEnd(input: seq<Byte>, seed: Word)
    ensures var stripes := |input| / 16;
      && Blocks(Initial(seed), input) == AfterStripes(input, seed, stripes)
      && Rest(input) == input[16 * stripes..]
  {
    BlocksAreStripes(input, seed, |input| / 16);
  }

  lemma LengthInWord(length: nat)
    ensures LowWord(Counted(length)) == LowWord(length)
  {
  }

  /**
    The digest of a stream is the hash of all that was in it, as long as the counter does not mistake
    an input of many blocks for one of less than a block.
  */
  lemma DigestIsHash(input: seq<Byte>, seed: Word)
    requires |input| < 16 || Counted(|input|) >= 16
    ensures Digest(Absorb(Begin(seed), input)) == XXH32(input, seed)
  {
    hide *;
    if |input| < 16 {
      ShortDigest(input, seed);
    } else {
      LongDigest(input, seed);
    }
  }

  /** In whatever pieces a file is read, its hash comes out. */
  lemma PiecesMakeTheHash(chunks: seq<seq<Byte>>, seed: Word)
    requires |Concat(chunks)| < LENGTH_RANGE
    ensures Digest(AbsorbAll(Begin(seed), chunks)) == XXH32(Concat(chunks), seed)
  {
    ChunksDoNotMatter(Begin(seed), chunks);
    hide Digest, Absorb, Concat, XXH32;
    DigestIsHash(Concat(chunks), seed);
  }

  // ---- The hasher ----

  /** A block is completed from the input. */
  lemma FillUp(acc: Accumulators, rest: seq<Byte>, input: seq<Byte>)
    requires |rest| < 16 <= |rest| + |input|
    ensures var n := 16 - |rest|;
      && |rest + input[..n]| == 16
      && Blocks(acc, rest + input) == Blocks(Process(acc, rest + input[..n]), input[n..])
      && Rest(rest + input) == Rest(input[n..])
  {
    hide Process;
    var n := 16 - |rest|;
    assert (rest + input)[..16] == rest + input[..n] && (rest + input)[16..] == input[n..];
  }

  lemma NextBlock(acc: Accumulators, input: seq<Byte>, data: nat)
    requires data + 16 <= |input|
    ensures Blocks(acc, input[data..]) == Blocks(Process(acc, input[data..data + 16]), input[data + 16..])
    ensures Rest(input[data..]) == Rest(input[data + 16..])
  {
    hide Process;
    assert input[data..][..16] == input[data..data + 16] && input[data..][16..] == input[data + 16..];
  }

  lemma NothingMore(s: Stream)
    requires |s.rest| < 16 && s.total < LENGTH_RANGE
    ensures Absorb(s, []) == s
  {
    assert s.rest + [] == s.rest;
  }

  lemma LengthFirst(converged: Word, length: nat, rest: seq<Byte>)
    requires length < WORD_RANGE
    ensures Avalanche(ConsumeRemaining(Plus(AsWord(length), converged), rest)) == Finish(converged, length, rest)
  {
    hide Avalanche, ConsumeRemaining, AsWord;
    assert Plus(AsWord(length), converged) == Plus(converged, AsWord(length));
  }

  class XXHash32 {
    var state: Accumulators
    const buffer: array<Byte>
    var bufferSize: nat
    var totalLength: nat

    ghost predicate Valid()
      reads this, buffer
    {
      buffer.Length == MAX_BUFFER_SIZE && bufferSize < MAX_BUFFER_SIZE && totalLength < LENGTH_RANGE
    }

    ghost function Seen(): Stream
      requires Valid()
      reads this, buffer
    {
      Stream(state, buffer[..bufferSize], totalLength)
    }

    constructor (seed: Word)
      ensures Valid() && Seen() == Begin(seed) && fresh(buffer)
    {
      state := Initial(seed);
      bufferSize, totalLength := 0, 0;
      buffer := new Byte[MAX_BUFFER_SIZE];
    }

    method Keep(data: seq<Byte>)
      requires buffer.Length == MAX_BUFFER_SIZE && bufferSize + |data| <= MAX_BUFFER_SIZE
      modifies this`bufferSize, buffer
      ensures bufferSize == old(bufferSize) + |data|
      ensures buffer[..bufferSize] == old(buffer[..bufferSize]) + data
    {
      var i := 0;
      while i < |data|
        invariant i <= |data| && bufferSize == old(bufferSize) + i
        invariant buffer[..bufferSize] == old(buffer[..bufferSize]) + data[..i]
      {
        buffer[bufferSize] := data[i];
        bufferSize, i := bufferSize + 1, i + 1;
      }
    }

    /** Nothing is added from an empty input. No object in memory comes near the range of a 64-bit length. */
    method Add(input: seq<Byte>) returns (added: bool)
      requires Valid() && |input| + MAX_BUFFER_SIZE <= LENGTH_RANGE
      modifies this, buffer
      ensures Valid() && Seen() == Absorb(old(Seen()), input)
      ensures added <==> input != []
    {
      hide Process, Blocks, Rest;
      NothingMore(Seen());
      if input == [] {
        return false;
      }
      ghost var rest, acc := buffer[..bufferSize], state;
      totalLength := Counted(totalLength + |input|);
      hide Counted;
      added := true;
      if bufferSize + |input| < MAX_BUFFER_SIZE {
        FitsInBuffer(acc, rest + input);
        Keep(input);
        return;
      }
      FillUp(acc, rest, input);
      var data := 0;
      if bufferSize > 0 {
        data := MAX_BUFFER_SIZE - bufferSize;
        Keep(input[..data]);
        assert buffer[..] == rest + input[..data];
        state := Process(state, buffer[..]);
      } else {
        assert rest + input == input[0..];
      }
      var s := state;
      while data + MAX_BUFFER_SIZE <= |input|
        invariant data <= |input|
        invariant Blocks(s, input[data..]) == Blocks(acc, rest + input)
        invariant Rest(input[data..]) == Rest(rest + input)
        modifies {}
      {
        NextBlock(s, input, data);
        s := Process(s, input[data..data + MAX_BUFFER_SIZE]);
        data := data + MAX_BUFFER_SIZE;
      }
      state := s;
      FitsInBuffer(s, input[data..]);
      bufferSize := 0;
      Keep(input[data..]);
    }

    method Hash() returns (result: Word)
      requires Valid()
      ensures result == Digest(Seen())
    {
      hide Converge, Short, Avalanche, ConsumeRemaining, AsWord, Finish, LowWord, Plus;
      var converged := if totalLength >= MAX_BUFFER_SIZE then Converge(state) else Short(state.third);
      LengthFirst(converged, LowWord(totalLength), buffer[..bufferSize]);
      result := TakeRemaining(Plus(AsWord(LowWord(totalLength)), converged));
      result := Avalanche(result);
    }

    method TakeRemaining(acc: Word) returns (result: Word)
      requires Valid()
      ensures result == ConsumeRemaining(acc, buffer[..bufferSize])
    {
      hide ConsumeLane, ConsumeByte;
      result := acc;
      var data := 0;
      assert buffer[0..bufferSize] == buffer[..bufferSize];
      while data + 4 <= bufferSize
        invariant data <= bufferSize
        invariant ConsumeRemaining(result, buffer[data..bufferSize]) == ConsumeRemaining(acc, buffer[..bufferSize])
      {
        assert buffer[data..bufferSize][4..] == buffer[data + 4..bufferSize];
        result := ConsumeLane(result, buffer[data..bufferSize]);
        data := data + 4;
      }
      while data != bufferSize
        invariant bufferSize - 4 < data <= bufferSize
        invariant ConsumeRemaining(result, buffer[data..bufferSize]) == ConsumeRemaining(acc, buffer[..bufferSize])
      {
        assert buffer[data..bufferSize][1..] == buffer[data + 1..bufferSize];
        result := ConsumeByte(result, buffer[data]);
        data := data + 1;
      }
    }
  }

  lemma FitsInBuffer(acc: Accumulators, data: seq<Byte>)
    requires |data| < 16
    ensures Blocks(acc, data) == acc && Rest(data) == data
  {
  }

  /** All at once. */
  method HashOf(input: seq<Byte>, seed: Word) returns (hash: Word)
    requires |input| + MAX_BUFFER_SIZE <= LENGTH_RANGE
    ensures hash == XXH32(input, seed)
  {
    hide Digest, Absorb, XXH32;
    var hasher := new XXHash32(seed);
    var _ := hasher.Add(input);
    hash := hasher.Hash();
    DigestIsHash(input, seed);
  }

  const READ_SIZE: nat := 1024

  /** A file is read piece by piece, until a piece comes out short. */
  method CalculateHash(file: seq<Byte>) returns (hash: Word)
    requires |file| < LENGTH_RANGE
    ensures hash == XXH32(file, 0)
  {
    hide Digest, Absorb, XXH32, Begin;
    var hasher := new XXHash32(0);
    var position, read := 0, READ_SIZE;
    NothingMore(hasher.Seen());
    assert file[..0] == [];
    while read == READ_SIZE
      invariant position <= |file| && (read == READ_SIZE || position == |file|)
      invariant hasher.Valid() && fresh(hasher) && fresh(hasher.buffer)
      invariant hasher.Seen() == Absorb(Begin(0), file[..position])
      decreases |file| - position + read
    {
      read := if |file| - position < READ_SIZE then |file| - position else READ_SIZE;
      var piece := file[position..position + read];
      var _ := hasher.Add(piece);
      AbsorbInTwo(Begin(0), file[..position], piece);
      assert file[..position + read] == file[..position] + piece;
      position := position + read;
    }
    assert file[..position] == file;
    hash := hasher.Hash();
    DigestIsHash(file, 0);
  }

  // ---- Published values ----

  lemma NextByte(acc: Word, data: seq<Byte>)
    requires 0 < |data| < 4
    ensures ConsumeRemaining(acc, data) == ConsumeRemaining(ConsumeByte(acc, data[0]), data[1..])
  {
    hide ConsumeByte;
  }

  lemma ThreeBytes(acc: Word, a: Byte, b: Byte, c: Byte)
    ensures ConsumeRemaining(acc, [a, b, c]) == ConsumeByte(ConsumeByte(ConsumeByte(acc, a), b), c)
  {
    hide ConsumeByte;
    NextByte(acc, [a, b, c]);
    assert [a, b, c][1..] == [b, c] && [b, c][1..] == [c];
    var one := ConsumeByte(acc, a);
    NextByte(one, [b, c]);
    var two := ConsumeByte(one, b);
    NextByte(two, [c]);
  }

  /** The hash of "abc". */
  lemma LettersHashed()
    ensures XXH32([0x61, 0x62, 0x63], 0) == 0x32D153FF
  {
    ThreeBytes(0x165667B4, 0x61, 0x62, 0x63);
    assert ConsumeByte(0x165667B4, 0x61) == 0xDCA1DBE8;
    assert ConsumeByte(0xDCA1DBE8, 0x62) == 0x4F80FD3D;
    assert ConsumeByte(0x4F80FD3D, 0x63) == 0x760A1E67;
    assert Avalanche(0x760A1E67) == 0x32D153FF;
    assert Plus(Short(0), AsWord(3)) == 0x165667B4;
    var letters: seq<Byte> := [0x61, 0x62, 0x63];
    assert letters[0..] == letters;
    hide ConsumeRemaining, ConsumeByte, Avalanche, Plus, AsWord, Short;
  }

  /** Two stripes, a lane and three bytes: "Nobody inspects the spammish repetition". */
  function FirstStripe(): seq<Byte> {
    [0x4E, 0x6F, 0x62, 0x6F, 0x64, 0x79, 0x20, 0x69, 0x6E, 0x73, 0x70, 0x65, 0x63, 0x74, 0x73, 0x20]
  }

  function SecondStripe(): seq<Byte> {
    [0x74, 0x68, 0x65, 0x20, 0x73, 0x70, 0x61, 0x6D, 0x6D, 0x69, 0x73, 0x68, 0x20, 0x72, 0x65, 0x70]
  }

  function Remainder(): seq<Byte> {
    [0x65, 0x74, 0x69, 0x74, 0x69, 0x6F, 0x6E]
  }

  function Sentence(): seq<Byte> {
    FirstStripe() + SecondStripe() + Remainder()
  }

  lemma LaneIs(data: seq<Byte>, i: nat, lane: Word)
    requires i + 4 <= |data|
    requires lane
          == data[i] as Word | (data[i + 1] as Word << 8) | (data[i + 2] as Word << 16) | (data[i + 3] as Word << 24)
    ensures Lane(data[i..]) == lane
  {
  }

  lemma LanesOfFirst()
    ensures var block := FirstStripe();
      && Lane(block) == 0x6F626F4E && Lane(block[4..]) == 0x69207964
      && Lane(block[8..]) == 0x6570736E && Lane(block[12..]) == 0x20737463
  {
    var block := FirstStripe();
    LaneIs(block, 4, 0x69207964);
    LaneIs(block, 8, 0x6570736E);
    LaneIs(block, 12, 0x20737463);
  }

  lemma LanesOfSecond()
    ensures var block := SecondStripe();
      && Lane(block) == 0x20656874 && Lane(block[4..]) == 0x6D617073
      && Lane(block[8..]) == 0x6873696D && Lane(block[12..]) == 0x70657220
  {
    var block := SecondStripe();
    LaneIs(block, 4, 0x6D617073);
    LaneIs(block, 8, 0x6873696D);
    LaneIs(block, 12, 0x70657220);
  }

  lemma ProcessIs(acc: Accumulators, block: seq<Byte>, a: Word, b: Word, c: Word, d: Word)
    requires |block| == 16
    requires Lane(block) == a && Lane(block[4..]) == b && Lane(block[8..]) == c && Lane(block[12..]) == d
    ensures Process(acc, block)
         == Accumulators(Round(acc.first, a), Round(acc.second, b), Round(acc.third, c), Round(acc.fourth, d))
  {
    hide Lane, Round;
  }

  lemma SentenceStripes(seed: Word)
    ensures |Sentence()| == 39
    ensures AfterStripes(Sentence(), seed, 2) == Process(Process(Initial(seed), FirstStripe()), SecondStripe())
    ensures Sentence()[32..] == Remainder()
  {
    hide Process, Initial;
    var input := Sentence();
    assert input[0..16] == FirstStripe() && input[16..32] == SecondStripe();
    assert AfterStripes(input, seed, 0) == Initial(seed);
    assert AfterStripes(input, seed, 1) == Process(Initial(seed), FirstStripe());
  }

  lemma SentenceConsumed(acc: Word)
    ensures Lane(Remainder()) == 0x74697465
    ensures ConsumeRemaining(acc, Remainder())
         == ConsumeByte(ConsumeByte(ConsumeByte(ConsumeLane(acc, Remainder()), 0x69), 0x6F), 0x6E)
  {
    var rest := Remainder();
    assert rest[4..] == [0x69, 0x6F, 0x6E];
    hide ConsumeLane, ConsumeByte;
    ThreeBytes(ConsumeLane(acc, rest), 0x69, 0x6F, 0x6E);
  }

  lemma SentenceFinished(seed: Word, converged: Word)
    requires Converge(Process(Process(Initial(seed), FirstStripe()), SecondStripe())) == converged
    ensures XXH32(Sentence(), seed)
         == Avalanche(ConsumeByte(ConsumeByte(ConsumeByte(ConsumeLane(Plus(converged, 39), Remainder()), 0x69), 0x6F),
              0x6E))
  {
    hide Process, Initial, Converge, Avalanche, ConsumeByte, ConsumeLane, ConsumeRemaining, Lane, AfterStripes;
    hide FirstStripe, SecondStripe, Sentence, Remainder;
    SentenceStripes(seed);
    SentenceConsumed(Plus(converged, 39));
  }

  lemma FromZero()
    ensures Converge(Process(Process(Initial(0), FirstStripe()), SecondStripe())) == 0x8C86B52D
  {
    hide Lane;
    LanesOfFirst();
    LanesOfSecond();
    var one := Accumulators(0x046A700A, 0xBFADF8E3, 0x5B32B4AA, 0x137E5555);
    assert Initial(0) == Accumulators(0x24234428, 0x85EBCA77, 0x00000000, 0x61C8864F);
    ProcessIs(Initial(0), FirstStripe(), 0x6F626F4E, 0x69207964, 0x6570736E, 0x20737463);
    assert Process(Initial(0), FirstStripe()) == one;
    ProcessIs(one, SecondStripe(), 0x20656874, 0x6D617073, 0x6873696D, 0x70657220);
    assert Process(one, SecondStripe()) == Accumulators(0x719A836E, 0x514C1DE8, 0x97FA4BA2, 0x242A97A2);
  }

  lemma FromPrime()
    ensures Converge(Process(Process(Initial(PRIME1), FirstStripe()), SecondStripe())) == 0x484B3A48
  {
    hide Lane;
    LanesOfFirst();
    LanesOfSecond();
    var one := Accumulators(0xF91E4BA1, 0xC52BB47A, 0x60B07041, 0x18FC10EC);
    assert Initial(PRIME1) == Accumulators(0xC25ABDD9, 0x24234428, 0x9E3779B1, 0x00000000);
    ProcessIs(Initial(PRIME1), FirstStripe(), 0x6F626F4E, 0x69207964, 0x6570736E, 0x20737463);
    assert Process(Initial(PRIME1), FirstStripe()) == one;
    ProcessIs(one, SecondStripe(), 0x20656874, 0x6D617073, 0x6873696D, 0x70657220);
    assert Process(one, SecondStripe()) == Accumulators(0x1BACC8D5, 0x59BCA798, 0xA06AD552, 0x2C9B2152);
  }

  lemma LaneConsumed(acc: Word, data: seq<Byte>, lane: Word)
    requires |data| >= 4 && Lane(data) == lane
    ensures ConsumeLane(acc, data) == MixLane(acc, lane)
  {
    hide Lane, MixLane;
  }

  lemma BytesConsumed(acc: Word, afterFirst: Word, afterSecond: Word, last: Word, hash: Word)
    requires ConsumeByte(acc, 0x69) == afterFirst && ConsumeByte(afterFirst, 0x6F) == afterSecond
    requires ConsumeByte(afterSecond, 0x6E) == last && Avalanche(last) == hash
    ensures Avalanche(ConsumeByte(ConsumeByte(ConsumeByte(acc, 0x69), 0x6F), 0x6E)) == hash
  {
    hide ConsumeByte, Avalanche;
  }

  lemma RemainderFromZero()
    ensures var acc := ConsumeLane(Plus(0x8C86B52D, 39), Remainder());
      Avalanche(ConsumeByte(ConsumeByte(ConsumeByte(acc, 0x69), 0x6F), 0x6E)) == 0xE2293B2F
  {
    SentenceConsumed(0);
    LaneConsumed(0x8C86B554, Remainder(), 0x74697465);
    assert Plus(0x8C86B52D, 39) == 0x8C86B554;
    assert MixLane(0x8C86B554, 0x74697465) == 0x09B51544;
    BytesConsumed(0x09B51544, 0xCDEFD3C9, 0x3852087B, 0xB3A7011B, 0xE2293B2F);
    hide *;
  }

  lemma RemainderFromPrime()
    ensures var acc := ConsumeLane(Plus(0x484B3A48, 39), Remainder());
      Avalanche(ConsumeByte(ConsumeByte(ConsumeByte(acc, 0x69), 0x6F), 0x6E)) == 0xC9E89E68
  {
    SentenceConsumed(0);
    LaneConsumed(0x484B3A6F, Remainder(), 0x74697465);
    assert Plus(0x484B3A48, 39) == 0x484B3A6F;
    assert MixLane(0x484B3A6F, 0x74697465) == 0xDAB4CA6B;
    BytesConsumed(0xDAB4CA6B, 0xD1ECCFD1, 0x0F8D7E9B, 0xC76309B5, 0xC9E89E68);
    hide *;
  }

  /** The hash of the sentence, and the one that the first prime as a seed gives. */
  lemma SentenceHashed()
    ensures XXH32(Sentence(), 0) == 0xE2293B2F
    ensures XXH32(Sentence(), PRIME1) == 0xC9E89E68
  {
    hide *;
    FromZero();
    SentenceFinished(0, 0x8C86B52D);
    RemainderFromZero();
    FromPrime();
    SentenceFinished(PRIME1, 0x484B3A48);
    RemainderFromPrime();
  }
}
