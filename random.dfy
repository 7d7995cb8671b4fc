/**
 * The random strings of util/random.go. SecureRandomString masks each random
 * byte down to the bit length of the alphabet and keeps the masked index when it
 * falls inside the alphabet (rejection sampling). The random source is an input:
 * `stream` holds the bytes the successive buffer refills return, in order, and a
 * refill that the stream can no longer supply ends the run with Exhausted.
 * Alphabets are ASCII, so a character is one byte.
 */
module Random {
  import opened Outcomes

  const SmallLetters := "0123456789abcdefghijklmnopqrstuvwxyz"
  const AllLetters := "ABCDEFGHIJKLMNOPQRSTUVWXYZabcdefghijklmnopqrstuvwxyz0123456789"

  datatype Error =
    | BadAlphabet     // the panic on an empty alphabet or one longer than 256
    | NegativeLength  // the make([]byte, length) panic on a negative length
    | Exhausted       // the byte stream cannot fill the next buffer

  /** Which buffer index the loop reads at step j: `j % length` as written, `j % bufferSize` as intended. */
  datatype Indexing = AsWritten | Corrected

  // ---------------------------------------------------------------------------
  // Bit length and mask

  function Pow2(k: nat): (r: nat)
    ensures r >= 1
  {
    if k == 0 then 1 else 2 * Pow2(k - 1)
  }

  /** The number of binary digits of x (none for 0). */
  function BitLen(x: nat): nat {
    if x == 0 then 0 else 1 + BitLen(x / 2)
  }

  /** BitLen(x) is the least k with x < 2^k. */
  lemma {:induction false} BitLenBounds(x: nat)
    ensures x < Pow2(BitLen(x))
    ensures x > 0 ==> Pow2(BitLen(x) - 1) <= x
  {
    if x > 0 {
      BitLenBounds(x / 2);
    }
  }

  lemma {:induction false} BitLenAtMost(x: nat, m: nat)
    requires x < Pow2(m)
    ensures BitLen(x) <= m
  {
    if x > 0 {
      BitLenAtMost(x / 2, m - 1);
    }
  }

  /** Eight bits hold the bit length of any byte value. */
  lemma BitLenOfByte(x: nat)
    requires x < 256
    ensures BitLen(x) <= 8
  {
    assert Pow2(8) == 256;
    BitLenAtMost(x, 8);
  }

  /** The byte masks of zero to eight low bits. */
  const LowBits: seq<bv8> := [0, 1, 3, 7, 15, 31, 63, 127, 255]

  /** The mask `1<<bitLength - 1` taken to a byte, as a table. */
  function MaskOf(bitLength: nat): bv8
    requires bitLength <= 8
  {
    LowBits[bitLength]
  }

  /** The table is the shift in byte arithmetic: 1<<8 wraps to 0, and 0 - 1 wraps to 255. */
  lemma MaskOfIsShift(bitLength: nat)
    requires bitLength <= 8
    ensures MaskOf(bitLength) == ((1 as bv8) << bitLength) - 1
  {
    var k := bitLength;
    if k == 0 {
    } else if k == 1 {
    } else if k == 2 {
    } else if k == 3 {
    } else if k == 4 {
    } else if k == 5 {
    } else if k == 6 {
    } else if k == 7 {
    } else {
    }
  }

  /** The mask of an alphabet of n characters. */
  function Mask(n: nat): bv8
    requires 0 < n <= 256
  {
    BitLenOfByte(n - 1);
    MaskOf(BitLen(n - 1))
  }

  /** The shift loop: bitLength ends as the number of binary digits of n - 1. */
  method BitLength(n: int) returns (bitLength: nat)
    requires 0 < n <= 256
    ensures bitLength == BitLen(n - 1) && bitLength <= 8
  {
    var bits := n - 1;
    bitLength := 0;
    while bits != 0
      invariant 0 <= bits && bitLength + BitLen(bits) == BitLen(n - 1)
      decreases bits
    {
      bits := bits / 2;
      bitLength := bitLength + 1;
    }
    BitLenOfByte(n - 1);
  }

  /** An all-ones mask keeps every byte not above it. */
  lemma AllOnesKeeps(b: bv8, m: bv8)
    requires b <= m
    requires m == 0 || m == 1 || m == 3 || m == 7 || m == 15 || m == 31 || m == 63 || m == 127 || m == 255
    ensures b & m == b
  {
  }

  /** Below 2^k, the mask of k bits keeps every bit. */
  lemma MaskBelow(b: bv8, k: nat)
    requires k <= 8 && (b as int) < Pow2(k)
    ensures b & MaskOf(k) == b
  {
    var m := MaskOf(k);
    if k == 0 {
      assert Pow2(0) == 1 && m == MaskOf(0) == 0;
      assert b == 0;
    } else if k == 1 {
      assert Pow2(1) == 2 && m == MaskOf(1) == 1;
      assert b < 2;
    } else if k == 2 {
      assert Pow2(2) == 4 && m == MaskOf(2) == 3;
      assert b < 4;
    } else if k == 3 {
      assert Pow2(3) == 8 && m == MaskOf(3) == 7;
      assert b < 8;
    } else if k == 4 {
      assert Pow2(4) == 16 && m == MaskOf(4) == 15;
      assert b < 16;
    } else if k == 5 {
      assert Pow2(5) == 32 && m == MaskOf(5) == 31;
      assert b < 32;
    } else if k == 6 {
      assert Pow2(6) == 64 && m == MaskOf(6) == 63;
      assert b < 64;
    } else if k == 7 {
      assert Pow2(7) == 128 && m == MaskOf(7) == 127;
      assert b < 128;
    } else {
      assert m == MaskOf(8) == 255;
    }
    AllOnesKeeps(b, m);
  }

  /** A byte that already indexes the alphabet survives the mask, so every character can be drawn. */
  lemma MaskKeepsIndex(n: int, b: bv8)
    requires 0 < n <= 256 && (b as int) < n
    ensures Masked(b, Mask(n)) == b as int
  {
    BitLenBounds(n - 1);
    BitLenOfByte(n - 1);
    MaskBelow(b, BitLen(n - 1));
  }

  /** A 256-character alphabet needs all eight bits: the wrapped mask is 255. */
  lemma FullAlphabetMask()
    ensures Mask(256) == 255
  {
    BitLenBounds(255);
    BitLenOfByte(255);
    assert Pow2(7) == 128;
  }

  // ---------------------------------------------------------------------------
  // What the loop reads and keeps

  /** bufferSize: a third more bytes than characters. */
  function BufferSize(length: nat): (bs: nat)
    ensures length <= bs && (length > 0 ==> bs > 0)
  {
    length + length / 3
  }

  /**
   * The start of the buffer in use at step j: the last multiple of bufferSize
   * not after j, counted out buffer by buffer.
   */
  function Start(j: nat, bs: nat): (r: nat)
    requires bs > 0
    ensures r <= j < r + bs
    decreases j
  {
    if j < bs then 0 else bs + Start(j - bs, bs)
  }

  /** Go's j % d on non-negative operands: how far j lies past the last multiple of d. */
  function Rem(j: nat, d: nat): (r: nat)
    requires d > 0
    ensures r < d
  {
    j - Start(j, d)
  }

  /** The number of steps the stream supports: its whole buffers. */
  function Steps(stream: seq<bv8>, length: nat): (r: nat)
    requires length > 0
    ensures r <= |stream|
  {
    Start(|stream|, BufferSize(length))
  }

  /** The byte step j reads: entry `j % length` (as written) or `j % bufferSize` of the buffer in use. */
  function ByteAt(stream: seq<bv8>, ix: Indexing, length: nat, j: nat): bv8
    requires length > 0 && j < Steps(stream, length)
  {
    var bs := BufferSize(length);
    BufferOfStep(j, bs, |stream|);
    stream[Start(j, bs) + (if ix == AsWritten then Rem(j, length) else Rem(j, bs))]
  }

  /** The bytes of the first J steps. */
  function Reads(stream: seq<bv8>, ix: Indexing, length: nat, J: nat): (r: seq<bv8>)
    requires length > 0 && J <= Steps(stream, length)
    ensures |r| == J
  {
    seq(J, j requires 0 <= j < J => ByteAt(stream, ix, length, j))
  }

  lemma ReadsNext(stream: seq<bv8>, ix: Indexing, length: nat, j: nat)
    requires length > 0 && j < Steps(stream, length)
    ensures Reads(stream, ix, length, j + 1) == Reads(stream, ix, length, j) + [ByteAt(stream, ix, length, j)]
  {
  }

  /** The masked index of a byte, `int(b & bitMask)`. */
  function Masked(b: bv8, mask: bv8): nat {
    (b & mask) as nat
  }

  /** The characters rejection sampling keeps from the bytes, in order. */
  function Picks(bytes: seq<bv8>, alphabet: string, mask: bv8): (r: string)
    ensures |r| <= |bytes|
  {
    if bytes == [] then []
    else
      var idx := Masked(bytes[|bytes| - 1], mask);
      Picks(bytes[..|bytes| - 1], alphabet, mask) + (if idx < |alphabet| then [alphabet[idx]] else [])
  }

  /** Every kept character is a character of the alphabet. */
  lemma {:induction false} PicksInAlphabet(bytes: seq<bv8>, alphabet: string, mask: bv8)
    ensures forall c :: c in Picks(bytes, alphabet, mask) ==> c in alphabet
  {
    if bytes != [] {
      PicksInAlphabet(bytes[..|bytes| - 1], alphabet, mask);
    }
  }

  lemma PicksSnoc(bytes: seq<bv8>, b: bv8, alphabet: string, mask: bv8)
    ensures Masked(b, mask) < |alphabet| ==>
      Picks(bytes + [b], alphabet, mask) == Picks(bytes, alphabet, mask) + [alphabet[Masked(b, mask)]]
    ensures Masked(b, mask) >= |alphabet| ==> Picks(bytes + [b], alphabet, mask) == Picks(bytes, alphabet, mask)
  {
    assert (bytes + [b])[..|bytes + [b]| - 1] == bytes;
  }

  /** Sampling a concatenation keeps the picks of each part. */
  lemma {:induction false} PicksConcat(a: seq<bv8>, b: seq<bv8>, alphabet: string, mask: bv8)
    ensures Picks(a + b, alphabet, mask) == Picks(a, alphabet, mask) + Picks(b, alphabet, mask)
    decreases |b|
  {
    if b != [] {
      var b' := b[..|b| - 1];
      assert (a + b)[..|a + b| - 1] == a + b';
      PicksConcat(a, b', alphabet, mask);
    } else {
      assert a + b == a;
    }
  }

  // ---------------------------------------------------------------------------
  // SecureRandomString

  /**
   * SecureRandomString over the byte stream. It fails on a bad alphabet and on
   * a negative length; otherwise it succeeds exactly when the steps the stream
   * supports keep at least `length` characters, and then answers the first
   * `length` of them.
   */
  method SecureRandomString(alphabet: string, length: int, stream: seq<bv8>, ix: Indexing)
    returns (r: Result<string, Error>)
    ensures r == Err(BadAlphabet) <==> |alphabet| == 0 || |alphabet| > 256
    ensures 0 < |alphabet| <= 256 && length < 0 ==> r == Err(NegativeLength)
    ensures 0 < |alphabet| <= 256 && length == 0 ==> r == Ok("")
    ensures 0 < |alphabet| <= 256 && length > 0 ==>
      var kept := Picks(Reads(stream, ix, length, Steps(stream, length)), alphabet, Mask(|alphabet|));
      (r.Ok? <==> |kept| >= length) &&
      (r.Ok? ==> r.value == kept[..length]) &&
      (r.Err? ==> r == Err(Exhausted))
    ensures r.Ok? ==> |r.value| == length && forall c :: c in r.value ==> c in alphabet
  {
    var n := |alphabet|;
    if n == 0 || n > 256 {
      return Err(BadAlphabet);
    }
    var bitLength := BitLength(n);
    var mask := MaskOf(bitLength);
    if length < 0 {
      return Err(NegativeLength);
    }
    r := Sample(alphabet, mask, length, stream, ix);
    if length > 0 {
      PicksInAlphabet(Reads(stream, ix, length, Steps(stream, length)), alphabet, mask);
    }
  }

  /**
   * What sampling answers: the first `length` characters kept from all the
   * steps the stream supports, or Exhausted when they keep fewer.
   */
  function Sampled(alphabet: string, mask: bv8, length: nat, stream: seq<bv8>, ix: Indexing): Result<string, Error> {
    if length == 0 then Ok("")
    else
      var kept := Picks(Reads(stream, ix, length, Steps(stream, length)), alphabet, mask);
      if |kept| >= length then Ok(kept[..length]) else Err(Exhausted)
  }

  /**
   * The sampling loop of SecureRandomString: a fresh buffer of bufferSize bytes
   * whenever the step count is a multiple of bufferSize, one byte per step,
   * masked, and kept when it indexes the alphabet.
   */
  method Sample(alphabet: string, mask: bv8, length: nat, stream: seq<bv8>, ix: Indexing)
    returns (r: Result<string, Error>)
    ensures r == Sampled(alphabet, mask, length, stream, ix)
  {
    if length == 0 {
      // The loop runs no step: the answer is the empty string.
      return Ok("");
    }
    var result := new char[length];
    var i, j := 0, 0;
    var randomBytes: seq<bv8> := [];
    ghost var read: seq<bv8> := [];
    while i < length
      invariant 0 <= i <= length && result.Length == length
      invariant j <= Steps(stream, length) && read == Reads(stream, ix, length, j)
      invariant BufferHeld(stream, length, j, randomBytes)
      invariant result[..i] == Picks(read, alphabet, mask)
      decreases |stream| - j
    {
      var next;
      next, randomBytes := NextByte(stream, ix, length, j, randomBytes);
      if next.None? {
        SampleExhausted(alphabet, mask, length, stream, ix, read);
        return Err(Exhausted);
      }
      var b := next.value;
      var idx := Masked(b, mask);
      PicksSnoc(read, b, alphabet, mask);
      if idx < |alphabet| {
        Keep(result, i, alphabet[idx]);
        i := i + 1;
      }
      read := read + [b];
      j := j + 1;
    }
    assert result[..] == result[..i];
    SampleComplete(alphabet, mask, length, stream, ix, j, read);
    return Ok(result[..]);
  }

  /** `result[i] = c`: the first i characters stay, the next one is c. */
  method Keep(result: array<char>, i: nat, c: char)
    requires i < result.Length
    modifies result
    ensures result[..i + 1] == old(result[..i]) + [c]
  {
    result[i] := c;
  }

  /** A loop that has read every step with fewer than `length` kept characters answers Exhausted. */
  lemma SampleExhausted(alphabet: string, mask: bv8, length: nat, stream: seq<bv8>, ix: Indexing, read: seq<bv8>)
    requires length > 0 && read == Reads(stream, ix, length, Steps(stream, length))
    requires |Picks(read, alphabet, mask)| < length
    ensures Sampled(alphabet, mask, length, stream, ix) == Err(Exhausted)
  {
  }

  /** A loop that has kept `length` characters after j steps answers them. */
  lemma SampleComplete(alphabet: string, mask: bv8, length: nat, stream: seq<bv8>, ix: Indexing, j: nat, read: seq<bv8>)
    requires length > 0 && j <= Steps(stream, length) && read == Reads(stream, ix, length, j)
    requires |Picks(read, alphabet, mask)| == length
    ensures Sampled(alphabet, mask, length, stream, ix) == Ok(Picks(read, alphabet, mask))
  {
    var all := Reads(stream, ix, length, Steps(stream, length));
    assert all == read + all[j..];
    PicksConcat(read, all[j..], alphabet, mask);
    var kept := Picks(all, alphabet, mask);
    assert kept[..length] == Picks(read, alphabet, mask);
  }

  /** After j steps, the buffer in hand is the one step j - 1 read from, whole and inside the stream. */
  ghost predicate BufferHeld(stream: seq<bv8>, length: nat, j: nat, buffer: seq<bv8>)
    requires length > 0
  {
    var bs := BufferSize(length);
    j > 0 ==> Start(j - 1, bs) + bs <= |stream| && buffer == stream[Start(j - 1, bs)..Start(j - 1, bs) + bs]
  }

  /**
   * One step of the sampling loop: a fresh buffer when j is a multiple of
   * bufferSize, then the byte at the loop's index into the buffer. No byte is
   * left exactly when the whole buffers of the stream are used up.
   */
  method NextByte(stream: seq<bv8>, ix: Indexing, length: nat, j: nat, randomBytes: seq<bv8>)
    returns (b: Option<bv8>, buffer: seq<bv8>)
    requires length > 0 && j <= Steps(stream, length) && BufferHeld(stream, length, j, randomBytes)
    ensures b.None? <==> j == Steps(stream, length)
    ensures b.Some? ==>
      Reads(stream, ix, length, j + 1) == Reads(stream, ix, length, j) + [b.value] &&
      BufferHeld(stream, length, j + 1, buffer)
  {
    var bs := BufferSize(length);
    buffer := randomBytes;
    if Rem(j, bs) == 0 {
      if j + bs > |stream| {
        ExhaustedAtEnd(j, bs, |stream|);
        return None, buffer;
      }
      RoomForBuffer(j, bs, |stream|);
      buffer := stream[j..j + bs];
    } else {
      WholeBuffers(j, bs, |stream|);
    }
    StepReadsBuffer(j, bs);
    BufferHoldsStep(stream, ix, length, j, buffer);
    b := Some(buffer[if ix == AsWritten then Rem(j, length) else Rem(j, bs)]);
    ReadsNext(stream, ix, length, j);
  }

  // ---------------------------------------------------------------------------
  // Quotients and remainders

  lemma DivMod(x: nat, d: nat)
    requires d > 0
    ensures x == x / d * d + x % d && 0 <= x % d < d
  {
  }

  lemma MulStep(a: nat, b: nat, d: nat)
    requires a < b
    ensures a * d + d <= b * d
  {
    var c := b - a - 1;
    assert b * d == a * d + d + c * d;
  }

  lemma MulLe(a: nat, b: nat, d: nat)
    requires a <= b
    ensures a * d <= b * d
  {
    if a < b {
      MulStep(a, b, d);
    }
  }

  lemma DivUnique(x: nat, d: nat, q: nat, r: nat)
    requires d > 0 && r < d && x == q * d + r
    ensures x / d == q && x % d == r
  {
    DivMod(x, d);
    if x / d < q {
      MulStep(x / d, q, d);
      assert false;
    } else if q < x / d {
      MulStep(q, x / d, d);
      assert false;
    }
  }

  /** The buffer start counted out buffer by buffer is j minus Go's remainder. */
  lemma {:induction false} StartIsMod(j: nat, bs: nat)
    requires bs > 0
    ensures Start(j, bs) == j - j % bs && Rem(j, bs) == j % bs
    decreases j
  {
    if j < bs {
      DivUnique(j, bs, 0, j);
    } else {
      StartIsMod(j - bs, bs);
      DivMod(j - bs, bs);
      assert j == ((j - bs) / bs + 1) * bs + (j - bs) % bs;
      DivUnique(j, bs, (j - bs) / bs + 1, (j - bs) % bs);
    }
  }

  /** Multiples of bs are exactly the values that no remainder separates from their buffer start. */
  lemma StartOfMultiple(q: nat, bs: nat)
    requires bs > 0
    ensures Start(q * bs, bs) == q * bs
  {
    StartIsMod(q * bs, bs);
    DivUnique(q * bs, bs, q, 0);
  }

  /** Off a multiple of bufferSize the whole buffers never end at j. */
  lemma WholeBuffers(j: nat, bs: nat, total: nat)
    requires bs > 0 && Rem(j, bs) != 0
    ensures j != Start(total, bs)
  {
    StartIsMod(total, bs);
    DivMod(total, bs);
    StartOfMultiple(total / bs, bs);
    StartIsMod(j, bs);
  }

  /** The buffer of a step inside the whole buffers lies inside them too. */
  lemma BufferOfStep(j: nat, bs: nat, total: nat)
    requires bs > 0 && j < Start(total, bs)
    ensures Start(j, bs) + bs <= Start(total, bs)
  {
    StartIsMod(j, bs);
    StartIsMod(total, bs);
    DivMod(j, bs);
    DivMod(total, bs);
    if total / bs <= j / bs {
      MulLe(total / bs, j / bs, bs);
      assert false;
    }
    MulStep(j / bs, total / bs, bs);
  }

  /** A buffer that fits in the stream lies within the whole buffers. */
  lemma RoomForBuffer(j: nat, bs: nat, total: nat)
    requires bs > 0 && Rem(j, bs) == 0 && j + bs <= total
    ensures j + bs <= Start(total, bs)
  {
    StartIsMod(j, bs);
    StartIsMod(total, bs);
    DivMod(j, bs);
    DivMod(total, bs);
    if total / bs <= j / bs {
      MulLe(total / bs, j / bs, bs);
      assert false;
    }
    MulStep(j / bs, total / bs, bs);
  }

  /** A refill that does not fit happens at the end of the whole buffers. */
  lemma ExhaustedAtEnd(j: nat, bs: nat, total: nat)
    requires bs > 0 && Rem(j, bs) == 0 && j <= Start(total, bs) && j + bs > total
    ensures j == Start(total, bs)
  {
    StartIsMod(j, bs);
    StartIsMod(total, bs);
    DivMod(j, bs);
    DivMod(total, bs);
    if j / bs < total / bs {
      MulStep(j / bs, total / bs, bs);
      assert false;
    }
    MulLe(total / bs, j / bs, bs);
  }

  /** The buffer in use at step j: the fresh one on a multiple of bufferSize, else the one of step j - 1. */
  lemma StepReadsBuffer(j: nat, bs: nat)
    requires bs > 0
    ensures Rem(j, bs) == 0 ==> Start(j, bs) == j
    ensures j > 0 && Rem(j, bs) != 0 ==> Start(j - 1, bs) == Start(j, bs)
  {
    StartIsMod(j, bs);
    if j > 0 && j % bs != 0 {
      StartIsMod(j - 1, bs);
      DivMod(j, bs);
      DivUnique(j - 1, bs, j / bs, j % bs - 1);
    }
  }

  /** The loop's index into its buffer is the one ByteAt reads. */
  lemma BufferHoldsStep(stream: seq<bv8>, ix: Indexing, length: nat, j: nat, buffer: seq<bv8>)
    requires length > 0 && j < Steps(stream, length)
    requires Start(j, BufferSize(length)) + BufferSize(length) <= |stream|
    requires buffer == stream[Start(j, BufferSize(length))..Start(j, BufferSize(length)) + BufferSize(length)]
    ensures var k := if ix == AsWritten then Rem(j, length) else Rem(j, BufferSize(length));
      0 <= k < |buffer| && buffer[k] == ByteAt(stream, ix, length, j)
  {
  }

  // ---------------------------------------------------------------------------
  // What the buffer index changes

  /** With `j % bufferSize` every byte of the whole buffers is read once, in order. */
  lemma CorrectedReadsStream(stream: seq<bv8>, length: nat)
    requires length > 0
    ensures Reads(stream, Corrected, length, Steps(stream, length)) == stream[..Steps(stream, length)]
  {
  }

  /**
   * As written, once `length` is three or more the buffer is longer than
   * `length`, and step `length` reads byte 0 of the first buffer a second time
   * where the intended index reads byte `length`.
   */
  lemma AsWrittenRereads(stream: seq<bv8>, length: nat)
    requires length >= 3 && |stream| >= BufferSize(length)
    ensures length < Steps(stream, length)
    ensures ByteAt(stream, AsWritten, length, length) == stream[0]
    ensures ByteAt(stream, Corrected, length, length) == stream[length]
  {
    assert Start(length, length) == length;
  }

  /** Within the first buffer and below `length`, both indexings read the stream in order. */
  lemma FirstBufferInOrder(stream: seq<bv8>, ix: Indexing, length: nat, j: nat)
    requires 0 <= j < length && |stream| >= BufferSize(length)
    ensures j < Steps(stream, length) && ByteAt(stream, ix, length, j) == stream[j]
  {
  }

  /** The bytes [5, 50, 7, 0] over the 36-letter alphabet: "575" as written, "570" as intended. */
  lemma RereadExample(stream: seq<bv8>)
    requires stream == [5, 50, 7, 0]
    ensures Steps(stream, 3) == 4
    ensures Picks(Reads(stream, AsWritten, 3, 4), SmallLetters, Mask(36)) == "575"
    ensures Picks(Reads(stream, Corrected, 3, 4), SmallLetters, Mask(36)) == "570"
  {
    ExampleReads(stream);
    SmallMask();
    var w, c := Reads(stream, AsWritten, 3, 4), Reads(stream, Corrected, 3, 4);
    assert w == [5, 50, 7, 5] && c == [5, 50, 7, 0];
    PicksOfExample(w, 5);
    PicksOfExample(c, 0);
  }

  /** Four bytes, three characters: one buffer, whose byte 0 is read twice as written. */
  lemma ExampleReads(stream: seq<bv8>)
    requires |stream| == 4
    ensures Steps(stream, 3) == 4
    ensures Reads(stream, AsWritten, 3, 4) == [stream[0], stream[1], stream[2], stream[0]]
    ensures Reads(stream, Corrected, 3, 4) == stream
  {
    ExampleLastStep(stream);
    ExampleStep(stream, 0);
    ExampleStep(stream, 1);
    ExampleStep(stream, 2);
    var w, c := Reads(stream, AsWritten, 3, 4), Reads(stream, Corrected, 3, 4);
    FourBytes(w, stream[0], stream[1], stream[2], stream[0]);
    FourBytes(c, stream[0], stream[1], stream[2], stream[3]);
    FourBytes(stream, stream[0], stream[1], stream[2], stream[3]);
  }

  lemma FourBytes(s: seq<bv8>, a: bv8, b: bv8, c: bv8, d: bv8)
    requires |s| == 4 && s[0] == a && s[1] == b && s[2] == c && s[3] == d
    ensures s == [a, b, c, d]
  {
  }

  lemma ExampleLastStep(stream: seq<bv8>)
    requires |stream| == 4
    ensures Steps(stream, 3) == 4
    ensures ByteAt(stream, AsWritten, 3, 3) == stream[0] && ByteAt(stream, Corrected, 3, 3) == stream[3]
  {
    AsWrittenRereads(stream, 3);
    assert Steps(stream, 3) == Start(4, 4);
  }

  lemma ExampleStep(stream: seq<bv8>, j: nat)
    requires |stream| == 4 && j < 3
    ensures Steps(stream, 3) == 4
    ensures ByteAt(stream, AsWritten, 3, j) == stream[j] && ByteAt(stream, Corrected, 3, j) == stream[j]
  {
    ExampleLastStep(stream);
    FirstBufferInOrder(stream, AsWritten, 3, j);
    FirstBufferInOrder(stream, Corrected, 3, j);
  }

  /** The 36-letter alphabet is masked with six bits. */
  lemma SmallMask()
    ensures Mask(36) == 63
  {
    assert BitLen(35) == 6 by {
      assert BitLen(1) == 1 && BitLen(2) == 2 && BitLen(4) == 3 && BitLen(8) == 4 && BitLen(17) == 5;
    }
    assert Pow2(6) == 64;
  }

  lemma PicksOfExample(bytes: seq<bv8>, last: bv8)
    requires bytes == [5, 50, 7, last] && (last == 5 || last == 0)
    ensures Picks(bytes, SmallLetters, 63) == if last == 5 then "575" else "570"
  {
    var b3: seq<bv8> := [5, 50, 7];
    assert bytes == b3 + [last];
    PicksOfExamplePrefix(b3);
    PicksSnoc(b3, last, SmallLetters, 63);
    assert Masked(last, 63) == last as nat;
    assert SmallLetters[5] == '5' && SmallLetters[0] == '0';
  }

  /** The first three bytes of the example keep "57": 50 is past the alphabet. */
  lemma PicksOfExamplePrefix(b3: seq<bv8>)
    requires b3 == [5, 50, 7]
    ensures Picks(b3, SmallLetters, 63) == "57"
  {
    var e: seq<bv8> := [];
    var b1 := e + [5];
    var b2 := b1 + [50];
    assert b3 == b2 + [7];
    assert Picks(b1, SmallLetters, 63) == "5" by {
      PicksSnoc(e, 5, SmallLetters, 63);
      assert Masked(5, 63) == 5 && SmallLetters[5] == '5';
    }
    assert Picks(b2, SmallLetters, 63) == "5" by {
      PicksSnoc(b1, 50, SmallLetters, 63);
      assert Masked(50, 63) == 50;
    }
    PicksSnoc(b2, 7, SmallLetters, 63);
    assert Masked(7, 63) == 7 && SmallLetters[7] == '7';
  }

  // ---------------------------------------------------------------------------
  // The two alphabets

  /** RandStringWithSmall: n characters of the digits and lower-case letters. */
  method RandStringWithSmall(n: int, stream: seq<bv8>) returns (r: Result<string, Error>)
    ensures n < 0 ==> r == Err(NegativeLength)
    ensures r.Ok? ==> |r.value| == n && forall c :: c in r.value ==> c in SmallLetters
    ensures n == 0 ==> r == Ok("")
    ensures n > 0 ==>
      var kept := Picks(stream[..Steps(stream, n)], SmallLetters, Mask(36));
      (r.Ok? <==> n <= |kept|) &&
      (r.Ok? ==> r.value == kept[..n]) &&
      (r.Err? ==> r == Err(Exhausted))
  {
    assert |SmallLetters| == 36;
    r := SecureRandomString(SmallLetters, n, stream, Corrected);
    if n > 0 {
      CorrectedReadsStream(stream, n);
    }
  }

  /** RandStringWithAll: n characters of the letters of both cases and the digits. */
  method RandStringWithAll(n: int, stream: seq<bv8>) returns (r: Result<string, Error>)
    ensures n < 0 ==> r == Err(NegativeLength)
    ensures r.Ok? ==> |r.value| == n && forall c :: c in r.value ==> c in AllLetters
    ensures n == 0 ==> r == Ok("")
    ensures n > 0 ==>
      var kept := Picks(stream[..Steps(stream, n)], AllLetters, Mask(62));
      (r.Ok? <==> n <= |kept|) &&
      (r.Ok? ==> r.value == kept[..n]) &&
      (r.Err? ==> r == Err(Exhausted))
  {
    assert |AllLetters| == 62;
    r := SecureRandomString(AllLetters, n, stream, Corrected);
    if n > 0 {
      CorrectedReadsStream(stream, n);
    }
  }
}
