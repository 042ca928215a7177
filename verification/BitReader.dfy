/** The inflater's bit reader (models/image_decode.c, `Bits` and `bits`). */
module BitReaders {
  import opened BitStreams

  /** Loading a byte above the held bits keeps the stream of remaining bits. */
  lemma LoadByte(buffer: nat, count: nat, data: seq<Byte>, at: nat)
    requires at < |data| && Fits(buffer, count)
    ensures Fits(Or(buffer, Shl(data[at], count)), count + 8)
    ensures Low(Or(buffer, Shl(data[at], count)), count + 8) + ByteBits(data[at + 1..])
         == Low(buffer, count) + ByteBits(data[at..])
  {
    ByteFits(data[at]);
    hide Low, Or, Shl;
    OrAppends(buffer, count, data[at], 8);
    ByteBitsHead(data, at);
  }

  lemma LoadFront(buffer: nat, count: nat, byte: Byte, bytes: seq<Byte>)
    requires Fits(buffer, count)
    ensures Fits(Or(buffer, Shl(byte, count)), count + 8)
    ensures Low(Or(buffer, Shl(byte, count)), count + 8) + ByteBits(bytes)
         == Low(buffer, count) + ByteBits([byte] + bytes)
  {
    hide Low, Or, Shl, ByteBits;
    var data := [byte] + bytes;
    LoadByte(buffer, count, data, 0);
    assert data[0..] == data && data[1..] == bytes;
  }

  /** Masking and shifting split the held bits. */
  lemma Split(buffer: nat, count: nat, need: nat, tail: BitSeq)
    requires need <= count && Fits(buffer, count)
    ensures Fits(Shr(buffer, need), count - need)
    ensures Mask(buffer, need) == LsbValue((Low(buffer, count) + tail)[..need])
    ensures Low(Shr(buffer, need), count - need) + tail == (Low(buffer, count) + tail)[need..]
  {
    LowSplit(buffer, need, count);
    ShrFits(buffer, need, count);
    LsbValueOfLow(buffer, need);
    assert (Low(buffer, count) + tail)[..need] == Low(buffer, need);
  }

  /** Fewer than eight bits before whole bytes are the odd bits of the stream. */
  lemma WholeBytes(held: BitSeq, bytes: seq<Byte>)
    requires |held| <= 7
    ensures |held + ByteBits(bytes)| % 8 == |held|
    ensures (held + ByteBits(bytes))[|held|..] == ByteBits(bytes)
  {
    assert |held + ByteBits(bytes)| == |held| + 8 * |bytes|;
  }

  class BitReader {
    const data: seq<Byte>
    var at: nat
    var buffer: nat
    var count: nat
    var error: bool

    /** The bits not yet handed out. */
    ghost var rest: BitSeq

    /** Between calls at most seven bits are held, so what a stored block drops is padding. */
    ghost predicate Valid()
      reads this
    {
      && at <= |data| && Fits(buffer, count) && (count <= 7 || error)
      && rest == Low(buffer, count) + ByteBits(data[at..])
    }

    constructor (bytes: seq<Byte>)
      ensures Valid() && !error && data == bytes && rest == ByteBits(bytes)
    {
      data := bytes;
      at, buffer, count, error := 0, 0, 0, false;
      rest := ByteBits(bytes);
      new;
      assert bytes[0..] == bytes;
    }

    /** `bits(b, need)`: the next `need` bits as a number, or the sticky error. */
    method Take(need: nat) returns (value: nat)
      requires Valid() && need <= 16
      modifies this
      ensures Valid()
      ensures |old(rest)| < need ==> error && value == 0 && rest == old(rest)
      ensures need <= |old(rest)| ==>
                && error == old(error)
                && value == LsbValue(old(rest)[..need])
                && rest == old(rest)[need..]
    {
      hide Low, Or, Shl, Shr, Mask, ByteBits, LsbValue;
      while count < need
        invariant at <= |data| && Fits(buffer, count) && (count <= need + 7 || error)
        invariant rest == old(rest) == Low(buffer, count) + ByteBits(data[at..])
        invariant error == old(error)
        decreases |data| - at
      {
        if |data| <= at {
          error := true;
          return 0;
        }
        LoadByte(buffer, count, data, at);
        buffer := Or(buffer, Shl(data[at], count));
        at := at + 1;
        count := count + 8;
      }
      Split(buffer, count, need, ByteBits(data[at..]));
      value := Mask(buffer, need);
      buffer := Shr(buffer, need);
      count := count - need;
      rest := rest[need..];
    }

    /** The stored-block case: the bits left of the current byte are dropped. */
    method AlignToByte()
      requires Valid() && !error
      modifies this`buffer, this`count, this`rest
      ensures Valid() && count == 0 && buffer == 0
      ensures rest == old(rest)[|old(rest)| % 8..]
    {
      WholeBytes(Low(buffer, count), data[at..]);
      rest := rest[count..];
      buffer := 0;
      count := 0;
    }
  }
}
