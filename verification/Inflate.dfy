/** The inflater (models/image_decode.c, `inflate_block` and `wena_inflate_zlib`), proved to
    compute what the DEFLATE format says. */
module Inflater {
  import opened BitStreams
  import opened BitReaders
  import opened CanonicalCodes
  import opened HuffmanTables
  import opened DeflateFormat
  import opened InflateSpec

  // ----- the decoder's tables

  const LENGTH_BASE: seq<nat> := [
    3, 4, 5, 6, 7, 8, 9, 10, 11, 13, 15, 17, 19, 23, 27, 31, 35, 43, 51, 59,
    67, 83, 99, 115, 131, 163, 195, 227, 258]
  const LENGTH_EXTRA: seq<nat> := [
    0, 0, 0, 0, 0, 0, 0, 0, 1, 1, 1, 1, 2, 2, 2, 2, 3, 3, 3, 3, 4, 4, 4, 4, 5, 5, 5, 5, 0]
  const DISTANCE_BASE: seq<nat> := [
    1, 2, 3, 4, 5, 7, 9, 13, 17, 25, 33, 49, 65, 97, 129, 193, 257, 385, 513,
    769, 1025, 1537, 2049, 3073, 4097, 6145, 8193, 12289, 16385, 24577]
  const DISTANCE_EXTRA: seq<nat> := [
    0, 0, 0, 0, 1, 1, 2, 2, 3, 3, 4, 4, 5, 5, 6, 6, 7, 7, 8, 8, 9, 9, 10, 10, 11, 11, 12, 12, 13, 13]
  const CODE_LENGTH_ORDER: seq<nat> := [16, 17, 18, 0, 8, 7, 9, 6, 10, 5, 11, 4, 12, 3, 13, 2, 14, 1, 15]

  lemma SmallPowers()
    ensures Pow2(0) == 1 && Pow2(1) == 2 && Pow2(2) == 4 && Pow2(3) == 8 && Pow2(4) == 16 && Pow2(5) == 32
    ensures Pow2(6) == 64 && Pow2(7) == 128 && Pow2(8) == 256 && Pow2(9) == 512 && Pow2(10) == 1024
    ensures Pow2(11) == 2048 && Pow2(12) == 4096 && Pow2(13) == 8192
  {
    assert Pow2(4) == 16;
    assert Pow2(8) == 256;
    assert Pow2(12) == 4096;
  }

  lemma LengthTables(l: nat)
    requires l < 29
    ensures |LENGTH_BASE| == |LENGTH_EXTRA| == 29
    ensures LENGTH_BASE[l] == LengthBase(l) && LENGTH_EXTRA[l] == LengthExtra(l) <= 5
  {
    hide Pow2;
    SmallPowers();
  }

  lemma DistanceTables(d: nat)
    requires d < 30
    ensures |DISTANCE_BASE| == |DISTANCE_EXTRA| == 30
    ensures DISTANCE_BASE[d] == DistanceBase(d) && DISTANCE_EXTRA[d] == DistanceExtra(d) <= 13
  {
    hide Pow2;
    var k := d / 2;
    assert DISTANCE_EXTRA[d] == DistanceExtra(d);
    if k < 8 {
      DistanceBaseLow(d);
    } else {
      DistanceBaseHigh(d);
    }
  }

  lemma DistanceBaseLow(d: nat)
    requires d < 16
    ensures |DISTANCE_BASE| == 30 && DISTANCE_BASE[d] == DistanceBase(d)
  {
    hide Pow2;
    SmallPowers();
  }

  lemma DistanceBaseHigh(d: nat)
    requires 16 <= d < 30
    ensures |DISTANCE_BASE| == 30 && DISTANCE_BASE[d] == DistanceBase(d)
  {
    hide Pow2;
    SmallPowers();
  }

  lemma OrderTable(i: nat)
    requires i < 19
    ensures |CODE_LENGTH_ORDER| == 19 && CODE_LENGTH_ORDER[i] == CodeLengthOrder(i)
  {
  }

  // ----- compressed blocks

  /** What a decoding step reports of an outcome: success with its bytes and the bits it left, or
      failure. Nothing is promised of an undefined one. */
  ghost predicate Reported(outcome: Outcome<seq<Byte>>, ok: bool, out: seq<Byte>, rest: BitSeq)
  {
    match outcome
    case Done(value, after) => ok && out == value && rest == after
    case Corrupt => !ok
    case Undefined => true
  }

  /** A back-reference is copied a byte at a time, so that it may run into what it writes. */
  method CopyBack(out: array<Byte>, used0: nat, distance: nat, length0: nat) returns (used: nat)
    requires 0 < distance <= used0 && used0 + length0 <= out.Length
    modifies out
    ensures used == used0 + length0 && out[..used] == Copy(old(out[..used0]), distance, length0)
    ensures forall i :: used <= i < out.Length ==> out[i] == old(out[i])
  {
    used := used0;
    var length := length0;
    while length > 0
      invariant used + length == used0 + length0
      invariant forall i :: used <= i < out.Length ==> out[i] == old(out[i])
      invariant used0 <= used && Copy(out[..used], distance, length) == Copy(old(out[..used0]), distance, length0)
    {
      ghost var before := out[..used];
      out[used] := out[used - distance];
      assert out[..used + 1] == before + [before[used - distance]];
      used := used + 1;
      length := length - 1;
    }
  }

  /** What reading a back-reference reports. */
  ghost predicate MatchRead(read: Option<(Token, BitSeq)>, ok: bool, length: nat, distance: nat, rest: BitSeq)
  {
    match read
    case None => !ok
    case Some((t, after)) =>
      ok && rest == after && t.Match? && t.Valid() && length == t.CopyLength() && distance == t.CopyDistance()
  }

  /** The length and distance after length symbol `257 + l`. */
  method ReadMatch(b: BitReader, dist: Huffman, ghost codes: CodePair, l: nat)
    returns (ok: bool, length: nat, distance: nat)
    requires b.Valid() && !b.error && dist.Counted(codes.distances) && l < 29
    modifies b
    ensures b.Valid() && (ok ==> !b.error && 0 < distance && |b.rest| <= |old(b.rest)|)
    ensures old(dist.Represents(codes.distances)) ==>
              MatchRead(MatchFrom(codes, l, old(b.rest)), ok, length, distance, b.rest)
  {
    hide LsbValue, NextSymbol, LengthBase, DistanceBase, LengthExtra, DistanceExtra;
    length, distance := 0, 0;
    LengthTables(l);
    var extra := b.Take(LENGTH_EXTRA[l]);
    length := LENGTH_BASE[l] + extra;
    var d := dist.Decode(b, codes.distances);
    if d < 0 || d >= 30 {
      return false, 0, 0;
    }
    DistanceTables(d);
    extra := b.Take(DISTANCE_EXTRA[d]);
    distance := DISTANCE_BASE[d] + extra;
    ok := !b.error;
  }

  /** `inflate_block`: tokens up to the end of the block, appended to the output. It never writes
      past the end of `out`. */
  method InflateBlock(b: BitReader, lit: Huffman, dist: Huffman, ghost codes: CodePair, out: array<Byte>, used0: nat)
    returns (ok: bool, used: nat)
    requires b.Valid() && !b.error && used0 <= out.Length
    requires lit.Counted(codes.literals) && dist.Counted(codes.distances)
    modifies b, out
    ensures b.Valid() && used <= out.Length && (ok ==> !b.error && |b.rest| < |old(b.rest)|)
    ensures used0 <= used && forall i :: used <= i < out.Length ==> out[i] == old(out[i])
    ensures old(lit.Represents(codes.literals) && dist.Represents(codes.distances)) ==>
              Reported(BlockFrom(codes, old(b.rest), old(out[..used0]), out.Length), ok, out[..used], b.rest)
  {
    hide Huffman.Counted, BitReader.Valid, Copy, LsbValue, Huffman.Represents, NextSymbol, MatchFrom, Token.CopyLength, Token.CopyDistance;
    used := used0;
    ghost var exact := lit.Represents(codes.literals) && dist.Represents(codes.distances);
    ghost var outcome := BlockFrom(codes, b.rest, out[..used], out.Length);
    while true
      invariant b.Valid() && !b.error && used <= out.Length && |b.rest| <= |old(b.rest)|
      invariant lit.Counted(codes.literals) && dist.Counted(codes.distances)
      invariant used0 <= used && forall i :: used <= i < out.Length ==> out[i] == old(out[i])
      invariant exact ==> lit.Represents(codes.literals) && dist.Represents(codes.distances)
      invariant exact ==> BlockFrom(codes, b.rest, out[..used], out.Length) == outcome
      decreases |b.rest|
    {
      ghost var bits := b.rest;
      ghost var before := out[..used];
      var symbol := lit.Decode(b, codes.literals);
      if symbol < 0 {
        return false, used;
      }
      if symbol < 256 {
        if out.Length <= used {
          return false, used;
        }
        out[used] := symbol;
        used := used + 1;
        assert out[..used] == before + [symbol];
      } else if symbol == 256 {
        return true, used;
      } else {
        symbol := symbol - 257;
        if symbol >= 29 {
          return false, used;
        }
        var read, length, distance := ReadMatch(b, dist, codes, symbol);
        if !read || distance > used || used + length > out.Length {
          return false, used;
        }
        used := CopyBack(out, used, distance, length);
      }
    }
  }

  // ----- stored blocks

  function LittleEndian(data: seq<Byte>, at: nat): nat
    requires at + 2 <= |data|
  {
    (data[at] as nat) + 256 * (data[at + 1] as nat)
  }

  /** A stored block read byte by byte. */
  lemma StoredBytes(data: seq<Byte>, at: nat, out: seq<Byte>, capacity: nat)
    requires at <= |data|
    ensures AlignedFrom(ByteBits(data[at..]), out, capacity) ==
      if |data| < at + 4 then Corrupt
      else
        var size := LittleEndian(data, at);
        if 0xFFFF - size != LittleEndian(data, at + 2) || |data| < at + 4 + size || capacity < |out| + size then Corrupt
        else Done(out + data[at + 4..at + 4 + size], ByteBits(data[at + 4 + size..]))
  {
    hide Low, LsbValue, ByteBits, BytesOf;
    if at + 4 <= |data| {
      var size := LittleEndian(data, at);
      TwoBytes(data, at);
      TwoBytes(data, at + 2);
      if at + 4 + size <= |data| {
        SomeBytes(data, at + 4, size);
      }
    }
  }

  /** A stored block, with its size and the complement of its size in front. */
  method InflateStored(b: BitReader, out: array<Byte>, used0: nat) returns (ok: bool, used: nat)
    requires b.Valid() && !b.error && used0 <= out.Length
    modifies b, out
    ensures b.Valid() && used <= out.Length && (ok ==> !b.error && |b.rest| <= |old(b.rest)|)
    ensures used0 <= used && forall i :: used <= i < out.Length ==> out[i] == old(out[i])
    ensures Reported(StoredFrom(old(b.rest), old(out[..used0]), out.Length), ok, out[..used], b.rest)
  {
    hide LsbValue, ByteBits, BytesOf, AlignedFrom;
    used := used0;
    b.AlignToByte();
    StoredBytes(b.data, b.at, out[..used], out.Length);
    if b.at + 4 > |b.data| {
      return false, used;
    }
    var size := (b.data[b.at] as nat) + 256 * (b.data[b.at + 1] as nat);
    var check := (b.data[b.at + 2] as nat) + 256 * (b.data[b.at + 3] as nat);
    b.at := b.at + 4;
    if 0xFFFF - size != check || b.at + size > |b.data| || used + size > out.Length {
      b.rest := ByteBits(b.data[b.at..]);
      return false, used;
    }
    CopyIn(out, used, b.data[b.at..b.at + size]);
    used := used + size;
    b.at := b.at + size;
    b.rest := ByteBits(b.data[b.at..]);
    ok := true;
  }

  /** The bytes of a stored block are appended. */
  method CopyIn(out: array<Byte>, used: nat, bytes: seq<Byte>)
    requires used + |bytes| <= out.Length
    modifies out
    ensures out[..used + |bytes|] == old(out[..used]) + bytes
    ensures forall i :: used + |bytes| <= i < out.Length ==> out[i] == old(out[i])
  {
    forall i | 0 <= i < |bytes| {
      out[used + i] := bytes[i];
    }
  }

  // ----- dynamic blocks

  /** What reading the code lengths reports. */
  ghost predicate LengthsRead(read: Option<(seq<nat>, BitSeq)>, ok: bool, lengths: seq<nat>, rest: BitSeq)
  {
    match read
    case None => !ok
    case Some((all, after)) => ok && lengths == all && rest == after
  }

  /** A run of one code length is appended. */
  method Repeated(lengths: array<nat>, n0: nat, value: nat, repeat0: nat) returns (n: nat)
    requires n0 + repeat0 <= lengths.Length
    modifies lengths
    ensures n == n0 + repeat0 && lengths[..n] == old(lengths[..n0]) + Fill(value, repeat0)
  {
    n := n0;
    var repeat := repeat0;
    while repeat > 0
      invariant n + repeat == n0 + repeat0 && n0 <= n
      invariant lengths[..n0] == old(lengths[..n0])
      invariant forall i :: n0 <= i < n ==> lengths[i] == value
    {
      lengths[n] := value;
      n := n + 1;
      repeat := repeat - 1;
    }
  }

  /** A code-length symbol settles the operation but for its extra bits. */
  lemma OpStep(code: seq<nat>, bits: BitSeq, symbol: nat, after: BitSeq)
    requires |code| == 19 && NextSymbol(code, bits) == Some((symbol, after))
    ensures OpFrom(code, bits) ==
      var extra := OpExtraBits(symbol);
      if |after| < extra then None else Some((OpOf(symbol, LsbValue(after[..extra])), after[extra..]))
    ensures symbol < 16 ==> OpFrom(code, bits) == Some((Lengths(symbol), after))
  {
    hide NextSymbol, LsbValue;
    assert after[0..] == after;
  }

  lemma NoOp(code: seq<nat>, bits: BitSeq)
    requires |code| == 19 && NextSymbol(code, bits).None?
    ensures OpFrom(code, bits).None?
  {
    hide NextSymbol;
  }

  lemma LengthsDone(code: seq<nat>, bits: BitSeq, lengths: seq<nat>)
    requires |code| == 19
    ensures LengthsFrom(code, bits, |lengths|, lengths) == Some((lengths, bits))
  {
  }

  /** One operation is applied, or there is none to apply. */
  lemma LengthsStep(code: seq<nat>, bits: BitSeq, total: nat, lengths: seq<nat>, next: seq<nat>)
    requires |code| == 19 && |lengths| < total && |next| <= total
    requires OpFrom(code, bits).Some? && ApplyOp(OpFrom(code, bits).value.0, lengths) == Some(next)
    ensures LengthsFrom(code, bits, total, lengths) == LengthsFrom(code, OpFrom(code, bits).value.1, total, next)
  {
    hide OpFrom;
  }

  lemma LengthsFail(code: seq<nat>, bits: BitSeq, total: nat, lengths: seq<nat>)
    requires |code| == 19 && |lengths| < total
    requires OpFrom(code, bits).None? || ApplyOp(OpFrom(code, bits).value.0, lengths).None?
             || total < |ApplyOp(OpFrom(code, bits).value.0, lengths).value|
    ensures LengthsFrom(code, bits, total, lengths).None?
  {
    hide OpFrom;
  }

  /** The literal and distance code lengths, run-length coded with the code-length code. */
  method ReadLengths(b: BitReader, table: Huffman, ghost code: seq<nat>, total: nat) returns (ok: bool, all: seq<nat>)
    requires b.Valid() && !b.error && |code| == 19 && table.Counted(code) && table.Represents(code) && total <= 316
    modifies b
    ensures b.Valid() && (ok ==> !b.error)
    ensures LengthsRead(LengthsFrom(code, old(b.rest), total, []), ok, all, b.rest)
  {
    hide Huffman.Represents, Huffman.Counted, NextSymbol, BitReader.Valid, LsbValue, LengthsFrom, OpFrom;
    var lengths := new nat[320];
    var n := 0;
    ghost var outcome := LengthsFrom(code, b.rest, total, []);
    while n < total
      invariant b.Valid() && !b.error && table.Counted(code) && table.Represents(code) && 0 <= n <= total
      invariant LengthsFrom(code, b.rest, total, lengths[..n]) == outcome
      decreases |b.rest|
    {
      ghost var before := lengths[..n];
      ghost var bits := b.rest;
      var symbol := table.Decode(b, code);
      if symbol < 0 {
        NoOp(code, bits);
        LengthsFail(code, bits, total, before);
        return false, [];
      }
      ghost var after := b.rest;
      OpStep(code, bits, symbol, after);
      if symbol < 16 {
        lengths[n] := symbol;
        n := n + 1;
        assert lengths[..n] == before + [symbol];
        LengthsStep(code, bits, total, before, lengths[..n]);
        continue;
      }
      var value, repeat := 0, 0;
      if symbol == 16 {
        if n == 0 {
          LengthsFail(code, bits, total, before);
          return false, [];
        }
        value := lengths[n - 1];
        var extra := b.Take(2);
        repeat := 3 + extra;
      } else if symbol == 17 {
        var extra := b.Take(3);
        repeat := 3 + extra;
      } else {
        var extra := b.Take(7);
        repeat := 11 + extra;
      }
      if b.error || n + repeat > total {
        LengthsFail(code, bits, total, before);
        return false, [];
      }
      n := Repeated(lengths, n, value, repeat);
      LengthsStep(code, bits, total, before, lengths[..n]);
    }
    LengthsDone(code, b.rest, lengths[..n]);
    return true, lengths[..n];
  }

  /** What building the two tables of a dynamic block promises: when they are over-subscribed the
      symbols of one of them are left as they were. */
  ghost predicate CodesRead(outcome: Outcome<CodePair>, ok: bool, codes: CodePair, lit: Huffman, dist: Huffman, rest: BitSeq)
    reads lit.count, lit.symbol, dist.count, dist.symbol
  {
    match outcome
    case Done(pair, after) =>
      ok && codes == pair && rest == after && lit.Represents(pair.literals) && dist.Represents(pair.distances)
    case Corrupt => !ok
    case Undefined => true
  }

  /** The code-length code: each length goes to its place in a table of zeros. */
  method ReadCodeLengths(b: BitReader, sent: nat) returns (all: seq<nat>)
    requires b.Valid() && !b.error && sent <= 19
    modifies b
    ensures b.Valid() && |all| == 19 && LengthsValid(all)
    ensures b.error <==> |old(b.rest)| < 3 * sent
    ensures !b.error ==> all == Received(old(b.rest), 0, sent, Fill(0, 19)) && b.rest == old(b.rest)[3 * sent..]
  {
    hide LsbValue, CodeLengthOrder, Received, BitReader.Valid;
    var lengths := new nat[19](_ => 0);
    ghost var bits := b.rest;
    assert lengths[..] == Fill(0, 19);
    for i := 0 to sent
      invariant b.Valid() && (b.error ==> |bits| < 3 * sent)
      invariant forall k :: 0 <= k < 19 ==> lengths[k] < 8
      invariant !b.error ==> 3 * i <= |bits| && b.rest == bits[3 * i..]
      invariant !b.error && 3 * sent <= |bits| ==>
                  Received(b.rest, i, sent, lengths[..]) == Received(bits, 0, sent, Fill(0, 19))
    {
      ghost var was := b.rest;
      var value := b.Take(3);
      ThreeBits(was, value);
      OrderTable(i);
      if 3 * sent <= |bits| && 3 * i + 3 <= |bits| {
        ReceivedStep(was, i, sent, lengths[..]);
      }
      lengths[CODE_LENGTH_ORDER[i]] := value;
    }
    all := lengths[..];
    if !b.error {
      ReceivedAll(b.rest, sent, all);
    }
  }

  lemma ReceivedStep(bits: BitSeq, from: nat, sent: nat, code: seq<nat>)
    requires from < sent <= 19 && |code| == 19 && 3 * (sent - from) <= |bits|
    ensures Received(bits, from, sent, code) ==
            Received(bits[3..], from + 1, sent, code[CodeLengthOrder(from) := LsbValue(bits[..3])])
  {
    hide LsbValue, CodeLengthOrder;
  }

  lemma ReceivedAll(bits: BitSeq, sent: nat, code: seq<nat>)
    requires sent <= 19 && |code| == 19
    ensures Received(bits, sent, sent, code) == code
  {
  }

  lemma ThreeBits(bits: BitSeq, value: nat)
    requires value == if |bits| < 3 then 0 else LsbValue(bits[..3])
    ensures value < 8
  {
    hide LsbValue;
    PowersOfTwo();
    if 3 <= |bits| {
      LsbValueBound(bits[..3]);
    }
  }

  /** The code-length code, its table, and the code lengths it codes. */
  method ReadAllLengths(b: BitReader, total: nat, sent: nat) returns (ok: bool, all: seq<nat>)
    requires b.Valid() && !b.error && sent <= 19 && total <= 316
    modifies b
    ensures b.Valid() && (ok ==> !b.error && |all| == total && AllAtMost(all, MAX_BITS))
    ensures LengthsRead(AllLengthsFrom(total, sent, old(b.rest)), ok, all, b.rest)
  {
    hide LsbValue, Received, LengthsFrom, Counts, Huffman.Counted, BitReader.Valid;
    all := [];
    var lengths := ReadCodeLengths(b, sent);
    if b.error {
      return false, all;
    }
    var table := new Huffman();
    ok := table.Build(lengths);
    if ok {
      ok, all := ReadLengths(b, table, lengths, total);
    }
  }

  /** Both tables are built; when either cannot be, the second is built once more and the outcome
      is not looked at. */
  method BuildCodes(lit: Huffman, dist: Huffman, codes: CodePair)
    requires lit.Shaped() && dist.Shaped() && {lit.count, lit.symbol} !! {dist.count, dist.symbol}
    requires LengthsValid(codes.literals) && LengthsValid(codes.distances)
    modifies lit.count, lit.symbol, dist.count, dist.symbol
    ensures lit.Counted(codes.literals) && dist.Counted(codes.distances)
    ensures codes.Valid() ==> lit.Represents(codes.literals) && dist.Represents(codes.distances)
  {
    hide Kraft, Counts, PlacedBefore;
    var built := lit.Build(codes.literals);
    if built {
      built := dist.Build(codes.distances);
    }
    if !built {
      built := dist.Build(codes.distances);
    }
  }

  /** The tables of a dynamic block. */
  method ReadCodes(b: BitReader, lit: Huffman, dist: Huffman) returns (ok: bool, ghost codes: CodePair)
    requires b.Valid() && !b.error && lit.Shaped() && dist.Shaped()
    requires {lit.count, lit.symbol} !! {dist.count, dist.symbol}
    modifies b, lit.count, lit.symbol, dist.count, dist.symbol
    ensures b.Valid()
    ensures ok ==> !b.error && |b.rest| <= |old(b.rest)|
    ensures ok ==> lit.Counted(codes.literals) && dist.Counted(codes.distances)
    ensures CodesRead(HeaderFrom(old(b.rest)), ok, codes, lit, dist, b.rest)
  {
    hide BitReader.Valid, LsbValue, AllLengthsFrom, Kraft, Counts, Huffman.Counted, Huffman.Represents;
    codes := CodePair([], []);
    ghost var bits := b.rest;
    var literals := b.Take(5);
    var distances := b.Take(5);
    var sent := b.Take(4);
    literals, distances, sent := literals + 257, distances + 1, sent + 4;
    if b.error || literals > 286 || distances > 30 {
      return false, codes;
    }
    HeaderStart(bits);
    var all;
    ok, all := ReadAllLengths(b, literals + distances, sent);
    if ok {
      var pair := CodePair(all[..literals], all[literals..]);
      BuildCodes(lit, dist, pair);
      codes := pair;
    }
  }

  lemma HeaderStart(bits: BitSeq)
    requires 14 <= |bits|
    ensures LsbValue(bits[5..][5..][..4]) + 4 <= 19
  {
    hide LsbValue;
    PowersOfTwo();
    LsbValueBound(bits[5..][5..][..4]);
  }

  // ----- the whole stream

  method InflateFixed(b: BitReader, out: array<Byte>, used0: nat) returns (ok: bool, used: nat)
    requires b.Valid() && !b.error && used0 <= out.Length
    modifies b, out
    ensures b.Valid() && used <= out.Length && (ok ==> !b.error && |b.rest| <= |old(b.rest)|)
    ensures used0 <= used && forall i :: used <= i < out.Length ==> out[i] == old(out[i])
    ensures Reported(BodyFrom(1, old(b.rest), old(out[..used0]), out.Length), ok, out[..used], b.rest)
  {
    hide BlockFrom, FixedLiterals, FixedDistances, Kraft, Counts, BitReader.Valid;
    FixedCodesValid();
    var lit := new Huffman();
    var dist := new Huffman();
    var built := lit.Build(FixedLiterals());
    built := dist.Build(FixedDistances());
    ok, used := InflateBlock(b, lit, dist, FixedCodes(), out, used0);
  }

  method InflateDynamic(b: BitReader, out: array<Byte>, used0: nat) returns (ok: bool, used: nat)
    requires b.Valid() && !b.error && used0 <= out.Length
    modifies b, out
    ensures b.Valid() && used <= out.Length && (ok ==> !b.error && |b.rest| <= |old(b.rest)|)
    ensures used0 <= used && forall i :: used <= i < out.Length ==> out[i] == old(out[i])
    ensures Reported(BodyFrom(2, old(b.rest), old(out[..used0]), out.Length), ok, out[..used], b.rest)
  {
    hide BlockFrom, HeaderFrom, Huffman.Counted, Huffman.Represents, BitReader.Valid;
    used := used0;
    var lit := new Huffman();
    var dist := new Huffman();
    ghost var codes;
    ok, codes := ReadCodes(b, lit, dist);
    if ok {
      ok, used := InflateBlock(b, lit, dist, codes, out, used);
    }
  }

  /** One block after its three header bits. */
  method InflateBody(b: BitReader, kind: nat, out: array<Byte>, used0: nat) returns (ok: bool, used: nat)
    requires b.Valid() && !b.error && used0 <= out.Length
    modifies b, out
    ensures b.Valid() && used <= out.Length && (ok ==> !b.error && |b.rest| <= |old(b.rest)|)
    ensures used0 <= used && forall i :: used <= i < out.Length ==> out[i] == old(out[i])
    ensures Reported(BodyFrom(kind, old(b.rest), old(out[..used0]), out.Length), ok, out[..used], b.rest)
  {
    hide BlockFrom, HeaderFrom, StoredFrom;
    used := used0;
    if kind == 0 {
      ok, used := InflateStored(b, out, used);
    } else if kind == 1 {
      ok, used := InflateFixed(b, out, used);
    } else if kind == 2 {
      ok, used := InflateDynamic(b, out, used);
    } else {
      ok := false;
    }
  }

  /** `wena_inflate_zlib`: the number of bytes written, or -1. It ends because every block uses
      up bits, and it writes only into `out`. */
  method InflateZlib(data: seq<Byte>, out: array<Byte>) returns (used: int)
    modifies out
    ensures -1 <= used <= out.Length
    ensures 0 <= used ==> out[used..] == old(out[used..])
    ensures match ZlibFrom(data, out.Length)
      case Done(value, _) => used == |value| && out[..used] == value
      case Corrupt => used == -1
      case Undefined => true
  {
    hide BodyFrom, LsbValue, BitReader.Valid, ByteBits;
    if |data| < 2 || data[0] % 16 != 8 || (256 * (data[0] as nat) + data[1] as nat) % 31 != 0 || data[1] / 32 % 2 != 0 {
      return -1;
    }
    var b := new BitReader(data[2..]);
    ghost var outcome := StreamFrom(b.rest, [], out.Length);
    used := 0;
    var last := false;
    assert out[..0] == [];
    while !last
      invariant b.Valid() && !b.error && 0 <= used <= out.Length
      invariant forall i :: used <= i < out.Length ==> out[i] == old(out[i])
      invariant if last then outcome.Undefined? || outcome == Done(out[..used], b.rest)
                else outcome.Undefined? || StreamFrom(b.rest, out[..used], out.Length) == outcome
      decreases !last, |b.rest|
    {
      ghost var bits := b.rest;
      ghost var before := out[..used];
      var lastBit := b.Take(1);
      var kind := b.Take(2);
      if b.error {
        return -1;
      }
      FirstBit(bits);
      last := lastBit == 1;
      var ok;
      ok, used := InflateBody(b, kind, out, used);
      if !ok {
        return -1;
      }
    }
  }

  lemma FirstBit(bits: BitSeq)
    requires bits != []
    ensures LsbValue(bits[..1]) == BitValue(bits[0])
  {
    OneBit(bits);
  }
}
