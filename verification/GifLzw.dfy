/** The LZW loop of the GIF decoder (models/image_decode.c, `gif`). */
module GifLzw {
  import opened BitStreams
  import opened BitReaders
  import opened LzwSpec

  /** The loop's own bit reader: it takes bytes from the data sub-blocks. */
  class CodeReader {
    const data: seq<Byte>
    var at: nat
    var blockLeft: nat
    var buffer: nat
    var count: nat
    ghost var rest: BitSeq

    ghost predicate Valid()
      reads this
    {
      Fits(buffer, count) && rest == Low(buffer, count) + ByteBits(Payload(data, at, blockLeft))
    }

    constructor (bytes: seq<Byte>, start: nat)
      ensures Valid() && data == bytes && rest == ByteBits(Payload(bytes, start, 0))
    {
      data := bytes;
      at, blockLeft, buffer, count := start, 0, 0, 0;
      rest := ByteBits(Payload(bytes, start, 0));
    }

    /** The next `width` bits, or failure when the sub-blocks end before that. */
    method Next(width: nat) returns (ok: bool, code: nat)
      requires Valid() && width <= MAX_WIDTH
      modifies this
      ensures Valid() && (ok <==> width <= |old(rest)|)
      ensures ok ==> code == LsbValue(old(rest)[..width]) && rest == old(rest)[width..]
    {
      hide Low, Or, Shl, Shr, Mask, ByteBits, LsbValue, Payload, Fits;
      code := 0;
      while count < width
        invariant Valid() && rest == old(rest)
        decreases |data| - at, blockLeft
      {
        PayloadCases(data, at, blockLeft);
        if blockLeft == 0 {
          if |data| <= at || data[at] == 0 {
            break;
          }
          blockLeft := data[at];
          at := at + 1;
        }
        PayloadCases(data, at, blockLeft);
        if |data| <= at {
          break;
        }
        LoadFront(buffer, count, data[at], Payload(data, at + 1, blockLeft - 1));
        buffer := Or(buffer, Shl(data[at], count));
        at := at + 1;
        count := count + 8;
        blockLeft := blockLeft - 1;
      }
      if count < width {
        ok := false;
      } else {
        Split(buffer, count, width, ByteBits(Payload(data, at, blockLeft)));
        ok := true;
        code := Mask(buffer, width);
        buffer := Shr(buffer, width);
        count := count - width;
        rest := rest[width..];
      }
    }
  }

  // ----- the table as prefix chains

  /** The arrays hold the strings of `table`: an entry is its prefix's string and one byte more.
      Prefixes lie below their entries, so a string is no longer than its code is above the clear
      code, and the stack of 4097 bytes always has room. */
  ghost predicate Chains(min: nat, table: seq<seq<Byte>>, prefix: seq<nat>, suffix: seq<Byte>, first: seq<Byte>)
  {
    && |prefix| == |suffix| == |first| == MAX_CODES
    && Clear(min) + 2 <= |table| <= MAX_CODES
    && (forall c: nat :: c < |table| ==> table[c] != [])
    && (forall c: nat :: c < Clear(min) ==> table[c] == [c % 256] && first[c] == c % 256)
    && (forall c: nat :: Clear(min) + 2 <= c < |table| ==> Link(min, table, c, prefix[c], suffix[c], first[c]))
  }

  ghost predicate Link(min: nat, table: seq<seq<Byte>>, c: nat, prefix: nat, suffix: Byte, first: Byte)
    requires c < |table| && table[c] != []
  {
    && prefix < c && Names(min, prefix) && table[c] == table[prefix] + [suffix]
    && first == table[c][0] && |table[c]| + Clear(min) <= c
  }

  /** `first[c]` is the byte the string of `c` begins with. */
  lemma FirstByte(min: nat, table: seq<seq<Byte>>, prefix: seq<nat>, suffix: seq<Byte>, first: seq<Byte>, c: nat)
    requires Chains(min, table, prefix, suffix, first) && c < |table| && Names(min, c)
    ensures first[c] == table[c][0]
    ensures |table[c]| < MAX_CODES - 1
  {
    hide Pow2;
    if Clear(min) <= c {
      assert Link(min, table, c, prefix[c], suffix[c], first[c]);
      assert Clear(min) > 0;
    }
  }

  /** Adding the entry the decoder learns keeps the chains. */
  lemma ChainsGrow(min: nat, table: seq<seq<Byte>>, prefix: seq<nat>, suffix: seq<Byte>, first: seq<Byte>, p: nat, b: Byte)
    requires Chains(min, table, prefix, suffix, first) && p < |table| < MAX_CODES && Names(min, p)
    ensures var n := |table|;
      Chains(min, table + [table[p] + [b]], prefix[n := p], suffix[n := b], first[n := first[p]])
  {
    hide Pow2;
    FirstByte(min, table, prefix, suffix, first, p);
    var n, grown := |table|, table + [table[p] + [b]];
    var prefix', suffix', first' := prefix[n := p], suffix[n := b], first[n := first[p]];
    assert |table[p]| + Clear(min) <= p || (p < Clear(min) && |table[p]| == 1);
    forall c: nat | Clear(min) + 2 <= c < |grown|
      ensures Link(min, grown, c, prefix'[c], suffix'[c], first'[c])
    {
      if c < n {
        assert Link(min, table, c, prefix[c], suffix[c], first[c]);
      }
    }
  }

  class Tables {
    const prefix: array<nat>
    const suffix: array<Byte>
    const first: array<Byte>
    const stack: array<Byte>

    ghost predicate Shaped()
    {
      && prefix.Length == suffix.Length == first.Length == MAX_CODES && stack.Length == MAX_CODES + 1
      && suffix != first && suffix != stack && first != stack
    }

    ghost predicate Holds(min: nat, table: seq<seq<Byte>>)
      reads prefix, suffix, first
    {
      Chains(min, table, prefix[..], suffix[..], first[..])
    }

    constructor (min: nat)
      requires 2 <= min <= 11
      ensures Shaped() && fresh(prefix) && fresh(suffix) && fresh(first) && fresh(stack)
      ensures Holds(min, Start(min).table)
    {
      prefix := new nat[MAX_CODES];
      suffix := new Byte[MAX_CODES];
      first := new Byte[MAX_CODES];
      stack := new Byte[MAX_CODES + 1];
      new;
      assert Pow2(11) == 2048;
      Pow2Monotone(min, 11);
      hide Pow2;
      for i := 0 to Clear(min)
        invariant forall k :: 0 <= k < i ==> first[k] == k % 256
      {
        prefix[i] := 0xFFFF;
        suffix[i] := i % 256;
        first[i] := i % 256;
      }
    }

    /** A clear code forgets every entry; the roots were never overwritten. */
    lemma Cleared(min: nat, table: seq<seq<Byte>>)
      requires Holds(min, table)
      ensures Holds(min, Start(min).table)
    {
      hide Pow2;
    }

    /** The string of `code` onto the stack, last byte first, by following prefixes to a root;
        `top0` bytes are there already. The guard of the source's loop never cuts it short. */
    method Unwind(min: nat, ghost table: seq<seq<Byte>>, code: nat, top0: nat) returns (top: nat, root: nat)
      requires Shaped() && Holds(min, table) && code < |table| && Names(min, code) && top0 <= 1
      modifies stack
      ensures Holds(min, table) && top == top0 + |table[code]| <= MAX_CODES
      ensures root % 256 == table[code][0]
      ensures forall i :: 0 <= i < top0 ==> stack[i] == old(stack[i])
      ensures forall i :: top0 <= i < top ==> stack[i] == table[code][top - 1 - i]
    {
      hide Pow2;
      var c: nat := code;
      ghost var text := table[code];
      FirstByte(min, table, prefix[..], suffix[..], first[..], code);
      top := top0;
      while c >= Clear(min) && top < MAX_CODES
        invariant Holds(min, table) && c < |table| && Names(min, c)
        invariant top0 <= top && top - top0 + |table[c]| == |text|
        invariant table[c] == text[..|table[c]|]
        invariant forall i :: 0 <= i < top0 ==> stack[i] == old(stack[i])
        invariant forall i :: top0 <= i < top ==> stack[i] == text[|text| - 1 - (i - top0)]
        decreases c
      {
        assert Link(min, table, c, prefix[..][c], suffix[..][c], first[..][c]);
        stack[top] := suffix[c];
        top := top + 1;
        c := prefix[c];
      }
      assert c < Clear(min) && table[c] == [c % 256];
      root := c;
      stack[top] := root % 256;
      top := top + 1;
    }

    /** The string a later code stands for, last byte first: a code not in the table yet is the
        previous string followed by its own first byte. */
    method TextOnStack(min: nat, ghost state: State, previous: nat, code: nat, next: nat) returns (top: nat, root: nat)
      requires Shaped() && Holds(min, state.table) && next == |state.table|
      requires state.previous == previous < next && code <= next && Names(min, previous) && Names(min, code)
      modifies stack
      ensures Holds(min, state.table) && top == |TextOf(state, code)| <= stack.Length
      ensures root % 256 == TextOf(state, code)[0]
      ensures forall i :: 0 <= i < top ==> stack[i] == TextOf(state, code)[top - 1 - i]
    {
      hide Pow2, Chains;
      HeldStrings(min, state.table);
      if code >= next {
        FirstByte(min, state.table, prefix[..], suffix[..], first[..], previous);
        stack[0] := first[previous];
        top, root := Unwind(min, state.table, previous, 1);
      } else {
        top, root := Unwind(min, state.table, code, 0);
      }
    }

    lemma HeldStrings(min: nat, table: seq<seq<Byte>>)
      requires Holds(min, table)
      ensures forall c :: 0 <= c < |table| ==> table[c] != []
      ensures Clear(min) + 2 <= |table| <= MAX_CODES
    {
    }

    /** A new entry, and the code width that goes with it. */
    method AddEntry(min: nat, ghost state: State, previous: nat, root: nat, ghost code: nat, ghost text: seq<Byte>,
                    next0: nat, width0: nat)
      returns (next: nat, width: nat)
      requires Shaped() && Holds(min, state.table) && next0 == |state.table| < MAX_CODES && width0 == state.width
      requires state.previous == previous < next0 && Names(min, previous) && text != [] && root % 256 == text[0]
      modifies prefix, suffix, first
      ensures Holds(min, Learn(state, code, text).table)
      ensures next == |Learn(state, code, text).table| && width == Learn(state, code, text).width
    {
      hide Chains;
      next, width := next0, width0;
      ChainsGrow(min, state.table, prefix[..], suffix[..], first[..], previous, text[0]);
      prefix[next] := previous;
      suffix[next] := root % 256;
      first[next] := first[previous];
      next := next + 1;
      if next == Pow2(width) && width < 12 {
        width := width + 1;
      }
    }
  }

  /** The stack is emptied into the image, as far as the image has room. */
  method PopAll(stack: array<Byte>, top0: nat, indices: array<Byte>, pixel0: nat, ghost text: seq<Byte>) returns (pixel: nat)
    requires top0 == |text| <= stack.Length && stack != indices && pixel0 <= indices.Length
    requires forall i :: 0 <= i < top0 ==> stack[i] == text[top0 - 1 - i]
    modifies indices
    ensures pixel == if |text| <= indices.Length - pixel0 then pixel0 + |text| else indices.Length
    ensures indices[..pixel] == old(indices[..pixel0]) + text[..pixel - pixel0]
  {
    pixel := pixel0;
    var top: nat := top0;
    while top > 0 && pixel < indices.Length
      invariant pixel0 <= pixel <= indices.Length && top + pixel == top0 + pixel0
      invariant indices[..pixel] == old(indices[..pixel0]) + text[..pixel - pixel0]
    {
      top := top - 1;
      indices[pixel] := stack[top];
      assert indices[..pixel + 1] == indices[..pixel] + [text[pixel - pixel0]];
      pixel := pixel + 1;
    }
  }

  /** A code after the first: its string comes out and the table learns an entry if it has room. */
  method LaterCode(t: Tables, min: nat, ghost state: State, previous: nat, code: nat, next0: nat, width0: nat,
                   indices: array<Byte>, pixel0: nat)
    returns (next: nat, width: nat, pixel: nat)
    requires t.Shaped() && t.Holds(min, state.table) && Proper(min, state)
    requires next0 == |state.table| && width0 == state.width && state.previous == previous && code <= next0
    requires code < MAX_CODES && Names(min, previous) && Names(min, code)
    requires indices != t.stack && indices != t.suffix && indices != t.first && pixel0 <= indices.Length
    modifies t.prefix, t.suffix, t.first, t.stack, indices
    ensures t.Holds(min, Learn(state, code, TextOf(state, code)).table)
    ensures Proper(min, Learn(state, code, TextOf(state, code)))
    ensures next == |Learn(state, code, TextOf(state, code)).table|
    ensures width == Learn(state, code, TextOf(state, code)).width
    ensures pixel == if |TextOf(state, code)| <= indices.Length - pixel0 then pixel0 + |TextOf(state, code)| else indices.Length
    ensures indices[..pixel] == old(indices[..pixel0]) + TextOf(state, code)[..pixel - pixel0]
  {
    hide Pow2, Chains, TextOf;
    next, width := next0, width0;
    ghost var text := TextOf(state, code);
    var top, root := t.TextOnStack(min, state, previous, code, next);
    if next < 4096 {
      next, width := t.AddEntry(min, state, previous, root, code, text, next, width);
    }
    pixel := PopAll(t.stack, top, indices, pixel0, text);
  }

  /** A code after the first, in the run of the decoder: what comes out is what was to come. */
  method NextIndices(t: Tables, min: nat, ghost bits: BitSeq, ghost state: State, previous: nat, code: nat,
                     next0: nat, width0: nat, indices: array<Byte>, pixel0: nat)
    returns (next: nat, width: nat, pixel: nat, ghost learned: State)
    requires t.Shaped() && t.Holds(min, state.table) && 2 <= min <= 11 && Proper(min, state)
    requires next0 == |state.table| && width0 == state.width && state.previous == previous && code <= next0
    requires Names(min, previous) && Names(min, code) && pixel0 < indices.Length
    requires state.width <= |bits| && code == LsbValue(bits[..state.width])
    requires indices != t.stack && indices != t.suffix && indices != t.first
    modifies t.prefix, t.suffix, t.first, t.stack, indices
    ensures Proper(min, learned) && t.Holds(min, learned.table) && learned.previous == code
    ensures next == |learned.table| && width == learned.width && pixel0 <= pixel <= indices.Length
    ensures indices[..pixel] + DecodeFrom(min, bits[state.width..], learned, indices.Length - pixel)
         == old(indices[..pixel0]) + DecodeFrom(min, bits, state, indices.Length - pixel0)
  {
    hide Pow2, Chains, LsbValue, Tables.Holds, Learn, TextOf, DecodeFrom;
    ghost var before, text := indices[..pixel0], TextOf(state, code);
    CodeInTable(bits, width0, next0);
    LaterText(state, code);
    next, width, pixel := LaterCode(t, min, state, previous, code, next0, width0, indices, pixel0);
    LaterComesFirst(min, bits, state, indices.Length - pixel0, code, pixel - pixel0);
    learned := Learn(state, code, text);
    Associative(before, text[..pixel - pixel0], DecodeFrom(min, bits[state.width..], learned, indices.Length - pixel));
    LearnPrevious(state, code, text);
  }

  /** The first code after a clear code, likewise. */
  method FirstIndex(min: nat, ghost bits: BitSeq, ghost state: State, code: nat, indices: array<Byte>, pixel: nat)
    requires 2 <= min <= 11 && Proper(min, state) && state.previous < 0 && code < Clear(min) && pixel < indices.Length
    requires state.width <= |bits| && code == LsbValue(bits[..state.width])
    modifies indices
    ensures Proper(min, state.(previous := code))
    ensures indices[..pixel + 1]
            + DecodeFrom(min, bits[state.width..], state.(previous := code), indices.Length - pixel - 1)
         == old(indices[..pixel]) + DecodeFrom(min, bits, state, indices.Length - pixel)
  {
    hide Pow2, LsbValue, DecodeFrom;
    ghost var before := indices[..pixel];
    DecodeFirst(min, bits, state, indices.Length - pixel, code);
    indices[pixel] := code % 256;
    assert indices[..pixel + 1] == before + [code % 256];
    ghost var tail := DecodeFrom(min, bits[state.width..], state.(previous := code), indices.Length - pixel - 1);
    Associative(before, [code % 256], tail);
  }

  /** The LZW loop over the image's sub-blocks: `pixel` indices are decoded, at most `n`. */
  method DecodeIndices(data: seq<Byte>, at: nat, min: nat, n: nat) returns (indices: array<Byte>, pixel: nat)
    requires 2 <= min <= 11
    ensures Proper(min, Start(min))
    ensures fresh(indices) && indices.Length == n && pixel <= n
    ensures indices[..pixel] == DecodeFrom(min, ByteBits(Payload(data, at, 0)), Start(min), n)
  {
    hide Pow2, Chains, LsbValue, ByteBits, Payload, CodeReader.Valid, Tables.Holds, Start, Learn, TextOf, DecodeFrom;
    StartProper(min);
    indices := new Byte[n];
    pixel := 0;
    var r := new CodeReader(data, at);
    var t := new Tables(min);
    var clear, end := Clear(min), Clear(min) + 1;
    var width, next, previous: int := min + 1, clear + 2, -1;
    ghost var state := Start(min);
    ghost var all := DecodeFrom(min, r.rest, state, n);
    StartShape(min);
    assert indices[..0] == [];
    while pixel < n
      invariant r.Valid() && t.Shaped() && t.Holds(min, state.table) && pixel <= n
      invariant Proper(min, state) && next == |state.table| && width == state.width && previous == state.previous
      invariant previous >= 0 ==> Names(min, previous)
      invariant fresh(r) && fresh(t.prefix) && fresh(t.suffix) && fresh(t.first) && fresh(t.stack)
      invariant indices != t.stack && indices != t.suffix && indices != t.first
      invariant all == indices[..pixel] + DecodeFrom(min, r.rest, state, n - pixel)
      decreases |r.rest|
    {
      ghost var bits := r.rest;
      var ok, code := r.Next(width);
      if !ok {
        DecodeEnds(min, bits, state, n - pixel);
        break;
      }
      if code == clear || code == end {
        DecodeSpecial(min, bits, state, n - pixel, code);
      }
      if code == clear {
        width, next, previous := min + 1, clear + 2, -1;
        t.Cleared(min, state.table);
        state := Start(min);
        StartShape(min);
        continue;
      }
      if code == end {
        break;
      }
      if previous < 0 {
        if code >= clear {
          DecodeFirst(min, bits, state, n - pixel, code);
          break;
        }
        FirstIndex(min, bits, state, code, indices, pixel);
        pixel := pixel + 1;
        previous := code;
        state := state.(previous := code);
        continue;
      }
      if code > next {
        DecodeLater(min, bits, state, n - pixel, code);
        break;
      }
      next, width, pixel, state := NextIndices(t, min, bits, state, previous, code, next, width, indices, pixel);
      previous := code;
    }
    if pixel == n {
      DecodeEnds(min, r.rest, state, 0);
    }
  }

  lemma StartShape(min: nat)
    ensures |Start(min).table| == Clear(min) + 2 && Start(min).width == min + 1 && Start(min).previous == -1
  {
  }

  lemma LaterText(state: State, code: nat)
    requires 0 <= state.previous < |state.table| && code <= |state.table|
    requires forall c :: 0 <= c < |state.table| ==> state.table[c] != []
    ensures TextOf(state, code) != []
  {
  }

  lemma LearnPrevious(state: State, code: nat, text: seq<Byte>)
    requires 0 <= state.previous < |state.table| && text != []
    ensures Learn(state, code, text).previous == code
  {
  }
}
