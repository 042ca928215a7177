/** Variable-width LZW as GIF uses it (Appendix F of GIF89a): an encoder stated on strings, what
    decoding its bits yields, and that decoding gives the encoded indices back. */
module LzwSpec {
  import opened BitStreams

  const MAX_CODES: nat := 4096
  const MAX_WIDTH: nat := 12

  type Text = seq<nat>

  // ----- the encoder

  /** The clear code is the number of colours; the end code is the next one. */
  function Clear(min: nat): nat { Pow2(min) }

  function End(min: nat): nat { Clear(min) + 1 }

  /** The string table after a clear code: one string a colour, and two codes that mean none. */
  ghost function Roots(min: nat): (dict: seq<Text>)
    ensures |dict| == Clear(min) + 2
  {
    seq(Clear(min) + 2, i requires 0 <= i => if i < Clear(min) then [i] else [])
  }

  /** The encoder remembers each string it wrote followed by the next index, while there is room. */
  ghost function Grow(dict: seq<Text>, written: Text, left: Text): seq<Text>
  {
    if |dict| < MAX_CODES && left != [] then dict + [written + [left[0]]] else dict
  }

  /** `codes` are a conforming encoding of `s`: each code names a string the encoder knows and that
      comes next. The encoder may clear its table whenever it likes, and may end with the end code. */
  ghost predicate Encodes(min: nat, codes: seq<nat>, dict: seq<Text>, s: Text)
  {
    if codes == [] then s == []
    else
      var c, rest := codes[0], codes[1..];
      if c == Clear(min) then Encodes(min, rest, Roots(min), s)
      else if c == End(min) then s == []
      else
        && c < |dict| && dict[c] <= s
        && Encodes(min, rest, Grow(dict, dict[c], s[|dict[c]|..]), s[|dict[c]|..])
  }

  ghost predicate EndsProperly(min: nat, codes: seq<nat>) { codes != [] && codes[|codes| - 1] == End(min) }

  /** The table's size when `k` strings were written since it was cleared. */
  function Size(min: nat, k: nat): nat
  {
    if Clear(min) + 2 + k < MAX_CODES then Clear(min) + 2 + k else MAX_CODES
  }

  /** The fewest bits, at least `w` and at most twelve, that can write every code of a table. */
  function WidthFor(size: nat, w: nat): (r: nat)
    ensures r >= w && (w <= MAX_WIDTH ==> r <= MAX_WIDTH)
    decreases MAX_WIDTH - w
  {
    if size <= Pow2(w) || MAX_WIDTH <= w then w else WidthFor(size, w + 1)
  }

  function Width(min: nat, k: nat): nat { WidthFor(Size(min, k), min + 1) }

  /** The bits of a code stream, `k` strings after the last clear code, in front of `tail`. */
  ghost function CodesBits(min: nat, codes: seq<nat>, k: nat, tail: BitSeq): BitSeq
  {
    if codes == [] then tail
    else Low(codes[0], Width(min, k)) + CodesBits(min, codes[1..], if codes[0] == Clear(min) then 0 else k + 1, tail)
  }

  // ----- the decoder, on strings

  /** Indices are stored in bytes. */
  ghost function Bytes(s: Text): (r: seq<Byte>)
    ensures |r| == |s|
  {
    seq(|s|, i requires 0 <= i < |s| => s[i] % 256)
  }

  /** The decoder's table: the strings it knows, `previous` the code it read last (or -1), and the
      width of the next code. */
  datatype State = State(table: seq<seq<Byte>>, previous: int, width: nat)

  ghost function Start(min: nat): State
  {
    State(seq(Clear(min) + 2, i requires 0 <= i => [i % 256]), -1, min + 1)
  }

  /** What a code after the first stands for: a known string, or the one just about to be added. */
  ghost function TextOf(state: State, code: nat): (text: seq<Byte>)
    requires 0 <= state.previous < |state.table| && code <= |state.table|
    requires forall c :: 0 <= c < |state.table| ==> state.table[c] != []
    ensures text != []
  {
    if code < |state.table| then state.table[code]
    else state.table[state.previous] + [state.table[state.previous][0]]
  }

  ghost function Learn(state: State, code: nat, text: seq<Byte>): State
    requires 0 <= state.previous < |state.table| && text != []
  {
    if MAX_CODES <= |state.table| then state.(previous := code)
    else
      var table := state.table + [state.table[state.previous] + [text[0]]];
      State(table, code, if |table| == Pow2(state.width) && state.width < MAX_WIDTH then state.width + 1 else state.width)
  }

  ghost predicate Proper(min: nat, state: State)
  {
    && min + 1 <= state.width <= MAX_WIDTH
    && Clear(min) + 2 <= |state.table| <= MAX_CODES
    && (forall c :: 0 <= c < |state.table| ==> state.table[c] != [])
    && -1 <= state.previous < |state.table|
  }

  lemma StartProper(min: nat)
    requires 2 <= min <= 11
    ensures Proper(min, Start(min))
  {
    assert Pow2(11) == 2048;
    Pow2Monotone(min, 11);
  }

  lemma {:induction false} Pow2Monotone(a: nat, b: nat)
    requires a <= b
    ensures Pow2(a) <= Pow2(b)
    decreases b - a
  {
    if a < b {
      Pow2Monotone(a + 1, b);
    }
  }

  /** The indices decoded from a bit stream, at most `need` of them. */
  ghost function DecodeFrom(min: nat, bits: BitSeq, state: State, need: nat): (out: seq<Byte>)
    requires 2 <= min <= 11 && Proper(min, state)
    ensures |out| <= need
    decreases |bits|
  {
    if need == 0 || |bits| < state.width then []
    else
      var code, rest := LsbValue(bits[..state.width]), bits[state.width..];
      if code == Clear(min) then
        StartProper(min);
        DecodeFrom(min, rest, Start(min), need)
      else if code == End(min) then []
      else if state.previous < 0 then
        if Clear(min) <= code then []
        else [code % 256] + DecodeFrom(min, rest, state.(previous := code), need - 1)
      else if |state.table| < code then []
      else
        CodeInTable(bits, state.width, |state.table|);
        var text := TextOf(state, code);
        if need <= |text| then text[..need]
        else text + DecodeFrom(min, rest, Learn(state, code, text), need - |text|)
  }

  lemma DecodeEnds(min: nat, bits: BitSeq, state: State, need: nat)
    requires 2 <= min <= 11 && Proper(min, state) && (need == 0 || |bits| < state.width)
    ensures DecodeFrom(min, bits, state, need) == []
  {
  }

  lemma DecodeSpecial(min: nat, bits: BitSeq, state: State, need: nat, code: nat)
    requires 2 <= min <= 11 && Proper(min, state) && need > 0 && state.width <= |bits|
    requires code == LsbValue(bits[..state.width]) && !Names(min, code)
    ensures Proper(min, Start(min))
    ensures code == Clear(min) ==>
      DecodeFrom(min, bits, state, need) == DecodeFrom(min, bits[state.width..], Start(min), need)
    ensures code == End(min) ==> DecodeFrom(min, bits, state, need) == []
  {
    hide LsbValue, Pow2;
    StartProper(min);
  }

  lemma DecodeFirst(min: nat, bits: BitSeq, state: State, need: nat, code: nat)
    requires 2 <= min <= 11 && Proper(min, state) && need > 0 && state.width <= |bits|
    requires code == LsbValue(bits[..state.width]) && Names(min, code) && state.previous < 0
    ensures DecodeFrom(min, bits, state, need) ==
      if Clear(min) <= code then []
      else [code % 256] + DecodeFrom(min, bits[state.width..], state.(previous := code), need - 1)
  {
    hide LsbValue, Pow2;
  }

  lemma DecodeLater(min: nat, bits: BitSeq, state: State, need: nat, code: nat)
    requires 2 <= min <= 11 && Proper(min, state) && need > 0 && state.width <= |bits|
    requires code == LsbValue(bits[..state.width]) && Names(min, code) && 0 <= state.previous
    ensures |state.table| < code ==> DecodeFrom(min, bits, state, need) == []
    ensures code <= |state.table| ==>
      var text := TextOf(state, code);
      && code < MAX_CODES && Proper(min, Learn(state, code, text))
      && DecodeFrom(min, bits, state, need) ==
         if need <= |text| then text[..need]
         else text + DecodeFrom(min, bits[state.width..], Learn(state, code, text), need - |text|)
  {
    hide LsbValue, Pow2, TextOf;
    CodeInTable(bits, state.width, |state.table|);
  }

  /** The part of a later code's string that is asked for comes first. */
  lemma LaterComesFirst(min: nat, bits: BitSeq, state: State, need: nat, code: nat, count: nat)
    requires 2 <= min <= 11 && Proper(min, state) && need > 0 && state.width <= |bits|
    requires code == LsbValue(bits[..state.width]) && Names(min, code) && 0 <= state.previous && code <= |state.table|
    requires count == if |TextOf(state, code)| <= need then |TextOf(state, code)| else need
    ensures var text := TextOf(state, code);
      && Proper(min, Learn(state, code, text))
      && DecodeFrom(min, bits, state, need) ==
         text[..count] + DecodeFrom(min, bits[state.width..], Learn(state, code, text), need - count)
  {
    hide LsbValue, Pow2, TextOf, DecodeFrom;
    DecodeLater(min, bits, state, need, code);
    var text := TextOf(state, code);
    if need <= |text| {
      DecodeEnds(min, bits[state.width..], Learn(state, code, text), 0);
      assert text[..need] + [] == text[..need];
    } else {
      assert text[..count] == text;
    }
  }

  /** A code can only be new to a table that has room for it. */
  lemma CodeInTable(bits: BitSeq, width: nat, size: nat)
    requires width <= MAX_WIDTH && width <= |bits|
    ensures LsbValue(bits[..width]) < MAX_CODES
  {
    hide LsbValue;
    LsbValueBound(bits[..width]);
    assert Pow2(12) == 4096;
    Pow2Monotone(width, 12);
  }

  // ----- the decoder follows the encoder one string behind

  /** Encoder and decoder after `k` strings since the table was cleared: the decoder knows the
      encoder's strings but for the last, which continues the last written one by what comes next. */
  ghost predicate Follows(min: nat, dict: seq<Text>, k: nat, s: Text, state: State)
  {
    && Proper(min, state) && state.width == Width(min, k)
    && (forall c: nat :: c < |state.table| && c < |dict| && Names(min, c) ==> state.table[c] == Bytes(dict[c]))
    && if k == 0 then state.previous < 0 && dict == Roots(min) && |state.table| == |dict|
       else
         && 0 <= state.previous && |state.table| == Size(min, k - 1)
         && |dict| == (if s == [] then |state.table| else Size(min, k))
         && (|state.table| < |dict| ==> exists w: Text :: Continues(dict[|state.table|], w, s, state.table[state.previous]))
  }

  /** Clear and end name no string. */
  ghost predicate Names(min: nat, c: nat) { c != Clear(min) && c != End(min) }

  ghost predicate Continues(newest: Text, w: Text, s: Text, written: seq<Byte>)
  {
    s != [] && w != [] && newest == w + [s[0]] && written == Bytes(w)
  }

  lemma BytesOfParts(a: Text, b: Text)
    ensures Bytes(a + b) == Bytes(a) + Bytes(b)
  {
  }

  lemma BytesOfPrefix(s: Text, n: nat)
    requires n <= |s|
    ensures Bytes(s)[..n] == Bytes(s[..n]) && Bytes(s)[n..] == Bytes(s[n..])
  {
  }

  /** The code after a known string's continuation decodes to the string the encoder meant. */
  lemma TextAgrees(min: nat, dict: seq<Text>, k: nat, s: Text, state: State, c: nat)
    requires k > 0 && Follows(min, dict, k, s, state)
    requires c < |dict| && Names(min, c) && dict[c] <= s && dict[c] != []
    ensures c <= |state.table| && TextOf(state, c) == Bytes(dict[c])
  {
    if c >= |state.table| {
      var w: Text :| Continues(dict[|state.table|], w, s, state.table[state.previous]);
      assert s[0] == dict[c][0] == w[0];
      BytesOfParts(w, [s[0]]);
    }
  }

  /** Every string the encoder may write next is known to it and not empty. */
  lemma WritableIsNotEmpty(min: nat, dict: seq<Text>, k: nat, s: Text, state: State, c: nat)
    requires Follows(min, dict, k, s, state) && c < |dict| && Names(min, c)
    ensures dict[c] != []
  {
    if c < |state.table| {
      assert state.table[c] == Bytes(dict[c]);
    }
  }

  lemma {:induction false} WidthForStep(size: nat, w: nat)
    requires w <= MAX_WIDTH
    ensures var r := WidthFor(size, w);
      WidthFor(size + 1, w) == if size == Pow2(r) && r < MAX_WIDTH then r + 1 else r
    decreases MAX_WIDTH - w
  {
    if Pow2(w) < size && w < MAX_WIDTH {
      WidthForStep(size, w + 1);
    } else if w < MAX_WIDTH {
      assert size + 1 <= Pow2(w + 1);
    }
  }

  lemma WidthStart(min: nat)
    requires 2 <= min <= 11
    ensures Width(min, 0) == min + 1
  {
    assert Pow2(2) == 4;
    Pow2Monotone(2, min);
  }

  /** The decoder, growing by one entry, keeps the width the encoder writes with. */
  lemma WidthStep(min: nat, k: nat)
    requires 2 <= min <= 11
    ensures Width(min, k + 1) ==
      if Size(min, k) < MAX_CODES && Size(min, k) == Pow2(Width(min, k)) && Width(min, k) < MAX_WIDTH
      then Width(min, k) + 1 else Width(min, k)
  {
    hide Pow2, WidthFor;
    WidthForStep(Size(min, k), min + 1);
    if Size(min, k) < MAX_CODES {
      assert Size(min, k + 1) == Size(min, k) + 1;
    }
  }

  lemma {:induction false} WidthForFull(w: nat)
    requires w <= MAX_WIDTH
    ensures WidthFor(MAX_CODES, w) == MAX_WIDTH
    decreases MAX_WIDTH - w
  {
    assert Pow2(11) == 2048 && Pow2(12) == 4096;
    if w < MAX_WIDTH {
      Pow2Monotone(w, 11);
      WidthForFull(w + 1);
    }
  }

  lemma {:induction false} WidthForLeast(size: nat, w: nat)
    ensures w < WidthFor(size, w) ==> Pow2(WidthFor(size, w) - 1) < size
    decreases MAX_WIDTH - w
  {
    if Pow2(w) < size && w < MAX_WIDTH {
      WidthForLeast(size, w + 1);
    }
  }

  /** Codes are written in the fewest bits, from one more than the minimum code size up to twelve,
      that can write every code of the table; and the table has at most 4096. */
  lemma CodeWidths(min: nat, k: nat)
    requires 2 <= min <= 11
    ensures var size := if Pow2(min) + 2 + k < 4096 then Pow2(min) + 2 + k else 4096;
      var w := Width(min, k);
      && min + 1 <= w <= 12 && size <= Pow2(w) && (min + 1 < w ==> Pow2(w - 1) < size)
  {
    hide Pow2, WidthFor;
    WidthForFits(Size(min, k), min + 1);
    WidthForLeast(Size(min, k), min + 1);
  }

  /** Reading the first code after a clear code. */
  lemma FirstStep(min: nat, dict: seq<Text>, s: Text, state: State, c: nat)
    requires 2 <= min <= 11 && Follows(min, dict, 0, s, state)
    requires c < |dict| && Names(min, c) && dict[c] <= s
    ensures c < Clear(min) && dict[c] == [c] && s != [] && s[0] == c
    ensures Follows(min, Grow(dict, dict[c], s[1..]), 1, s[1..], state.(previous := c))
  {
    assert dict[c] == Roots(min)[c];
    WidthStart(min);
    WidthStep(min, 0);
    assert Pow2(11) == 2048;
    Pow2Monotone(min, 11);
    var next, left := Grow(dict, dict[c], s[1..]), s[1..];
    if left != [] {
      assert Continues(next[|dict|], [c], left, state.table[c]);
    }
  }

  /** Reading a later code. */
  lemma LaterStep(min: nat, dict: seq<Text>, k: nat, s: Text, state: State, c: nat)
    requires 2 <= min <= 11 && k > 0 && Follows(min, dict, k, s, state)
    requires c < |dict| && Names(min, c) && dict[c] <= s
    ensures c <= |state.table| && TextOf(state, c) == Bytes(dict[c])
    ensures var left := s[|dict[c]|..];
      Follows(min, Grow(dict, dict[c], left), k + 1, left, Learn(state, c, TextOf(state, c)))
  {
    hide Pow2, WidthFor;
    WritableIsNotEmpty(min, dict, k, s, state, c);
    TextAgrees(min, dict, k, s, state, c);
    var text, left := dict[c], s[|dict[c]|..];
    var next, learned := Grow(dict, text, left), Learn(state, c, TextOf(state, c));
    LearnAgrees(min, dict, k, s, state, c);
    WidthStep(min, k);
    if Size(min, k) == MAX_CODES {
      WidthForFull(min + 1);
    }
    assert learned.table[c] == Bytes(text);
    if left != [] && |learned.table| < |next| {
      assert Continues(next[|learned.table|], text, left, learned.table[learned.previous]);
    }
  }

  /** The entry the decoder adds is the one the encoder already has. */
  lemma LearnAgrees(min: nat, dict: seq<Text>, k: nat, s: Text, state: State, c: nat)
    requires k > 0 && Follows(min, dict, k, s, state)
    requires c < |dict| && dict[c] <= s && dict[c] != []
    requires c <= |state.table| && TextOf(state, c) == Bytes(dict[c])
    ensures |state.table| < MAX_CODES ==>
      && |state.table| < |dict|
      && Learn(state, c, TextOf(state, c)).table == state.table + [Bytes(dict[|state.table|])]
  {
    if |state.table| < MAX_CODES {
      var w: Text :| Continues(dict[|state.table|], w, s, state.table[state.previous]);
      BytesOfParts(w, [s[0]]);
      assert dict[c][0] == s[0] && TextOf(state, c)[0] == s[0] % 256;
      assert Bytes([s[0]]) == [s[0] % 256];
    }
  }

  lemma {:induction false} WidthForFits(size: nat, w: nat)
    requires size <= MAX_CODES && w <= MAX_WIDTH
    ensures size <= Pow2(WidthFor(size, w))
    decreases MAX_WIDTH - w
  {
    assert Pow2(12) == 4096;
    if Pow2(w) < size {
      WidthForFits(size, w + 1);
    }
  }

  lemma StartFollows(min: nat, s: Text)
    requires 2 <= min <= 11
    ensures Follows(min, Roots(min), 0, s, Start(min))
  {
    hide WidthFor;
    StartProper(min);
    WidthStart(min);
    forall c: nat | c < Clear(min) ensures Start(min).table[c] == Bytes(Roots(min)[c]) {
      assert Bytes([c]) == [c % 256];
    }
  }

  /** Every code of a conforming encoding fits the width it is written with. */
  lemma CodeFits(min: nat, dict: seq<Text>, k: nat, s: Text, state: State, c: nat, tail: BitSeq)
    requires 2 <= min <= 11 && Follows(min, dict, k, s, state)
    requires c < |dict| || !Names(min, c)
    ensures var bits := Low(c, Width(min, k)) + tail;
      state.width <= |bits| && LsbValue(bits[..state.width]) == c && bits[state.width..] == tail
  {
    hide WidthFor, LsbValue, Low;
    assert Size(min, k) <= Pow2(Width(min, k)) by { WidthForFits(Size(min, k), min + 1); }
    assert Clear(min) + 2 <= Size(min, k) && |dict| <= Size(min, k);
    NumberRoundTrip(c, Width(min, k), tail);
  }

  /** Decoding what a conforming encoder wrote gives the indices back, as bytes: as many as asked
      for, or all of them when the stream says where it ends. */
  lemma {:induction false} CodesRoundTrip(
    min: nat, codes: seq<nat>, dict: seq<Text>, k: nat, s: Text, state: State, need: nat, tail: BitSeq)
    requires 2 <= min <= 11 && Follows(min, dict, k, s, state) && Encodes(min, codes, dict, s)
    requires need <= |s| || EndsProperly(min, codes)
    ensures DecodeFrom(min, CodesBits(min, codes, k, tail), state, need) == Bytes(s)[..if need < |s| then need else |s|]
    decreases |codes|
  {
    hide Follows, Width, Low, LsbValue, Roots, Start, Grow, TextOf, Learn, Pow2;
    if codes != [] && need > 0 {
      var c, rest := codes[0], codes[1..];
      var next := if c == Clear(min) then 0 else k + 1;
      var more := CodesBits(min, rest, next, tail);
      assert Proper(min, state) && (k == 0 <==> state.previous < 0) by { FollowsBasics(min, dict, k, s, state); }
      CodeFits(min, dict, k, s, state, c, more);
      if c == Clear(min) {
        StartFollows(min, s);
        CodesRoundTrip(min, rest, Roots(min), 0, s, Start(min), need, tail);
      } else if c != End(min) {
        NamedRoundTrip(min, codes, dict, k, s, state, need, tail);
      }
    }
  }

  lemma FollowsBasics(min: nat, dict: seq<Text>, k: nat, s: Text, state: State)
    requires Follows(min, dict, k, s, state)
    ensures Proper(min, state) && (k == 0 <==> state.previous < 0)
  {
  }

  /** One string, decoded: its bytes come out and both sides go on. */
  lemma NamedStep(min: nat, dict: seq<Text>, k: nat, s: Text, state: State, c: nat, more: BitSeq, need: nat)
    returns (next: State)
    requires 2 <= min <= 11 && Follows(min, dict, k, s, state) && need > 0
    requires c < |dict| && Names(min, c) && dict[c] <= s
    ensures dict[c] != []
    ensures var left := s[|dict[c]|..]; Follows(min, Grow(dict, dict[c], left), k + 1, left, next)
    ensures Proper(min, next)
    ensures DecodeFrom(min, Low(c, Width(min, k)) + more, state, need) ==
      if need <= |dict[c]| then Bytes(dict[c])[..need]
      else Bytes(dict[c]) + DecodeFrom(min, more, next, need - |dict[c]|)
  {
    hide Follows, Width, Low, LsbValue, Roots, Start, Grow, Learn, Pow2;
    CodeFits(min, dict, k, s, state, c, more);
    FollowsBasics(min, dict, k, s, state);
    WritableIsNotEmpty(min, dict, k, s, state, c);
    if k == 0 {
      FirstStep(min, dict, s, state, c);
      assert Bytes(dict[c]) == [c % 256];
      next := state.(previous := c);
    } else {
      LaterStep(min, dict, k, s, state, c);
      next := Learn(state, c, TextOf(state, c));
    }
    FollowsBasics(min, Grow(dict, dict[c], s[|dict[c]|..]), k + 1, s[|dict[c]|..], next);
  }

  lemma NamedRoundTrip(
    min: nat, codes: seq<nat>, dict: seq<Text>, k: nat, s: Text, state: State, need: nat, tail: BitSeq)
    requires 2 <= min <= 11 && Follows(min, dict, k, s, state) && Encodes(min, codes, dict, s)
    requires Proper(min, state)
    requires codes != [] && need > 0 && Names(min, codes[0])
    requires need <= |s| || EndsProperly(min, codes)
    ensures DecodeFrom(min, CodesBits(min, codes, k, tail), state, need) == Bytes(s)[..if need < |s| then need else |s|]
    decreases |codes|, 0
  {
    hide Follows, Width, Low, LsbValue, Roots, Start, Grow, Learn, Pow2, DecodeFrom, Bytes;
    var c, rest := codes[0], codes[1..];
    var text, left := dict[c], s[|dict[c]|..];
    var next := NamedStep(min, dict, k, s, state, c, CodesBits(min, rest, k + 1, tail), need);
    BytesOfPrefix(s, |text|);
    assert text == s[..|text|];
    var all, want := Bytes(s), if need < |s| then need else |s|;
    if need <= |text| {
      assert all[..|text|][..need] == all[..need];
    } else {
      assert all[..|text|] + all[|text|..][..want - |text|] == all[..want];
      CodesRoundTrip(min, rest, Grow(dict, text, left), k + 1, left, next, need - |text|, tail);
    }
  }

  // ----- the usual encoder, and the law for every image

  /** A known string, other than clear and end, that begins `s` and is longest. */
  ghost function Longest(min: nat, dict: seq<Text>, s: Text, from: nat): (c: nat)
    requires from < |dict| && from < Clear(min) && dict[from] != [] && dict[from] <= s
    ensures c < |dict| && Names(min, c) && dict[c] != [] && dict[c] <= s
    ensures forall d: nat :: d < |dict| && Names(min, d) && dict[d] <= s ==> |dict[d]| <= |dict[c]|
  {
    LongestExists(min, dict, s, from, |s| + 1);
    var c: nat :| IsLongest(min, dict, s, c);
    c
  }

  ghost predicate IsLongest(min: nat, dict: seq<Text>, s: Text, c: nat)
  {
    && c < |dict| && Names(min, c) && dict[c] != [] && dict[c] <= s
    && forall d: nat :: d < |dict| && Names(min, d) && dict[d] <= s ==> |dict[d]| <= |dict[c]|
  }

  lemma {:induction false} LongestExists(min: nat, dict: seq<Text>, s: Text, from: nat, bound: nat)
    requires from < |dict| && Names(min, from) && dict[from] != [] && dict[from] <= s && |s| < bound + |dict[from]|
    ensures exists c: nat :: IsLongest(min, dict, s, c)
    decreases bound
  {
    if !IsLongest(min, dict, s, from) {
      var d: nat :| d < |dict| && Names(min, d) && dict[d] <= s && |dict[from]| < |dict[d]|;
      LongestExists(min, dict, s, d, bound - 1);
    }
  }

  /** The greedy encoder, from a cleared table to the end code. */
  ghost function Greedy(min: nat, dict: seq<Text>, s: Text): seq<nat>
    requires Roots(min) <= dict && forall i :: 0 <= i < |s| ==> s[i] < Clear(min)
    decreases |s|
  {
    if s == [] then [End(min)]
    else
      assert dict[s[0]] == Roots(min)[s[0]] == [s[0]];
      var c := Longest(min, dict, s, s[0]);
      [c] + Greedy(min, Grow(dict, dict[c], s[|dict[c]|..]), s[|dict[c]|..])
  }

  lemma {:induction false} GreedyEncodes(min: nat, dict: seq<Text>, s: Text)
    requires Roots(min) <= dict && forall i :: 0 <= i < |s| ==> s[i] < Clear(min)
    ensures Encodes(min, Greedy(min, dict, s), dict, s)
    ensures EndsProperly(min, Greedy(min, dict, s))
    decreases |s|
  {
    if s != [] {
      assert dict[s[0]] == Roots(min)[s[0]] == [s[0]];
      var c := Longest(min, dict, s, s[0]);
      var next, left := Grow(dict, dict[c], s[|dict[c]|..]), s[|dict[c]|..];
      GreedyEncodes(min, next, left);
      var more := Greedy(min, next, left);
      assert ([c] + more)[1..] == more;
    }
  }

  /** For every minimum code size and every conforming encoding of an image, decoding gives the
      image back as bytes, whatever bits follow: as many as are asked for, or all of them when the
      stream says where it ends. */
  lemma DecodingInvertsEncoding(min: nat, codes: seq<nat>, image: Text, need: nat, tail: BitSeq)
    requires 2 <= min <= 11 && Encodes(min, codes, Roots(min), image)
    requires need <= |image| || EndsProperly(min, codes)
    ensures Proper(min, Start(min))
    ensures DecodeFrom(min, CodesBits(min, codes, 0, tail), Start(min), need)
         == Bytes(image)[..if need < |image| then need else |image|]
  {
    hide Follows, DecodeFrom, CodesBits, Encodes;
    StartProper(min);
    StartFollows(min, image);
    CodesRoundTrip(min, codes, Roots(min), 0, image, Start(min), need, tail);
  }

  /** The image itself comes back exactly when its indices are bytes, as they always are for the
      minimum code sizes 2 to 8 of the format. */
  lemma BytesAreExact(min: nat, image: Text)
    ensures Bytes(image) == image <==> forall i :: 0 <= i < |image| ==> image[i] < 256
    ensures min <= 8 && (forall i :: 0 <= i < |image| ==> image[i] < Clear(min)) ==> Bytes(image) == image
  {
    if Bytes(image) == image {
      forall i | 0 <= i < |image| ensures image[i] < 256 {
        assert image[i] == Bytes(image)[i];
      }
    }
    if min <= 8 {
      assert Pow2(8) == 256;
      Pow2Monotone(min, 8);
    }
  }

  /** Any image has a conforming encoding: the greedy one after a clear code. */
  lemma EveryImageEncodes(min: nat, image: Text) returns (codes: seq<nat>)
    requires forall i :: 0 <= i < |image| ==> image[i] < Clear(min)
    ensures Encodes(min, codes, Roots(min), image) && EndsProperly(min, codes)
  {
    GreedyEncodes(min, Roots(min), image);
    codes := [Clear(min)] + Greedy(min, Roots(min), image);
    assert codes[1..] == Greedy(min, Roots(min), image);
  }

  /** An index of 256 in a minimum code size of 9 comes back as 0. */
  lemma WideIndexIsCut() returns (codes: seq<nat>)
    ensures Encodes(9, codes, Roots(9), [256]) && Proper(9, Start(9))
    ensures DecodeFrom(9, CodesBits(9, codes, 0, []), Start(9), 1) == [0]
  {
    hide DecodeFrom, CodesBits, Encodes;
    assert Pow2(9) == 512;
    codes := EveryImageEncodes(9, [256]);
    DecodingInvertsEncoding(9, codes, [256], 1, []);
    assert Bytes([256])[..1] == [0];
  }

  // ----- data sub-blocks

  /** The bytes of the data sub-blocks from `at`, `left` of the current one still to come; a
      zero length or the end of the data ends them. */
  ghost function Payload(data: seq<Byte>, at: nat, left: nat): seq<Byte>
    decreases |data| - at
  {
    if |data| <= at then []
    else if left > 0 then [data[at]] + Payload(data, at + 1, left - 1)
    else if data[at] == 0 then []
    else Payload(data, at + 1, data[at])
  }

  lemma PayloadCases(data: seq<Byte>, at: nat, left: nat)
    ensures |data| <= at || (left == 0 && data[at] == 0) ==> Payload(data, at, left) == []
    ensures at < |data| && left > 0 ==> Payload(data, at, left) == [data[at]] + Payload(data, at + 1, left - 1)
    ensures at < |data| && left == 0 && data[at] != 0 ==> Payload(data, at, left) == Payload(data, at + 1, data[at])
  {
  }

  /** Data sub-blocks as the format writes them. */
  ghost function Framed(chunks: seq<seq<Byte>>): seq<Byte>
    requires forall i :: 0 <= i < |chunks| ==> 1 <= |chunks[i]| <= 255
  {
    if chunks == [] then [0] else [|chunks[0]|] + chunks[0] + Framed(chunks[1..])
  }

  ghost function Joined(chunks: seq<seq<Byte>>): seq<Byte>
  {
    if chunks == [] then [] else chunks[0] + Joined(chunks[1..])
  }

  lemma {:induction false} PayloadOfChunk(before: seq<Byte>, chunk: seq<Byte>, after: seq<Byte>)
    ensures Payload(before + chunk + after, |before|, |chunk|)
         == chunk + Payload(before + chunk + after, |before| + |chunk|, 0)
    decreases |chunk|
  {
    if chunk != [] {
      assert before + chunk + after == (before + [chunk[0]]) + chunk[1..] + after;
      PayloadOfChunk(before + [chunk[0]], chunk[1..], after);
    }
  }

  /** However the code stream is cut into sub-blocks, the decoder reads it whole. */
  lemma {:induction false} PayloadOfFramed(before: seq<Byte>, chunks: seq<seq<Byte>>, after: seq<Byte>)
    requires forall i :: 0 <= i < |chunks| ==> 1 <= |chunks[i]| <= 255
    ensures Payload(before + Framed(chunks) + after, |before|, 0) == Joined(chunks)
    decreases |chunks|
  {
    var data := before + Framed(chunks) + after;
    if chunks != [] {
      var size, chunk, rest := [|chunks[0]|], chunks[0], Framed(chunks[1..]);
      assert data[|before|] == |chunk|;
      assert data == (before + size) + chunk + (rest + after);
      PayloadOfChunk(before + size, chunk, rest + after);
      assert data == (before + size + chunk) + rest + after;
      PayloadOfFramed(before + size + chunk, chunks[1..], after);
    }
  }
}
