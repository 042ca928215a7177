/** Trimming as ECMAScript does it, on UTF-8 (models/text.c, `wena_model_text_trim_bounds`). */
module Trimming {
  import opened BitStreams
  import opened Utf8Text

  /** White space and line terminators (sections 12.2 and 12.3 of ECMA-262). */
  predicate Whitespace(c: nat)
  {
    || 9 <= c <= 13 || c == 32 || c == 160 || c == 5760 || 8192 <= c <= 8202 || c == 8232 || c == 8233
    || c == 8239 || c == 8287 || c == 12288 || c == 65279
  }

  ghost predicate Blank(cs: seq<nat>) { forall i :: 0 <= i < |cs| ==> Whitespace(cs[i]) }

  /** `cs` is blanks, then what trimming keeps, then blanks. */
  ghost predicate Trimmed(cs: seq<nat>, before: seq<nat>, kept: seq<nat>, after: seq<nat>)
  {
    && cs == before + kept + after && Blank(before) && Blank(after)
    && (kept == [] ==> before == [])
    && (kept != [] ==> !Whitespace(kept[0]) && !Whitespace(kept[|kept| - 1]))
  }

  /** There is only one way to trim. */
  lemma TrimmedOnce(cs: seq<nat>, b1: seq<nat>, k1: seq<nat>, a1: seq<nat>, b2: seq<nat>, k2: seq<nat>, a2: seq<nat>)
    requires Trimmed(cs, b1, k1, a1) && Trimmed(cs, b2, k2, a2)
    ensures b1 == b2 && k1 == k2 && a1 == a2
  {
    TrimmedPlace(cs, b1, k1, a1);
    TrimmedPlace(cs, b2, k2, a2);
    if k1 != [] || k2 != [] {
      assert |b1| == |b2| && |b1| + |k1| == |b2| + |k2|;
    }
    assert b1 == cs[..|b1|] && b2 == cs[..|b2|];
    assert k1 == cs[|b1|..|b1| + |k1|] && k2 == cs[|b2|..|b2| + |k2|];
    assert a1 == cs[|b1| + |k1|..] && a2 == cs[|b2| + |k2|..];
  }

  /** The kept part runs from the first character that is no blank to the last. */
  lemma TrimmedPlace(cs: seq<nat>, before: seq<nat>, kept: seq<nat>, after: seq<nat>)
    requires Trimmed(cs, before, kept, after)
    ensures forall i :: 0 <= i < |cs| && !Whitespace(cs[i]) ==> |before| <= i < |before| + |kept|
    ensures kept != [] ==> !Whitespace(cs[|before|]) && !Whitespace(cs[|before| + |kept| - 1])
  {
  }

  /** The three parts, character by character. */
  ghost function Trim(cs: seq<nat>): (r: (seq<nat>, seq<nat>, seq<nat>))
    ensures Trimmed(cs, r.0, r.1, r.2)
  {
    if cs == [] then ([], [], [])
    else
      var (before, kept, after) := Trim(cs[..|cs| - 1]);
      TrimmedNext(cs[..|cs| - 1], before, kept, after, cs[|cs| - 1]);
      assert cs == cs[..|cs| - 1] + [cs[|cs| - 1]];
      TrimNext(before, kept, after, cs[|cs| - 1])
  }

  ghost function TrimNext(before: seq<nat>, kept: seq<nat>, after: seq<nat>, c: nat): (seq<nat>, seq<nat>, seq<nat>)
  {
    if Whitespace(c) then (before, kept, after + [c])
    else if kept == [] then (after, [c], [])
    else (before, kept + after + [c], [])
  }

  lemma TrimmedNext(cs: seq<nat>, before: seq<nat>, kept: seq<nat>, after: seq<nat>, c: nat)
    requires Trimmed(cs, before, kept, after)
    ensures var (b, k, a) := TrimNext(before, kept, after, c); Trimmed(cs + [c], b, k, a)
  {
    hide Whitespace;
  }

  lemma PartScalars(a: seq<nat>, b: seq<nat>)
    requires Scalars(a + b)
    ensures Scalars(a) && Scalars(b)
  {
    assert forall i :: 0 <= i < |a| ==> a[i] == (a + b)[i];
    assert forall i :: 0 <= i < |b| ==> b[i] == (a + b)[|a| + i];
  }

  lemma PartsEncoded(cs: seq<nat>, before: seq<nat>, kept: seq<nat>, after: seq<nat>)
    requires Scalars(cs) && cs == before + kept + after
    ensures Scalars(before) && Scalars(kept) && Scalars(after)
    ensures Encoded(cs) == Encoded(before) + Encoded(kept) + Encoded(after)
  {
    hide Encoded, Scalars;
    PartScalars(before + kept, after);
    PartScalars(before, kept);
    EncodedConcat(before, kept);
    EncodedConcat(before + kept, after);
  }

  /** What trimming leaves of a well-formed string. */
  ghost function TrimmedText(s: Text): (r: Text)
    requires Decoded(s).Some?
  {
    var cs := Decoded(s).value;
    var (before, kept, after) := Trim(cs);
    PartsEncoded(cs, before, kept, after);
    Encoded(kept)
  }

  /** Where the scan for the ends stands after the scalars `cs`. */
  ghost predicate Bounds(cs: seq<nat>, first: nat, last: nat, length: nat)
    requires Scalars(cs)
  {
    var (before, kept, after) := Trim(cs);
    PartsEncoded(cs, before, kept, after);
    if kept == [] then first == length
    else first == |Encoded(before)| < length && last == |Encoded(before)| + |Encoded(kept)|
  }

  lemma TrimOneMore(cs: seq<nat>, c: nat)
    ensures var (before, kept, after) := Trim(cs); Trim(cs + [c]) == TrimNext(before, kept, after, c)
  {
    hide TrimNext;
    assert (cs + [c])[..|cs|] == cs;
  }

  /** The size of the scalars read so far, as the parts have it. */
  lemma TrimSizes(cs: seq<nat>)
    requires Scalars(cs)
    ensures var (before, kept, after) := Trim(cs);
      && Scalars(before) && Scalars(kept) && Scalars(after) && (kept == [] ==> before == [] && after == cs)
      && |Encoded(cs)| == |Encoded(before)| + |Encoded(kept)| + |Encoded(after)|
  {
    hide Encoded, Trim, Scalars;
    var (before, kept, after) := Trim(cs);
    TrimParts(cs);
    PartsEncoded(cs, before, kept, after);
    assert [] + [] + after == after;
  }

  lemma BoundsNext(cs: seq<nat>, first: nat, last: nat, length: nat, c: nat)
    requires Scalars(cs) && Scalar(c) && Bounds(cs, first, last, length) && |Encoded(cs)| < length
    ensures Scalars(cs + [c]) && |Encoded(cs + [c])| == |Encoded(cs)| + |Utf8(c)|
    ensures if Whitespace(c) then Bounds(cs + [c], first, last, length)
            else Bounds(cs + [c], if first == length then |Encoded(cs)| else first, |Encoded(cs)| + |Utf8(c)|, length)
  {
    hide Utf8, Whitespace, Encoded, Trim;
    var (before, kept, after) := Trim(cs);
    TrimOneMore(cs, c);
    TrimSizes(cs);
    EncodedSnoc(cs, c);
    TrimSizes(cs + [c]);
    SizeOfNone();
    EncodedSnoc([], c);
    assert [] + [c] == [c] && [] + Utf8(c) == Utf8(c);
  }

  lemma SizeOfNone()
    ensures |Encoded([])| == 0 && Encoded([]) == []
  {
  }

  lemma TrimParts(cs: seq<nat>)
    ensures var (before, kept, after) := Trim(cs); cs == before + kept + after && (kept == [] ==> before == [])
  {
  }

  /** Where a decoder stands: the scalars read, and what the rest makes of the whole. */
  ghost predicate Reading(input: Text, offset: nat, past: seq<nat>)
  {
    && offset <= |input| && Scalars(past) && Encoded(past) == input[..offset]
    && match Decoded(input[offset..])
       case None => Decoded(input).None?
       case Some(cs) => Decoded(input) == Some(past + cs)
  }

  lemma ReadingStarts(input: Text)
    ensures Reading(input, 0, [])
  {
    assert input[0..] == input && input[..0] == [];
    EncodedNone();
    if Decoded(input).Some? {
      assert [] + Decoded(input).value == Decoded(input).value;
    }
  }

  lemma OneMoreScalar(cs: seq<nat>, c: nat)
    requires Scalars(cs) && Scalar(c)
    ensures Scalars(cs + [c])
  {
  }

  lemma ReadingOn(input: Text, offset: nat, past: seq<nat>)
    requires Reading(input, offset, past) && offset < |input|
    ensures match First(input[offset..])
      case None => Decoded(input).None?
      case Some(c) => offset + |Utf8(c)| <= |input| && Reading(input, offset + |Utf8(c)|, past + [c])
  {
    hide Utf8, First, Encoded, Decoded, Scalars;
    var s := input[offset..];
    DecodedStep(s);
    if First(s).Some? {
      var c := First(s).value;
      var n := |Utf8(c)|;
      assert s[n..] == input[offset + n..] && input[..offset + n] == input[..offset] + s[..n];
      OneMoreScalar(past, c);
      EncodedSnoc(past, c);
      if Decoded(s[n..]).Some? {
        Associative(past, [c], Decoded(s[n..]).value);
      }
    }
  }

  lemma ReadingEnds(input: Text, past: seq<nat>)
    requires Reading(input, |input|, past)
    ensures Decoded(input) == Some(past) && Encoded(past) == input
  {
    assert input[|input|..] == [] && input[..|input|] == input;
    assert past + [] == past;
  }

  /** `wena_model_text_trim_bounds`: what stands between the bounds is what trimming leaves. */
  method TrimBounds(input: Text) returns (ok: bool, start: nat, length: nat)
    ensures ok <==> Decoded(input).Some?
    ensures ok ==> start + length <= |input| && input[start..start + length] == TrimmedText(input)
    ensures ok ==> var (before, kept, after) := Trim(Decoded(input).value);
                   Scalars(before) && start == |Encoded(before)|
  {
    hide Utf8, First, Decoded, Encoded, Trim, Trimmed, Whitespace, Reading, Bounds, Scalars;
    var offset := 0;
    var first: nat := |input|;
    var last: nat := 0;
    ghost var past: seq<nat> := [];
    ReadingStarts(input);
    BoundsStart(|input|);
    while offset < |input|
      invariant offset <= |input| && Reading(input, offset, past) && Scalars(past) && Bounds(past, first, last, |input|)
      decreases |input| - offset
    {
      ReadingOn(input, offset, past);
      ReadingPast(input, offset, past);
      var before := offset;
      var read, next, cp := Next(input, offset);
      if !read {
        return false, 0, 0;
      }
      BoundsNext(past, first, last, |input|, cp);
      past := past + [cp];
      offset := next;
      if !Whitespace(cp) {
        if first == |input| {
          first := before;
        }
        last := offset;
      }
    }
    ReadingEnds(input, past);
    BoundsEnd(input, past, first, last);
    ok := true;
    start := if first == |input| then 0 else first;
    length := if first == |input| then 0 else last - first;
  }

  lemma ReadingPast(input: Text, offset: nat, past: seq<nat>)
    requires Reading(input, offset, past)
    ensures Scalars(past) && |Encoded(past)| == offset
  {
    hide Encoded, Decoded;
  }

  lemma BoundsStart(length: nat)
    ensures Scalars([]) && Bounds([], length, 0, length)
  {
  }

  lemma BoundsEnd(input: Text, cs: seq<nat>, first: nat, last: nat)
    requires Decoded(input) == Some(cs) && Scalars(cs) && Encoded(cs) == input && Bounds(cs, first, last, |input|)
    ensures var (before, kept, after) := Trim(cs);
      && Scalars(before) && Scalars(kept)
      && var start, end := if first == |input| then 0 else first, if first == |input| then 0 else last;
         start <= end <= |input| && start == |Encoded(before)| && input[start..end] == TrimmedText(input)
  {
    hide Encoded, Decoded, Trim;
    var (before, kept, after) := Trim(cs);
    TrimParts(cs);
    PartsEncoded(cs, before, kept, after);
    EncodedNone();
  }

  /** Trimming takes away just these characters, at both ends. */
  lemma TrimmedExactly(before: seq<nat>, kept: seq<nat>, after: seq<nat>)
    requires Scalars(before + kept + after) && Scalars(kept)
    requires var white := (c: nat) =>
        9 <= c <= 13 || c == 32 || c == 160 || c == 5760 || 8192 <= c <= 8202 || c == 8232 || c == 8233 || c == 8239 || c == 8287
        || c == 12288 || c == 65279;
      && (forall c :: c in before + after ==> white(c))
      && if kept == [] then before == [] else !white(kept[0]) && !white(kept[|kept| - 1])
    ensures var s := Encoded(before + kept + after); Decoded(s).Some? && TrimmedText(s) == Encoded(kept)
  {
    hide Encoded, Scalars, Trim;
    var cs := before + kept + after;
    DecodedIsEncoded(Encoded(cs), cs);
    forall i | 0 <= i < |before| ensures Whitespace(before[i]) {
      assert before[i] in before + after;
    }
    forall i | 0 <= i < |after| ensures Whitespace(after[i]) {
      assert after[i] in before + after;
    }
    TrimmedOnce(cs, before, kept, after, Trim(cs).0, Trim(cs).1, Trim(cs).2);
  }
}
