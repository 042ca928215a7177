/** Lists of checklist item titles (models/checklist_item_titles.c): split at line feeds, trimmed,
    blank ones dropped, reversed if asked for. */
module TitleLists {
  import opened BitStreams
  import opened Utf8Text
  import opened Trimming

  const ENTRY_MAX: nat := 16384
  const TITLE_CAPACITY: nat := 129
  const MAX_ITEMS: nat := 1024
  const BATCH_MAX_ITEMS: nat := 8
  const BATCH_MAX: nat := 1031

  const LF: Byte := 10

  /** The lines of a text, or the whole text as one. */
  ghost function Pieces(text: Text, split: bool): (pieces: seq<Text>)
    ensures 0 < |pieces|
    decreases |text|
  {
    var n := LineLength(text);
    if !split || n == |text| then [text] else [text[..n]] + Pieces(text[n + 1..], split)
  }

  /** The bytes before the first line feed. */
  ghost function LineLength(text: Text): (n: nat)
    ensures n <= |text| && LF !in text[..n] && (n < |text| ==> text[n] == LF)
  {
    if text == [] || text[0] == LF then 0
    else
      var n := LineLength(text[1..]);
      assert text[..n + 1] == [text[0]] + text[1..][..n];
      n + 1
  }

  ghost predicate WellFormed(pieces: seq<Text>) { forall i :: 0 <= i < |pieces| ==> Decoded(pieces[i]).Some? }

  /** A title of a piece, or none when it is blank. */
  ghost function TitleOf(piece: Text): (titles: seq<Text>)
    requires Decoded(piece).Some?
    ensures |titles| <= 1
  {
    if TrimmedText(piece) == [] then [] else [TrimmedText(piece)]
  }

  /** The titles, before any reversal. */
  ghost function Titles(pieces: seq<Text>): (titles: seq<Text>)
    requires WellFormed(pieces)
  {
    if pieces == [] then [] else TitleOf(pieces[0]) + Titles(pieces[1..])
  }

  ghost function Reversed(s: seq<Text>): (r: seq<Text>)
    ensures |r| == |s| && forall i :: 0 <= i < |s| ==> r[i] == s[|s| - 1 - i]
  {
    seq(|s|, i requires 0 <= i < |s| => s[|s| - 1 - i])
  }

  ghost predicate Short(titles: seq<Text>) { forall i :: 0 <= i < |titles| ==> |titles[i]| < TITLE_CAPACITY }

  /** The text is accepted: well formed, no title too long, and no more titles than there is room for. */
  ghost predicate Accepted(text: Text, split: bool, capacity: nat)
  {
    && |text| <= ENTRY_MAX && capacity <= MAX_ITEMS
    && WellFormed(Pieces(text, split))
    && Short(Titles(Pieces(text, split))) && |Titles(Pieces(text, split))| <= capacity
  }

  /** The first line and the others. */
  lemma TitlesStep(first: Text, rest: seq<Text>)
    ensures WellFormed([first] + rest) <==> Decoded(first).Some? && WellFormed(rest)
    ensures WellFormed([first] + rest) ==> Titles([first] + rest) == TitleOf(first) + Titles(rest)
  {
    hide Decoded, TitleOf;
    var pieces := [first] + rest;
    assert pieces[0] == first && pieces[1..] == rest && forall i :: 0 <= i < |rest| ==> pieces[i + 1] == rest[i];
  }

  /** The end of the line that begins at `offset`. */
  method LineEnd(text: Text, offset: nat, split: bool) returns (end: nat)
    requires offset <= |text|
    ensures end == offset + if split then LineLength(text[offset..]) else |text| - offset
  {
    end := offset;
    while end < |text| && (!split || text[end] != LF)
      invariant offset <= end <= |text| && (split ==> forall i :: offset <= i < end ==> text[i] != LF)
    {
      end := end + 1;
    }
    if split {
      LineLengthIs(text[offset..], end - offset);
    }
  }

  lemma {:induction false} LineLengthIs(text: Text, n: nat)
    requires n <= |text| && (forall i :: 0 <= i < n ==> text[i] != LF) && (n < |text| ==> text[n] == LF)
    ensures LineLength(text) == n
  {
    if n > 0 {
      LineLengthIs(text[1..], n - 1);
    }
  }

  // ----- the two passes

  /** What the pieces still to come must satisfy, with `total` titles counted. */
  ghost predicate Fits(pieces: seq<Text>, total: nat, capacity: nat)
  {
    WellFormed(pieces) && Short(Titles(pieces)) && total + |Titles(pieces)| <= capacity
  }

  lemma ShortStep(first: Text, titles: seq<Text>)
    requires Decoded(first).Some?
    ensures Short(TitleOf(first) + titles) <==> |TrimmedText(first)| < TITLE_CAPACITY && Short(titles)
  {
    hide Decoded, TrimmedText;
    var a := TitleOf(first);
    var all := a + titles;
    assert a != [] ==> all[0] == TrimmedText(first);
    assert forall i :: 0 <= i < |titles| ==> all[|a| + i] == titles[i];
  }

  lemma FitsStep(first: Text, rest: seq<Text>, total: nat, capacity: nat)
    ensures Fits([first] + rest, total, capacity) <==>
      && Decoded(first).Some? && |TrimmedText(first)| < TITLE_CAPACITY
      && total + |TitleOf(first)| <= capacity && Fits(rest, total + |TitleOf(first)|, capacity)
  {
    hide Decoded, TrimmedText, Titles, Short, TitleOf;
    TitlesStep(first, rest);
    if WellFormed([first] + rest) {
      ShortStep(first, Titles(rest));
    }
  }

  /** Where the first pass stands: the pieces left, and the titles counted. */
  ghost predicate Progress(all: seq<Text>, left: seq<Text>, total: nat, capacity: nat)
  {
    && (Fits(all, 0, capacity) <==> Fits(left, total, capacity))
    && (Fits(all, 0, capacity) ==> WellFormed(all) && WellFormed(left) && |Titles(all)| == total + |Titles(left)|)
  }

  lemma ProgressStep(all: seq<Text>, piece: Text, rest: seq<Text>, total: nat, capacity: nat)
    requires Progress(all, [piece] + rest, total, capacity)
    ensures Decoded(piece).None? ==> !Fits(all, 0, capacity)
    ensures Decoded(piece).Some? ==>
      var more := |TitleOf(piece)|;
      if TITLE_CAPACITY <= |TrimmedText(piece)| || capacity < total + more then !Fits(all, 0, capacity)
      else Progress(all, rest, total + more, capacity)
  {
    hide Decoded, TrimmedText, Titles, TitleOf, Short;
    FitsStep(piece, rest, total, capacity);
    TitlesStep(piece, rest);
  }

  lemma ProgressEnds(all: seq<Text>, total: nat, capacity: nat)
    requires Progress(all, [], total, capacity) && total <= capacity
    ensures Fits(all, 0, capacity) && WellFormed(all) && |Titles(all)| == total
  {
  }

  /** The pieces from a place on. */
  ghost function Left(text: Text, offset: nat, split: bool): seq<Text> { if offset <= |text| then Pieces(text[offset..], split) else [] }

  lemma LeftStep(text: Text, offset: nat, split: bool, end: nat)
    requires offset <= |text| && end == offset + if split then LineLength(text[offset..]) else |text| - offset
    ensures end <= |text| && Left(text, offset, split) == [text[offset..end]] + Left(text, end + 1, split)
  {
    var s := text[offset..];
    assert s[..end - offset] == text[offset..end];
    if end < |text| {
      assert s[end - offset + 1..] == text[end + 1..];
    } else {
      assert s == text[offset..end] && [s] + [] == [s];
      assert s[..|s|] == s;
    }
  }

  /** The first pass: checks everything and counts, and writes nothing. */
  method CountTitles(text: Text, split: bool, capacity: nat) returns (ok: bool, total: nat)
    ensures ok <==> Fits(Pieces(text, split), 0, capacity)
    ensures ok ==> WellFormed(Pieces(text, split)) && total == |Titles(Pieces(text, split))|
  {
    hide Decoded, TrimmedText, Pieces, Fits, Titles, Progress, Left;
    var offset := 0;
    total := 0;
    ghost var all := Pieces(text, split);
    LeftAll(text, split, capacity);
    while true
      invariant offset <= |text| && total <= capacity && Progress(all, Left(text, offset, split), total, capacity)
      decreases |text| - offset
    {
      var end := LineEnd(text, offset, split);
      LeftStep(text, offset, split, end);
      ProgressStep(all, text[offset..end], Left(text, end + 1, split), total, capacity);
      var read, first, amount := TrimBounds(text[offset..end]);
      if !read {
        return false, 0;
      }
      if amount != 0 {
        if amount >= TITLE_CAPACITY || total >= capacity {
          return false, 0;
        }
        total := total + 1;
      }
      if end == |text| {
        break;
      }
      offset := end + 1;
    }
    LeftNone(text, split);
    ProgressEnds(all, total, capacity);
    ok := true;
  }

  lemma LeftAll(text: Text, split: bool, capacity: nat)
    ensures Left(text, 0, split) == Pieces(text, split) && Progress(Pieces(text, split), Left(text, 0, split), 0, capacity)
  {
    hide Pieces, Titles, Short;
    assert text[0..] == text;
  }

  lemma LeftNone(text: Text, split: bool)
    ensures Left(text, |text| + 1, split) == []
  {
  }

  /** Where title `k` of `total` goes. */
  function Slot(k: nat, total: nat, backward: bool): int { if backward then total - k - 1 else k }

  /** The first `n` titles stand in their slots, and nothing else was touched. */
  ghost predicate Written(all: seq<Text>, n: nat, backward: bool, was: seq<Text>, now: seq<Text>)
    requires n <= |all| <= |was| == |now|
  {
    && (forall k :: 0 <= k < n ==> now[Slot(k, |all|, backward)] == all[k])
    && forall i :: 0 <= i < |was| && (|all| <= i || Slot(i, |all|, backward) >= n) ==> now[i] == was[i]
  }

  lemma WrittenNext(all: seq<Text>, n: nat, backward: bool, was: seq<Text>, now: seq<Text>)
    requires n < |all| <= |was| == |now| && Written(all, n, backward, was, now)
    ensures 0 <= Slot(n, |all|, backward) < |now|
    ensures Written(all, n + 1, backward, was, now[Slot(n, |all|, backward) := all[n]])
  {
  }

  lemma WrittenNone(all: seq<Text>, backward: bool, was: seq<Text>)
    requires |all| <= |was|
    ensures Written(all, 0, backward, was, was)
  {
  }

  lemma WrittenAll(all: seq<Text>, backward: bool, was: seq<Text>, now: seq<Text>)
    requires |all| <= |was| == |now| && Written(all, |all|, backward, was, now)
    ensures now[..|all|] == (if backward then Reversed(all) else all) && now[|all|..] == was[|all|..]
  {
    if backward {
      forall i | 0 <= i < |all| ensures now[i] == Reversed(all)[i] {
        assert Slot(|all| - 1 - i, |all|, backward) == i;
      }
    }
  }

  /** What the second pass has written and what is still to come. */
  ghost predicate Divided(all: seq<Text>, done: seq<Text>, left: seq<Text>)
  {
    WellFormed(left) && all == done + Titles(left)
  }

  lemma LeftTitles(all: seq<Text>, done: seq<Text>, piece: Text, rest: seq<Text>)
    requires Divided(all, done, [piece] + rest)
    ensures Decoded(piece).Some? && Divided(all, done + TitleOf(piece), rest)
    ensures |TitleOf(piece)| == if TrimmedText(piece) == [] then 0 else 1
    ensures TrimmedText(piece) != [] ==> |done| < |all| && all[|done|] == TrimmedText(piece)
  {
    hide Decoded, TrimmedText, Titles;
    TitlesStep(piece, rest);
    Associative(done, TitleOf(piece), Titles(rest));
  }

  /** The second pass: writes the titles, forward or backward. */
  method WriteTitles(text: Text, split: bool, backward: bool, total: nat, titles: array<Text>)
    requires WellFormed(Pieces(text, split)) && total == |Titles(Pieces(text, split))| <= titles.Length
    modifies titles
    ensures var all := Titles(Pieces(text, split));
      titles[..total] == (if backward then Reversed(all) else all) && titles[total..] == old(titles[total..])
  {
    hide Decoded, TrimmedText, Pieces, Titles, Left, Divided, Written, TitleOf, LineLength, WellFormed;
    var offset, output := 0, 0;
    ghost var all, was := Titles(Pieces(text, split)), titles[..];
    ghost var done: seq<Text> := [];
    LeftAll(text, split, 0);
    NothingDone(all, Pieces(text, split));
    WrittenNone(all, backward, was);
    while true
      invariant offset <= |text| && output == |done| <= |all| && Divided(all, done, Left(text, offset, split))
      invariant Written(all, output, backward, was, titles[..])
      decreases |text| - offset
    {
      var end := LineEnd(text, offset, split);
      LeftStep(text, offset, split, end);
      LeftTitles(all, done, text[offset..end], Left(text, end + 1, split));
      var read, first, amount := TrimBounds(text[offset..end]);
      if amount != 0 {
        WrittenNext(all, output, backward, was, titles[..]);
        var index := if backward then total - output - 1 else output;
        titles[index] := text[offset..end][first..first + amount];
        output := output + 1;
      }
      done := done + TitleOf(text[offset..end]);
      DoneWithin(all, done, Left(text, end + 1, split));
      if end == |text| {
        break;
      }
      offset := end + 1;
    }
    LeftNone(text, split);
    AllDone(all, done);
    WrittenAll(all, backward, was, titles[..]);
  }

  lemma NothingDone(all: seq<Text>, pieces: seq<Text>)
    requires WellFormed(pieces) && all == Titles(pieces)
    ensures Divided(all, [], pieces)
  {
    hide Titles, WellFormed;
    assert [] + all == all;
  }

  lemma DoneWithin(all: seq<Text>, done: seq<Text>, left: seq<Text>)
    requires Divided(all, done, left)
    ensures |done| <= |all|
  {
  }

  lemma AllDone(all: seq<Text>, done: seq<Text>)
    requires Divided(all, done, [])
    ensures done == all
  {
  }

  /** `wena_checklist_item_titles_parse`: either the titles, in order or reversed, or nothing is
      written. */
  method ParseTitles(text: Text, split: bool, reverse: bool, titles: array<Text>) returns (ok: bool, count: nat)
    modifies titles
    ensures ok <==> Accepted(text, split, titles.Length)
    ensures ok ==>
      var all := Titles(Pieces(text, split));
      && count == |all| <= titles.Length && titles[count..] == old(titles[count..])
      && titles[..count] == if split && reverse then Reversed(all) else all
    ensures !ok ==> count == 0 && titles[..] == old(titles[..])
  {
    hide Pieces, Titles, Short, WellFormed;
    if |text| > ENTRY_MAX || titles.Length > MAX_ITEMS {
      return false, 0;
    }
    var total;
    ok, total := CountTitles(text, split, titles.Length);
    if !ok {
      return false, 0;
    }
    WriteTitles(text, split, split && reverse, total, titles);
    count := total;
  }

  /** A control byte that no batch may hold. */
  predicate Control(b: Byte) { (b < 32 && b != 9 && b != 10 && b != 13) || b == 127 }

  /** `wena_checklist_item_batch_parse`: all the titles of the lines, or nothing is written. */
  method ParseBatch(text: Text, titles: array<Text>) returns (ok: bool, count: nat)
    requires titles.Length == BATCH_MAX_ITEMS
    modifies titles
    ensures ok <==>
      && |text| <= 1031
      && (forall i :: 0 <= i < |text| ==> text[i] == 9 || text[i] == 10 || text[i] == 13 || (32 <= text[i] && text[i] != 127))
      && Accepted(text, true, 8) && Titles(Pieces(text, true)) != []
      && forall k :: 0 <= k < |Titles(Pieces(text, true))| ==> ModelText(Titles(Pieces(text, true))[k], false)
    ensures ok ==> count == |Titles(Pieces(text, true))| <= BATCH_MAX_ITEMS
    ensures ok ==> titles[..count] == Titles(Pieces(text, true)) && titles[count..] == old(titles[count..])
    ensures !ok ==> count == 0 && titles[..] == old(titles[..])
  {
    hide Pieces, Titles, WellFormed, ModelText;
    if |text| > BATCH_MAX {
      return false, 0;
    }
    for index := 0 to |text|
      invariant forall i :: 0 <= i < index ==> !Control(text[i])
    {
      if Control(text[index]) {
        return false, 0;
      }
    }
    var parsed := new Text[BATCH_MAX_ITEMS];
    var read, total := ParseTitles(text, true, false, parsed);
    if !read || total == 0 {
      return false, 0;
    }
    ghost var all := Titles(Pieces(text, true));
    for index := 0 to total
      invariant forall k :: 0 <= k < index ==> ModelText(all[k], false)
      modifies {}
    {
      assert parsed[..total][index] == all[index];
      var valid := ModelTextValid(parsed[index], TITLE_CAPACITY, false);
      NoTitleIsBlank(Pieces(text, true), index);
      if !valid {
        return false, 0;
      }
    }
    for index := 0 to total
      invariant forall k :: 0 <= k < titles.Length ==> titles[k] == if k < index then all[k] else old(titles[k])
      modifies titles
    {
      assert parsed[..total][index] == all[index];
      titles[index] := parsed[index];
    }
    ok, count := true, total;
  }

  lemma {:induction false} NoTitleIsBlank(pieces: seq<Text>, k: nat)
    requires WellFormed(pieces) && k < |Titles(pieces)|
    ensures Titles(pieces)[k] != []
  {
    hide Decoded, TrimmedText;
    if k >= |TitleOf(pieces[0])| {
      NoTitleIsBlank(pieces[1..], k - |TitleOf(pieces[0])|);
    }
  }

  /** The lines hold no line feed, and joined by line feeds they are the text; a text that is not split
      is its one line. */
  lemma {:induction false} PiecesJoined(text: Text, i: nat)
    requires i < |Pieces(text, true)|
    ensures 10 !in Pieces(text, true)[i] && WithFeeds(Pieces(text, true)) == text && Pieces(text, false) == [text]
    decreases |text|
  {
    var n := LineLength(text);
    if n == |text| {
      assert text[..n] == text;
      assert WithFeeds([text]) == text;
    } else {
      PiecesJoined(text[n + 1..], if i > 0 then i - 1 else 0);
      var line, more := text[..n], Pieces(text[n + 1..], true);
      assert ([line] + more)[1..] == more;
      assert text == line + [10] + text[n + 1..];
    }
  }

  ghost function WithFeeds(lines: seq<Text>): Text
  {
    if lines == [] then [] else if |lines| == 1 then lines[0] else lines[0] + [10] + WithFeeds(lines[1..])
  }

  /** The titles are the trimmed lines that are not blank, in their order. */
  lemma {:induction false} TitlesInOrder(lines: seq<Text>, last: Text)
    requires WellFormed(lines + [last])
    ensures WellFormed(lines) && Decoded(last).Some?
    ensures Titles(lines + [last]) == Titles(lines) + if TrimmedText(last) == [] then [] else [TrimmedText(last)]
  {
    hide Decoded, TrimmedText;
    var all := lines + [last];
    assert all[|lines|] == last && forall i :: 0 <= i < |lines| ==> all[i] == lines[i];
    if lines == [] {
      assert all == [last] && [last][1..] == [];
    } else {
      assert all[1..] == lines[1..] + [last];
      assert forall i :: 0 <= i < |all[1..]| ==> all[1..][i] == all[i + 1];
      TitlesInOrder(lines[1..], last);
      Associative(TitleOf(lines[0]), Titles(lines[1..]), TitleOf(last));
    }
  }

  /** The limits of a list: 16384 bytes in, room for at most 1024 titles, of at most 128 bytes each. */
  lemma AcceptedExactly(text: Text, split: bool, capacity: nat)
    ensures Accepted(text, split, capacity) <==>
      && |text| <= 16384 && capacity <= 1024
      && (forall line :: line in Pieces(text, split) ==> Decoded(line).Some?)
      && WellFormed(Pieces(text, split))
      && (forall title :: title in Titles(Pieces(text, split)) ==> |title| <= 128)
      && |Titles(Pieces(text, split))| <= capacity
  {
    hide Decoded, Pieces, Titles;
  }

  // ----- splitting at a byte does not split a scalar

  lemma LaterBytes(c: nat, i: nat)
    requires Scalar(c) && 0 < i < |Utf8(c)|
    ensures 128 <= Utf8(c)[i]
  {
  }

  /** The scalar a line begins with does not depend on what follows the line feed. */
  lemma FirstOfLine(line: Text, after: Text)
    requires line != []
    ensures First(line + [LF] + after) == First(line)
  {
    hide First, Utf8;
    var s := line + [LF] + after;
    if First(line).Some? {
      FirstIsWritten(line);
      assert line <= s;
      WrittenIsFirst(First(line).value, s);
    } else if First(s).Some? {
      FirstIsWritten(s);
      var u := Utf8(First(s).value);
      if |u| <= |line| {
        assert u <= line by { assert u == s[..|u|] == line[..|u|]; }
        WrittenIsFirst(First(s).value, line);
      } else {
        assert u[|line|] == s[|line|] == LF;
        LaterBytes(First(s).value, |line|);
      }
    }
  }

  lemma {:induction false} SplitKeepsScalars(line: Text, after: Text)
    ensures Decoded(line + [LF] + after).Some? <==> Decoded(line).Some? && Decoded(after).Some?
    decreases |line|
  {
    hide First, Utf8, Decoded;
    var s := line + [LF] + after;
    DecodedStep(s);
    if line == [] {
      LineFeedFirst(after);
      assert s == [LF] + after && s[1..] == after;
      NothingDecoded();
    } else {
      FirstOfLine(line, after);
      DecodedStep(line);
      if First(line).Some? {
        var n := |Utf8(First(line).value)|;
        assert s[n..] == line[n..] + [LF] + after;
        SplitKeepsScalars(line[n..], after);
      }
    }
  }

  lemma LineFeedFirst(after: Text)
    ensures First([LF] + after) == Some(10) && |Utf8(10)| == 1
  {
  }

  lemma NothingDecoded()
    ensures Decoded([]) == Some([])
  {
  }

  /** A text is well formed exactly when all its lines are. */
  lemma {:induction false} LinesKeepScalars(text: Text)
    ensures Decoded(text).Some? <==> WellFormed(Pieces(text, true))
    decreases |text|
  {
    hide Decoded;
    var n := LineLength(text);
    if n == |text| {
      assert Pieces(text, true) == [text] && Pieces(text, true)[0] == text;
    } else {
      assert text == text[..n] + [LF] + text[n + 1..];
      SplitKeepsScalars(text[..n], text[n + 1..]);
      LinesKeepScalars(text[n + 1..]);
      TitlesStep(text[..n], Pieces(text[n + 1..], true));
    }
  }
}
