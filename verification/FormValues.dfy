/** The value of a name in a form body: server/router.c (`wena_form_value`), which decodes it, and
    server/persistence.c (`form_value`), which takes it as it stands. */
module FormValues {
  import opened BitStreams

  type Text = seq<Byte>

  const AMPERSAND: Byte := 38
  const EQUALS: Byte := 61
  const PLUS: Byte := 43
  const PERCENT: Byte := 37
  const BLANK: Byte := 32

  // ----- the specification: pairs between ampersands

  /** How many bytes stand before the first `c`, or before the end. */
  ghost function Before(s: Text, c: Byte): (n: nat)
    ensures n <= |s| && c !in s[..n] && (n < |s| ==> s[n] == c)
  {
    if s == [] || s[0] == c then 0
    else
      var n := Before(s[1..], c);
      assert s[..n + 1] == [s[0]] + s[1..][..n];
      n + 1
  }

  ghost function Pairs(body: Text): seq<Text>
    decreases |body|
  {
    if body == [] then []
    else
      var n := Before(body, AMPERSAND);
      if n == |body| then [body] else [body[..n]] + Pairs(body[n + 1..])
  }

  /** Every pair must have an equals sign; the values of the pairs with the name. */
  ghost function Values(pairs: seq<Text>, name: Text): Option<seq<Text>>
  {
    if pairs == [] then Some([])
    else
      var n := Before(pairs[0], EQUALS);
      if n == |pairs[0]| then None
      else
        match Values(pairs[1..], name)
        case None => None
        case Some(more) => Some((if pairs[0][..n] == name then [pairs[0][n + 1..]] else []) + more)
  }

  /** How the value of a pair is taken: as it stands, or decoded. */
  datatype Reading = Raw | Decoding

  ghost function Taken(raw: Text, reading: Reading, capacity: nat): Option<Text>
  {
    match reading
    case Raw => if 0 < |raw| < capacity then Some(raw) else None
    case Decoding =>
      match Decoded(raw)
      case None => None
      case Some(value) => if 0 < |value| < capacity then Some(value) else None
  }

  /** The one value of the name, when the body is well formed and has it exactly once. */
  ghost function FormValue(body: Text, name: Text, reading: Reading, capacity: nat): Option<Text>
  {
    match Values(Pairs(body), name)
    case None => None
    case Some(values) => if |values| == 1 then Taken(values[0], reading, capacity) else None
  }

  // ----- percent decoding

  function Hex(c: Byte): (h: Option<nat>)
    ensures h.Some? ==> h.value < 16
  {
    if 48 <= c <= 57 then Some(c - 48)
    else if 65 <= c <= 70 then Some(c - 65 + 10)
    else if 97 <= c <= 102 then Some(c - 97 + 10)
    else None
  }

  /** The byte a value begins with and how many bytes spell it; control bytes are refused. */
  function NextByte(raw: Text): (r: Option<(Byte, nat)>)
    requires raw != []
    ensures r.Some? ==> 0 < r.value.1 <= |raw|
  {
    if raw[0] == PLUS then Some((BLANK, 1))
    else if raw[0] == PERCENT then
      if |raw| <= 2 || Hex(raw[1]).None? || Hex(raw[2]).None? then None
      else
        var b := Hex(raw[1]).value * 16 + Hex(raw[2]).value;
        if b < 0x20 then None else Some((b, 3))
    else if raw[0] < 0x20 then None
    else Some((raw[0], 1))
  }

  ghost function Decoded(raw: Text): (value: Option<Text>)
    decreases |raw|
  {
    if raw == [] then Some([])
    else
      match NextByte(raw)
      case None => None
      case Some(next) =>
        match Decoded(raw[next.1..])
        case None => None
        case Some(more) => Some([next.0] + more)
  }

  /** A hexadecimal digit, in either case. */
  ghost predicate SpellsDigit(c: Byte, h: nat)
    requires h < 16
  {
    c == "0123456789abcdef"[h] as nat || c == "0123456789ABCDEF"[h] as nat
  }

  /** The first `n` bytes of a text spell a byte: as it stands where that is allowed, a plus for a
      blank, or a percent sign and its two hexadecimal digits in either case. */
  ghost predicate SpellsByte(raw: Text, b: Byte, n: nat)
  {
    || (n == 1 && raw != [] && raw[0] == b && b != '+' as nat && b != '%' as nat)
    || (n == 1 && raw != [] && raw[0] == '+' as nat && b == ' ' as nat)
    || (n == 3 && 3 <= |raw| && raw[0] == '%' as nat && SpellsDigit(raw[1], b / 16) && SpellsDigit(raw[2], b % 16))
  }

  ghost predicate Spells(raw: Text, value: Text)
    decreases |value|
  {
    if value == [] then raw == []
    else
      || (SpellsByte(raw, value[0], 1) && Spells(raw[1..], value[1..]))
      || (SpellsByte(raw, value[0], 3) && Spells(raw[3..], value[1..]))
  }

  ghost predicate NoControls(value: Text) { forall i :: 0 <= i < |value| ==> 0x20 <= value[i] }

  lemma NextByteSpells(raw: Text, b: Byte, n: nat)
    requires raw != []
    ensures NextByte(raw) == Some((b, n)) <==> SpellsByte(raw, b, n) && 0x20 <= b
  {
    hide Hex;
    if 3 <= |raw| {
      HexExactly(raw[1], b / 16);
      HexExactly(raw[2], b % 16);
    }
  }

  lemma HexExactly(c: Byte, h: nat)
    requires h < 16
    ensures Hex(c) == Some(h) <==> SpellsDigit(c, h)
  {
  }

  /** A text decodes to a value exactly when it spells it and the value holds no control byte. */
  lemma {:induction false} DecodedExactly(raw: Text, value: Text)
    ensures Decoded(raw) == Some(value) <==> Spells(raw, value) && NoControls(value)
    decreases |raw|
  {
    hide NextByte, SpellsByte;
    if raw != [] && value != [] {
      var b, more := value[0], value[1..];
      assert value == [b] + more;
      NextByteSpells(raw, b, 1);
      NextByteSpells(raw, b, 3);
      var next := NextByte(raw);
      if next.Some? {
        NextByteSpells(raw, next.value.0, next.value.1);
        DecodedExactly(raw[next.value.1..], more);
        SpellsLength(raw, next.value.0, next.value.1);
      }
    } else if raw == [] && value != [] {
      NothingSpelled(value[0]);
    }
  }

  lemma NothingSpelled(b: Byte)
    ensures !SpellsByte([], b, 1) && !SpellsByte([], b, 3)
  {
  }

  lemma SpellsLength(raw: Text, b: Byte, n: nat)
    requires SpellsByte(raw, b, n)
    ensures n == 1 || n == 3
  {
  }

  // ----- forms

  datatype Entry = Entry(name: Text, value: Text)

  /** Entries as a form posts them: a name, an equals sign and a value each, with ampersands between. */
  ghost function Form(entries: seq<Entry>): Text
  {
    if entries == [] then []
    else
      var entry := entries[0].name + ['=' as nat] + entries[0].value;
      if |entries| == 1 then entry else entry + ['&' as nat] + Form(entries[1..])
  }

  ghost predicate FormEntries(entries: seq<Entry>)
  {
    forall e :: e in entries ==> '=' as nat !in e.name && '&' as nat !in e.name && '&' as nat !in e.value
  }

  /** The entries' text, which an ampersand may end. */
  ghost predicate IsForm(body: Text, entries: seq<Entry>)
  {
    FormEntries(entries) && (body == Form(entries) || (entries != [] && body == Form(entries) + ['&' as nat]))
  }

  /** The values of the entries with a name. */
  ghost function Named(entries: seq<Entry>, name: Text): seq<Text>
  {
    if entries == [] then []
    else (if entries[0].name == name then [entries[0].value] else []) + Named(entries[1..], name)
  }

  lemma FirstPair(pair: Text, rest: Text)
    requires pair != [] && AMPERSAND !in pair
    ensures Pairs(pair) == [pair] && Pairs(pair + [AMPERSAND] + rest) == [pair] + Pairs(rest)
  {
    BeforeIs(pair, AMPERSAND, |pair|);
    var body := pair + [AMPERSAND] + rest;
    assert forall i :: 0 <= i < |pair| ==> body[i] == pair[i];
    BeforeIs(body, AMPERSAND, |pair|);
    assert body[..|pair|] == pair && body[|pair| + 1..] == rest;
  }

  lemma EntryPair(e: Entry, more: seq<Text>, name: Text)
    requires EQUALS !in e.name
    ensures Values([e.name + [EQUALS] + e.value] + more, name) ==
      After(if e.name == name then [e.value] else [], Values(more, name))
  {
    var pair := e.name + [EQUALS] + e.value;
    assert forall i :: 0 <= i < |e.name| ==> pair[i] == e.name[i];
    BeforeIs(pair, EQUALS, |e.name|);
    ValuesStep(pair, more, name);
    assert pair[..|e.name|] == e.name && pair[|e.name| + 1..] == e.value;
  }

  /** The pairs of a form are its entries. */
  lemma {:induction false} ValuesOfForm(body: Text, entries: seq<Entry>, name: Text)
    requires IsForm(body, entries)
    ensures Values(Pairs(body), name) == Some(Named(entries, name))
    decreases |entries|
  {
    hide Values, Pairs;
    if entries == [] {
      NoPairs(name);
    } else {
      var e, more := entries[0], entries[1..];
      assert e in entries;
      var pair := e.name + [EQUALS] + e.value;
      EntryPair(e, [], name);
      NoPairs(name);
      FirstPair(pair, []);
      if |entries| == 1 {
        assert more == [] && Form(entries) == pair;
        assert [pair] + [] == [pair] && pair + [AMPERSAND] + [] == pair + [AMPERSAND];
      } else {
        var rest := body[|pair| + 1..];
        assert body == pair + [AMPERSAND] + rest && IsForm(rest, more);
        FirstPair(pair, rest);
        EntryPair(e, Pairs(rest), name);
        ValuesOfForm(rest, more, name);
      }
    }
  }

  lemma NoPairs(name: Text)
    ensures Pairs([]) == [] && Values([], name) == Some([])
  {
  }

  lemma {:induction false} NamedOnce(entries: seq<Entry>, name: Text, k: nat)
    requires k < |entries| && entries[k].name == name
    ensures (forall j :: 0 <= j < |entries| && j != k ==> entries[j].name != name) <==> |Named(entries, name)| == 1
    ensures |Named(entries, name)| == 1 ==> Named(entries, name) == [entries[k].value]
  {
    var more := entries[1..];
    assert forall j :: 0 <= j < |more| ==> more[j] == entries[j + 1];
    if k > 0 {
      NamedOnce(more, name, k - 1);
      SomeNamed(more, name, k - 1);
      assert entries[0].name == name || forall j :: 0 < j < |entries| ==> entries[j] == more[j - 1];
    } else if exists j :: 0 <= j < |more| && more[j].name == name {
      var j :| 0 <= j < |more| && more[j].name == name;
      SomeNamed(more, name, j);
      assert entries[j + 1].name == name;
    } else {
      NoneNamed(more, name);
    }
  }

  lemma {:induction false} SomeNamed(entries: seq<Entry>, name: Text, k: nat)
    requires k < |entries| && entries[k].name == name
    ensures Named(entries, name) != []
  {
    if k > 0 {
      SomeNamed(entries[1..], name, k - 1);
    }
  }

  lemma {:induction false} NoneNamed(entries: seq<Entry>, name: Text)
    requires forall e :: e in entries ==> e.name != name
    ensures Named(entries, name) == []
  {
    if entries != [] {
      NoneNamed(entries[1..], name);
    }
  }

  /** Entry `k` has the name, and no other does. */
  ghost predicate OnlyAt(entries: seq<Entry>, name: Text, k: nat)
  {
    k < |entries| && entries[k].name == name && forall j :: 0 <= j < |entries| && j != k ==> entries[j].name != name
  }

  /** A form gives a value for a name exactly when one entry has the name, no other does, and its
      value is neither empty nor too long, as it stands or decoded. */
  lemma FormExactly(body: Text, entries: seq<Entry>, name: Text, capacity: nat, value: Text)
    requires IsForm(body, entries)
    ensures FormValue(body, name, Raw, capacity) == Some(value) <==>
      0 < |value| < capacity && exists k: nat :: OnlyAt(entries, name, k) && entries[k].value == value
    ensures FormValue(body, name, Decoding, capacity) == Some(value) <==>
      0 < |value| < capacity && exists k: nat :: OnlyAt(entries, name, k) && Decoded(entries[k].value) == Some(value)
  {
    hide IsForm, Values, Pairs, Named, Decoded;
    ValuesOfForm(body, entries, name);
    forall k: nat | k < |entries| && entries[k].name == name
      ensures OnlyAt(entries, name, k) <==> |Named(entries, name)| == 1
      ensures |Named(entries, name)| == 1 ==> Named(entries, name) == [entries[k].value]
    {
      NamedOnce(entries, name, k);
    }
    if forall e :: e in entries ==> e.name != name {
      NoneNamed(entries, name);
    } else {
      var k: nat :| k < |entries| && entries[k].name == name;
      assert OnlyAt(entries, name, k) <==> |Named(entries, name)| == 1;
    }
  }

  /** Where there is a value the body was a form. */
  lemma FormOfValue(body: Text, name: Text, reading: Reading, capacity: nat) returns (entries: seq<Entry>)
    requires FormValue(body, name, reading, capacity).Some?
    ensures IsForm(body, entries)
  {
    hide IsForm, Values, Pairs;
    entries := FormOfPairs(body, name);
  }

  lemma {:induction false} FormOfPairs(body: Text, name: Text) returns (entries: seq<Entry>)
    requires Values(Pairs(body), name).Some?
    ensures IsForm(body, entries) && (body != [] ==> entries != [])
    decreases |body|
  {
    hide Before, Values, Form, FormEntries;
    entries := [];
    if body == [] {
      EmptyForm();
    } else {
      var n := Before(body, AMPERSAND);
      var pair := body[..n];
      var m := Before(pair, EQUALS);
      var more := if n == |body| then [] else Pairs(body[n + 1..]);
      assert n == |body| ==> body == pair && [body] + [] == [body];
      assert Pairs(body) == [pair] + more;
      ValuesStep(pair, more, name);
      var e := Entry(pair[..m], pair[m + 1..]);
      assert pair == e.name + [EQUALS] + e.value;
      entries := [e];
      if n < |body| {
        assert body == pair + [AMPERSAND] + body[n + 1..];
        var rest := FormOfPairs(body[n + 1..], name);
        entries := [e] + rest;
        OneMore(e, rest, body[n + 1..]);
      } else {
        OneForm(e);
        assert body == pair;
      }
    }
  }

  lemma EmptyForm()
    ensures IsForm([], [])
  {
  }

  lemma OneForm(e: Entry)
    requires '=' as nat !in e.name && '&' as nat !in e.name && '&' as nat !in e.value
    ensures IsForm(e.name + ['=' as nat] + e.value, [e])
  {
  }

  lemma OneMore(e: Entry, rest: seq<Entry>, text: Text)
    requires IsForm(text, rest) && (text != [] ==> rest != []) && '=' as nat !in e.name && '&' as nat !in e.name && '&' as nat !in e.value
    ensures IsForm(e.name + ['=' as nat] + e.value + ['&' as nat] + text, [e] + rest)
  {
    var entries := [e] + rest;
    assert entries[1..] == rest;
    assert forall x :: x in entries ==> x == e || x in rest;
    var pair := e.name + ['=' as nat] + e.value;
    if rest == [] {
      assert text == [] && pair + ['&' as nat] + text == pair + ['&' as nat];
    } else if text == Form(rest) + ['&' as nat] {
      assert pair + ['&' as nat] + text == Form(entries) + ['&' as nat];
    }
  }

  // ----- the two readers

  method Find(body: Text, from: nat, to: nat, c: Byte) returns (at: nat)
    requires from <= to <= |body|
    ensures at == from + Before(body[from..to], c) <= to
  {
    at := from;
    while at < to && body[at] != c
      invariant from <= at <= to && forall i :: from <= i < at ==> body[i] != c
    {
      at := at + 1;
    }
    BeforeIs(body[from..to], c, at - from);
  }

  lemma {:induction false} BeforeIs(s: Text, c: Byte, n: nat)
    requires n <= |s| && (forall i :: 0 <= i < n ==> s[i] != c) && (n < |s| ==> s[n] == c)
    ensures Before(s, c) == n
  {
    if n > 0 {
      BeforeIs(s[1..], c, n - 1);
    }
  }

  /** The value of a pair. */
  method Take(body: Text, from: nat, end: nat, reading: Reading, capacity: nat) returns (value: Option<Text>)
    requires from <= end <= |body|
    ensures value == Taken(body[from..end], reading, capacity)
  {
    hide NextByte;
    if reading == Raw {
      return if 0 < end - from < capacity then Some(body[from..end]) else None;
    }
    var source := from;
    var output: Text := [];
    ghost var raw := body[from..end];
    assert body[from..end] == raw;
    JoinedNone(Decoded(raw));
    assert Joined(output, Decoded(body[source..end])) == Decoded(raw);
    while source < end
      invariant from <= source <= end && (output != [] ==> |output| < capacity)
      invariant Joined(output, Decoded(body[source..end])) == Decoded(raw)
      decreases end - source
    {
      ghost var rest := body[source..end];
      DecodedStep(rest);
      var next := NextByte(body[source..end]);
      if next.None? {
        return None;
      }
      var (b, n) := next.value;
      assert rest[n..] == body[source + n..end];
      JoinedStep(output, b, Decoded(rest[n..]));
      if |output| + 1 >= capacity {
        return None;
      }
      output := output + [b];
      source := source + n;
    }
    DecodedNone(body[source..end]);
    assert output + [] == output;
    value := if output == [] then None else Some(output);
  }

  ghost function Joined(front: Text, back: Option<Text>): Option<Text>
  {
    if back.None? then None else Some(front + back.value)
  }

  lemma JoinedNone(back: Option<Text>)
    ensures Joined([], back) == back
  {
    if back.Some? {
      assert [] + back.value == back.value;
    }
  }

  lemma JoinedStep(front: Text, b: Byte, back: Option<Text>)
    ensures Joined(front, Joined([b], back)) == Joined(front + [b], back)
    ensures Joined(front + [b], back).Some? ==> |front| + 1 <= |Joined(front + [b], back).value|
  {
    if back.Some? {
      Associative(front, [b], back.value);
    }
  }

  lemma DecodedStep(raw: Text)
    requires raw != []
    ensures match NextByte(raw)
      case None => Decoded(raw).None?
      case Some(next) => Decoded(raw) == Joined([next.0], Decoded(raw[next.1..]))
  {
    hide NextByte;
  }

  lemma DecodedNone(raw: Text)
    requires raw == []
    ensures Decoded(raw) == Some([])
  {
  }

  /** `wena_form_value` and `form_value`. */
  method ReadFormValue(body: Text, name: Text, reading: Reading, capacity: nat) returns (value: Option<Text>)
    ensures value == FormValue(body, name, reading, capacity)
  {
    hide Taken, Pairs, Values;
    var cursor, found: Option<Text> := 0, None;
    ghost var all, taken: seq<Text> := Values(Pairs(body), name), [];
    assert body[0..] == body;
    AfterNone(all);
    while cursor < |body|
      invariant cursor <= |body| + 1 && |taken| <= 1
      invariant all == After(taken, Values(Left(body, cursor), name))
      invariant match found
        case None => taken == []
        case Some(v) => |taken| == 1 && Taken(taken[0], reading, capacity) == found
      decreases |body| - cursor
    {
      var end := Find(body, cursor, |body|, AMPERSAND);
      var equal := Find(body, cursor, end, EQUALS);
      PairsStep(body, cursor, end, equal, name, taken);
      if equal == end {
        return None;
      }
      if body[cursor..equal] == name {
        if found.Some? {
          TwoValues(taken, body[equal + 1..end], Values(Left(body, end + 1), name));
          return None;
        }
        found := Take(body, equal + 1, end, reading, capacity);
        taken := taken + [body[equal + 1..end]];
        if found.None? {
          return None;
        }
      } else {
        assert taken + [] == taken;
      }
      cursor := end + 1;
    }
    LeftNone(body, cursor, name, taken);
    value := found;
  }

  /** The pairs from a place on. */
  ghost function Left(body: Text, cursor: nat): seq<Text> { if cursor <= |body| then Pairs(body[cursor..]) else [] }

  ghost function After(front: seq<Text>, back: Option<seq<Text>>): Option<seq<Text>>
  {
    if back.None? then None else Some(front + back.value)
  }

  lemma AfterNone(values: Option<seq<Text>>)
    ensures After([], values) == values
  {
    if values.Some? {
      assert [] + values.value == values.value;
    }
  }

  lemma LeftStep(body: Text, cursor: nat, end: nat)
    requires cursor < |body| && end == cursor + Before(body[cursor..|body|], AMPERSAND)
    ensures end <= |body| && Left(body, cursor) == [body[cursor..end]] + Left(body, end + 1)
  {
    hide Before;
    var s, n := body[cursor..], end - cursor;
    assert body[cursor..|body|] == s && s[..n] == body[cursor..end];
    if end < |body| {
      assert s[n + 1..] == body[end + 1..];
    } else {
      assert [s] + [] == [s] && s == body[cursor..end];
    }
  }

  lemma ValuesStep(pair: Text, more: seq<Text>, name: Text)
    ensures var n := Before(pair, EQUALS);
      Values([pair] + more, name) ==
      if n == |pair| then None else After(if pair[..n] == name then [pair[n + 1..]] else [], Values(more, name))
  {
    hide Before;
    assert ([pair] + more)[0] == pair && ([pair] + more)[1..] == more;
  }

  lemma PairsStep(body: Text, cursor: nat, end: nat, equal: nat, name: Text, taken: seq<Text>)
    requires cursor < |body| && end == cursor + Before(body[cursor..|body|], AMPERSAND)
    requires cursor <= equal <= end <= |body| && equal == cursor + Before(body[cursor..end], EQUALS)
    ensures equal == end ==> Values(Left(body, cursor), name).None?
    ensures equal < end ==>
      var own := if body[cursor..equal] == name then [body[equal + 1..end]] else [];
      After(taken, Values(Left(body, cursor), name)) == After(taken + own, Values(Left(body, end + 1), name))
  {
    hide Before, Values, Left;
    LeftStep(body, cursor, end);
    var pair, more := body[cursor..end], Left(body, end + 1);
    ValuesStep(pair, more, name);
    if equal < end {
      assert pair[..equal - cursor] == body[cursor..equal] && pair[equal - cursor + 1..] == body[equal + 1..end];
      var own := if body[cursor..equal] == name then [body[equal + 1..end]] else [];
      if Values(more, name).Some? {
        Associative(taken, own, Values(more, name).value);
      }
    }
  }

  lemma TwoValues(taken: seq<Text>, own: Text, more: Option<seq<Text>>)
    requires |taken| == 1
    ensures After(taken + [own], more).Some? ==> 2 <= |After(taken + [own], more).value|
  {
  }

  lemma LeftNone(body: Text, cursor: nat, name: Text, taken: seq<Text>)
    requires |body| <= cursor <= |body| + 1
    ensures After(taken, Values(Left(body, cursor), name)) == Some(taken)
  {
    assert taken + [] == taken;
    if cursor == |body| {
      assert body[cursor..] == [];
    }
  }
}
