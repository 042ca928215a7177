/** Printing, parsing and accepting region responses (server/region_response.c). */
module RegionResponses {
  import opened BitStreams
  import opened ByteTexts
  import opened Utf8Text
  import opened Decimals
  import opened RegionWire

  /** The numbers fit their C type. */
  ghost predicate InRange(r: Response)
  {
    r.requestVersion <= ULONG_MAX && forall i :: 0 <= i < |r.regions| ==> r.regions[i].version <= ULONG_MAX
  }

  /** `wena_region_valid`. */
  method CheckRegion(r: Region) returns (ok: bool)
    requires r.version <= ULONG_MAX
    ensures ok <==> ValidRegion(r)
  {
    hide RegionText, NameValid;
    ok := NameValid(r.name) && r.version > 0 && 0 < |r.content| < CONTENT_CAPACITY;
    if ok {
      ok := RegionUtf8(r.content);
    }
  }

  /** `memcpy` of a whole text. */
  method Put(output: array<Byte>, used: nat, text: Text) returns (more: nat)
    requires used + |text| <= output.Length
    modifies output
    ensures more == used + |text| && forall k :: more <= k < output.Length ==> output[k] == old(output[k])
    ensures output[..more] == old(output[..used]) + text && output[more..] == old(output[more..])
  {
    for i := 0 to |text|
      invariant forall k :: 0 <= k < output.Length ==>
        output[k] == if used <= k < used + i then text[k - used] else old(output[k])
    {
      output[used + i] := text[i];
    }
    more := used + |text|;
  }

  function HeaderOf(r: Region): Text
  {
    RegionKey() + (r.name + ([SPACE] + (Decimal(r.version) + ([SPACE] + (Decimal(|r.content|) + [NEWLINE])))))
  }

  lemma PrintedParts(r: Region)
    ensures Printed(r) == HeaderOf(r) + r.content + [NEWLINE]
  {
    hide RegionKey, Decimal;
  }

  lemma PrintedStep(regions: seq<Region>, i: nat)
    requires i < |regions|
    ensures PrintedRegions(regions[i..]) == Printed(regions[i]) + PrintedRegions(regions[i + 1..])
  {
    hide Printed;
    assert regions[i..][1..] == regions[i + 1..];
  }

  /** The first loop: the size on the wire, or nothing when a region is not valid. */
  method Size(r: Response) returns (total: Option<nat>)
    requires InRange(r)
    ensures total == if ValidRegions(r.regions) then Some(|Wire(r)|) else None
  {
    hide ValidRegion, Printed, PrintedRegions, Wire, HeaderOf, End;
    WireParts(r);
    var sum := 32 + |Decimal(r.requestVersion)| + 4;
    assert r.regions[0..] == r.regions;
    for index := 0 to |r.regions|
      invariant forall k :: 0 <= k < index ==> ValidRegion(r.regions[k])
      invariant sum + |PrintedRegions(r.regions[index..])| == |Wire(r)| + 4
    {
      PrintedStep(r.regions, index);
      PrintedParts(r.regions[index]);
      var valid := CheckRegion(r.regions[index]);
      if !valid {
        return None;
      }
      sum := sum + |HeaderOf(r.regions[index])| + |r.regions[index].content| + 1;
    }
    NoRegions(r.regions[|r.regions|..]);
    total := Some(sum);
  }

  lemma NoRegions(regions: seq<Region>)
    requires regions == []
    ensures PrintedRegions(regions) == End() && |End()| == 4
  {
  }

  /** One round of the second loop. */
  method PutRegion(output: array<Byte>, used: nat, r: Region) returns (more: nat)
    requires used + |Printed(r)| <= output.Length
    modifies output
    ensures more == used + |Printed(r)|
    ensures output[..more] == old(output[..used]) + Printed(r) && output[more..] == old(output[more..])
  {
    hide Printed, HeaderOf;
    PrintedParts(r);
    Pieces3(output[..used], HeaderOf(r), r.content, [NEWLINE]);
    more := Put(output, used, HeaderOf(r));
    more := Put(output, more, r.content);
    more := Put(output, more, [NEWLINE]);
  }

  ghost predicate Encodable(r: Response, capacity: nat)
  {
    0 < r.requestVersion && |r.regions| <= MAX_COUNT && ValidRegions(r.regions) && |Wire(r)| <= capacity && |Wire(r)| <= MAX_BYTES
  }

  /** `wena_region_response_encode`: the whole encoding, or an untouched buffer. */
  method Encode(r: Response, output: array<Byte>) returns (ok: bool, length: nat)
    requires InRange(r)
    modifies output
    ensures ok <==> Encodable(r, output.Length)
    ensures ok ==> length == |Wire(r)| && output[..length] == Wire(r) && output[length..] == old(output[length..])
    ensures !ok ==> length == 0 && output[..] == old(output[..])
  {
    hide ValidRegion, Printed, PrintedRegions, Wire, HeaderOf, End, Head, VersionKey, Decimal, ValidRegions;
    if output.Length == 0 || r.requestVersion == 0 || |r.regions| > MAX_COUNT {
      WireParts(r);
      return false, 0;
    }
    var total := Size(r);
    if total.None? || total.value > output.Length || total.value > MAX_BYTES {
      return false, 0;
    }
    ghost var wire := Wire(r);
    WireParts(r);
    var used: nat := Put(output, 0, Head() + (VersionKey() + (Decimal(r.requestVersion) + [NEWLINE])));
    assert r.regions[0..] == r.regions;
    HeadParts(Head(), VersionKey(), Decimal(r.requestVersion), PrintedRegions(r.regions));
    for index := 0 to |r.regions|
      invariant used <= output.Length && output[..used] + PrintedRegions(r.regions[index..]) == wire
      invariant output[total.value..] == old(output[total.value..])
    {
      ghost var before, rest := output[..used], PrintedRegions(r.regions[index + 1..]);
      PrintedStep(r.regions, index);
      Associative(before, Printed(r.regions[index]), rest);
      used := PutRegion(output, used, r.regions[index]);
    }
    NoRegions(r.regions[|r.regions|..]);
    used := Put(output, used, End());
    ok, length := true, used;
  }

  lemma HeadParts(head: Text, key: Text, number: Text, rest: Text)
    ensures head + (key + number + ([NEWLINE] + rest)) == head + (key + (number + [NEWLINE])) + rest
  {
  }

  lemma Pieces3(before: Text, a: Text, b: Text, c: Text)
    ensures before + (a + b + c) == before + a + b + c
  {
  }

  // ----- parsing

  /** `memchr`: the first place of a byte, or none. */
  method Find(input: Text, from: nat, to: nat, c: Byte) returns (at: Option<nat>)
    requires from <= to <= |input|
    ensures match SplitAt(input[from..to], c)
      case None => at.None?
      case Some((before, after)) =>
        at.Some? && from <= at.value < to && before == input[from..at.value] && after == input[at.value + 1..to]
  {
    for i := from to to
      invariant c !in input[from..i]
    {
      if input[i] == c {
        assert input[from..to] == input[from..i] + ([c] + input[i + 1..to]);
        SplitIs(input[from..i], c, input[i + 1..to]);
        return Some(i);
      }
    }
    at := None;
  }

  method HasPrefixAt(input: Text, at: nat, prefix: Text) returns (has: bool)
    requires at <= |input|
    ensures has <==> HasPrefix(prefix, input[at..])
  {
    has := |prefix| <= |input| - at && input[at..at + |prefix|] == prefix;
  }

  lemma Suffixes(input: Text, at: nat, n: nat, m: nat)
    requires at + n <= m <= |input|
    ensures input[at..][n..] == input[at + n..] && input[at..m][n..] == input[at + n..m]
    ensures m - at <= |input[at..]| && input[at..][m - at..] == input[m..]
    ensures input[at + n..|input|] == input[at + n..]
  {
  }

  /** The content of a region, of the length its header gives. */
  method TakeContent(input: Text, name: Text, version: Option<nat>, length: Option<nat>, start: nat)
    returns (region: Option<(Region, nat)>)
    requires start <= |input| && (version.Some? ==> version.value <= ULONG_MAX)
    ensures match NextContent(name, version, length, input[start..])
      case None => region.None?
      case Some((r, rest)) => region.Some? && region.value.0 == r && region.value.1 <= |input| && rest == input[region.value.1..]
  {
    hide NameValid, RegionText, ValidRegion;
    if version.None? || length.None? || length.value >= CONTENT_CAPACITY {
      return None;
    }
    var n := length.value;
    var after := input[start..];
    if |input| - start < n + 1 || input[start + n] != NEWLINE {
      return None;
    }
    var r := Region(name, version.value, input[start..start + n]);
    assert after[..n] == r.content && after[n + 1..] == input[start + n + 1..];
    var valid := CheckRegion(r);
    region := if valid then Some((r, start + n + 1)) else None;
  }

  /** A header line: the end of the name, of the version and of the line. */
  method ParseHeader(input: Text, cursor: nat) returns (ends: Option<(nat, nat, nat)>)
    requires cursor <= |input|
    ensures match NextHeader(input[cursor..])
      case None => ends.None?
      case Some(h) =>
        && ends.Some? && var (nameEnd, versionEnd, lineEnd) := ends.value;
        && cursor + 7 <= nameEnd < versionEnd < lineEnd < |input|
        && h == Header(input[cursor + 7..nameEnd], input[nameEnd + 1..versionEnd], input[versionEnd + 1..lineEnd], input[lineEnd + 1..])
  {
    hide RegionKey, SplitAt;
    KeyLengths();
    var key := HasPrefixAt(input, cursor, RegionKey());
    if !key {
      return None;
    }
    Suffixes(input, cursor, 7, |input|);
    var lineEnd := Find(input, cursor + 7, |input|, NEWLINE);
    if lineEnd.None? {
      return None;
    }
    Suffixes(input, lineEnd.value + 1, 0, |input|);
    var nameEnd := Find(input, cursor + 7, lineEnd.value, SPACE);
    if nameEnd.None? {
      return None;
    }
    var versionEnd := Find(input, nameEnd.value + 1, lineEnd.value, SPACE);
    ends := if versionEnd.None? then None else Some((nameEnd.value, versionEnd.value, lineEnd.value));
  }

  /** One region of the loop: its record, and where the next begins. */
  method ParseRegion(input: Text, cursor: nat) returns (region: Option<(Region, nat)>)
    requires cursor <= |input|
    ensures match NextRegion(input[cursor..])
      case None => region.None?
      case Some((r, rest)) => region.Some? && region.value.0 == r && region.value.1 <= |input| && rest == input[region.value.1..]
  {
    hide NextContent, NextHeader, NumberOf, SplitAt;
    var ends := ParseHeader(input, cursor);
    if ends.None? {
      return None;
    }
    var (nameEnd, versionEnd, lineEnd) := ends.value;
    var more := Find(input, versionEnd + 1, lineEnd, SPACE);
    var name := input[cursor + 7..nameEnd];
    ghost var h := NextHeader(input[cursor..]).value;
    ShortName(name, NumberOf(h.version), NumberOf(h.length), h.after);
    SpaceIsNoNumber(h.length);
    if more.Some? || |name| == 0 || |name| >= NAME_CAPACITY {
      return None;
    }
    var version := ReadNumber(input, nameEnd + 1, versionEnd);
    var length := ReadNumber(input, versionEnd + 1, lineEnd);
    NumberInRange(h.version);
    region := TakeContent(input, name, version, length, lineEnd + 1);
  }

  lemma SpaceIsNoNumber(t: Text)
    ensures SPACE in t ==> NumberOf(t).None?
    ensures SplitAt(t, SPACE).Some? ==> SPACE in t
  {
  }

  lemma ShortName(name: Text, version: Option<nat>, length: Option<nat>, after: Text)
    ensures |name| == 0 || NAME_CAPACITY <= |name| ==> NextContent(name, version, length, after).None?
    ensures length.None? ==> NextContent(name, version, length, after).None?
  {
    hide RegionText;
  }

  lemma NumberInRange(t: Text)
    ensures NumberOf(t).Some? ==> NumberOf(t).value <= ULONG_MAX
  {
  }

  /** `wena_region_response_parse`: nothing is kept of an input that is not accepted. */
  method Parse(input: Text) returns (response: Option<Response>)
    ensures response == Parsed(input)
  {
    hide NextRegion, RegionKey, NumberOf, Head, VersionKey, End;
    KeyLengths();
    if |input| > MAX_BYTES || 0 in input {
      return None;
    }
    assert input[0..] == input;
    Suffixes(input, 0, 0, |input|);
    var head := HasPrefixAt(input, 0, Head());
    if !head {
      return None;
    }
    Suffixes(input, 0, 15, |input|);
    var lineEnd := Find(input, 15, |input|, NEWLINE);
    if lineEnd.None? {
      return None;
    }
    var line := input[15..lineEnd.value];
    if lineEnd.value - 15 < 17 || line[..16] != VersionKey() {
      NoVersion(line);
      return None;
    }
    var version := ReadNumber(input, 31, lineEnd.value);
    Suffixes(input, 15, 16, lineEnd.value);
    if version.None? {
      return None;
    }
    var cursor, regions := lineEnd.value + 1, [];
    ghost var after := input[cursor..];
    NoneBefore(NextRegions(after, MAX_COUNT));
    while cursor < |input| && !(|input| - cursor == 4 && input[cursor..] == End())
      invariant cursor <= |input| && |regions| <= MAX_COUNT
      invariant NextRegions(after, MAX_COUNT) == Following(regions, NextRegions(input[cursor..], MAX_COUNT - |regions|))
      decreases |input| - cursor
    {
      NextStep(input[cursor..], MAX_COUNT - |regions|, regions);
      if |regions| >= MAX_COUNT {
        return None;
      }
      var next := ParseRegion(input, cursor);
      if next.None? {
        return None;
      }
      regions := regions + [next.value.0];
      cursor := next.value.1;
    }
    NextStep(input[cursor..], MAX_COUNT - |regions|, regions);
    response := if |input| - cursor == 4 && input[cursor..] == End() then Some(Response(version.value, regions)) else None;
  }

  lemma NoVersion(line: Text)
    requires |line| < 17 || line[..16] != VersionKey()
    ensures !HasPrefix(VersionKey(), line) || NumberOf(line[16..]).None?
  {
    hide VersionKey;
    KeyLengths();
  }

  /** The regions read, and those that follow. */
  ghost function Following(regions: seq<Region>, more: Option<seq<Region>>): Option<seq<Region>>
  {
    if more.None? then None else Some(regions + more.value)
  }

  lemma NoneBefore(more: Option<seq<Region>>)
    ensures Following([], more) == more
  {
    if more.Some? {
      assert [] + more.value == more.value;
    }
  }

  lemma NextStep(s: Text, room: nat, regions: seq<Region>)
    ensures s == End() ==> Following(regions, NextRegions(s, room)) == Some(regions)
    ensures s != End() && (room == 0 || NextRegion(s).None?) ==> NextRegions(s, room).None?
    ensures s != End() && room > 0 && NextRegion(s).Some? ==>
      var (r, rest) := NextRegion(s).value;
      Following(regions, NextRegions(s, room)) == Following(regions + [r], NextRegions(rest, room - 1))
    ensures s == [] ==> NextRegions(s, room).None?
  {
    hide NextRegion, End;
    KeyLengths();
    assert regions + [] == regions;
    NothingNext();
    if s != End() && room > 0 && NextRegion(s).Some? {
      var (r, rest) := NextRegion(s).value;
      if NextRegions(rest, room - 1).Some? {
        Associative(regions, [r], NextRegions(rest, room - 1).value);
      }
    }
  }

  lemma NothingNext()
    ensures NextRegion([]).None?
  {
  }

  // ----- accepting

  datatype Visible = Visible(name: Text, version: nat)

  ghost predicate DistinctNames(names: seq<Text>) { forall i, j :: 0 <= i < j < |names| ==> names[i] != names[j] }

  ghost function VisibleNames(visible: seq<Visible>): seq<Text>
  {
    seq(|visible|, i requires 0 <= i < |visible| => visible[i].name)
  }

  ghost function RegionNames(regions: seq<Region>): seq<Text>
  {
    seq(|regions|, i requires 0 <= i < |regions| => regions[i].name)
  }

  /** The region is shown and newer than what is shown. */
  ghost predicate Newer(visible: seq<Visible>, r: Region)
  {
    exists i :: 0 <= i < |visible| && visible[i].name == r.name && visible[i].version < r.version
  }

  ghost predicate Acceptable(r: Response, expected: nat, last: nat, visible: seq<Visible>)
  {
    && r.requestVersion == expected && last < r.requestVersion
    && |r.regions| <= MAX_COUNT && |visible| <= MAX_COUNT
    && (forall i :: 0 <= i < |visible| ==> NameValid(visible[i].name)) && DistinctNames(VisibleNames(visible))
    && ValidRegions(r.regions) && DistinctNames(RegionNames(r.regions))
    && forall i :: 0 <= i < |r.regions| ==> Newer(visible, r.regions[i])
  }

  /** A response is accepted when it answers the request that is waited for, is newer than the last,
      and each of its regions is valid, named once, shown and newer than what is shown under its name. */
  lemma AcceptableExactly(r: Response, expected: nat, last: nat, visible: seq<Visible>)
    ensures Acceptable(r, expected, last, visible) <==>
      && r.requestVersion == expected && r.requestVersion > last && |r.regions| <= 8 && |visible| <= 8
      && (forall v :: v in visible ==> NameValid(v.name))
      && (forall i, j :: 0 <= i < j < |visible| ==> visible[i].name != visible[j].name)
      && (forall region :: region in r.regions ==> ValidRegion(region))
      && (forall i, j :: 0 <= i < j < |r.regions| ==> r.regions[i].name != r.regions[j].name)
      && (forall region :: region in r.regions ==>
            exists v :: v in visible && v.name == region.name && v.version < region.version)
  {
    hide NameValid, ValidRegion;
    assert forall i :: 0 <= i < |visible| ==> VisibleNames(visible)[i] == visible[i].name;
    assert forall i :: 0 <= i < |r.regions| ==> RegionNames(r.regions)[i] == r.regions[i].name;
    DistinctVisible(visible);
    DistinctRegions(r.regions);
    forall region: Region ensures Newer(visible, region) <==> exists v :: v in visible && v.name == region.name && v.version < region.version {
    }
    assert (forall i :: 0 <= i < |r.regions| ==> Newer(visible, r.regions[i])) <==> forall region :: region in r.regions ==> Newer(visible, region);
  }

  lemma DistinctVisible(visible: seq<Visible>)
    ensures DistinctNames(VisibleNames(visible)) <==> forall i, j :: 0 <= i < j < |visible| ==> visible[i].name != visible[j].name
  {
    assert forall i :: 0 <= i < |visible| ==> VisibleNames(visible)[i] == visible[i].name;
  }

  lemma DistinctRegions(regions: seq<Region>)
    ensures DistinctNames(RegionNames(regions)) <==> forall i, j :: 0 <= i < j < |regions| ==> regions[i].name != regions[j].name
  {
    assert forall i :: 0 <= i < |regions| ==> RegionNames(regions)[i] == regions[i].name;
  }

  /** What is shown after the first `n` regions took effect. */
  ghost predicate Shown(before: seq<Visible>, regions: seq<Region>, n: nat, after: seq<Visible>)
    requires n <= |regions|
  {
    && |after| == |before|
    && forall i :: 0 <= i < |before| ==>
         && after[i].name == before[i].name
         && (forall k :: 0 <= k < n && regions[k].name == before[i].name ==> after[i].version == regions[k].version)
         && ((forall k :: 0 <= k < n ==> regions[k].name != before[i].name) ==> after[i] == before[i])
  }

  class RegionState {
    var lastRequestVersion: nat
    var visible: seq<Visible>

    /** The shown regions have valid and different names. */
    method CheckVisible() returns (ok: bool)
      ensures ok <==> (forall i :: 0 <= i < |visible| ==> NameValid(visible[i].name)) && DistinctNames(VisibleNames(visible))
    {
      hide NameValid;
      for v := 0 to |visible|
        invariant forall i :: 0 <= i < v ==> NameValid(visible[i].name)
        invariant forall i, j :: 0 <= i < j < v ==> visible[i].name != visible[j].name
      {
        if !NameValid(visible[v].name) {
          return false;
        }
        for previous := 0 to v
          invariant forall i :: 0 <= i < previous ==> visible[i].name != visible[v].name
        {
          if visible[previous].name == visible[v].name {
            assert VisibleNames(visible)[previous] == VisibleNames(visible)[v];
            return false;
          }
        }
      }
      ok := true;
    }

    /** The regions are valid, have different names and are newer than what is shown; where each is
        shown. */
    method CheckRegions(regions: seq<Region>) returns (ok: bool, indexes: seq<nat>)
      requires DistinctNames(VisibleNames(visible)) && forall i :: 0 <= i < |regions| ==> regions[i].version <= ULONG_MAX
      ensures ok <==> ValidRegions(regions) && DistinctNames(RegionNames(regions))
                      && forall i :: 0 <= i < |regions| ==> Newer(visible, regions[i])
      ensures ok ==> |indexes| == |regions|
      ensures ok ==> forall i :: 0 <= i < |regions| ==> indexes[i] < |visible| && visible[indexes[i]].name == regions[i].name
    {
      hide ValidRegion, Newer;
      indexes := [];
      for index := 0 to |regions|
        invariant |indexes| == index
        invariant forall i :: 0 <= i < index ==> ValidRegion(regions[i]) && Newer(visible, regions[i])
        invariant forall i, j :: 0 <= i < j < index ==> regions[i].name != regions[j].name
        invariant forall i :: 0 <= i < index ==> indexes[i] < |visible| && visible[indexes[i]].name == regions[i].name
      {
        var valid := CheckRegion(regions[index]);
        if !valid {
          return false, [];
        }
        for previous := 0 to index
          invariant forall i :: 0 <= i < previous ==> regions[i].name != regions[index].name
        {
          if regions[previous].name == regions[index].name {
            assert RegionNames(regions)[previous] == RegionNames(regions)[index];
            return false, [];
          }
        }
        var v := FindVisible(regions[index].name);
        NewerThanFound(visible, regions[index], v);
        if v == |visible| || regions[index].version <= visible[v].version {
          return false, [];
        }
        indexes := indexes + [v];
      }
      ok := true;
    }

    /** `wena_region_response_accept`: all the regions take effect, or none does. */
    method Accept(response: Response, expected: nat) returns (ok: bool)
      requires InRange(response)
      modifies this
      ensures ok <==> Acceptable(response, expected, old(lastRequestVersion), old(visible))
      ensures ok ==> lastRequestVersion == response.requestVersion
                     && Shown(old(visible), response.regions, |response.regions|, visible)
      ensures !ok ==> lastRequestVersion == old(lastRequestVersion) && visible == old(visible)
    {
      hide NameValid, ValidRegion, Newer, ValidRegions;
      var regions := response.regions;
      if response.requestVersion != expected || response.requestVersion <= lastRequestVersion
         || |regions| > MAX_COUNT || |visible| > MAX_COUNT {
        return false;
      }
      ok := CheckVisible();
      if !ok {
        return;
      }
      var indexes;
      ok, indexes := CheckRegions(regions);
      if !ok {
        return;
      }
      ghost var before := visible;
      for index := 0 to |regions|
        invariant |visible| == |before| && forall i :: 0 <= i < |before| ==> visible[i].name == before[i].name
        invariant Shown(before, regions, index, visible)
        modifies this`visible
      {
        assert VisibleNames(before)[indexes[index]] == regions[index].name;
        ShownNext(before, regions, index, visible, indexes[index]);
        visible := visible[indexes[index] := visible[indexes[index]].(version := regions[index].version)];
      }
      lastRequestVersion := response.requestVersion;
    }

    method FindVisible(name: Text) returns (v: nat)
      ensures v <= |visible| && (v < |visible| ==> visible[v].name == name)
      ensures forall i :: 0 <= i < v ==> visible[i].name != name
    {
      v := 0;
      while v < |visible| && visible[v].name != name
        invariant v <= |visible| && forall i :: 0 <= i < v ==> visible[i].name != name
      {
        v := v + 1;
      }
    }
  }

  lemma NewerThanFound(visible: seq<Visible>, r: Region, v: nat)
    requires v <= |visible| && (v < |visible| ==> visible[v].name == r.name)
    requires forall i :: 0 <= i < v ==> visible[i].name != r.name
    requires DistinctNames(VisibleNames(visible))
    ensures Newer(visible, r) <==> v < |visible| && visible[v].version < r.version
  {
    forall i | v < i < |visible| ensures v < |visible| && visible[i].name != r.name {
      assert VisibleNames(visible)[v] != VisibleNames(visible)[i];
    }
  }

  lemma ShownNext(before: seq<Visible>, regions: seq<Region>, n: nat, now: seq<Visible>, v: nat)
    requires n < |regions| && Shown(before, regions, n, now) && v < |before| && before[v].name == regions[n].name
    requires DistinctNames(VisibleNames(before)) && DistinctNames(RegionNames(regions))
    ensures Shown(before, regions, n + 1, now[v := now[v].(version := regions[n].version)])
  {
    forall i | 0 <= i < |before| && before[i].name == regions[n].name ensures i == v {
      assert VisibleNames(before)[i] == VisibleNames(before)[v];
    }
    forall k | 0 <= k < n ensures regions[k].name != regions[n].name {
      assert RegionNames(regions)[k] != RegionNames(regions)[n];
    }
  }
}
