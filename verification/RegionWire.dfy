/** The region response on the wire (server/region_response.c): a header line, the request
    version, framed regions and an end line. Contents are framed by length, so they may hold
    anything a line may not. */
module RegionWire {
  import opened BitStreams
  import opened ByteTexts
  import opened Utf8Text
  import opened Decimals

  const MAX_COUNT: nat := 8
  const NAME_CAPACITY: nat := 65
  const CONTENT_CAPACITY: nat := 4097
  const MAX_BYTES: nat := 32768

  const SPACE: Byte := 32
  const NEWLINE: Byte := 10

  /** The bytes of an ASCII text. */
  function Ascii(s: string): (t: Text)
    ensures |t| == |s|
  {
    seq(|s|, i requires 0 <= i < |s| => if s[i] as int < 128 then s[i] as int else 0)
  }

  function Head(): Text { Ascii("WENA-REGIONS/1\n") }

  function VersionKey(): Text { Ascii("request-version ") }

  function RegionKey(): Text { Ascii("region ") }

  function End(): Text { Ascii("end\n") }

  datatype Region = Region(name: Text, version: nat, content: Text)

  datatype Response = Response(requestVersion: nat, regions: seq<Region>)

  // ----- what is valid

  predicate SafeSuffix(t: Text) { t != [] && forall i :: 0 <= i < |t| ==> IdentifierByte(t[i]) }

  predicate HasPrefix(prefix: Text, name: Text) { |prefix| <= |name| && name[..|prefix|] == prefix }

  /** `wena_region_name_valid`. */
  predicate NameValid(name: Text)
  {
    && |name| < NAME_CAPACITY
    && if name == Ascii("board") || name == Ascii("sidebar") || name == Ascii("card-details") then true
       else if HasPrefix(Ascii("card-"), name) then SafeSuffix(name[5..])
       else if HasPrefix(Ascii("list-"), name) then SafeSuffix(name[5..])
       else HasPrefix(Ascii("swimlane-"), name) && SafeSuffix(name[9..])
  }

  ghost predicate ValidRegion(r: Region)
  {
    NameValid(r.name) && 0 < r.version <= ULONG_MAX && 0 < |r.content| < CONTENT_CAPACITY && RegionText(r.content)
  }

  ghost predicate ValidRegions(regions: seq<Region>) { forall i :: 0 <= i < |regions| ==> ValidRegion(regions[i]) }

  ghost predicate ValidResponse(r: Response)
  {
    0 < r.requestVersion <= ULONG_MAX && |r.regions| <= MAX_COUNT && ValidRegions(r.regions)
  }

  // ----- printing

  /** A region with its two numbers spelled in some way. */
  ghost function Framed(r: Region, version: Text, length: Text): Text
  {
    RegionKey() + (r.name + ([SPACE] + (version + ([SPACE] + (length + ([NEWLINE] + (r.content + [NEWLINE])))))))
  }

  ghost function Printed(r: Region): Text { Framed(r, Decimal(r.version), Decimal(|r.content|)) }

  ghost function PrintedRegions(regions: seq<Region>): (t: Text)
    ensures 4 <= |t|
  {
    if regions == [] then End() else Printed(regions[0]) + PrintedRegions(regions[1..])
  }

  ghost function Wire(r: Response): Text
  {
    Head() + (VersionKey() + (Decimal(r.requestVersion) + ([NEWLINE] + PrintedRegions(r.regions))))
  }

  // ----- parsing

  /** A header line and what stands after it. */
  datatype Header = Header(name: Text, version: Text, length: Text, after: Text)

  ghost function NextHeader(s: Text): (r: Option<Header>)
    ensures r.Some? ==> |r.value.after| < |s|
  {
    if !HasPrefix(RegionKey(), s) then None
    else
      match SplitAt(s[7..], NEWLINE)
      case None => None
      case Some((line, after)) =>
        match SplitAt(line, SPACE)
        case None => None
        case Some((name, numbers)) =>
          match SplitAt(numbers, SPACE)
          case None => None
          case Some((version, length)) => Some(Header(name, version, length, after))
  }

  /** The next region and what stands after it. */
  ghost function NextRegion(s: Text): (r: Option<(Region, Text)>)
    ensures r.Some? ==> |r.value.1| < |s|
  {
    match NextHeader(s)
    case None => None
    case Some(h) => NextContent(h.name, NumberOf(h.version), NumberOf(h.length), h.after)
  }

  ghost function NextContent(name: Text, version: Option<nat>, length: Option<nat>, after: Text): (r: Option<(Region, Text)>)
    ensures r.Some? ==> |r.value.1| < |after|
  {
    if version.None? || length.None? then None
    else
      var n := length.value;
      if CONTENT_CAPACITY <= n || |after| <= n || after[n] != NEWLINE then None
      else
        var r := Region(name, version.value, after[..n]);
        if ValidRegion(r) then Some((r, after[n + 1..])) else None
  }

  /** The regions up to the end line, of which there may be `room`. */
  ghost function NextRegions(s: Text, room: nat): (r: Option<seq<Region>>)
    ensures r.Some? ==> |r.value| <= room
    decreases room
  {
    if s == End() then Some([])
    else if room == 0 then None
    else
      match NextRegion(s)
      case None => None
      case Some((region, rest)) =>
        match NextRegions(rest, room - 1)
        case None => None
        case Some(regions) => Some([region] + regions)
  }

  ghost function Parsed(input: Text): Option<Response>
  {
    if MAX_BYTES < |input| || 0 in input || !HasPrefix(Head(), input) then None
    else
      match SplitAt(input[15..], NEWLINE)
      case None => None
      case Some((line, after)) =>
        if !HasPrefix(VersionKey(), line) then None
        else
          match NumberOf(line[16..])
          case None => None
          case Some(version) =>
            match NextRegions(after, MAX_COUNT)
            case None => None
            case Some(regions) => Some(Response(version, regions))
  }

  // ----- they undo each other

  lemma KeyLengths()
    ensures |Head()| == 15 && |VersionKey()| == 16 && |RegionKey()| == 7 && |End()| == 4
    ensures RegionKey()[0] != End()[0]
    ensures NEWLINE !in VersionKey()
  {
  }

  predicate NameBytesOnly(t: Text) { forall i :: 0 <= i < |t| ==> IdentifierByte(t[i]) }

  lemma NameLiterals()
    ensures NameBytesOnly(Ascii("board")) && NameBytesOnly(Ascii("sidebar")) && NameBytesOnly(Ascii("card-details"))
    ensures NameBytesOnly(Ascii("card-")) && NameBytesOnly(Ascii("list-")) && NameBytesOnly(Ascii("swimlane-"))
  {
  }

  lemma PrefixedName(prefix: Text, name: Text)
    requires HasPrefix(prefix, name) && NameBytesOnly(prefix) && SafeSuffix(name[|prefix|..])
    ensures NameBytesOnly(name)
  {
    assert name == prefix + name[|prefix|..];
  }

  /** The bytes of a name are neither separators nor NUL. */
  lemma NameBytes(name: Text)
    requires NameValid(name)
    ensures NameBytesOnly(name) && SPACE !in name && NEWLINE !in name && 0 !in name
  {
    hide NameBytesOnly, SafeSuffix;
    NameLiterals();
    if name == Ascii("board") || name == Ascii("sidebar") || name == Ascii("card-details") {
    } else if HasPrefix(Ascii("card-"), name) {
      PrefixedName(Ascii("card-"), name);
    } else if HasPrefix(Ascii("list-"), name) {
      PrefixedName(Ascii("list-"), name);
    } else {
      PrefixedName(Ascii("swimlane-"), name);
    }
    NoSeparators(name);
  }

  lemma NoSeparators(name: Text)
    requires NameBytesOnly(name)
    ensures SPACE !in name && NEWLINE !in name && 0 !in name
  {
  }

  lemma NumberBytes(t: Text)
    requires NumberOf(t).Some?
    ensures SPACE !in t && NEWLINE !in t && 0 !in t
  {
    hide Decimals.Value;
  }

  lemma PrefixOf(a: Text, b: Text)
    ensures HasPrefix(a, a + b) && (a + b)[|a|..] == b
  {
  }

  lemma LineOf(name: Text, version: Text, length: Text)
    requires NEWLINE !in name && NEWLINE !in version && NEWLINE !in length
    ensures NEWLINE !in name + ([SPACE] + (version + ([SPACE] + length)))
  {
  }

  /** A framed region is read as that region, however its numbers are spelled and whatever follows. */
  lemma NextOfFramed(r: Region, version: Text, length: Text, rest: Text)
    requires ValidRegion(r) && NumberOf(version) == Some(r.version) && NumberOf(length) == Some(|r.content|)
    ensures NextRegion(Framed(r, version, length) + rest) == Some((r, rest))
  {
    hide NumberOf, Ascii, RegionText, NameValid, RegionKey;
    KeyLengths();
    NameBytes(r.name);
    NumberBytes(version);
    NumberBytes(length);
    var numbers := version + ([SPACE] + length);
    var line := r.name + ([SPACE] + numbers);
    var after := r.content + ([NEWLINE] + rest);
    FramedParts(r, version, length, rest);
    PrefixOf(RegionKey(), line + ([NEWLINE] + after));
    LineOf(r.name, version, length);
    SplitIs(line, NEWLINE, after);
    SplitIs(r.name, SPACE, numbers);
    SplitIs(version, SPACE, length);
    Parts(r.content, [NEWLINE] + rest);
    assert after[|r.content|] == NEWLINE && after[|r.content| + 1..] == rest;
  }

  lemma FramedParts(r: Region, version: Text, length: Text, rest: Text)
    ensures var line := r.name + ([SPACE] + (version + ([SPACE] + length)));
      Framed(r, version, length) + rest == RegionKey() + (line + ([NEWLINE] + (r.content + ([NEWLINE] + rest))))
  {
    hide RegionKey;
  }

  /** What is read as a region was one, with its numbers spelled in some way. */
  lemma FramedOfNext(s: Text) returns (version: Text, length: Text)
    requires NextRegion(s).Some?
    ensures var (r, rest) := NextRegion(s).value;
      && ValidRegion(r) && NumberOf(version) == Some(r.version) && NumberOf(length) == Some(|r.content|)
      && s == Framed(r, version, length) + rest
  {
    hide NumberOf, Ascii, RegionText, NameValid, RegionKey;
    KeyLengths();
    var (line, after) := SplitAt(s[7..], NEWLINE).value;
    var (name, numbers) := SplitAt(line, SPACE).value;
    var (v, l) := SplitAt(numbers, SPACE).value;
    version, length := v, l;
    var (r, rest) := NextRegion(s).value;
    var n := |r.content|;
    assert after == r.content + ([NEWLINE] + rest);
    FramedParts(r, version, length, rest);
    assert s == RegionKey() + s[7..];
  }

  lemma {:induction false} PrintedValid(r: Region)
    requires ValidRegion(r)
    ensures NumberOf(Decimal(r.version)) == Some(r.version) && NumberOf(Decimal(|r.content|)) == Some(|r.content|)
  {
    hide NameValid, RegionText;
    NumberOfPrinted(r.version);
    NumberOfPrinted(|r.content|);
  }

  lemma PrintedBegins(r: Region, rest: Text)
    ensures Printed(r) + rest != End()
  {
    hide Ascii, RegionKey, End;
    KeyLengths();
    var s := Printed(r) + rest;
    assert s[0] == RegionKey()[0];
  }

  /** Printed regions are read back. */
  lemma {:induction false} NextOfPrinted(regions: seq<Region>, room: nat)
    requires ValidRegions(regions) && |regions| <= room
    ensures NextRegions(PrintedRegions(regions), room) == Some(regions)
    decreases |regions|
  {
    hide NextRegion, ValidRegion, Framed, End, Decimal;
    if regions != [] {
      var r, rest := regions[0], PrintedRegions(regions[1..]);
      PrintedValid(r);
      PrintedBegins(r, rest);
      NextOfFramed(r, Decimal(r.version), Decimal(|r.content|), rest);
      NextOfPrinted(regions[1..], room - 1);
      assert regions == [r] + regions[1..];
    }
  }

  lemma FramedSize(r: Region, version: Text, length: Text)
    ensures |Framed(r, version, length)| == 11 + |r.name| + |version| + |length| + |r.content|
  {
    hide RegionKey;
    KeyLengths();
  }

  lemma ShortestNumber(t: Text)
    requires NumberOf(t).Some?
    ensures |Decimal(NumberOf(t).value)| <= |t|
  {
    PrintedIsShortest(t);
  }

  /** What is read as regions is valid, and printing it takes no more bytes. */
  lemma {:induction false} PrintedOfNext(s: Text, room: nat)
    requires NextRegions(s, room).Some?
    ensures ValidRegions(NextRegions(s, room).value) && |PrintedRegions(NextRegions(s, room).value)| <= |s|
    decreases room
  {
    hide NextRegion, ValidRegion, Framed, End, Decimal, NumberOf;
    if s != End() {
      var (r, rest) := NextRegion(s).value;
      var version, length := FramedOfNext(s);
      ShortestNumber(version);
      ShortestNumber(length);
      FramedSize(r, version, length);
      FramedSize(r, Decimal(r.version), Decimal(|r.content|));
      PrintedOfNext(rest, room - 1);
      var regions := NextRegions(rest, room - 1).value;
      assert ([r] + regions)[0] == r && ([r] + regions)[1..] == regions;
    }
  }

  lemma NoNulInFramed(r: Region, version: Text, length: Text)
    requires ValidRegion(r) && NumberOf(version).Some? && NumberOf(length).Some?
    ensures 0 !in Framed(r, version, length)
  {
    hide NameValid, NumberOf;
    NameBytes(r.name);
    NumberBytes(version);
    NumberBytes(length);
    NoNul(r.content);
    NoNulInKeys();
  }

  lemma NoNulInKeys()
    ensures 0 !in Head() && 0 !in VersionKey() && 0 !in RegionKey() && 0 !in End()
  {
  }

  lemma {:induction false} NoNulInPrinted(regions: seq<Region>)
    requires ValidRegions(regions)
    ensures 0 !in PrintedRegions(regions)
  {
    hide ValidRegion, Framed, End, Decimal;
    if regions == [] {
      NoNulInKeys();
    } else {
      PrintedValid(regions[0]);
      NoNulInFramed(regions[0], Decimal(regions[0].version), Decimal(|regions[0].content|));
      NoNulInPrinted(regions[1..]);
    }
  }

  lemma WireParts(r: Response)
    ensures var line := VersionKey() + Decimal(r.requestVersion);
      && Wire(r) == Head() + (line + ([NEWLINE] + PrintedRegions(r.regions)))
      && |Wire(r)| == 32 + |Decimal(r.requestVersion)| + |PrintedRegions(r.regions)|
  {
    hide Ascii, Head, VersionKey, PrintedRegions;
    KeyLengths();
  }

  /** Every valid response within the size bound is parsed back from its encoding. */
  lemma ParseOfEncode(r: Response)
    requires ValidResponse(r) && |Wire(r)| <= 32768
    ensures Parsed(Wire(r)) == Some(r)
  {
    hide Ascii, Head, VersionKey, PrintedRegions, ValidRegion, NumberOf, Wire, NextRegions;
    KeyLengths();
    WireParts(r);
    var version, regions := Decimal(r.requestVersion), PrintedRegions(r.regions);
    var line := VersionKey() + version;
    NumberOfPrinted(r.requestVersion);
    NumberBytes(version);
    PrefixOf(Head(), line + ([NEWLINE] + regions));
    PrefixOf(VersionKey(), version);
    assert NEWLINE !in line;
    SplitIs(line, NEWLINE, regions);
    NextOfPrinted(r.regions, MAX_COUNT);
    NoNulInKeys();
    NoNulInPrinted(r.regions);
    assert 0 !in Wire(r);
  }

  /** Every accepted input encodes again in no more bytes, and to something that parses to the
      same response. */
  lemma EncodeOfParse(input: Text)
    requires Parsed(input).Some?
    ensures var r := Parsed(input).value;
      ValidResponse(r) && |Wire(r)| <= |input| <= 32768 && Parsed(Wire(r)) == Some(r)
  {
    hide Ascii, Head, VersionKey, PrintedRegions, ValidRegion, NumberOf, Wire, NextRegions, ValidRegions;
    KeyLengths();
    var r := Parsed(input).value;
    var (line, after) := SplitAt(input[15..], NEWLINE).value;
    VersionInRange(line[16..]);
    ShortestNumber(line[16..]);
    PrintedOfNext(after, MAX_COUNT);
    WireParts(r);
    ParseOfEncode(r);
  }

  lemma VersionInRange(t: Text)
    requires NumberOf(t).Some?
    ensures 0 < NumberOf(t).value <= ULONG_MAX
  {
  }

  // ----- the format in its own bytes

  lemma AsciiConcat(s: string, t: string, both: string)
    requires both == s + t
    ensures Ascii(both) == Ascii(s) + Ascii(t)
  {
  }

  lemma AsciiBytes(s: string, i: nat)
    requires i < |s| && s[i] as int < 128
    ensures Ascii(s)[i] == s[i] as int
  {
  }

  /** A response of one region, line by line. */
  lemma WireExample()
    ensures Wire(Response(7, [Region(Ascii("board"), 12, Ascii("hi"))])) ==
            Ascii("WENA-REGIONS/1\n") + Ascii("request-version 7\n") + Ascii("region board 12 2\n") + Ascii("hi\n") + Ascii("end\n")
    ensures Ascii("a Z\n-/") == [97, 32, 90, 10, 45, 47]
  {
    hide Ascii, Printed, Decimal;
    var r := Region(Ascii("board"), 12, Ascii("hi"));
    ExampleBytes();
    PrintedExample();
    assert PrintedRegions([r][1..]) == End();
    AsciiConcat("7", "\n", "7\n");
    AsciiConcat("request-version ", "7\n", "request-version 7\n");
  }

  lemma PrintedExample()
    ensures Printed(Region(Ascii("board"), 12, Ascii("hi"))) == Ascii("region board 12 2\n") + Ascii("hi\n")
  {
    hide Ascii, Decimal;
    ExampleBytes();
    AsciiConcat("hi", "\n", "hi\n");
    AsciiConcat("2", "\n", "2\n");
    AsciiConcat(" ", "2\n", " 2\n");
    AsciiConcat("12", " 2\n", "12 2\n");
    AsciiConcat(" ", "12 2\n", " 12 2\n");
    AsciiConcat("board", " 12 2\n", "board 12 2\n");
    AsciiConcat("region ", "board 12 2\n", "region board 12 2\n");
  }

  /** Regions stand in their order, and the end line behind them. */
  lemma {:induction false} RegionsInOrder(regions: seq<Region>, last: Region)
    ensures PrintedRegions([]) == Ascii("end\n")
    ensures PrintedRegions(regions + [last]) == PrintedRegions(regions)[..|PrintedRegions(regions)| - 4] + (Printed(last) + Ascii("end\n"))
  {
    hide Ascii, Printed;
    if regions == [] {
      assert [last][1..] == [] && [] + [last] == [last];
    } else {
      RegionsInOrder(regions[1..], last);
      assert (regions + [last])[1..] == regions[1..] + [last];
      var first, rest := Printed(regions[0]), PrintedRegions(regions[1..]);
      Regrouped(first, rest, Printed(last) + Ascii("end\n"));
    }
  }

  lemma Regrouped(first: Text, rest: Text, last: Text)
    requires 4 <= |rest|
    ensures first + (rest[..|rest| - 4] + last) == (first + rest)[..|first + rest| - 4] + last
  {
  }

  lemma ExampleBytes()
    ensures Ascii(" ") == [SPACE] && Ascii("\n") == [NEWLINE] && Ascii("a Z\n-/") == [97, 32, 90, 10, 45, 47]
    ensures Decimal(7) == Ascii("7") && Decimal(12) == Ascii("12") && Decimal(2) == Ascii("2")
  {
    assert Decimal(12) == Decimal(1) + [50] && Decimal(1) == [49];
  }

  /** The names there are, of at most 64 bytes. */
  lemma NamesExactly(name: Text)
    ensures NameValid(name) <==>
      && |name| <= 64
      && (name == Ascii("board") || name == Ascii("sidebar") || name == Ascii("card-details")
          || NameOf("card-", name) || NameOf("list-", name) || NameOf("swimlane-", name))
  {
    hide Ascii, SafeSuffix;
    PrefixedExactly("card-", name);
    PrefixedExactly("list-", name);
    PrefixedExactly("swimlane-", name);
    OtherPrefixes(name);
  }

  /** The rest of the name behind a prefix: at least one letter, digit, hyphen or underscore. */
  ghost predicate NameOf(prefix: string, name: Text)
  {
    exists suffix :: name == Ascii(prefix) + suffix && suffix != []
      && forall b :: b in suffix ==> 48 <= b <= 57 || 65 <= b <= 90 || 97 <= b <= 122 || b == 45 || b == 95
  }

  lemma PrefixedExactly(prefix: string, name: Text)
    ensures NameOf(prefix, name) <==> HasPrefix(Ascii(prefix), name) && SafeSuffix(name[|prefix|..])
  {
    hide Ascii;
    if HasPrefix(Ascii(prefix), name) {
      assert name == Ascii(prefix) + name[|prefix|..];
    }
    forall suffix | name == Ascii(prefix) + suffix
      ensures HasPrefix(Ascii(prefix), name) && name[|prefix|..] == suffix
    {
    }
    assert forall t: Text :: SafeSuffix(t) <==> t != [] && forall b :: b in t ==> IdentifierByte(b);
  }

  lemma OtherPrefixes(name: Text)
    ensures HasPrefix(Ascii("card-"), name) ==> !HasPrefix(Ascii("list-"), name) && !HasPrefix(Ascii("swimlane-"), name)
    ensures HasPrefix(Ascii("list-"), name) ==> !HasPrefix(Ascii("swimlane-"), name)
  {
    assert Ascii("card-")[0] == 99 && Ascii("list-")[0] == 108 && Ascii("swimlane-")[0] == 115;
    assert forall prefix, n: Text :: HasPrefix(prefix, n) && prefix != [] ==> n[0] == n[..|prefix|][0] == prefix[0];
  }

  /** The limits of a response. */
  lemma ResponseLimits(r: Response)
    ensures ValidResponse(r) <==>
      && 0 < r.requestVersion <= 0xFFFF_FFFF_FFFF_FFFF && |r.regions| <= 8
      && forall region :: region in r.regions ==>
           && NameValid(region.name) && 0 < region.version <= 0xFFFF_FFFF_FFFF_FFFF
           && 0 < |region.content| <= 4096 && RegionText(region.content)
  {
    hide NameValid, RegionText;
    assert ValidRegions(r.regions) <==> forall region :: region in r.regions ==> ValidRegion(region);
  }
}
