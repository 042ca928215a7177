/** Parsing a request out of a growing buffer (server/http.c, and the receiving loop of
    server/http_listener.c). The meaning of a request's text is given by what is written: a request
    line, header lines, an empty line and a body; and the verdict on a stream does not depend on the
    pieces it arrives in (section 2.2 of RFC 9112). */
module HttpRequests {
  import opened BitStreams
  import opened ByteTexts
  import opened Decimals
  import W = RegionWire

  const MAX_REQUEST: nat := 16384
  const MAX_TARGET: nat := 2048
  const MAX_BODY: nat := 8192
  const MAX_HEADERS: nat := 32
  const MAX_NAME: nat := 63
  const MAX_VALUE: nat := 511
  const MAX_METHOD: nat := 7

  const NUL: Byte := 0
  const TAB: Byte := 9
  const LF: Byte := 10
  const CR: Byte := 13
  const SPACE: Byte := 32
  const SLASH: Byte := 47
  const COLON: Byte := 58

  datatype Header = Header(name: seq<Byte>, value: seq<Byte>)

  datatype Start = Start(verb: seq<Byte>, target: seq<Byte>, minor: nat)

  /** A request; the body follows the headers, and `consumed` bytes of the input belong to it. */
  datatype Request = Request(start: Start, headers: seq<Header>, body: seq<Byte>, consumed: nat)

  datatype Outcome = Invalid | Incomplete | TooLarge | Accepted(request: Request)

  // ----- words of the protocol

  /** "GET" */
  function Get(): seq<Byte> { [71, 69, 84] }

  /** "POST" */
  function Post(): seq<Byte> { [80, 79, 83, 84] }

  /** "HTTP/1." */
  function Version(): seq<Byte> { [72, 84, 84, 80, 47, 49, 46] }

  /** "host" */
  function Host(): seq<Byte> { [104, 111, 115, 116] }

  /** "content-length" */
  function ContentLength(): seq<Byte> { [99, 111, 110, 116, 101, 110, 116, 45, 108, 101, 110, 103, 116, 104] }

  /** "transfer-encoding" */
  function TransferEncoding(): seq<Byte>
  {
    [116, 114, 97, 110, 115, 102, 101, 114, 45, 101, 110, 99, 111, 100, 105, 110, 103]
  }

  predicate Visible(b: Byte) { 0x21 <= b <= 0x7e }

  predicate NameByte(b: Byte) { 97 <= b <= 122 || IsDigit(b) || b == 45 }

  predicate Blank(b: Byte) { b == SPACE || b == TAB }

  predicate ValueByte(b: Byte) { (b >= 32 || b == TAB) && b != 127 }

  function ToLower(b: Byte): Byte { if 65 <= b <= 90 then b + 32 else b }

  function Lower(s: seq<Byte>): (t: seq<Byte>)
    ensures |t| == |s|
  {
    seq(|s|, i requires 0 <= i < |s| => ToLower(s[i]))
  }

  predicate AllVisible(s: seq<Byte>) { forall i :: 0 <= i < |s| ==> Visible(s[i]) }

  predicate AllBlank(s: seq<Byte>) { forall i :: 0 <= i < |s| ==> Blank(s[i]) }

  /** Neither end is blank. */
  predicate Trimmed(s: seq<Byte>) { s == [] || (!Blank(s[0]) && !Blank(s[|s| - 1])) }

  // ----- what a request is

  predicate StartValid(start: Start)
  {
    (start.verb == Get() || start.verb == Post()) && TargetValid(start.target) && start.minor < 2
  }

  /** The request line. */
  function StartLine(start: Start): seq<Byte>
    requires start.minor < 2
  {
    WrittenPieces(Pieces(start.verb, start.target, VersionText(start.minor)))
  }

  ghost predicate HeaderValid(h: Header)
  {
    && 0 < |h.name| <= MAX_NAME && AllNameBytes(h.name)
    && |h.value| <= MAX_VALUE && Trimmed(h.value) && AllValueBytes(h.value)
  }

  function Find(headers: seq<Header>, name: seq<Byte>): Option<seq<Byte>>
  {
    if headers == [] then None
    else if headers[0].name == name then Some(headers[0].value)
    else Find(headers[1..], name)
  }

  /** A header may follow the ones before it. */
  ghost predicate MayFollow(h: Header, before: seq<Header>)
  {
    && |before| < MAX_HEADERS && HeaderValid(h) && Find(before, h.name) == None
    && h.name != TransferEncoding()
    && (h.name == ContentLength() ==>
          h.value != [] && AllDigits(h.value) && Value(h.value) <= MAX_BODY)
  }

  /** Headers may follow the ones before them, one after the other. */
  ghost predicate Follow(before: seq<Header>, headers: seq<Header>)
    decreases |headers|
  {
    headers == [] || (MayFollow(headers[0], before) && Follow(before + [headers[0]], headers[1..]))
  }

  /** The length the headers give the body. */
  ghost function BodyLength(headers: seq<Header>): nat
  {
    match Find(headers, ContentLength())
    case None => 0
    case Some(v) => if AllDigits(v) then Value(v) else 0
  }

  ghost predicate RequestValid(r: Request)
    ensures RequestValid(r) ==> r.start.minor < 2
  {
    && StartValid(r.start) && Follow([], r.headers) && Complete(r.start, r.headers)
    && |r.body| == BodyLength(r.headers)
  }

  /** What the headers must hold. */
  predicate Complete(start: Start, headers: seq<Header>)
  {
    && (start.minor == 1 ==> Find(headers, Host()).Some? && Find(headers, Host()).value != [])
    && (start.verb == Post() ==> Find(headers, ContentLength()).Some?)
  }

  // ----- and in the protocol's own words

  /** The words of the protocol. */
  lemma ProtocolWords()
    ensures Get() == W.Ascii("GET") && Post() == W.Ascii("POST") && Version() == W.Ascii("HTTP/1.")
    ensures Host() == W.Ascii("host") && ContentLength() == W.Ascii("content-length")
    ensures TransferEncoding() == W.Ascii("transfer-encoding")
  {
  }

  /** A request line: GET or POST, a target of up to 2048 visible bytes that begins with one slash, and
      HTTP/1.0 or HTTP/1.1, with single spaces between. */
  lemma StartExactly(start: Start)
    ensures StartValid(start) <==>
      && (start.verb == W.Ascii("GET") || start.verb == W.Ascii("POST")) && (start.minor == 0 || start.minor == 1)
      && 0 < |start.target| <= 2048 && (forall b :: b in start.target ==> 0x21 <= b <= 0x7e)
      && start.target[0] == 47 && (|start.target| > 1 ==> start.target[1] != 47)
    ensures start.minor < 2 ==>
      StartLine(start) == start.verb + W.Ascii(" ") + start.target + W.Ascii(" HTTP/1.") + [48 + start.minor]
  {
    ProtocolWords();
    SpacedVersion();
    hide W.Ascii, Get, Post, Version;
    assert AllVisible(start.target) <==> forall b :: b in start.target ==> Visible(b);
  }

  lemma SpacedVersion()
    ensures W.Ascii(" ") == [SPACE] && W.Ascii(" HTTP/1.") == [SPACE] + Version()
  {
  }

  /** A header: a name of up to 63 small letters, digits and hyphens, and a value of up to 511 bytes
      without controls but tabs, and without blanks at its ends. */
  lemma HeaderExactly(h: Header)
    ensures HeaderValid(h) <==>
      && 0 < |h.name| <= 63 && (forall b :: b in h.name ==> 97 <= b <= 122 || 48 <= b <= 57 || b == 45)
      && |h.value| <= 511 && (forall b :: b in h.value ==> b == 9 || (32 <= b && b != 127))
      && (h.value != [] ==> h.value[0] != 9 && h.value[0] != 32 && h.value[|h.value| - 1] != 9 && h.value[|h.value| - 1] != 32)
  {
    assert AllNameBytes(h.name) <==> forall b: Byte :: b in h.name ==> NameByte(b);
    assert AllValueBytes(h.value) <==> forall b: Byte :: b in h.value ==> ValueByte(b);
    assert forall b: Byte :: ValueByte(b) <==> b == 9 || (32 <= b && b != 127);
    assert forall b: Byte :: NameByte(b) <==> 97 <= b <= 122 || 48 <= b <= 57 || b == 45;
  }

  lemma {:induction false} FindExactly(headers: seq<Header>, name: seq<Byte>)
    ensures Find(headers, name) == None <==> forall h :: h in headers ==> h.name != name
    ensures forall v :: Find(headers, name) == Some(v) ==> Header(name, v) in headers
  {
    if headers != [] {
      FindExactly(headers[1..], name);
      assert headers == [headers[0]] + headers[1..];
    }
  }

  /** A header may follow others: at most 32 in all, no name twice, no transfer coding, and as a length
      of the content a number of at most 8192. */
  lemma MayFollowExactly(h: Header, before: seq<Header>)
    ensures MayFollow(h, before) <==>
      && |before| < 32 && HeaderValid(h) && (forall b :: b in before ==> b.name != h.name)
      && h.name != W.Ascii("transfer-encoding")
      && (h.name == W.Ascii("content-length") ==> h.value != [] && AllDigits(h.value) && Value(h.value) <= 8192)
  {
    ProtocolWords();
    FindExactly(before, h.name);
    hide W.Ascii, TransferEncoding, ContentLength, HeaderValid, Find, Value;
  }

  /** What a request must have: a host in HTTP/1.1, and a length of the content when it posts; without
      that length the body is empty. */
  lemma CompleteExactly(start: Start, headers: seq<Header>)
    ensures Complete(start, headers) <==>
      && (start.minor == 1 ==> Find(headers, W.Ascii("host")).Some? && Find(headers, W.Ascii("host")) != Some([]))
      && (start.verb == W.Ascii("POST") ==> exists h :: h in headers && h.name == W.Ascii("content-length"))
    ensures (forall h :: h in headers ==> h.name != W.Ascii("content-length")) ==> BodyLength(headers) == 0
    ensures forall v :: Find(headers, W.Ascii("content-length")) == Some(v) && AllDigits(v) ==> BodyLength(headers) == Value(v)
  {
    ProtocolWords();
    FindExactly(headers, ContentLength());
    hide W.Ascii, Host, ContentLength, Post, Find, Value;
  }

  // ----- reading lines

  predicate CrlfAt(s: seq<Byte>, i: nat) { i + 1 < |s| && s[i] == CR && s[i + 1] == LF }

  /** Where the first line ends. */
  function LineEnd(s: seq<Byte>): (e: Option<nat>)
    ensures e.Some? ==> CrlfAt(s, e.value) && forall j :: 0 <= j < e.value ==> !CrlfAt(s, j)
    ensures e.None? ==> forall j: nat :: !CrlfAt(s, j)
  {
    if |s| < 2 then None
    else if CrlfAt(s, 0) then Some(0)
    else match LineEnd(s[1..])
         case None =>
           (assert forall j: nat :: CrlfAt(s, j) && j > 0 ==> CrlfAt(s[1..], j - 1);
           None)
         case Some(e) =>
           (assert forall j: nat :: CrlfAt(s, j) && j > 0 ==> CrlfAt(s[1..], j - 1);
           Some(e + 1))
  }

  /** The line end is the first place with the two bytes. */
  lemma {:induction false} LineEndIs(s: seq<Byte>, e: nat)
    requires CrlfAt(s, e) && forall j :: 0 <= j < e ==> !CrlfAt(s, j)
    ensures LineEnd(s) == Some(e)
  {
    if e > 0 {
      assert !CrlfAt(s, 0);
      forall j | 0 <= j < e - 1
        ensures !CrlfAt(s[1..], j)
      {
        assert !CrlfAt(s, j + 1);
      }
      LineEndIs(s[1..], e - 1);
    }
  }

  /** A line end stays where it is when more bytes come, and when only its line is kept. */
  lemma LineEndStays(s: seq<Byte>, more: seq<Byte>, e: nat)
    requires LineEnd(s) == Some(e)
    ensures LineEnd(s + more) == Some(e)
  {
    forall j | 0 <= j < e
      ensures !CrlfAt(s + more, j)
    {
      assert !CrlfAt(s, j);
    }
    LineEndIs(s + more, e);
  }

  // ----- the request line

  /** A token that fits. */
  predicate Token(s: seq<Byte>, capacity: nat) { 0 < |s| <= capacity && AllVisible(s) }

  datatype Pieces = Pieces(one: seq<Byte>, two: seq<Byte>, three: seq<Byte>)

  /** A line with exactly two spaces, taken apart at them. */
  function ReadPieces(line: seq<Byte>): Option<Pieces>
  {
    match SplitAt(line, SPACE)
    case None => None
    case Some((one, rest)) =>
      match SplitAt(rest, SPACE)
      case None => None
      case Some((two, three)) => if SPACE in three then None else Some(Pieces(one, two, three))
  }

  function WrittenPieces(p: Pieces): seq<Byte> { p.one + ([SPACE] + (p.two + ([SPACE] + p.three))) }

  lemma PiecesAreTheLine(line: seq<Byte>, p: Pieces)
    ensures ReadPieces(line) == Some(p) <==>
            line == WrittenPieces(p) && SPACE !in p.one && SPACE !in p.two && SPACE !in p.three
  {
    hide SplitAt;
    var rest := p.two + ([SPACE] + p.three);
    SplitExactly(line, SPACE, p.one, rest);
    SplitExactly(rest, SPACE, p.two, p.three);
    if ReadPieces(line) == Some(p) {
      var (one, more) := SplitAt(line, SPACE).value;
      SplitExactly(line, SPACE, one, more);
      SplitExactly(more, SPACE, p.two, p.three);
    }
  }

  predicate VerbValid(verb: seq<Byte>) { Token(verb, MAX_METHOD) && (verb == Get() || verb == Post()) }

  predicate TargetValid(target: seq<Byte>)
  {
    Token(target, MAX_TARGET) && target[0] == SLASH && (|target| > 1 ==> target[1] != SLASH)
  }

  predicate VersionValid(version: seq<Byte>)
  {
    |version| == 8 && version[..7] == Version() && (version[7] == 48 || version[7] == 49)
  }

  /** The request line, as the parser takes it apart. */
  function ReadStart(line: seq<Byte>): Option<Start>
  {
    match ReadPieces(line)
    case None => None
    case Some(p) =>
      if VerbValid(p.one) && TargetValid(p.two) && VersionValid(p.three)
      then Some(Start(p.one, p.two, p.three[7] - 48))
      else None
  }

  function VersionText(minor: nat): seq<Byte>
    requires minor < 2
  {
    Version() + [48 + minor]
  }

  lemma VersionIsItsText(version: seq<Byte>, minor: nat)
    requires minor < 2
    ensures VersionValid(version) && version[7] - 48 == minor <==> version == VersionText(minor)
    ensures SPACE !in VersionText(minor)
  {
    if VersionValid(version) {
      assert version == version[..7] + [version[7]];
    }
    assert VersionText(minor)[..7] == Version();
  }

  lemma NoSpace(s: seq<Byte>)
    requires AllVisible(s)
    ensures SPACE !in s
  {
  }

  /** A line is read as a start exactly when it is what that start is written as. */
  lemma StartIsItsLine(line: seq<Byte>, start: Start)
    ensures ReadStart(line) == Some(start) <==> StartValid(start) && line == StartLine(start)
  {
    hide ReadPieces, VersionValid, VersionText, Version, AllVisible;
    if start.minor < 2 {
      var p := Pieces(start.verb, start.target, VersionText(start.minor));
      VersionIsItsText(VersionText(start.minor), start.minor);
      PiecesAreTheLine(line, p);
      if ReadStart(line) == Some(start) {
        VersionIsItsText(ReadPieces(line).value.three, start.minor);
      } else if StartValid(start) {
        VerbIsToken(start.verb);
        NoSpace(start.verb);
        NoSpace(start.target);
      }
    } else if ReadStart(line).Some? {
      MinorIsBit(ReadPieces(line).value.three);
    }
  }

  lemma MinorIsBit(version: seq<Byte>)
    requires VersionValid(version)
    ensures 0 <= version[7] - 48 < 2
  {
  }

  lemma VerbIsToken(verb: seq<Byte>)
    requires verb == Get() || verb == Post()
    ensures Token(verb, MAX_METHOD)
  {
  }

  // ----- a header line

  /** Without the blanks at the front. */
  function FromFirst(s: seq<Byte>): seq<Byte> { if s != [] && Blank(s[0]) then FromFirst(s[1..]) else s }

  /** Without the blanks at the back. */
  function ToLast(s: seq<Byte>): seq<Byte>
  {
    if s != [] && Blank(s[|s| - 1]) then ToLast(s[..|s| - 1]) else s
  }

  function Trim(s: seq<Byte>): seq<Byte> { ToLast(FromFirst(s)) }

  lemma {:induction false} FromFirstSkips(left: seq<Byte>, rest: seq<Byte>)
    requires AllBlank(left)
    ensures FromFirst(left + rest) == FromFirst(rest)
  {
    if left == [] {
      assert left + rest == rest;
    } else {
      assert (left + rest)[1..] == left[1..] + rest;
      FromFirstSkips(left[1..], rest);
    }
  }

  lemma {:induction false} ToLastSkips(rest: seq<Byte>, right: seq<Byte>)
    requires AllBlank(right)
    ensures ToLast(rest + right) == ToLast(rest)
  {
    if right == [] {
      assert rest + right == rest;
    } else {
      var n := |right| - 1;
      assert (rest + right)[..|rest| + n] == rest + right[..n];
      ToLastSkips(rest, right[..n]);
    }
  }

  /** Trimming leaves what is between blanks. */
  lemma TrimIs(left: seq<Byte>, value: seq<Byte>, right: seq<Byte>)
    requires AllBlank(left) && AllBlank(right) && Trimmed(value)
    ensures Trim(left + value + right) == value
  {
    Associative(left, value, right);
    FromFirstSkips(left, value + right);
    if value == [] {
      assert value + right == right + [];
      FromFirstSkips(right, []);
    } else {
      assert (value + right)[0] == value[0];
      ToLastSkips(value, right);
    }
  }

  lemma {:induction false} FromFirstParts(s: seq<Byte>) returns (left: seq<Byte>)
    ensures AllBlank(left) && s == left + FromFirst(s)
    ensures FromFirst(s) != [] ==> !Blank(FromFirst(s)[0])
  {
    left := [];
    if s != [] && Blank(s[0]) {
      var rest := FromFirstParts(s[1..]);
      left := [s[0]] + rest;
      assert s == [s[0]] + s[1..];
    }
  }

  lemma {:induction false} ToLastParts(s: seq<Byte>) returns (right: seq<Byte>)
    ensures AllBlank(right) && s == ToLast(s) + right
    ensures ToLast(s) != [] ==> !Blank(ToLast(s)[|ToLast(s)| - 1])
  {
    right := [];
    if s != [] && Blank(s[|s| - 1]) {
      var rest := ToLastParts(s[..|s| - 1]);
      right := rest + [s[|s| - 1]];
      assert s == s[..|s| - 1] + [s[|s| - 1]];
    }
  }

  lemma TrimParts(s: seq<Byte>) returns (left: seq<Byte>, right: seq<Byte>)
    ensures AllBlank(left) && AllBlank(right) && Trimmed(Trim(s))
    ensures s == left + Trim(s) + right
  {
    left := FromFirstParts(s);
    var kept := FromFirst(s);
    right := ToLastParts(kept);
    Associative(left, Trim(s), right);
    if Trim(s) != [] {
      assert kept[0] == Trim(s)[0];
    }
  }

  datatype LengthOutcome = NoLength | LongLength | Length(n: nat)

  /** A length, digit by digit: whichever comes first of a byte that is no digit and a number that
      is too large decides. */
  ghost function ReadLength(v: seq<Byte>): LengthOutcome
  {
    if v == [] then Length(0)
    else match ReadLength(v[..|v| - 1])
         case NoLength => NoLength
         case LongLength => LongLength
         case Length(n) =>
           var last := v[|v| - 1];
           if !IsDigit(last) then NoLength
           else if 10 * n + (last - 48) > MAX_BODY then LongLength
           else Length(10 * n + (last - 48))
  }

  lemma {:induction false} LengthIsValue(v: seq<Byte>, n: nat)
    ensures ReadLength(v) == Length(n) <==> AllDigits(v) && Value(v) == n && n <= MAX_BODY
  {
    if v != [] {
      var front := v[..|v| - 1];
      if AllDigits(v) {
        ValueGrows(v, |v| - 1);
        LengthIsValue(front, Value(front));
      }
      if ReadLength(front).Length? {
        LengthIsValue(front, ReadLength(front).n);
      }
    }
  }

  datatype HeaderOutcome = BadHeader | LongBody | GoodHeader(header: Header)

  ghost predicate AllValueBytes(s: seq<Byte>) { forall i :: 0 <= i < |s| ==> ValueByte(s[i]) }

  ghost predicate AllNameBytes(s: seq<Byte>) { forall i :: 0 <= i < |s| ==> NameByte(s[i]) }

  /** A header line, as the parser takes it apart. */
  ghost function ReadHeader(line: seq<Byte>, before: seq<Header>): HeaderOutcome
    requires line != []
  {
    if Blank(line[0]) || |before| >= MAX_HEADERS then BadHeader
    else
      match SplitAt(line, COLON)
      case None => BadHeader
      case Some((spelled, after)) =>
        var name, value := Lower(spelled), Trim(after);
        if !Token(spelled, MAX_NAME) || !AllNameBytes(name) || Find(before, name).Some? then BadHeader
        else ReadValue(Header(name, value))
  }

  ghost function ReadValue(h: Header): HeaderOutcome
  {
    if |h.value| > MAX_VALUE || !AllValueBytes(h.value) || h.name == TransferEncoding() then BadHeader
    else if h.name != ContentLength() then GoodHeader(h)
    else if h.value == [] then BadHeader
    else
      match ReadLength(h.value)
      case NoLength => BadHeader
      case LongLength => LongBody
      case Length(_) => GoodHeader(h)
  }

  /** How a header is written: its name in either case, and the blanks about its value. */
  datatype Layout = Layout(spelled: seq<Byte>, left: seq<Byte>, right: seq<Byte>)

  ghost predicate Suits(layout: Layout, h: Header)
  {
    Lower(layout.spelled) == h.name && AllBlank(layout.left) && AllBlank(layout.right)
  }

  ghost function HeaderLine(h: Header, layout: Layout): seq<Byte>
  {
    layout.spelled + ([COLON] + (layout.left + h.value + layout.right))
  }

  lemma SpelledName(spelled: seq<Byte>)
    requires AllNameBytes(Lower(spelled))
    ensures AllVisible(spelled) && COLON !in spelled && CR !in spelled && NUL !in spelled
    ensures spelled != [] ==> !Blank(spelled[0])
  {
    forall i | 0 <= i < |spelled|
      ensures Visible(spelled[i]) && spelled[i] != COLON && !Blank(spelled[i])
    {
      assert NameByte(Lower(spelled)[i]);
    }
  }

  /** A written header is read as itself. */
  lemma HeaderRead(h: Header, layout: Layout, before: seq<Header>)
    requires MayFollow(h, before) && Suits(layout, h)
    ensures HeaderLine(h, layout) != [] && ReadHeader(HeaderLine(h, layout), before) == GoodHeader(h)
  {
    hide SplitAt, Trim, ReadLength, Value, Trimmed, TransferEncoding, ContentLength, AllDigits;
    var line := HeaderLine(h, layout);
    var after := layout.left + h.value + layout.right;
    SpelledName(layout.spelled);
    SplitExactly(line, COLON, layout.spelled, after);
    TrimIs(layout.left, h.value, layout.right);
    assert line[0] == layout.spelled[0];
    ValueRead(h, before);
  }

  lemma ValueRead(h: Header, before: seq<Header>)
    requires MayFollow(h, before)
    ensures ReadValue(h) == GoodHeader(h)
  {
    if h.name == ContentLength() {
      LengthIsValue(h.value, Value(h.value));
    }
  }

  /** A line read as a header is how that header is written. */
  lemma HeaderWritten(line: seq<Byte>, before: seq<Header>, h: Header) returns (layout: Layout)
    requires line != [] && ReadHeader(line, before) == GoodHeader(h)
    ensures MayFollow(h, before) && Suits(layout, h) && line == HeaderLine(h, layout)
  {
    hide SplitAt, Trim, ReadLength, Value, TransferEncoding, ContentLength, AllDigits;
    var (spelled, after) := SplitAt(line, COLON).value;
    SplitExactly(line, COLON, spelled, after);
    var left, right := TrimParts(after);
    layout := Layout(spelled, left, right);
    ValueIs(Header(Lower(spelled), Trim(after)), h);
  }

  lemma ValueIs(read: Header, h: Header)
    requires ReadValue(read) == GoodHeader(h)
    ensures read == h && |h.value| <= MAX_VALUE && AllValueBytes(h.value) && h.name != TransferEncoding()
    ensures h.name == ContentLength() ==> h.value != [] && AllDigits(h.value) && Value(h.value) <= MAX_BODY
  {
    if h.name == ContentLength() && ReadLength(h.value).Length? {
      LengthIsValue(h.value, ReadLength(h.value).n);
    }
  }

  // ----- the whole request

  function Crlf(): seq<Byte> { [CR, LF] }

  /** The headers are all read, and `after` is what follows the empty line. */
  ghost function Finish(start: Start, headers: seq<Header>, at: nat, after: seq<Byte>): Outcome
  {
    var length := BodyLength(headers);
    if !Complete(start, headers) then Invalid
    else if |after| < length then Incomplete
    else Accepted(Request(start, headers, after[..length], at + length))
  }

  /** The header lines in `rest`, the `at` bytes before it read. */
  ghost function ReadHeaders(start: Start, before: seq<Header>, at: nat, rest: seq<Byte>): Outcome
    decreases |rest|
  {
    match LineEnd(rest)
    case None => Incomplete
    case Some(e) =>
      if e == 0 then Finish(start, before, at + 2, rest[2..])
      else
        match ReadHeader(rest[..e], before)
        case BadHeader => Invalid
        case LongBody => TooLarge
        case GoodHeader(h) => ReadHeaders(start, before + [h], at + e + 2, rest[e + 2..])
  }

  lemma LastStep(start: Start, before: seq<Header>, at: nat, rest: seq<Byte>)
    requires LineEnd(rest) == Some(0)
    ensures ReadHeaders(start, before, at, rest) == Finish(start, before, at + 2, rest[2..])
  {
  }

  lemma HeaderStep(start: Start, before: seq<Header>, at: nat, rest: seq<Byte>, e: nat)
    requires LineEnd(rest) == Some(e) && e > 0
    ensures ReadHeaders(start, before, at, rest) ==
            match ReadHeader(rest[..e], before)
            case BadHeader => Invalid
            case LongBody => TooLarge
            case GoodHeader(h) => ReadHeaders(start, before + [h], at + e + 2, rest[e + 2..])
  {
    hide LineEnd, ReadHeader, Finish;
  }

  lemma NoStep(start: Start, before: seq<Header>, at: nat, rest: seq<Byte>)
    requires LineEnd(rest) == None
    ensures ReadHeaders(start, before, at, rest) == Incomplete
  {
  }

  lemma FinishStays(start: Start, headers: seq<Header>, at: nat, after: seq<Byte>, more: seq<Byte>)
    requires Finish(start, headers, at, after) != Incomplete
    ensures Finish(start, headers, at, after + more) == Finish(start, headers, at, after)
  {
    hide Complete, BodyLength;
    var n := BodyLength(headers);
    if n <= |after| {
      assert (after + more)[..n] == after[..n];
    }
  }

  lemma FinishConsumed(start: Start, headers: seq<Header>, at: nat, after: seq<Byte>)
    requires Finish(start, headers, at, after).Accepted?
    ensures var r := Finish(start, headers, at, after).request;
      && r == Request(start, headers, r.body, at + |r.body|) && Complete(start, headers)
      && |r.body| == BodyLength(headers) <= |after| && after[..|r.body|] == r.body
      && Finish(start, headers, at, r.body) == Accepted(r)
  {
    hide Complete, BodyLength;
    var n := BodyLength(headers);
    assert after[..n][..n] == after[..n];
  }

  lemma FinishRead(start: Start, headers: seq<Header>, at: nat, body: seq<Byte>, more: seq<Byte>)
    requires Complete(start, headers) && |body| == BodyLength(headers)
    ensures Finish(start, headers, at, body + more) == Accepted(Request(start, headers, body, at + |body|))
  {
    hide Complete, BodyLength;
    Parts(body, more);
  }

  /** The verdict on an input within the size and without NULs. */
  ghost function ReadRequest(input: seq<Byte>): Outcome
  {
    match LineEnd(input)
    case None => Incomplete
    case Some(e) =>
      match ReadStart(input[..e])
      case None => Invalid
      case Some(start) => ReadHeaders(start, [], e + 2, input[e + 2..])
  }

  ghost function Parse(input: seq<Byte>): Outcome
  {
    if |input| > MAX_REQUEST then TooLarge
    else if NUL in input then Invalid
    else ReadRequest(input)
  }

  /** How a header line is written: its name with letters of either case, a colon, and its value
      between blanks and tabs. */
  lemma HeaderAsWritten(h: Header, layout: Layout, i: nat)
    ensures Suits(layout, h) ==>
      && |layout.spelled| == |h.name|
      && (i < |h.name| ==> h.name[i] == if 65 <= layout.spelled[i] <= 90 then layout.spelled[i] + 32 else layout.spelled[i])
      && (forall b :: b in layout.left + layout.right ==> b == 32 || b == 9)
    ensures HeaderLine(h, layout) == layout.spelled + W.Ascii(":") + layout.left + h.value + layout.right
    ensures Crlf() == W.Ascii("\r\n")
  {
    ColonAndEnd();
    hide W.Ascii;
    if Suits(layout, h) {
      assert Lower(layout.spelled) == h.name;
      assert forall b :: b in layout.left ==> Blank(b);
      assert forall b :: b in layout.right ==> Blank(b);
    }
  }

  lemma ColonAndEnd()
    ensures W.Ascii(":") == [COLON] && Crlf() == W.Ascii("\r\n")
  {
  }

  /** The length of a body that is too long is told from one that is none: the digits before anything
      else decide. */
  lemma {:induction false} LengthVerdicts(v: seq<Byte>)
    ensures ReadLength(v) == LongLength <==> exists k :: 0 <= k <= |v| && AllDigits(v[..k]) && Value(v[..k]) > 8192
    ensures forall n: nat :: ReadLength(v) == Length(n) <==> AllDigits(v) && Value(v) == n && n <= 8192
  {
    forall n: nat ensures ReadLength(v) == Length(n) <==> AllDigits(v) && Value(v) == n && n <= 8192 {
      LengthIsValue(v, n);
    }
    LongIsLong(v);
  }

  lemma {:induction false} LongIsLong(v: seq<Byte>)
    ensures ReadLength(v) == LongLength <==> exists k :: 0 <= k <= |v| && AllDigits(v[..k]) && Value(v[..k]) > 8192
  {
    assert v[..|v|] == v;
    if v == [] {
      assert v[..0] == [];
    } else {
      var n := |v| - 1;
      var front := v[..n];
      LongIsLong(front);
      assert forall k :: 0 <= k <= n ==> front[..k] == v[..k];
      if AllDigits(front) {
        LengthIsValue(front, Value(front));
      }
      if AllDigits(v) {
        assert AllDigits(front);
      }
      if ReadLength(front).Length? {
        LengthIsValue(front, ReadLength(front).n);
      }
    }
  }

  /** The verdict on an input by its first failure: too long, then a NUL, then what its lines say. */
  lemma ParseLimits(input: seq<Byte>)
    ensures |input| > 16384 ==> Parse(input) == TooLarge
    ensures |input| <= 16384 && 0 in input ==> Parse(input) == Invalid
    ensures |input| <= 16384 && 0 !in input ==> Parse(input) == ReadRequest(input)
  {
    hide ReadRequest;
  }

  // ----- more bytes change nothing

  lemma {:induction false} HeadersStay(start: Start, before: seq<Header>, at: nat, rest: seq<Byte>, more: seq<Byte>)
    requires ReadHeaders(start, before, at, rest) != Incomplete
    ensures ReadHeaders(start, before, at, rest + more) == ReadHeaders(start, before, at, rest)
    decreases |rest|
  {
    hide LineEnd, ReadHeader, ReadHeaders, Finish;
    if LineEnd(rest) == None {
      NoStep(start, before, at, rest);
    } else {
      var e := LineEnd(rest).value;
      LineEndStays(rest, more, e);
      assert (rest + more)[..e] == rest[..e] && (rest + more)[e + 2..] == rest[e + 2..] + more;
      if e == 0 {
        LastStep(start, before, at, rest);
        LastStep(start, before, at, rest + more);
        FinishStays(start, before, at + 2, rest[2..], more);
      } else {
        HeaderStep(start, before, at, rest, e);
        HeaderStep(start, before, at, rest + more, e);
        var read := ReadHeader(rest[..e], before);
        if read.GoodHeader? {
          HeadersStay(start, before + [read.header], at + e + 2, rest[e + 2..], more);
        }
      }
    }
  }

  lemma RequestStays(input: seq<Byte>, more: seq<Byte>)
    requires ReadRequest(input) != Incomplete
    ensures ReadRequest(input + more) == ReadRequest(input)
  {
    hide LineEnd, ReadStart, ReadHeaders;
    var e := LineEnd(input).value;
    LineEndStays(input, more, e);
    assert (input + more)[..e] == input[..e] && (input + more)[e + 2..] == input[e + 2..] + more;
    var start := ReadStart(input[..e]);
    if start.Some? {
      HeadersStay(start.value, [], e + 2, input[e + 2..], more);
    }
  }

  /** Once a verdict is reached, more bytes within the size keep it exactly when they hold no NUL, or
      it was that the request is invalid. */
  lemma VerdictStays(input: seq<Byte>, more: seq<Byte>)
    requires Parse(input) != Incomplete && |input + more| <= MAX_REQUEST
    ensures Parse(input + more) == Parse(input) <==> NUL !in more || Parse(input) == Invalid
  {
    hide ReadRequest;
    if NUL !in input {
      RequestStays(input, more);
      if NUL in more {
        var i :| 0 <= i < |more| && more[i] == NUL;
        assert (input + more)[|input| + i] == NUL;
      }
    } else {
      var i :| 0 <= i < |input| && input[i] == NUL;
      assert (input + more)[i] == NUL;
    }
  }

  // ----- only the consumed bytes matter

  lemma {:induction false} HeadersConsumed(start: Start, before: seq<Header>, at: nat, rest: seq<Byte>)
    requires ReadHeaders(start, before, at, rest).Accepted?
    ensures var r := ReadHeaders(start, before, at, rest).request;
      && at <= r.consumed <= at + |rest|
      && ReadHeaders(start, before, at, rest[..r.consumed - at]) == Accepted(r)
    decreases |rest|
  {
    hide LineEnd, ReadHeader, ReadHeaders, Finish;
    if LineEnd(rest) == None {
      NoStep(start, before, at, rest);
    } else {
      var e := LineEnd(rest).value;
      var after := rest[e + 2..];
      if e == 0 {
        LastStep(start, before, at, rest);
        FinishConsumed(start, before, at + 2, after);
        var body := Finish(start, before, at + 2, after).request.body;
        Kept(rest, e, |body|);
        LastStep(start, before, at, rest[..2 + |body|]);
      } else {
        HeaderStep(start, before, at, rest, e);
        var h := ReadHeader(rest[..e], before).header;
        HeadersConsumed(start, before + [h], at + e + 2, after);
        var n := ReadHeaders(start, before, at, rest).request.consumed - at;
        Kept(rest, e, n - e - 2);
        HeaderStep(start, before, at, rest[..n], e);
      }
    }
  }

  /** A line is kept with `n` bytes after it. */
  lemma Kept(s: seq<Byte>, e: nat, n: nat)
    requires LineEnd(s) == Some(e) && e + 2 + n <= |s|
    ensures LineEnd(s[..e + 2 + n]) == Some(e)
    ensures s[..e + 2 + n][..e] == s[..e] && s[..e + 2 + n][e + 2..] == s[e + 2..][..n]
    ensures s[..e + 2 + n] == s[..e] + Crlf() + s[e + 2..][..n]
  {
    hide LineEnd, CrlfAt;
    LineEndKept(s, e, e + 2 + n);
    LineAndEnd(s, e);
    var t := s[..e + 2 + n];
    assert t == s[..e + 2] + s[e + 2..][..n];
    Parts(s[..e + 2], s[e + 2..][..n]);
    assert t[..e] == s[..e];
  }

  lemma LineAndEnd(s: seq<Byte>, e: nat)
    requires LineEnd(s) == Some(e)
    ensures CrlfAt(s, e) && s[..e + 2] == s[..e] + Crlf()
  {
    hide LineEnd;
  }

  lemma LineEndKept(s: seq<Byte>, e: nat, n: nat)
    requires LineEnd(s) == Some(e) && e + 2 <= n <= |s|
    ensures LineEnd(s[..n]) == Some(e)
  {
    forall j | 0 <= j < e
      ensures !CrlfAt(s[..n], j)
    {
      assert !CrlfAt(s, j);
    }
    LineEndIs(s[..n], e);
  }

  /** The consumed bytes alone are the same request. */
  lemma ConsumedIsTheRequest(input: seq<Byte>)
    requires Parse(input).Accepted?
    ensures Parse(input).request.consumed <= |input|
    ensures Parse(input[..Parse(input).request.consumed]) == Parse(input)
  {
    hide LineEnd, ReadStart, ReadHeaders;
    var e := LineEnd(input).value;
    var start := ReadStart(input[..e]).value;
    HeadersConsumed(start, [], e + 2, input[e + 2..]);
    var n := Parse(input).request.consumed;
    Kept(input, e, n - e - 2);
  }

  // ----- a request is what is written

  ghost function HeaderLines(headers: seq<Header>, layouts: seq<Layout>): seq<Byte>
    requires |headers| == |layouts|
  {
    if headers == [] then []
    else HeaderLine(headers[0], layouts[0]) + Crlf() + HeaderLines(headers[1..], layouts[1..])
  }

  ghost predicate AllSuit(layouts: seq<Layout>, headers: seq<Header>)
  {
    |layouts| == |headers| && forall i :: 0 <= i < |headers| ==> Suits(layouts[i], headers[i])
  }

  /** A request as it is written. */
  ghost function Written(r: Request, layouts: seq<Layout>): seq<Byte>
    requires |r.headers| == |layouts| && r.start.minor < 2
  {
    StartLine(r.start) + Crlf() + (HeaderLines(r.headers, layouts) + (Crlf() + r.body))
  }

  lemma LineOf(line: seq<Byte>, more: seq<Byte>)
    requires CR !in line
    ensures LineEnd(line + Crlf() + more) == Some(|line|)
    ensures (line + Crlf() + more)[..|line|] == line && (line + Crlf() + more)[|line| + 2..] == more
  {
    var s := line + Crlf() + more;
    assert s[|line|] == CR && s[|line| + 1] == LF;
    forall j | 0 <= j < |line|
      ensures !CrlfAt(s, j)
    {
      assert s[j] == line[j];
    }
    LineEndIs(s, |line|);
  }

  lemma EmptyLine(more: seq<Byte>)
    ensures LineEnd(Crlf() + more) == Some(0) && (Crlf() + more)[2..] == more
  {
    LineOf([], more);
    assert [] + Crlf() + more == Crlf() + more;
  }

  lemma HeaderLineClean(h: Header, layout: Layout)
    requires HeaderValid(h) && Suits(layout, h)
    ensures CR !in HeaderLine(h, layout) && NUL !in HeaderLine(h, layout)
  {
    SpelledName(layout.spelled);
  }

  lemma {:induction false} HeadersRead(start: Start, before: seq<Header>, at: nat, headers: seq<Header>,
                                       layouts: seq<Layout>, body: seq<Byte>, more: seq<Byte>)
    requires Follow(before, headers) && AllSuit(layouts, headers)
    requires Complete(start, before + headers) && |body| == BodyLength(before + headers)
    ensures var text := HeaderLines(headers, layouts) + (Crlf() + body);
      ReadHeaders(start, before, at, text + more) ==
        Accepted(Request(start, before + headers, body, at + |text|))
    decreases |headers|
  {
    hide LineEnd, ReadHeader, ReadHeaders, Finish, Complete, BodyLength, MayFollow, Suits, HeaderLine, HeaderValid;
    var text := HeaderLines(headers, layouts) + (Crlf() + body);
    if headers == [] {
      EmptyLine(body + more);
      assert text + more == Crlf() + (body + more) && before + headers == before;
      LastStep(start, before, at, text + more);
      FinishRead(start, before, at + 2, body, more);
    } else {
      var h, line := headers[0], HeaderLine(headers[0], layouts[0]);
      var rest := HeaderLines(headers[1..], layouts[1..]) + (Crlf() + body);
      assert before + headers == before + [h] + headers[1..];
      HeadersRead(start, before + [h], at + |line| + 2, headers[1..], layouts[1..], body, more);
      LineRead(h, layouts[0], before);
      LineOf(line, rest + more);
      assert text + more == line + Crlf() + (rest + more);
      HeaderStep(start, before, at, text + more, |line|);
    }
  }

  lemma LineRead(h: Header, layout: Layout, before: seq<Header>)
    requires MayFollow(h, before) && Suits(layout, h)
    ensures var line := HeaderLine(h, layout);
      CR !in line && NUL !in line && line != [] && ReadHeader(line, before) == GoodHeader(h)
  {
    HeaderLineClean(h, layout);
    HeaderRead(h, layout, before);
  }

  lemma {:induction false} HeadersWritten(start: Start, before: seq<Header>, at: nat, rest: seq<Byte>)
      returns (headers: seq<Header>, layouts: seq<Layout>)
    requires ReadHeaders(start, before, at, rest).Accepted?
    ensures AllSuit(layouts, headers) && Follow(before, headers)
    ensures var r := ReadHeaders(start, before, at, rest).request;
      && r.start == start && r.headers == before + headers && Complete(start, r.headers)
      && |r.body| == BodyLength(r.headers) && at <= r.consumed <= at + |rest|
      && rest[..r.consumed - at] == HeaderLines(headers, layouts) + (Crlf() + r.body)
    decreases |rest|
  {
    hide LineEnd, ReadHeader, ReadHeaders, Finish, Complete, BodyLength, MayFollow, Suits, HeaderLine;
    if LineEnd(rest) == None {
      NoStep(start, before, at, rest);
    }
    var e := LineEnd(rest).value;
    var r := ReadHeaders(start, before, at, rest).request;
    if e == 0 {
      headers, layouts := [], [];
      assert before + headers == before;
      LastStep(start, before, at, rest);
      FinishConsumed(start, before, at + 2, rest[2..]);
      Kept(rest, 0, |r.body|);
    } else {
      HeaderStep(start, before, at, rest, e);
      var h := ReadHeader(rest[..e], before).header;
      var layout := HeaderWritten(rest[..e], before, h);
      var hs, ls := HeadersWritten(start, before + [h], at + e + 2, rest[e + 2..]);
      headers, layouts := [h] + hs, [layout] + ls;
      assert before + headers == before + [h] + hs;
      assert headers[1..] == hs && layouts[1..] == ls;
      Kept(rest, e, r.consumed - at - e - 2);
      Associative(rest[..e] + Crlf(), HeaderLines(hs, ls), Crlf() + r.body);
    }
  }

  ghost predicate InputFits(input: seq<Byte>) { |input| <= MAX_REQUEST && NUL !in input }

  lemma StartLineClean(start: Start)
    requires StartValid(start)
    ensures CR !in StartLine(start)
  {
    assert AllVisible(start.target);
  }

  /** A written request is read as itself, whatever follows it. */
  lemma RequestRead(r: Request, layouts: seq<Layout>, more: seq<Byte>)
    requires RequestValid(r) && AllSuit(layouts, r.headers) && r.consumed == |Written(r, layouts)|
    requires InputFits(Written(r, layouts) + more)
    ensures Parse(Written(r, layouts) + more) == Accepted(r)
  {
    hide LineEnd, ReadStart, ReadHeaders, StartLine, TargetValid, HeaderLines, Complete, BodyLength, Follow;
    var line := StartLine(r.start);
    var rest := HeaderLines(r.headers, layouts) + (Crlf() + r.body);
    StartIsItsLine(line, r.start);
    StartLineClean(r.start);
    LineOf(line, rest + more);
    assert Written(r, layouts) + more == line + Crlf() + (rest + more);
    assert [] + r.headers == r.headers;
    HeadersRead(r.start, [], |line| + 2, r.headers, layouts, r.body, more);
  }

  /** An accepted input starts with the request as it is written. */
  lemma RequestWritten(input: seq<Byte>) returns (layouts: seq<Layout>)
    requires Parse(input).Accepted?
    ensures var r := Parse(input).request;
      && InputFits(input) && RequestValid(r) && AllSuit(layouts, r.headers)
      && r.consumed == |Written(r, layouts)| <= |input| && input[..r.consumed] == Written(r, layouts)
  {
    hide LineEnd, ReadStart, ReadHeaders, StartLine, TargetValid, HeaderLines, Complete, BodyLength, Follow;
    var e := LineEnd(input).value;
    var start := ReadStart(input[..e]).value;
    StartIsItsLine(input[..e], start);
    var r := Parse(input).request;
    var headers, ls := HeadersWritten(start, [], e + 2, input[e + 2..]);
    layouts := ls;
    assert [] + headers == headers;
    Kept(input, e, r.consumed - e - 2);
  }

  /** An input starts with a request in some layout. */
  ghost predicate Begins(input: seq<Byte>, r: Request, layouts: seq<Layout>)
    requires r.start.minor < 2
  {
    && AllSuit(layouts, r.headers) && r.consumed == |Written(r, layouts)| <= |input|
    && input[..r.consumed] == Written(r, layouts)
  }

  /** Exactly the inputs that start with a valid request, in whatever layout, are accepted, and as
      that request. */
  lemma AcceptedIsWritten(input: seq<Byte>, r: Request)
    ensures Parse(input) == Accepted(r) <==>
            InputFits(input) && RequestValid(r) && exists layouts :: Begins(input, r, layouts)
  {
    hide Parse, Written, Follow, StartValid, Complete, BodyLength;
    if Parse(input) == Accepted(r) {
      var layouts := RequestWritten(input);
      assert Begins(input, r, layouts);
    }
    if InputFits(input) && RequestValid(r) && exists layouts :: Begins(input, r, layouts) {
      var layouts :| Begins(input, r, layouts);
      assert input == Written(r, layouts) + input[r.consumed..];
      RequestRead(r, layouts, input[r.consumed..]);
    }
  }

  // ----- which verdict

  /** The headers that are read leave the rest to be read after them. */
  lemma {:induction false} PrefixRead(start: Start, before: seq<Header>, at: nat, headers: seq<Header>,
                                      layouts: seq<Layout>, rest: seq<Byte>)
    requires Follow(before, headers) && AllSuit(layouts, headers)
    ensures var text := HeaderLines(headers, layouts);
      ReadHeaders(start, before, at, text + rest) == ReadHeaders(start, before + headers, at + |text|, rest)
    decreases |headers|
  {
    hide LineEnd, ReadHeader, ReadHeaders, MayFollow, Suits, HeaderLine;
    if headers == [] {
      assert HeaderLines(headers, layouts) + rest == rest && before + headers == before;
    } else {
      var h, line := headers[0], HeaderLine(headers[0], layouts[0]);
      var more := HeaderLines(headers[1..], layouts[1..]);
      LineRead(h, layouts[0], before);
      LineOf(line, more + rest);
      assert HeaderLines(headers, layouts) + rest == line + Crlf() + (more + rest);
      HeaderStep(start, before, at, line + Crlf() + (more + rest), |line|);
      PrefixRead(start, before + [h], at + |line| + 2, headers[1..], layouts[1..], rest);
      assert before + headers == before + [h] + headers[1..];
    }
  }

  /** A line that gives the content a length beyond the limit. */
  ghost predicate TooLongLine(line: seq<Byte>, before: seq<Header>, v: seq<Byte>, layout: Layout)
  {
    var h := Header(W.Ascii("content-length"), v);
    && |before| < 32 && HeaderValid(h) && (forall b :: b in before ==> b.name != h.name)
    && Suits(layout, h) && line == HeaderLine(h, layout)
    && exists k :: 0 <= k <= |v| && AllDigits(v[..k]) && Value(v[..k]) > 8192
  }

  /** A line that is some header's, which may follow the ones before it. */
  ghost predicate GoodLine(line: seq<Byte>, before: seq<Header>, h: Header, layout: Layout)
  {
    MayFollow(h, before) && Suits(layout, h) && line == HeaderLine(h, layout)
  }

  lemma LongLineRead(line: seq<Byte>, before: seq<Header>, v: seq<Byte>, layout: Layout)
    requires TooLongLine(line, before, v, layout)
    ensures line != [] && ReadHeader(line, before) == LongBody
  {
    hide SplitAt, Trim, ReadLength, Value, Trimmed, W.Ascii, ContentLength, TransferEncoding, Find;
    ProtocolWords();
    var h := Header(W.Ascii("content-length"), v);
    var after := layout.left + v + layout.right;
    SpelledName(layout.spelled);
    SplitExactly(line, COLON, layout.spelled, after);
    TrimIs(layout.left, v, layout.right);
    assert line[0] == layout.spelled[0];
    FindExactly(before, h.name);
    LengthVerdicts(v);
    NoDigits();
    assert v != [];
    LengthIsNoCoding();
  }

  lemma NoDigits()
    ensures Value([]) == 0
  {
  }

  lemma LengthIsNoCoding()
    ensures ContentLength() != TransferEncoding()
  {
  }

  lemma LongLineOf(line: seq<Byte>, before: seq<Header>) returns (v: seq<Byte>, layout: Layout)
    requires line != [] && ReadHeader(line, before) == LongBody
    ensures TooLongLine(line, before, v, layout)
  {
    hide SplitAt, Trim, ReadLength, Value, W.Ascii, ContentLength, TransferEncoding, Find;
    ProtocolWords();
    var (spelled, after) := SplitAt(line, COLON).value;
    SplitExactly(line, COLON, spelled, after);
    var left, right := TrimParts(after);
    layout := Layout(spelled, left, right);
    v := Trim(after);
    var h := Header(Lower(spelled), v);
    FindExactly(before, h.name);
    LengthVerdicts(v);
    assert h == Header(W.Ascii("content-length"), v);
  }

  /** Behind headers that were read the next line decides: a length beyond the limit makes the request
      too large, and any other line that is no header that may follow makes it invalid. */
  lemma NextLineDecides(start: Start, headers: seq<Header>, layouts: seq<Layout>, line: seq<Byte>, more: seq<Byte>)
    requires StartValid(start) && Follow([], headers) && AllSuit(layouts, headers) && line != [] && 13 !in line
    requires var input := StartLine(start) + Crlf() + (HeaderLines(headers, layouts) + (line + Crlf() + more));
      |input| <= 16384 && 0 !in input
    ensures var input := StartLine(start) + Crlf() + (HeaderLines(headers, layouts) + (line + Crlf() + more));
      if exists v, layout :: TooLongLine(line, headers, v, layout) then Parse(input) == TooLarge
      else (forall h, layout :: !GoodLine(line, headers, h, layout)) ==> Parse(input) == Invalid
  {
    hide LineEnd, ReadStart, ReadHeaders, StartLine, HeaderLines, Follow, TargetValid, ReadHeader, TooLongLine, GoodLine;
    var rest := line + Crlf() + more;
    StartRead(start, HeaderLines(headers, layouts) + rest);
    PrefixRead(start, [], |StartLine(start)| + 2, headers, layouts, rest);
    assert [] + headers == headers;
    LineOf(line, more);
    HeaderStep(start, headers, |StartLine(start)| + 2 + |HeaderLines(headers, layouts)|, rest, |line|);
    var read := ReadHeader(line, headers);
    if v, layout :| TooLongLine(line, headers, v, layout) {
      LongLineRead(line, headers, v, layout);
    } else if read == LongBody {
      var v, layout := LongLineOf(line, headers);
    } else if read.GoodHeader? {
      var layout := HeaderWritten(line, headers, read.header);
      IsGoodLine(line, headers, read.header, layout);
    }
  }

  lemma IsGoodLine(line: seq<Byte>, before: seq<Header>, h: Header, layout: Layout)
    requires MayFollow(h, before) && Suits(layout, h) && line == HeaderLine(h, layout)
    ensures GoodLine(line, before, h, layout)
  {
  }

  lemma StartRead(start: Start, rest: seq<Byte>)
    requires StartValid(start) && |StartLine(start) + Crlf() + rest| <= 16384 && 0 !in StartLine(start) + Crlf() + rest
    ensures Parse(StartLine(start) + Crlf() + rest) == ReadHeaders(start, [], |StartLine(start)| + 2, rest)
  {
    hide LineEnd, ReadStart, ReadHeaders, StartLine, TargetValid;
    var line := StartLine(start);
    StartIsItsLine(line, start);
    StartLineClean(start);
    LineOf(line, rest);
  }

  /** The empty line: what the headers must hold, and how much of the body is there. */
  lemma EndDecides(start: Start, headers: seq<Header>, layouts: seq<Layout>, body: seq<Byte>)
    requires StartValid(start) && Follow([], headers) && AllSuit(layouts, headers)
    requires var input := StartLine(start) + Crlf() + (HeaderLines(headers, layouts) + (Crlf() + body));
      |input| <= 16384 && 0 !in input
    ensures var input := StartLine(start) + Crlf() + (HeaderLines(headers, layouts) + (Crlf() + body));
      && (!Complete(start, headers) ==> Parse(input) == Invalid)
      && (Complete(start, headers) && |body| < BodyLength(headers) ==> Parse(input) == Incomplete)
  {
    hide LineEnd, ReadStart, ReadHeaders, StartLine, HeaderLines, Follow, TargetValid, Complete, BodyLength;
    StartRead(start, HeaderLines(headers, layouts) + (Crlf() + body));
    PrefixRead(start, [], |StartLine(start)| + 2, headers, layouts, Crlf() + body);
    assert [] + headers == headers;
    EmptyLine(body);
    LastStep(start, headers, |StartLine(start)| + 2 + |HeaderLines(headers, layouts)|, Crlf() + body);
  }

  /** A first line that is no request line is invalid; without a line end yet, more is to come. */
  lemma FirstLineDecides(line: seq<Byte>, more: seq<Byte>)
    requires 13 !in line && |line + Crlf() + more| <= 16384 && 0 !in line + Crlf() + more
    ensures (forall start :: StartValid(start) ==> StartLine(start) != line) ==> Parse(line + Crlf() + more) == Invalid
    ensures Parse(line) == Incomplete
  {
    hide ReadStart, ReadHeaders, StartLine, StartValid;
    LineOf(line, more);
    var read := ReadStart(line);
    if read.Some? {
      StartIsItsLine(line, read.value);
    }
    NoEnd(line);
    assert 0 !in line by {
      assert forall b :: b in line ==> b in line + Crlf() + more;
    }
  }

  lemma NoEnd(s: seq<Byte>)
    requires 13 !in s
    ensures LineEnd(s) == None
  {
    assert forall e: nat :: CrlfAt(s, e) ==> s[e] in s;
  }

  lemma NoLineYet(start: Start, headers: seq<Header>, layouts: seq<Layout>, rest: seq<Byte>)
    requires StartValid(start) && Follow([], headers) && AllSuit(layouts, headers) && 13 !in rest
    requires var input := StartLine(start) + Crlf() + (HeaderLines(headers, layouts) + rest); |input| <= 16384 && 0 !in input
    ensures Parse(StartLine(start) + Crlf() + (HeaderLines(headers, layouts) + rest)) == Incomplete
  {
    hide LineEnd, ReadStart, ReadHeaders, StartLine, HeaderLines, Follow, TargetValid;
    StartRead(start, HeaderLines(headers, layouts) + rest);
    PrefixRead(start, [], |StartLine(start)| + 2, headers, layouts, rest);
    assert [] + headers == headers;
    NoEnd(rest);
    NoStep(start, headers, |StartLine(start)| + 2 + |HeaderLines(headers, layouts)|, rest);
  }

  // ----- one request

  /** A request without a body, line by line, and what is made of it, whatever follows. */
  lemma RequestExample(more: seq<Byte>)
    requires 0 !in more && |more| <= 16000
    ensures Parse(W.Ascii("GET /b/1 HTTP/1.1\r\n") + W.Ascii("Host: x\r\n") + W.Ascii("\r\n") + more) ==
      Accepted(Request(Start(W.Ascii("GET"), W.Ascii("/b/1"), 1), [Header(W.Ascii("host"), W.Ascii("x"))], [], 30))
  {
    hide W.Ascii, Parse, Follow, StartLine, HeaderLine, Complete, BodyLength, StartValid, Suits, MayFollow;
    var start, h := Start(W.Ascii("GET"), W.Ascii("/b/1"), 1), Header(W.Ascii("host"), W.Ascii("x"));
    var layout := Layout(W.Ascii("Host"), W.Ascii(" "), []);
    var r := Request(start, [h], [], 30);
    ExampleStart();
    ExampleHeader();
    assert StartValid(start) && StartLine(start) + Crlf() == W.Ascii("GET /b/1 HTTP/1.1\r\n");
    assert MayFollow(h, []) && Suits(layout, h) && HeaderLine(h, layout) + Crlf() == W.Ascii("Host: x\r\n");
    ExampleFollows(h);
    ExampleComplete();
    ColonAndEnd();
    HeadersOfOne(h, layout);
    var text := W.Ascii("GET /b/1 HTTP/1.1\r\n") + W.Ascii("Host: x\r\n") + W.Ascii("\r\n");
    assert Written(r, [layout]) == text;
    ExampleClean();
    RequestRead(r, [layout], more);
  }

  lemma HeadersOfOne(h: Header, layout: Layout)
    ensures HeaderLines([h], [layout]) == HeaderLine(h, layout) + Crlf()
  {
    hide HeaderLine;
    assert [h][1..] == [] && [layout][1..] == [];
  }

  lemma ExampleFollows(h: Header)
    requires MayFollow(h, [])
    ensures Follow([], [h])
  {
    hide MayFollow;
    assert [h][1..] == [];
  }

  lemma ExampleStart()
    ensures var start := Start(W.Ascii("GET"), W.Ascii("/b/1"), 1);
      StartValid(start) && StartLine(start) + Crlf() == W.Ascii("GET /b/1 HTTP/1.1\r\n")
  {
    StartBytes();
    ProtocolWords();
    hide W.Ascii;
    var start := Start(W.Ascii("GET"), W.Ascii("/b/1"), 1);
    assert StartLine(start) == Get() + ([32] + ([47, 98, 47, 49] + ([32] + ([72, 84, 84, 80, 47, 49, 46] + [49]))));
  }

  lemma StartBytes()
    ensures W.Ascii("/b/1") == [47, 98, 47, 49]
    ensures W.Ascii("GET /b/1 HTTP/1.1\r\n") == [71, 69, 84, 32, 47, 98, 47, 49, 32, 72, 84, 84, 80, 47, 49, 46, 49, 13, 10]
  {
  }

  lemma ExampleHeader()
    ensures var h, layout := Header(W.Ascii("host"), W.Ascii("x")), Layout(W.Ascii("Host"), W.Ascii(" "), []);
      MayFollow(h, []) && Suits(layout, h) && HeaderLine(h, layout) + Crlf() == W.Ascii("Host: x\r\n")
  {
    var h, layout := Header(W.Ascii("host"), W.Ascii("x")), Layout(W.Ascii("Host"), W.Ascii(" "), []);
    assert W.Ascii("host") == [104, 111, 115, 116] && W.Ascii("Host") == [72, 111, 115, 116] && W.Ascii("x") == [120]
           && W.Ascii(" ") == [32];
    assert W.Ascii("Host: x\r\n") == [72, 111, 115, 116, 58, 32, 120, 13, 10];
    assert Lower(layout.spelled) == h.name;
  }

  lemma ExampleComplete()
    ensures var start, h := Start(W.Ascii("GET"), W.Ascii("/b/1"), 1), Header(W.Ascii("host"), W.Ascii("x"));
      Complete(start, [h]) && BodyLength([h]) == 0
  {
    ProtocolWords();
    assert W.Ascii("GET")[0] != W.Ascii("POST")[0] && W.Ascii("host")[0] != W.Ascii("content-length")[0];
    hide W.Ascii, Get, Post, Host, ContentLength;
    var h := Header(W.Ascii("host"), W.Ascii("x"));
    assert [h][1..] == [];
    assert Find([h], W.Ascii("host")) == Some(W.Ascii("x"));
    assert Find([h], W.Ascii("content-length")) == Find([], W.Ascii("content-length"));
  }

  lemma ExampleClean()
    ensures 0 !in W.Ascii("GET /b/1 HTTP/1.1\r\n") && 0 !in W.Ascii("Host: x\r\n") && 0 !in W.Ascii("\r\n")
  {
  }
}
