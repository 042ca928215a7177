/** The request parser of server/http.c and the receiving loop of server/http_listener.c, step by
    step. */
module HttpParsing {
  import opened BitStreams
  import opened ByteTexts
  import opened Decimals
  import opened HttpRequests

  datatype Status = ParseInvalid | ParseOk | ParseIncomplete | ParseTooLarge

  /** Where the first line end from `start` on is. */
  method FindCrlf(input: seq<Byte>, start: nat) returns (found: Option<nat>)
    requires start <= |input|
    ensures found.None? ==> LineEnd(input[start..]) == None
    ensures found.Some? ==> start <= found.value && found.value + 2 <= |input|
                            && LineEnd(input[start..]) == Some(found.value - start)
  {
    hide LineEnd;
    ghost var s := input[start..];
    var cursor := start;
    while |input| - cursor >= 2
      invariant start <= cursor <= |input| && forall j :: 0 <= j < cursor - start ==> !CrlfAt(s, j)
    {
      if input[cursor] == CR && input[cursor + 1] == LF {
        LineEndIs(s, cursor - start);
        return Some(cursor);
      }
      assert !CrlfAt(s, cursor - start);
      cursor := cursor + 1;
    }
    assert forall j: nat :: !CrlfAt(s, j);
    return None;
  }

  /** A token that fits an output of some capacity, its terminator included. */
  method CopyToken(s: seq<Byte>, capacity: nat, lower: bool) returns (output: Option<seq<Byte>>)
    requires capacity > 0
    ensures output.Some? <==> Token(s, capacity - 1)
    ensures output.Some? ==> output.value == if lower then Lower(s) else s
  {
    if |s| == 0 || |s| >= capacity {
      return None;
    }
    var copy: seq<Byte> := [];
    for i := 0 to |s|
      invariant AllVisible(s[..i]) && copy == if lower then Lower(s[..i]) else s[..i]
    {
      if s[i] < 0x21 || s[i] > 0x7e {
        return None;
      }
      copy := copy + [if lower then ToLower(s[i]) else s[i]];
    }
    assert s[..|s|] == s;
    return Some(copy);
  }

  predicate Alphanumeric(b: Byte) { 65 <= b <= 90 || 97 <= b <= 122 || IsDigit(b) }

  method NameValid(name: seq<Byte>) returns (ok: bool)
    ensures ok <==> name != [] && forall i :: 0 <= i < |name| ==> Alphanumeric(name[i]) || name[i] == 45
  {
    for i := 0 to |name|
      invariant forall j :: 0 <= j < i ==> Alphanumeric(name[j]) || name[j] == 45
    {
      if !Alphanumeric(name[i]) && name[i] != 45 {
        return false;
      }
    }
    return name != [];
  }

  /** In a name put to lower case, the parser's test allows exactly what a name may hold. */
  lemma LowerNames(s: seq<Byte>)
    ensures AllNameBytes(Lower(s)) <==> forall i :: 0 <= i < |s| ==> Alphanumeric(Lower(s)[i]) || Lower(s)[i] == 45
  {
    forall i | 0 <= i < |s|
      ensures NameByte(Lower(s)[i]) <==> Alphanumeric(Lower(s)[i]) || Lower(s)[i] == 45
    {
      assert Lower(s)[i] == ToLower(s[i]);
    }
  }

  /** The value between the blanks. */
  method TrimValue(s: seq<Byte>) returns (value: seq<Byte>)
    ensures value == Trim(s)
  {
    var first := 0;
    while first < |s| && Blank(s[first])
      invariant first <= |s| && FromFirst(s) == FromFirst(s[first..])
    {
      assert s[first..][1..] == s[first + 1..];
      first := first + 1;
    }
    var length := |s| - first;
    ghost var kept := s[first..];
    assert kept[..length] == kept;
    while length > 0 && Blank(s[first + length - 1])
      invariant length <= |kept| && ToLast(kept) == ToLast(kept[..length])
    {
      assert kept[..length][..length - 1] == kept[..length - 1];
      length := length - 1;
    }
    value := s[first..first + length];
    assert value == kept[..length];
  }

  method ValueValid(value: seq<Byte>) returns (ok: bool)
    ensures ok <==> AllValueBytes(value)
  {
    for i := 0 to |value|
      invariant forall j :: 0 <= j < i ==> ValueByte(value[j])
    {
      if (value[i] < 32 && value[i] != TAB) || value[i] == 127 {
        return false;
      }
    }
    return true;
  }

  lemma {:induction false} LengthFails(v: seq<Byte>, n: nat)
    requires n <= |v| && !ReadLength(v[..n]).Length?
    ensures ReadLength(v) == ReadLength(v[..n])
    decreases |v|
  {
    if n == |v| {
      assert v[..n] == v;
    } else {
      assert v[..|v| - 1][..n] == v[..n];
      LengthFails(v[..|v| - 1], n);
    }
  }

  /** The digits of a content length. */
  method LengthOf(value: seq<Byte>) returns (outcome: LengthOutcome)
    ensures outcome == ReadLength(value)
  {
    var length: nat := 0;
    for i := 0 to |value|
      invariant ReadLength(value[..i]) == Length(length)
    {
      assert value[..i + 1][..i] == value[..i];
      if !IsDigit(value[i]) {
        LengthFails(value, i + 1);
        return NoLength;
      }
      length := length * 10 + (value[i] - 48);
      if length > MAX_BODY {
        LengthFails(value, i + 1);
        return LongLength;
      }
    }
    assert value[..|value|] == value;
    return Length(length);
  }

  lemma {:induction false} FindAppended(headers: seq<Header>, h: Header, name: seq<Byte>)
    ensures Find(headers + [h], name) ==
            if Find(headers, name).Some? then Find(headers, name)
            else if h.name == name then Some(h.value) else None
  {
    if headers != [] {
      assert (headers + [h])[1..] == headers[1..] + [h];
      FindAppended(headers[1..], h, name);
    }
  }

  /** The parsed request, filled as the input is read. */
  class HttpRequest {
    var verb: seq<Byte>
    var target: seq<Byte>
    var minor: nat
    const headers: array<Header>
    var count: nat
    var body: seq<Byte>
    var consumed: nat

    ghost predicate Valid()
      reads this
    {
      headers.Length == MAX_HEADERS && count <= MAX_HEADERS
    }

    ghost function Seen(): seq<Header>
      requires Valid()
      reads this, headers
    {
      headers[..count]
    }

    ghost function Begun(): Start
      reads this
    {
      Start(verb, target, minor)
    }

    ghost function Value(): Request
      requires Valid()
      reads this, headers
    {
      Request(Begun(), Seen(), body, consumed)
    }

    ghost predicate Cleared()
      requires Valid()
      reads this, headers
    {
      && Value() == Request(Start([], [], 0), [], [], 0)
      && forall i :: 0 <= i < MAX_HEADERS ==> headers[i] == Header([], [])
    }

    /** The status is the outcome's, and an accepted request is here. */
    ghost predicate Holds(status: Status, outcome: Outcome)
      requires Valid()
      reads this, headers
    {
      match outcome
      case Invalid => status == ParseInvalid
      case Incomplete => status == ParseIncomplete
      case TooLarge => status == ParseTooLarge
      case Accepted(r) => status == ParseOk && Value() == r
    }

    constructor ()
      ensures Valid() && Cleared() && fresh(headers)
    {
      headers := new Header[MAX_HEADERS](_ => Header([], []));
      verb, target, minor, count, body, consumed := [], [], 0, 0, [], 0;
    }

    method Clear()
      requires Valid()
      modifies this, headers
      ensures Valid() && Cleared()
    {
      verb, target, minor, count, body, consumed := [], [], 0, 0, [], 0;
      forall i | 0 <= i < headers.Length {
        headers[i] := Header([], []);
      }
    }

    /** `wena_http_header`. */
    method HeaderValue(name: seq<Byte>) returns (value: Option<seq<Byte>>)
      requires Valid()
      ensures value == Find(Seen(), name)
    {
      for i := 0 to count
        invariant Find(Seen(), name) == Find(headers[i..count], name)
      {
        if headers[i].name == name {
          return Some(headers[i].value);
        }
        assert headers[i..count][1..] == headers[i + 1..count];
      }
      return None;
    }

    /** The request line. */
    method ParseStart(line: seq<Byte>) returns (ok: bool)
      requires Valid()
      modifies this`verb, this`target, this`minor
      ensures ok <==> ReadStart(line).Some?
      ensures ok ==> Begun() == ReadStart(line).value
    {
      var first := SplitAt(line, SPACE);
      if first.None? {
        return false;
      }
      var second := SplitAt(first.value.1, SPACE);
      if second.None? || SPACE in second.value.1 {
        return false;
      }
      var version := second.value.1;
      var token := CopyToken(first.value.0, MAX_METHOD + 1, false);
      if token.None? {
        return false;
      }
      verb := token.value;
      if verb != Get() && verb != Post() {
        return false;
      }
      token := CopyToken(second.value.0, MAX_TARGET + 1, false);
      if token.None? {
        return false;
      }
      target := token.value;
      if target[0] != SLASH || (|target| > 1 && target[1] == SLASH) {
        return false;
      }
      if |version| != 8 || version[..7] != Version() || (version[7] != 48 && version[7] != 49) {
        return false;
      }
      minor := version[7] - 48;
      return true;
    }

    /** A header line, after `count` others. */
    method ParseHeader(line: seq<Byte>, hasLength: bool, contentLength: nat)
        returns (status: Status, nowHas: bool, nowLength: nat)
      requires Valid() && line != [] && LengthSeen(hasLength, contentLength)
      modifies this`count, headers
      ensures Valid()
      ensures match ReadHeader(line, old(Seen()))
              case BadHeader => status == ParseInvalid
              case LongBody => status == ParseTooLarge
              case GoodHeader(h) => status == ParseOk && Seen() == old(Seen()) + [h]
      ensures status == ParseOk ==> LengthSeen(nowHas, nowLength)
    {
      hide Find, SplitAt, Lower, Trim, ReadLength, AllValueBytes, AllNameBytes, TransferEncoding, ContentLength;
      nowHas, nowLength := hasLength, contentLength;
      if Blank(line[0]) || count >= MAX_HEADERS {
        return ParseInvalid, nowHas, nowLength;
      }
      var split := SplitAt(line, COLON);
      if split.None? {
        return ParseInvalid, nowHas, nowLength;
      }
      var spelled := CopyToken(split.value.0, MAX_NAME + 1, true);
      if spelled.None? {
        return ParseInvalid, nowHas, nowLength;
      }
      var name := spelled.value;
      LowerNames(split.value.0);
      var valid := NameValid(name);
      if !valid {
        return ParseInvalid, nowHas, nowLength;
      }
      var earlier := HeaderValue(name);
      if earlier.Some? {
        return ParseInvalid, nowHas, nowLength;
      }
      var value := TrimValue(split.value.1);
      if |value| > MAX_VALUE {
        return ParseInvalid, nowHas, nowLength;
      }
      valid := ValueValid(value);
      if !valid {
        return ParseInvalid, nowHas, nowLength;
      }
      status, nowHas, nowLength := AddHeader(Header(name, value), hasLength, contentLength);
    }

    ghost predicate LengthSeen(hasLength: bool, contentLength: nat)
      requires Valid()
      reads this, headers
    {
      hasLength == Find(Seen(), ContentLength()).Some? && contentLength == BodyLength(Seen())
    }

    /** The header is put down, and looked at if it says how the body is sent. */
    method AddHeader(h: Header, hasLength: bool, contentLength: nat)
        returns (status: Status, nowHas: bool, nowLength: nat)
      requires Valid() && LengthSeen(hasLength, contentLength) && count < MAX_HEADERS
      requires Find(Seen(), h.name) == None && |h.value| <= MAX_VALUE && AllValueBytes(h.value)
      modifies this`count, headers
      ensures Valid()
      ensures match ReadValue(h)
              case BadHeader => status == ParseInvalid
              case LongBody => status == ParseTooLarge
              case GoodHeader(g) => status == ParseOk && Seen() == old(Seen()) + [g]
      ensures status == ParseOk ==> LengthSeen(nowHas, nowLength)
    {
      hide Find, ReadLength, AllValueBytes, TransferEncoding, ContentLength;
      nowHas, nowLength := hasLength, contentLength;
      ghost var before := Seen();
      headers[count] := h;
      if h.name == TransferEncoding() {
        return ParseInvalid, nowHas, nowLength;
      }
      if h.name == ContentLength() {
        if hasLength || h.value == [] {
          return ParseInvalid, nowHas, nowLength;
        }
        nowHas := true;
        var outcome := LengthOf(h.value);
        match outcome {
          case NoLength => return ParseInvalid, nowHas, nowLength;
          case LongLength => return ParseTooLarge, nowHas, nowLength;
          case Length(n) =>
            nowLength := n;
            LengthIsValue(h.value, n);
        }
      }
      count := count + 1;
      assert Seen() == before + [h];
      FindAppended(before, h, ContentLength());
      return ParseOk, nowHas, nowLength;
    }

    /** What must hold between the header lines. */
    ghost predicate Reading(input: seq<Byte>, cursor: nat, hasLength: bool, contentLength: nat)
      requires Valid()
      reads this, headers
    {
      && cursor <= |input| && LengthSeen(hasLength, contentLength)
      && ReadHeaders(Begun(), Seen(), cursor, input[cursor..]) == Parse(input)
    }

    /** The header lines up to the empty one, from `start` on. */
    method ParseHeaders(input: seq<Byte>, start: nat)
        returns (status: Status, headersEnd: nat, hasLength: bool, contentLength: nat)
      requires Valid() && Reading(input, start, false, 0)
      modifies this`count, headers
      ensures Valid()
      ensures status != ParseOk ==> Holds(status, Parse(input))
      ensures status == ParseOk ==> headersEnd <= |input| && LengthSeen(hasLength, contentLength)
                                    && Parse(input) == Finish(Begun(), Seen(), headersEnd, input[headersEnd..])
    {
      hide LineEnd, ReadHeader, ReadHeaders, Finish, Parse, BodyLength, Find;
      var cursor := start;
      hasLength, contentLength := false, 0;
      while cursor < |input|
        invariant Valid() && Reading(input, cursor, hasLength, contentLength)
      {
        ghost var rest, seen := input[cursor..], Seen();
        var lineEnd := FindCrlf(input, cursor);
        if lineEnd.None? {
          NoStep(Begun(), seen, cursor, rest);
          return ParseIncomplete, 0, hasLength, contentLength;
        }
        var e := lineEnd.value;
        assert rest[e + 2 - cursor..] == input[e + 2..];
        if e == cursor {
          LastStep(Begun(), seen, cursor, rest);
          return ParseOk, e + 2, hasLength, contentLength;
        }
        HeaderStep(Begun(), seen, cursor, rest, e - cursor);
        assert rest[..e - cursor] == input[cursor..e];
        status, hasLength, contentLength := ParseHeader(input[cursor..e], hasLength, contentLength);
        if status != ParseOk {
          return status, 0, hasLength, contentLength;
        }
        cursor := e + 2;
      }
      NothingLeft(Begun(), Seen(), cursor);
      assert input[cursor..] == [];
      return ParseIncomplete, 0, hasLength, contentLength;
    }

    /** The parser on an empty request. */
    method ParseInto(input: seq<Byte>) returns (status: Status)
      requires Valid() && count == 0
      modifies this, headers
      ensures Valid() && Holds(status, Parse(input))
    {
      hide LineEnd, ReadStart, ReadHeaders, BodyLength, Find;
      if |input| > MAX_REQUEST {
        return ParseTooLarge;
      }
      if NUL in input {
        return ParseInvalid;
      }
      var lineEnd := FindCrlf(input, 0);
      assert input[0..] == input;
      if lineEnd.None? {
        return ParseIncomplete;
      }
      var ok := ParseStart(input[..lineEnd.value]);
      if !ok {
        return ParseInvalid;
      }
      NoHeaders();
      assert Seen() == [];
      var headersEnd, hasLength, contentLength;
      status, headersEnd, hasLength, contentLength := ParseHeaders(input, lineEnd.value + 2);
      if status == ParseOk {
        status := End(input, headersEnd, hasLength, contentLength);
      }
    }

    /** What is asked of the headers, and the body. */
    method End(input: seq<Byte>, headersEnd: nat, hasLength: bool, contentLength: nat) returns (status: Status)
      requires Valid() && headersEnd <= |input| && LengthSeen(hasLength, contentLength)
      modifies this`body, this`consumed
      ensures Valid() && Holds(status, Finish(Begun(), Seen(), headersEnd, input[headersEnd..]))
    {
      hide BodyLength, Find;
      if minor == 1 {
        var host := HeaderValue(Host());
        if host.None? || host.value == [] {
          return ParseInvalid;
        }
      }
      if verb == Post() && !hasLength {
        return ParseInvalid;
      }
      if |input| - headersEnd < contentLength {
        return ParseIncomplete;
      }
      body := input[headersEnd..headersEnd + contentLength];
      assert input[headersEnd..][..contentLength] == body;
      consumed := headersEnd + contentLength;
      return ParseOk;
    }

    /** `wena_http_parse`: anything but an accepted request leaves nothing behind. */
    method ParseRequest(input: seq<Byte>) returns (status: Status)
      requires Valid()
      modifies this, headers
      ensures Valid() && Holds(status, Parse(input))
      ensures status != ParseOk ==> Cleared()
      ensures match Parse(input)
        case Accepted(r) =>
          && status == ParseOk && verb == r.start.verb && target == r.start.target && minor == r.start.minor
          && count == |r.headers| && (forall i :: 0 <= i < count ==> headers[i] == r.headers[i])
          && body == r.body && consumed == r.consumed
        case Invalid => status == ParseInvalid
        case Incomplete => status == ParseIncomplete
        case TooLarge => status == ParseTooLarge
    {
      hide Parse;
      Clear();
      status := ParseInto(input);
      if status != ParseOk {
        Clear();
      }
    }

    /** The listener's receiving loop: each receive brings some bytes of the stream into what is left
        of the buffer, and the parser is asked about all of them. */
    method Receive(stream: seq<Byte>, amounts: seq<nat>) returns (status: Status)
      requires Valid()
      modifies this, headers
      ensures Valid() && Holds(status, Parse(stream[..Received(stream, amounts, 0)]))
    {
      hide Parse;
      var received, i := 0, 0;
      status := ParseIncomplete;
      assert stream[..0] == [];
      NothingParsed();
      while received < MAX_REQUEST && status == ParseIncomplete && i < |amounts|
        invariant Valid() && i <= |amounts| && received <= |stream|
        invariant Holds(status, Parse(stream[..received]))
        invariant Received(stream, amounts, 0) == Received(stream, amounts[i..], received)
      {
        assert amounts[i..][0] == amounts[i] && amounts[i..][1..] == amounts[i + 1..];
        var amount := Amount(amounts[i], |stream| - received, MAX_REQUEST - received);
        if amount == 0 {
          return;
        }
        received := received + amount;
        i := i + 1;
        status := ParseRequest(stream[..received]);
      }
    }
  }

  lemma NothingLeft(start: Start, headers: seq<Header>, at: nat)
    ensures ReadHeaders(start, headers, at, []) == Incomplete
  {
  }

  lemma NoHeaders()
    ensures Find([], ContentLength()) == None && BodyLength([]) == 0
  {
  }

  lemma NothingParsed()
    ensures Parse([]) == Incomplete
  {
  }

  function Amount(asked: nat, left: nat, room: nat): (n: nat)
    ensures n <= asked && n <= left && n <= room
    ensures asked > 0 && left > 0 && room > 0 ==> n > 0
  {
    var n := if asked < left then asked else left;
    if n < room then n else room
  }

  /** How many bytes of a stream are in the buffer when the loop ends, if it goes on from `received`
      and the receives bring `amounts`. */
  ghost function Received(stream: seq<Byte>, amounts: seq<nat>, received: nat): (n: nat)
    requires received <= |stream|
    ensures received <= n <= |stream|
    decreases |amounts|
  {
    if received >= MAX_REQUEST || Parse(stream[..received]) != Incomplete || amounts == [] then received
    else
      var amount := Amount(amounts[0], |stream| - received, MAX_REQUEST - received);
      if amount == 0 then received else Received(stream, amounts[1..], received + amount)
  }

  ghost function Total(amounts: seq<nat>): nat { if amounts == [] then 0 else amounts[0] + Total(amounts[1..]) }

  ghost function Limit(stream: seq<Byte>): nat { if |stream| < MAX_REQUEST then |stream| else MAX_REQUEST }

  ghost predicate Bring(amounts: seq<nat>, total: nat)
  {
    Total(amounts) >= total && forall i :: 0 <= i < |amounts| ==> amounts[i] > 0
  }

  /** However a stream without NULs is cut into pieces, the verdict is that on all of it the buffer
      can hold. */
  lemma {:induction false} EveryCutting(stream: seq<Byte>, amounts: seq<nat>, received: nat)
    requires received <= Limit(stream) && Bring(amounts, Limit(stream) - received)
    requires NUL !in stream[..Limit(stream)]
    ensures Parse(stream[..Received(stream, amounts, received)]) == Parse(stream[..Limit(stream)])
    decreases |amounts|
  {
    hide Parse;
    var limit := Limit(stream);
    if received == limit {
      assert Received(stream, amounts, received) == received;
    } else if Parse(stream[..received]) != Incomplete {
      PrefixVerdict(stream, received, limit);
    } else {
      assert amounts != [];
      var amount := Amount(amounts[0], |stream| - received, MAX_REQUEST - received);
      if amount < amounts[0] {
        assert received + amount == limit;
      }
      EveryCutting(stream, amounts[1..], received + amount);
    }
  }

  lemma PrefixVerdict(stream: seq<Byte>, n: nat, m: nat)
    requires n <= m <= |stream| && m <= MAX_REQUEST && NUL !in stream[..m]
    requires Parse(stream[..n]) != Incomplete
    ensures Parse(stream[..m]) == Parse(stream[..n])
  {
    hide Parse;
    assert stream[..m] == stream[..n] + stream[n..m];
    forall i | n <= i < m
      ensures stream[i] != NUL
    {
      assert stream[..m][i] != NUL;
    }
    VerdictStays(stream[..n], stream[n..m]);
  }

  /** With a NUL in what follows a request, the verdict depends on the pieces: a request received
      alone is accepted, and received with the NUL it is not. */
  lemma NulDependsOnCutting() returns (stream: seq<Byte>, one: seq<nat>, other: seq<nat>)
    ensures Parse(stream[..Received(stream, one, 0)]).Accepted?
    ensures Parse(stream[..Received(stream, other, 0)]) == Invalid
  {
    hide Parse, Received;
    var text := SmallestRequest();
    var n := |text|;
    stream, one, other := text + [NUL], [n, 1], [n + 1];
    assert stream[..n] == text && stream[..n + 1] == stream;
    CutOnce(stream, one);
    CutOnce(stream, other);
    assert stream[n] == NUL;
    NulInvalid(stream);
  }

  /** A request of one line. */
  lemma SmallestRequest() returns (text: seq<Byte>)
    ensures 0 < |text| < 100 && Parse(text).Accepted?
  {
    hide Parse, ReadRequest;
    var start := Start(Get(), [SLASH], 0);
    text := StartLine(start) + Crlf() + ([] + (Crlf() + []));
    var r := Request(start, [], [], |text|);
    assert Written(r, []) == text;
    assert text + [] == text;
    assert InputFits(text);
    RequestRead(r, [], []);
  }

  ghost function Verdict(stream: seq<Byte>, amounts: seq<nat>): Outcome { Parse(stream[..Received(stream, amounts, 0)]) }

  /** All cuttings of a stream that bring what the buffer can hold reach one verdict. */
  ghost predicate CuttingsAgree(stream: seq<Byte>)
  {
    forall one, other :: Bring(one, Limit(stream)) && Bring(other, Limit(stream)) ==>
      Verdict(stream, one) == Verdict(stream, other)
  }

  /** What the buffer can hold has no NUL, or what stands before the first one is no request yet or
      never will be. */
  ghost predicate Harmless(stream: seq<Byte>)
  {
    match SplitAt(stream[..Limit(stream)], NUL)
    case None => true
    case Some((before, _)) => Parse(before) == Incomplete || Parse(before) == Invalid
  }

  /** Exactly then the cutting does not matter. */
  lemma CuttingsAgreeExactly(stream: seq<Byte>)
    ensures CuttingsAgree(stream) <==> Harmless(stream)
  {
    hide Parse, Received, Bring, SplitAt;
    var limit := Limit(stream);
    var first := SplitAt(stream[..limit], NUL);
    if first.None? {
      forall one | Bring(one, limit)
        ensures Verdict(stream, one) == Parse(stream[..limit])
      {
        EveryCutting(stream, one, 0);
      }
    } else {
      var z := |first.value.0|;
      assert stream[..limit][..z] == stream[..z] == first.value.0 && stream[..limit][z] == NUL;
      if Harmless(stream) {
        forall one | Bring(one, limit)
          ensures Verdict(stream, one) == Invalid
        {
          NulVerdict(stream, one, 0, z);
        }
      } else {
        CutAtNul(stream, z);
      }
    }
  }

  lemma {:induction false} NulVerdict(stream: seq<Byte>, amounts: seq<nat>, received: nat, z: nat)
    requires received <= Limit(stream) && Bring(amounts, Limit(stream) - received)
    requires z < Limit(stream) && stream[z] == NUL && NUL !in stream[..z]
    requires Parse(stream[..z]) == Incomplete || Parse(stream[..z]) == Invalid
    ensures Parse(stream[..Received(stream, amounts, received)]) == Invalid
    decreases |amounts|
  {
    hide Parse;
    if z < received {
      assert stream[..received][z] == NUL;
      NulInvalid(stream[..received]);
    } else if Parse(stream[..received]) != Incomplete {
      PrefixVerdict(stream, received, z);
    } else {
      var amount := Amount(amounts[0], |stream| - received, MAX_REQUEST - received);
      if amount < amounts[0] {
        assert received + amount == Limit(stream);
      }
      NulVerdict(stream, amounts[1..], received + amount, z);
    }
  }

  /** A verdict other than invalid before the first NUL is reached by cutting there, and lost by
      receiving all at once. */
  lemma CutAtNul(stream: seq<Byte>, z: nat)
    requires z < Limit(stream) && stream[z] == NUL && NUL !in stream[..z]
    requires Parse(stream[..z]) != Incomplete && Parse(stream[..z]) != Invalid
    ensures !CuttingsAgree(stream)
  {
    hide Parse;
    var limit := Limit(stream);
    NothingParsed();
    assert stream[..0] == [];
    var one, other := [z, limit - z], [limit];
    assert one[1..] == [limit - z] && one[1..][1..] == [] && other[1..] == [];
    assert Total(one) == z + Total([limit - z]) && Total([limit - z]) == limit - z + Total([]);
    assert Total(other) == limit + Total([]) && 0 < z;
    assert Bring(one, limit) && Bring(other, limit);
    assert stream[..limit][z] == NUL;
    NulInvalid(stream[..limit]);
    CutOnce(stream, one);
    CutOnce(stream, other);
    assert Verdict(stream, one) != Verdict(stream, other);
  }

  lemma NulInvalid(input: seq<Byte>)
    requires |input| <= MAX_REQUEST && NUL in input
    ensures Parse(input) == Invalid
  {
  }

  lemma CutOnce(stream: seq<Byte>, amounts: seq<nat>)
    requires amounts != [] && 0 < amounts[0] <= |stream| && amounts[0] <= MAX_REQUEST
    requires Parse(stream[..amounts[0]]) != Incomplete || amounts[0] == |stream|
    ensures Received(stream, amounts, 0) == amounts[0]
  {
    hide Parse;
    assert stream[..0] == [];
    NothingParsed();
  }
}
