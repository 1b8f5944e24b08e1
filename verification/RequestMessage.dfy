/** `RequestMessage::parse`: the request line (section 3.1.1 of RFC 7230) and the header fields. */
module RequestMessage {
  import opened Text
  import opened Streams
  import HttpHeader
  import Percent
  import QueryString

  // The out-parameters.
  datatype Message = Message(method_: string, path: string, queryString: string, version: string, header: seq<Field>)

  // ----- Specification -----

  // The request target, cut at its first `?`.
  function CutTarget(target: string, before: Message): Message {
    var q := Find(target, 0, '?');
    if q == |target| then before.(path := target)
    else before.(path := target[..q], queryString := target[q + 1..])
  }

  // The protocol: `HTTP`, a slash, and the version without the last character of the line.
  function ParseProtocol(protocol: string, before: Message): (bool, Message) {
    var slash := Find(protocol, 0, '/');
    if slash == |protocol| || protocol[..slash] != "HTTP" then (false, before)
    else
      var version := protocol[slash + 1..];
      (true, before.(version := if version == "" then "" else version[..|version| - 1]))
  }

  // The target up to the next space, then the protocol.
  function ParseTarget(rest: string, before: Message): (bool, Message) {
    var targetEnd := Find(rest, 0, ' ');
    if targetEnd == |rest| then (false, before)
    else ParseProtocol(rest[targetEnd + 1..], CutTarget(rest[..targetEnd], before))
  }

  // What the parser makes of a request line: whether it accepts it, and the out-parameters.
  function ParseLine(line: string, before: Message): (bool, Message) {
    var methodEnd := Find(line, 0, ' ');
    if methodEnd == |line| then (false, before)
    else ParseTarget(line[methodEnd + 1..], before.(method_ := line[..methodEnd]))
  }

  function ParseText(text: string, before: Message): (bool, Message) {
    if text == "" then (false, before)
    else
      var (ok, m) := ParseLine(FirstLine(text), before);
      if !ok then (false, m) else (true, m.(header := HttpHeader.Fields(text[LineLength(text)..])))
  }

  // How much of the text is read.
  function TextExtent(text: string): (n: nat)
    ensures n <= |text|
  {
    if text == "" then 0
    else
      LineLength(text) + if ParseLine(FirstLine(text), Message("", "", "", "", [])).0
                         then HttpHeader.Extent(text[LineLength(text)..]) else 0
  }

  // ----- The code -----

  // The loop that looks for the end of the target and for the start of the query.
  method ScanTarget(line: string, methodEnd: nat) returns (queryStart: nat, targetEnd: nat)
    requires methodEnd < |line| < NPOS
    ensures var end := Find(line, methodEnd + 1, ' ');
            && targetEnd == (if end == |line| then NPOS else end)
            && (targetEnd != NPOS ==>
                  var q := Find(line[..end], methodEnd + 1, '?');
                  queryStart == if q == end then NPOS else q + 1)
  {
    queryStart, targetEnd := NPOS, NPOS;
    var i := methodEnd + 1;
    while i < |line|
      invariant methodEnd + 1 <= i <= |line| && targetEnd == NPOS
      invariant forall j :: methodEnd + 1 <= j < i ==> line[j] != ' '
      invariant queryStart == NPOS ==> forall j :: methodEnd + 1 <= j < i ==> line[j] != '?' || j + 1 == |line|
      invariant queryStart != NPOS ==>
                  && methodEnd + 1 < queryStart <= i && line[queryStart - 1] == '?'
                  && forall j :: methodEnd + 1 <= j < queryStart - 1 ==> line[j] != '?'
    {
      if line[i] == '?' && i + 1 < |line| && queryStart == NPOS {
        queryStart := i + 1;
      } else if line[i] == ' ' {
        targetEnd := i;
        break;
      }
      i := i + 1;
    }
    FindIs(line, methodEnd + 1, {' '}, i);
    if targetEnd != NPOS {
      FindIs(line[..i], methodEnd + 1, {'?'}, if queryStart == NPOS then i else queryStart - 1);
    }
  }

  // The rest of the line from the end of the target on.
  method FinishLine(line: string, targetEnd: nat, before: Message) returns (ok: bool, m: Message)
    requires targetEnd < |line|
    ensures (ok, m) == ParseProtocol(line[targetEnd + 1..], before)
  {
    m := before;
    FindSuffix(line, targetEnd + 1, '/');
    ghost var protocol := line[targetEnd + 1..];
    var protocolEnd := Find(line, targetEnd + 1, '/');
    ghost var slash := protocolEnd - targetEnd - 1;
    assert protocol[..slash] == line[targetEnd + 1..protocolEnd];
    if protocolEnd == |line| || line[targetEnd + 1..protocolEnd] != "HTTP" {
      return false, m;
    }
    // substr(protocolEnd + 1, line.size() - protocolEnd - 2): the count wraps around to a huge
    // one when nothing follows the slash, which substr cuts down to what there is.
    var version := if protocolEnd + 1 == |line| then "" else line[protocolEnd + 1..|line| - 1];
    assert protocol[slash + 1..] == line[protocolEnd + 1..];
    assert version != "" ==> version == protocol[slash + 1..][..|line| - protocolEnd - 2];
    ok, m := true, m.(version := version);
  }

  // The assignments to the path and to the query string.
  method AssignTarget(line: string, methodEnd: nat, queryStart: nat, end: nat, before: Message) returns (m: Message)
    requires methodEnd < end < |line| < NPOS
    requires var q := Find(line[..end], methodEnd + 1, '?');
             queryStart == if q == end then NPOS else q + 1
    ensures m == CutTarget(line[methodEnd + 1..end], before)
  {
    hide FindAny;
    m := before;
    ghost var target, q := line[methodEnd + 1..end], Find(line[..end], methodEnd + 1, '?');
    assert target == line[..end][methodEnd + 1..];
    FindSuffix(line[..end], methodEnd + 1, '?');
    if queryStart != NPOS {
      m := m.(path := line[methodEnd + 1..methodEnd + 1 + (queryStart - methodEnd - 2)]);
      m := m.(queryString := line[queryStart..end]);
      assert target[..q - methodEnd - 1] == m.path;
      assert target[q - methodEnd..] == m.queryString;
    } else {
      m := m.(path := line[methodEnd + 1..end]);
    }
  }

  // The line cut at positions of its own.
  lemma LineCut(line: string, before: Message)
    ensures var methodEnd := Find(line, 0, ' ');
            ParseLine(line, before)
            == if methodEnd == |line| then (false, before)
               else var m, end := before.(method_ := line[..methodEnd]), Find(line, methodEnd + 1, ' ');
                    if end == |line| then (false, m)
                    else ParseProtocol(line[end + 1..], CutTarget(line[methodEnd + 1..end], m))
  {
    hide ParseProtocol, CutTarget;
    var methodEnd := Find(line, 0, ' ');
    if methodEnd < |line| {
      FindSuffix(line, methodEnd + 1, ' ');
      var rest, end := line[methodEnd + 1..], Find(line, methodEnd + 1, ' ');
      if end < |line| {
        assert rest[..end - methodEnd - 1] == line[methodEnd + 1..end];
        assert rest[end - methodEnd..] == line[end + 1..];
      }
    }
  }

  // The request line: everything in the function but the two uses of the stream.
  method ParseRequestLine(line: string, before: Message) returns (ok: bool, m: Message)
    requires |line| < NPOS
    ensures (ok, m) == ParseLine(line, before)
  {
    hide ParseLine, ParseProtocol, CutTarget;
    LineCut(line, before);
    m := before;
    var methodEnd := Find(line, 0, ' ');
    if methodEnd == |line| {
      return false, m;
    }
    m := m.(method_ := line[..methodEnd]);
    var queryStart, targetEnd := ScanTarget(line, methodEnd);
    if targetEnd == NPOS {
      return false, m;
    }
    m := AssignTarget(line, methodEnd, queryStart, targetEnd, m);
    ok, m := FinishLine(line, targetEnd, m);
  }

  method RequestMessageParse(stream: IStream, before: Message) returns (ok: bool, m: Message)
    requires stream.Valid() && |stream.data| < NPOS
    modifies stream
    ensures stream.Valid()
    ensures (ok, m) == ParseText(old(stream.Rest()), before)
    ensures stream.pos == old(stream.pos) + TextExtent(old(stream.Rest()))
  {
    hide ParseLine;
    var got, line := stream.GetLine("");
    if !got {
      return false, before;
    }
    AcceptanceIsOfTheLine(line, before, Message("", "", "", "", []));
    ok, m := ParseRequestLine(line, before);
    if ok {
      var header := HttpHeader.HttpHeaderParse(stream);
      m := m.(header := header);
    }
  }

  // Whether a line is accepted does not depend on what the out-parameters hold.
  lemma AcceptanceIsOfTheLine(line: string, before: Message, before': Message)
    ensures ParseLine(line, before).0 == ParseLine(line, before').0
  {
  }

  // ----- Request lines -----

  // A line with two spaces: method, target, and what follows.
  lemma TwoSpaces(m: string, target: string, protocol: string, before: Message)
    requires Without(m, {' '}) && Without(target, {' '})
    ensures ParseLine(m + [' '] + (target + [' '] + protocol), before)
         == ParseProtocol(protocol, CutTarget(target, before.(method_ := m)))
  {
    hide ParseProtocol, CutTarget, Without, FindAny;
    FindFirst(m, ' ', target + [' '] + protocol, {' '});
    FindFirst(target, ' ', protocol, {' '});
  }

  lemma OneSpace(m: string, target: string, before: Message)
    requires Without(m, {' '}) && Without(target, {' '})
    ensures ParseLine(m + [' '] + target, before) == (false, before.(method_ := m))
  {
    hide ParseProtocol, CutTarget, Without, FindAny;
    FindFirst(m, ' ', target, {' '});
    FindNone(target, {' '});
  }

  lemma HttpProtocol(rest: string, before: Message)
    ensures ParseProtocol("HTTP" + ['/'] + rest, before)
         == (true, before.(version := if rest == "" then "" else rest[..|rest| - 1]))
  {
    FindFirst("HTTP", '/', rest, {'/'});
  }

  // The request line of section 3.1.1, without its end.
  function RequestLine(m: string, target: string, rest: string): string {
    m + [' '] + (target + [' '] + ("HTTP" + ['/'] + rest))
  }

  ghost predicate HasShape(line: string, m: string, target: string, rest: string) {
    Without(m, {' '}) && Without(target, {' '}) && line == RequestLine(m, target, rest)
  }

  lemma ParseShape(m: string, target: string, rest: string, before: Message)
    requires Without(m, {' '}) && Without(target, {' '})
    ensures ParseLine(RequestLine(m, target, rest), before)
         == (true, CutTarget(target, before.(method_ := m)).(version := if rest == "" then "" else rest[..|rest| - 1]))
  {
    hide ParseLine, ParseProtocol, CutTarget, Without;
    TwoSpaces(m, target, "HTTP" + ['/'] + rest, before);
    HttpProtocol(rest, CutTarget(target, before.(method_ := m)));
  }

  // A request line with a query, or without one: then the query string keeps its old value.
  lemma LineIsParsed(m: string, path: string, query: string, version: string, before: Message)
    requires Without(m, {' '}) && Without(path, {' ', '?'}) && Without(query, {' '})
    ensures ParseLine(m + [' '] + (path + ['?'] + query + [' '] + ("HTTP" + ['/'] + (version + "\r"))), before)
         == (true, Message(m, path, query, version, before.header))
    ensures ParseLine(m + [' '] + (path + [' '] + ("HTTP" + ['/'] + (version + "\r"))), before)
         == (true, Message(m, path, before.queryString, version, before.header))
  {
    WithoutFewer(path, {' ', '?'}, {' '});
    WithoutFewer(path, {' ', '?'}, {'?'});
    NoSpaceInTarget(path, query);
    FindFirst(path, '?', query, {'?'});
    FindNone(path, {'?'});
    hide ParseLine, Without, FindAny;
    ParseShape(m, path + ['?'] + query, version + "\r", before);
    ParseShape(m, path, version + "\r", before);
    assert (version + "\r")[..|version|] == version;
  }

  lemma NoSpaceInTarget(path: string, query: string)
    requires Without(path, {' '}) && Without(query, {' '})
    ensures Without(path + ['?'] + query, {' '})
  {
    assert Without(['?'], {' '});
    WithoutParts(path, ['?'], {' '});
    WithoutParts(path + ['?'], query, {' '});
  }

  // The parts of an accepted line.
  lemma AcceptedShape(line: string, before: Message) returns (m: string, target: string, rest: string)
    requires ParseLine(line, before).0
    ensures HasShape(line, m, target, rest)
  {
    hide ParseProtocol, CutTarget, Without, FindAny;
    var methodEnd := Find(line, 0, ' ');
    m := line[..methodEnd];
    CutAtFirst(line, ' ');
    var after := line[methodEnd + 1..];
    var targetEnd := Find(after, 0, ' ');
    target := after[..targetEnd];
    CutAtFirst(after, ' ');
    var protocol := after[targetEnd + 1..];
    rest := AcceptedProtocol(protocol, CutTarget(target, before.(method_ := m)));
  }

  lemma AcceptedProtocol(protocol: string, before: Message) returns (rest: string)
    requires ParseProtocol(protocol, before).0
    ensures protocol == "HTTP" + ['/'] + rest
  {
    rest := protocol[Find(protocol, 0, '/') + 1..];
    CutAtFirst(protocol, '/');
  }

  // Exactly the lines "method SP target SP HTTP/..." are accepted.
  lemma AcceptedLines(line: string, before: Message)
    ensures ParseLine(line, before).0 <==> exists m, target, rest :: HasShape(line, m, target, rest)
  {
    hide ParseLine;
    if ParseLine(line, before).0 {
      var m, target, rest := AcceptedShape(line, before);
    }
    if m, target, rest :| HasShape(line, m, target, rest) {
      ParseShape(m, target, rest, before);
    }
  }

  // The line that the parsed parts spell out, `found` telling whether it had a query.
  function Spell(m: Message, found: bool, tail: string): string {
    RequestLine(m.method_, m.path + (if found then "?" + m.queryString else ""), m.version + tail)
  }

  lemma CutTargetParts(target: string, before: Message)
    ensures var t, found := CutTarget(target, before), Find(target, 0, '?') < |target|;
            && target == t.path + (if found then "?" + t.queryString else "")
            && t.method_ == before.method_ && t.version == before.version && t.header == before.header
            && (!found ==> t.queryString == before.queryString)
            && Without(t.path, {'?'})
  {
  }

  // Nothing of an accepted line is lost but at most one character.
  lemma NothingLost(line: string, before: Message)
    requires ParseLine(line, before).0
    ensures exists found, tail :: |tail| <= 1 && line == Spell(ParseLine(line, before).1, found, tail)
  {
    hide ParseLine, CutTarget;
    var m, target, rest := AcceptedShape(line, before);
    ParseShape(m, target, rest, before);
    CutTargetParts(target, before.(method_ := m));
    var found := Find(target, 0, '?') < |target|;
    var tail := if rest == "" then "" else rest[|rest| - 1..];
    assert ParseLine(line, before).1.version + tail == rest;
    assert line == Spell(ParseLine(line, before).1, found, tail);
  }

  // ----- Requests -----

  datatype Request = Request(method_: string, path: string, query: Option<string>, version: string, header: seq<Field>)

  function Target(r: Request): string {
    r.path + match r.query case None => "" case Some(q) => ['?'] + q
  }

  function PrintedLine(r: Request): string {
    RequestLine(r.method_, Target(r), r.version + "\r")
  }

  // A request of section 3 of RFC 7230: request line, header fields, blank line, body.
  function PrintHeader(r: Request): string {
    HttpHeader.PrintFields(r.header) + ("\r" + "\n")
  }

  function Print(r: Request, body: string): string {
    PrintedLine(r) + ['\n'] + (HttpHeader.PrintFields(r.header) + ("\r" + "\n" + body))
  }

  // What parsing it should leave in the out-parameters. Without a query the query string is not
  // assigned.
  function Returned(r: Request, before: Message): Message {
    Message(r.method_, r.path, match r.query case None => before.queryString case Some(q) => q, r.version, r.header)
  }

  predicate FrontOk(r: Request) {
    && Without(r.method_, {' ', '\n'}) && Without(r.path, {' ', '?', '\n'})
    && (r.query.Some? ==> Without(r.query.value, {' ', '\n'}))
  }

  predicate LineOk(r: Request) {
    FrontOk(r) && Without(r.version, {'\n'})
  }

  predicate RequestOk(r: Request) {
    LineOk(r) && forall i :: 0 <= i < |r.header| ==> HttpHeader.FieldOk(r.header[i])
  }

  lemma SplitFirstLine(line: string, rest: string)
    requires Without(line, {'\n'})
    ensures line + ['\n'] + rest != "" && FirstLine(line + ['\n'] + rest) == line
    ensures LineLength(line + ['\n'] + rest) == |line| + 1
    ensures (line + ['\n'] + rest)[|line| + 1..] == rest
  {
    FindFirst(line, '\n', rest, {'\n'});
  }

  lemma PrintedLineWithout(r: Request)
    requires LineOk(r)
    ensures Without(PrintedLine(r), {'\n'})
    ensures Without(r.method_, {' '}) && Without(Target(r), {' '})
  {
  }

  lemma CutPrintedTarget(r: Request, before: Message)
    requires Without(r.path, {'?'})
    ensures CutTarget(Target(r), before)
         == before.(path := r.path, queryString := match r.query case None => before.queryString case Some(q) => q)
  {
    match r.query {
      case None =>
        FindNone(r.path, {'?'});
        assert Target(r) == r.path;
      case Some(q) =>
        FindFirst(r.path, '?', q, {'?'});
        assert Target(r) == r.path + ['?'] + q;
    }
  }

  // A printed request line is read back.
  lemma ParsePrintedLine(r: Request, before: Message)
    requires LineOk(r)
    ensures Without(PrintedLine(r), {'\n'})
    ensures ParseLine(PrintedLine(r), before) == (true, Returned(r, before).(header := before.header))
  {
    PrintedLineWithout(r);
    WithoutFewer(r.path, {' ', '?', '\n'}, {'?'});
    hide ParseLine, CutTarget, Without;
    ParseShape(r.method_, Target(r), r.version + "\r", before);
    CutPrintedTarget(r, before.(method_ := r.method_));
    assert (r.version + "\r")[..|r.version|] == r.version;
  }

  // With a line that can be carried, the text is parsed into the line's parts and the fields
  // that the header parser finds.
  lemma ParsePrintedText(r: Request, before: Message, body: string)
    requires LineOk(r)
    ensures var rest := HttpHeader.PrintFields(r.header) + ("\r" + "\n" + body);
            && ParseText(Print(r, body), before) == (true, Returned(r, before).(header := HttpHeader.Fields(rest)))
            && TextExtent(Print(r, body)) == |PrintedLine(r)| + 1 + HttpHeader.Extent(rest)
  {
    ParsePrintedLine(r, before);
    ParsePrintedLine(r, Message("", "", "", "", []));
    var rest := HttpHeader.PrintFields(r.header) + ("\r" + "\n" + body);
    SplitFirstLine(PrintedLine(r), rest);
    hide ParseLine, PrintedLine, HttpHeader.Fields, HttpHeader.Extent, Without;
  }

  lemma RequestRoundTripIf(r: Request, before: Message, body: string)
    requires RequestOk(r)
    ensures ParseText(Print(r, body), before) == (true, Returned(r, before))
    ensures TextExtent(Print(r, body)) == |PrintedLine(r)| + 1 + |PrintHeader(r)|
  {
    ParsePrintedText(r, before, body);
    HttpHeader.HeaderRoundTrip(r.header, body);
    HttpHeader.ParsePrinted(r.header, body);
  }

  // The first line of a text whose front has no newline.
  lemma FirstLineOf(front: string, rest: string)
    requires Without(front, {'\n'})
    ensures FirstLine(front + rest) == front + FirstLine(rest)
  {
    var k := Find(rest, 0, '\n');
    assert forall i :: |front| <= i < |front| + k ==> (front + rest)[i] == rest[i - |front|];
    FindIs(front + rest, 0, {'\n'}, |front| + k);
  }

  lemma BothWithout(s: string, chars: set<char>, others: set<char>)
    requires Without(s, chars) && Without(s, others)
    ensures Without(s, chars + others)
  {
  }

  // The parts of any accepted text keep clear of their delimiters.
  lemma ParsedPartsAreClean(text: string, before: Message)
    requires ParseText(text, before).0
    ensures var m := ParseText(text, before).1;
            && Without(m.method_, {' ', '\n'})
            && Without(m.path, {' ', '?', '\n'})
            && Without(m.version, {'\n'}) && HttpHeader.AllClean(m.header)
            && (m.queryString == before.queryString || Without(m.queryString, {' ', '\n'}))
  {
    BeforeFirst(text, {'\n'});
    HttpHeader.ParsedFieldsAreClean(text[LineLength(text)..]);
    hide ParseLine, Without, HttpHeader.AllClean, HttpHeader.Fields;
    AcceptedLineIsClean(FirstLine(text), before);
  }

  lemma AcceptedLineIsClean(line: string, before: Message)
    requires ParseLine(line, before).0 && Without(line, {'\n'})
    ensures var m := ParseLine(line, before).1;
            && Without(m.method_, {' ', '\n'}) && Without(m.path, {' ', '?', '\n'}) && Without(m.version, {'\n'})
            && (m.queryString == before.queryString || Without(m.queryString, {' ', '\n'}))
  {
    var m, target, rest := AcceptedShape(line, before);
    ParseShape(m, target, rest, before);
    CutTargetParts(target, before.(method_ := m));
    ShapeWithout(m, target, rest);
    CutTargetWithout(target, before.(method_ := m));
    hide *;
  }

  lemma ShapeWithout(m: string, target: string, rest: string)
    requires Without(m, {' '}) && Without(target, {' '}) && Without(RequestLine(m, target, rest), {'\n'})
    ensures Without(m, {' ', '\n'}) && Without(target, {' ', '\n'})
    ensures Without(if rest == "" then "" else rest[..|rest| - 1], {'\n'})
  {
    hide Without;
    WithoutParts(m + [' '], target + [' '] + ("HTTP" + ['/'] + rest), {'\n'});
    WithoutParts(m, [' '], {'\n'});
    WithoutParts(target + [' '], "HTTP" + ['/'] + rest, {'\n'});
    WithoutParts(target, [' '], {'\n'});
    WithoutParts("HTTP" + ['/'], rest, {'\n'});
    assert {' '} + {'\n'} == {' ', '\n'};
    BothWithout(m, {' '}, {'\n'});
    BothWithout(target, {' '}, {'\n'});
    if rest == "" {
      NothingWithout({'\n'});
    } else {
      assert rest == rest[..|rest| - 1] + [rest[|rest| - 1]];
      WithoutParts(rest[..|rest| - 1], [rest[|rest| - 1]], {'\n'});
    }
  }

  lemma CutTargetWithout(target: string, before: Message)
    requires Without(target, {' ', '\n'})
    ensures var t := CutTarget(target, before);
            && Without(t.path, {' ', '?', '\n'})
            && (t.queryString == before.queryString || Without(t.queryString, {' ', '\n'}))
  {
  }

  lemma NothingWithout(chars: set<char>)
    ensures Without("", chars)
  {
  }

  function Front(r: Request): string {
    r.method_ + [' '] + Target(r)
  }

  lemma FrontWithout(r: Request)
    requires FrontOk(r)
    ensures Without(r.method_, {' '}) && Without(Target(r), {' '}) && Without(r.path, {'?'})
    ensures Without(Front(r), {'\n'})
  {
  }

  // The printed text around position k of the query.
  lemma SplitQuery(r: Request, body: string, k: nat) returns (rest: string)
    requires r.query.Some? && k < |r.query.value|
    ensures Print(r, body) == Front(r.(query := Some(r.query.value[..k]))) + [r.query.value[k]] + rest
  {
    var q := r.query.value;
    var tail := [' '] + ("HTTP" + ['/'] + (r.version + "\r")) + ['\n']
                + (HttpHeader.PrintFields(r.header) + ("\r" + "\n" + body));
    assert Print(r, body) == Front(r) + tail;
    rest := q[k + 1..] + tail;
    assert q == q[..k] + [q[k]] + q[k + 1..];
    assert Front(r) == Front(r.(query := Some(q[..k]))) + [q[k]] + q[k + 1..];
  }

  // A query with a space or a newline does not come back whole.
  lemma BrokenQuery(r: Request, before: Message, body: string)
    requires FrontOk(r.(query := None))
    requires r.query.Some? && !Without(r.query.value, {' ', '\n'})
    ensures var q := r.query.value;
            ParseText(Print(r, body), before).0 ==>
              && ParseText(Print(r, body), before).1.queryString == q[..FindAny(q, 0, {' ', '\n'})]
              && |ParseText(Print(r, body), before).1.queryString| < |q|
  {
    var q := r.query.value;
    var k := FindAny(q, 0, {' ', '\n'});
    BeforeFirst(q, {' ', '\n'});
    var cut := r.(query := Some(q[..k]));
    FrontWithout(cut);
    var rest := SplitQuery(r, body, k);
    if q[k] == '\n' {
      BrokenOffLine(cut, rest, before);
    } else {
      SplitLine(cut, rest, before);
    }
  }

  // Parsing a text whose request line breaks off behind its target...
  lemma BrokenOffLine(cut: Request, rest: string, before: Message)
    requires FrontOk(cut) && cut.query.Some?
    ensures !ParseText(Front(cut) + ['\n'] + rest, before).0
  {
    FrontWithout(cut);
    hide *;
    SplitFirstLine(Front(cut), rest);
    FrontParts(cut);
    OneSpace(cut.method_, Target(cut), before);
    LineDecides(Front(cut) + ['\n'] + rest, before);
  }

  // ...or goes on there after a space.
  lemma SplitLine(cut: Request, rest: string, before: Message)
    requires FrontOk(cut) && cut.query.Some?
    ensures var (ok, m) := ParseText(Front(cut) + [' '] + rest, before);
            ok ==> m.queryString == cut.query.value
  {
    FrontWithout(cut);
    var named := before.(method_ := cut.method_);
    CutPrintedTarget(cut, named);
    assert CutTarget(Target(cut), named).queryString == cut.query.value;
    assert Without([' '], {'\n'});
    hide *;
    WithoutParts(Front(cut), [' '], {'\n'});
    FirstLineOf(Front(cut) + [' '], rest);
    FrontParts(cut);
    var protocol := FirstLine(rest);
    SpaceAfterTarget(cut.method_, Target(cut), protocol);
    TwoSpaces(cut.method_, Target(cut), protocol, before);
    ProtocolKeepsQuery(protocol, CutTarget(Target(cut), named));
    LineDecides(Front(cut) + [' '] + rest, before);
  }

  lemma FrontParts(r: Request)
    ensures Front(r) == r.method_ + [' '] + Target(r)
  {
  }

  lemma SpaceAfterTarget(method_: string, target: string, protocol: string)
    ensures method_ + [' '] + target + [' '] + protocol == method_ + [' '] + (target + [' '] + protocol)
  {
  }

  lemma LineDecides(text: string, before: Message)
    requires text != ""
    ensures ParseText(text, before).0 == ParseLine(FirstLine(text), before).0
    ensures ParseText(text, before).1.queryString == ParseLine(FirstLine(text), before).1.queryString
  {
  }

  lemma ProtocolKeepsQuery(protocol: string, before: Message)
    ensures ParseProtocol(protocol, before).1.queryString == before.queryString
  {
  }

  lemma RequestRoundTripOnlyIf(r: Request, before: Message, body: string)
    requires ParseText(Print(r, body), before) == (true, Returned(r, before))
    ensures RequestOk(r)
  {
    ParsedPartsAreClean(Print(r, body), before);
    if r.query.Some? && !Without(r.query.value, {' ', '\n'}) {
      BrokenQuery(r, before, body);
      assert false;
    }
    ParsePrintedText(r, before, body);
    HttpHeader.HeaderRoundTrip(r.header, body);
  }

  // A request followed by any body is parsed into exactly its parts, and the stream left at the
  // body, if and only if its parts keep clear of the delimiters.
  lemma RequestRoundTrip(r: Request, before: Message, body: string)
    ensures RequestOk(r) <==> ParseText(Print(r, body), before) == (true, Returned(r, before))
    ensures RequestOk(r) ==> Print(r, body)[TextExtent(Print(r, body))..] == body
  {
    hide ParseText, TextExtent, RequestOk;
    if RequestOk(r) {
      RequestRoundTripIf(r, before, body);
      var head := PrintedLine(r) + ['\n'] + PrintHeader(r);
      assert Print(r, body) == head + body;
    }
    if ParseText(Print(r, body), before) == (true, Returned(r, before)) {
      RequestRoundTripOnlyIf(r, before, body);
    }
  }

  // Fields carried as the query string of a request come out of the two parsers unchanged if and
  // only if all their keys can be carried in a query string and in a request line.
  lemma CarriedFields(r: Request, fields: seq<Field>, before: Message, body: string)
    requires QueryString.Encodable(fields)
    requires r.query == Some(QueryString.Create(fields)) && RequestOk(r.(query := None))
    ensures (forall i :: 0 <= i < |fields| ==>
               QueryString.KeyOk(fields[i].name) && Without(fields[i].name, {' ', '\n'}))
       <==> var (ok, m) := ParseText(Print(r, body), before);
            ok && m.path == r.path && m.header == r.header && QueryString.Parse(m.queryString) == fields
  {
    hide ParseText, Print, RequestOk;
    var (ok, m) := ParseText(Print(r, body), before);
    if forall i :: 0 <= i < |fields| ==> QueryString.KeyOk(fields[i].name) && Without(fields[i].name, {' ', '\n'}) {
      CreatedWithout(fields);
      WithQueryOk(r);
      RequestRoundTrip(r, before, body);
      QueryString.ParseCreate(fields);
    }
    if ok && QueryString.Parse(m.queryString) == fields {
      CarriedQuery(r, before, body);
      QueryString.ParsedKeys(m.queryString);
      QueryString.ParsedNamesWithout(m.queryString, {' ', '\n'});
    }
  }

  lemma WithQueryOk(r: Request)
    requires RequestOk(r.(query := None)) && r.query.Some? && Without(r.query.value, {' ', '\n'})
    ensures RequestOk(r)
  {
  }

  // Whatever the query of an accepted printed request was, the query string returned has no space
  // and no newline.
  lemma CarriedQuery(r: Request, before: Message, body: string)
    requires RequestOk(r.(query := None)) && r.query.Some? && ParseText(Print(r, body), before).0
    ensures Without(ParseText(Print(r, body), before).1.queryString, {' ', '\n'})
  {
    hide ParseText, Print;
    if Without(r.query.value, {' ', '\n'}) {
      WithQueryOk(r);
      RequestRoundTrip(r, before, body);
    } else {
      BrokenQuery(r, before, body);
      BeforeFirst(r.query.value, {' ', '\n'});
    }
  }

  lemma {:induction false} CreatedWithout(fields: seq<Field>)
    requires QueryString.Encodable(fields)
    requires forall i :: 0 <= i < |fields| ==> Without(fields[i].name, {' ', '\n'})
    ensures Without(QueryString.Create(fields), {' ', '\n'})
  {
    var n, chars := |fields|, {' ', '\n'};
    if n == 0 {
    } else {
      var last := fields[n - 1];
      Percent.EncodedCharacters(last.value);
      assert Without(Percent.Encode(last.value), chars) && Without("=", chars) && Without("&", chars);
      WithoutParts(last.name, "=", chars);
      WithoutParts(last.name + "=", Percent.Encode(last.value), chars);
      if n > 1 {
        CreatedWithout(fields[..n - 1]);
        WithoutParts(QueryString.Create(fields[..n - 1]), "&", chars);
        WithoutParts(QueryString.Create(fields[..n - 1]) + "&", QueryString.Piece(last), chars);
      }
    }
  }
}
