/** `ResponseMessage::parse`: the status line (section 3.1.2 of RFC 7230) and the header fields. */
module ResponseMessage {
  import opened Text
  import opened Streams
  import HttpHeader

  // The out-parameters.
  datatype Response = Response(version: string, statusCode: string, header: seq<Field>)

  // ----- Specification -----

  function DropReturn(s: string): string {
    if s != "" && s[|s| - 1] == '\r' then s[..|s| - 1] else s
  }

  // The version stands between position 5 and the first space, or goes on to the end of the line if
  // that space comes earlier; the status code is what follows the space, without a final carriage
  // return. The line must be longer than five characters and go on behind the space.
  function ParseStatusLine(line: string, before: Response): (bool, Response) {
    var space := Find(line, 0, ' ');
    if space == |line| || |line| <= 5 then (false, before)
    else
      var r := before.(version := line[5..if space < 5 then |line| else space]);
      if space + 1 == |line| then (false, r) else (true, r.(statusCode := DropReturn(line[space + 1..])))
  }

  function ParseText(text: string, before: Response): (bool, Response) {
    if text == "" then (false, before)
    else
      var (ok, r) := ParseStatusLine(FirstLine(text), before);
      if !ok then (false, r) else (true, r.(header := HttpHeader.Fields(text[LineLength(text)..])))
  }

  // ----- The code -----

  // Everything in the function but the two uses of the stream.
  method ParseLine(line: string, before: Response) returns (ok: bool, r: Response)
    requires |line| < NPOS
    ensures (ok, r) == ParseStatusLine(line, before)
  {
    r := before;
    var versionEnd := Find(line, 0, ' ');
    if versionEnd == |line| {
      return false, r;
    }
    if 5 >= |line| {
      return false, r;
    }
    // substr(5, version_end - 5): the count wraps around to a huge one for a space before position 5.
    assert line[5..|line|] == line[5..];
    r := r.(version := if versionEnd < 5 then line[5..] else line[5..versionEnd]);
    if versionEnd + 1 >= |line| {
      return false, r;
    }
    var count := |line| - (versionEnd + 1) - (if line[|line| - 1] == '\r' then 1 else 0);
    r := r.(statusCode := line[versionEnd + 1..versionEnd + 1 + count]);
    assert r.statusCode == DropReturn(line[versionEnd + 1..]);
    ok := true;
  }

  method ResponseMessageParse(stream: IStream, before: Response) returns (ok: bool, r: Response)
    requires stream.Valid() && |stream.data| < NPOS
    modifies stream
    ensures stream.Valid()
    ensures (ok, r) == ParseText(old(stream.Rest()), before)
  {
    hide ParseStatusLine;
    var got, line := stream.GetLine("");
    if !got {
      return false, before;
    }
    ok, r := ParseLine(line, before);
    if ok {
      var header := HttpHeader.HttpHeaderParse(stream);
      r := r.(header := header);
    }
  }

  // ----- Properties -----

  // A status line without its end, header fields and a blank line, in front of a body.
  function Print(version: string, statusCode: string, header: seq<Field>, body: string): string {
    ("HTTP/" + version + [' '] + statusCode + "\r") + ['\n'] + (HttpHeader.PrintFields(header) + ("\r" + "\n" + body))
  }

  // A printed response is read back if its version has no space or newline, its status code is not
  // empty and has no newline, and its fields can be read back.
  lemma ResponseRoundTrip(version: string, statusCode: string, header: seq<Field>, body: string, before: Response)
    requires Without(version, {' ', '\n'}) && Without(statusCode, {'\n'})
    requires forall i :: 0 <= i < |header| ==> HttpHeader.FieldOk(header[i])
    ensures ParseText(Print(version, statusCode, header, body), before) == (true, Response(version, statusCode, header))
  {
    var line := "HTTP/" + version + [' '] + statusCode + "\r";
    var rest := HttpHeader.PrintFields(header) + ("\r" + "\n" + body);
    StatusLineIsRead(version, statusCode, before);
    assert Without(line, {'\n'});
    hide ParseStatusLine, Without, FindAny, HttpHeader.Fields, HttpHeader.PrintFields, HttpHeader.FieldOk;
    HttpHeader.HeaderRoundTrip(header, body);
    FindFirst(line, '\n', rest, {'\n'});
  }

  lemma StatusLineIsRead(version: string, statusCode: string, before: Response)
    requires Without(version, {' ', '\n'})
    ensures ParseStatusLine("HTTP/" + version + [' '] + statusCode + "\r", before)
         == (true, before.(version := version, statusCode := statusCode))
  {
    var front := "HTTP/" + version;
    WithoutFewer(version, {' ', '\n'}, {' '});
    assert Without("HTTP/", {' '});
    WithoutParts("HTTP/", version, {' '});
    var line := front + [' '] + statusCode + "\r";
    assert line == front + [' '] + (statusCode + "\r");
    FindFirst(front, ' ', statusCode + "\r", {' '});
    assert line[5..|front|] == version;
    assert DropReturn(statusCode + "\r") == statusCode;
  }

  // Lines that nothing here prints: without a carriage return, with a space before position 5, cut off after
  // the space, and too short.
  lemma OddLines(before: Response)
    ensures ParseStatusLine("HTTP/1.1 200 OK", before)
         == (true, before.(version := "1.1", statusCode := "200 OK"))
    ensures ParseStatusLine("AB CDEF", before) == (true, before.(version := "EF", statusCode := "CDEF"))
    ensures ParseStatusLine("HTTP/1.1 ", before) == (false, before.(version := "1.1"))
    ensures ParseStatusLine("A B C", before) == (false, before)
  {
    FindIs("HTTP/1.1 200 OK", 0, {' '}, 8);
    FindIs("AB CDEF", 0, {' '}, 2);
    FindIs("HTTP/1.1 ", 0, {' '}, 8);
    FindIs("A B C", 0, {' '}, 1);
    hide FindAny;
    assert "HTTP/1.1 200 OK"[5..8] == "1.1" && "HTTP/1.1 200 OK"[9..] == "200 OK" && "HTTP/1.1 "[5..8] == "1.1";
    assert "AB CDEF"[5..7] == "EF" && "AB CDEF"[3..] == "CDEF";
  }
}
