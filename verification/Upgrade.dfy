/** The handshake end to end: the request of the client, the answer of the server, and the client's
    verdict on it. */
module Upgrade {
  import opened Text
  import opened Streams
  import Base64
  import CaseInsensitive
  import Handshake
  import HttpHeader
  import RequestMessage
  import ResponseMessage

  // ----- Specification -----

  // CaseInsensitiveMultimap::find. Of several entries it may give any; this is the first.
  function Lookup(header: seq<Field>, name: string): Option<string> {
    if header == [] then None
    else if CaseInsensitive.CaseInsensitiveEqual(header[0].name, name) then Some(header[0].value)
    else Lookup(header[1..], name)
  }

  // The field is there, and whichever entry `find` gives has this value.
  ghost predicate Holds(header: seq<Field>, name: string, value: string) {
    && (exists i :: 0 <= i < |header| && CaseInsensitive.CaseInsensitiveEqual(header[i].name, name))
    && forall i :: 0 <= i < |header| && CaseInsensitive.CaseInsensitiveEqual(header[i].name, name) ==>
         header[i].value == value
  }

  const ACCEPT := "Sec-WebSocket-Accept"

  const STATUS := "101 Web Socket Protocol Handshake"

  const UNSET := ResponseMessage.Response("", "", [])

  // The server's answer for a key.
  function Answer(key: string): string {
    Base64.Encode(Handshake.Cut(Handshake.CodeDigest(key)))
  }

  // The client accepts a response: its status is 101, and its answer agrees with the digest of the
  // key up to the first zero of each.
  function Upgraded(response: string, key: string): bool {
    var (ok, r) := ResponseMessage.ParseText(response, UNSET);
    && ok && |r.statusCode| >= 4 && r.statusCode[..4] == "101 "
    && match Lookup(r.header, ACCEPT)
       case None => false
       case Some(accept) =>
         Handshake.UpToZero(Base64.Decode(accept)) == Handshake.UpToZero(Handshake.CodeDigest(key))
  }

  // The server's response, switching protocols.
  function Switching(header: seq<Field>, body: string): string {
    ResponseMessage.Print("1.1", STATUS, header, body)
  }

  // ----- The code -----

  method Find(header: seq<Field>, name: string) returns (value: Option<string>)
    ensures value == Lookup(header, name)
  {
    assert header[0..] == header;
    for i := 0 to |header|
      invariant Lookup(header[i..], name) == Lookup(header, name)
    {
      if CaseInsensitive.CaseInsensitiveEqual(header[i].name, name) {
        return Some(header[i].value);
      }
      assert header[i..][1..] == header[i + 1..];
    }
    value := None;
  }

  // The server's output of the response in `write_handshake`.
  method WriteResponse(header: seq<Field>) returns (out: string)
    ensures out == Switching(header, "")
  {
    var first := "HTTP/1.1 " + STATUS + "\r\n";
    out := first;
    assert header[0..] == header;
    ghost var all := HttpHeader.PrintFields(header);
    ghost var written := "";
    for i := 0 to |header|
      invariant out == first + written
      invariant written + HttpHeader.PrintFields(header[i..]) == all
    {
      assert header[i..][1..] == header[i + 1..];
      ghost var line := HttpHeader.PrintField(header[i]);
      Associative(written, line, HttpHeader.PrintFields(header[i + 1..]));
      out := out + (header[i].name + ": " + header[i].value + "\r\n");
      PrintedFieldIs(header[i]);
      Associative(first, written, line);
      written := written + line;
    }
    out := out + "\r\n";
    FirstLineIs(STATUS);
    assert written == all;
    assert out == first + (all + ("\r" + "\n" + ""));
  }

  lemma PrintedFieldIs(field: Field)
    ensures HttpHeader.PrintField(field) == field.name + ": " + field.value + "\r\n"
  {
  }

  lemma FirstLineIs(status: string)
    ensures "HTTP/1.1 " + status + "\r\n" == ("HTTP/" + "1.1" + [' '] + status + "\r") + ['\n']
  {
    assert "HTTP/1.1 " == "HTTP/" + "1.1" + [' '];
    assert "\r\n" == "\r" + ['\n'];
  }

  // The client's handling of the response in `upgrade`.
  method UpgradeClient(stream: IStream, key: string, beyond: seq<Base64.Octet>) returns (accepted: bool)
    requires stream.Valid() && |stream.data| < 0x7fff_fffc
    requires |key| + |Handshake.MAGIC| < 0x8000_0000 && 0 in beyond
    modifies stream
    ensures accepted == Upgraded(old(stream.Rest()), key)
  {
    hide Lookup, ResponseMessage.ParseText, Base64.Decode, Handshake.UpToZero, Handshake.CodeDigest;
    ghost var rest := stream.Rest();
    var ok, r := ResponseMessage.ResponseMessageParse(stream, UNSET);
    if !ok {
      return false;
    }
    if |r.statusCode| < 4 || r.statusCode[..4] != "101 " {
      return false;
    }
    var accept := Find(r.header, ACCEPT);
    if accept.None? {
      return false;
    }
    AnswersAreShort(rest, ACCEPT);
    accepted := Handshake.Accepted(key, accept.value, beyond);
  }

  lemma AnswersAreShort(response: string, name: string)
    ensures var (ok, r) := ResponseMessage.ParseText(response, UNSET);
            ok && Lookup(r.header, name).Some? ==> |Lookup(r.header, name).value| <= |response|
  {
    var (ok, r) := ResponseMessage.ParseText(response, UNSET);
    if ok {
      HttpHeader.ParsedFieldsAreShort(response[LineLength(response)..]);
      LookupIsAnEntry(r.header, name);
    }
    hide Lookup, HttpHeader.Fields, ResponseMessage.ParseStatusLine;
  }

  lemma {:induction false} LookupIsAnEntry(header: seq<Field>, name: string)
    ensures Lookup(header, name).Some? ==> exists f :: f in header && f.value == Lookup(header, name).value
  {
    if header == [] {
    } else if CaseInsensitive.CaseInsensitiveEqual(header[0].name, name) {
      assert header[0] in header;
    } else {
      LookupIsAnEntry(header[1..], name);
      assert forall f :: f in header[1..] ==> f in header;
    }
  }

  // ----- Properties -----

  lemma {:induction false} LookupFinds(header: seq<Field>, name: string, value: string)
    requires Holds(header, name, value)
    ensures Lookup(header, name) == Some(value)
  {
    if CaseInsensitive.CaseInsensitiveEqual(header[0].name, name) {
    } else {
      var i :| 0 <= i < |header| && CaseInsensitive.CaseInsensitiveEqual(header[i].name, name);
      assert header[1..][i - 1] == header[i];
      assert forall j :: 0 <= j < |header[1..]| ==> header[1..][j] == header[j + 1];
      LookupFinds(header[1..], name, value);
    }
  }

  // Nothing is found if and only if no entry has the name; otherwise it is the value of the first that has.
  lemma {:induction false} LookupIsFirst(header: seq<Field>, name: string)
    ensures match Lookup(header, name)
            case None =>
              forall i :: 0 <= i < |header| ==> !CaseInsensitive.CaseInsensitiveEqual(header[i].name, name)
            case Some(value) =>
              exists i :: 0 <= i < |header| && CaseInsensitive.CaseInsensitiveEqual(header[i].name, name)
                && header[i].value == value
                && forall j :: 0 <= j < i ==> !CaseInsensitive.CaseInsensitiveEqual(header[j].name, name)
  {
    hide CaseInsensitive.CaseInsensitiveEqual;
    if header == [] || CaseInsensitive.CaseInsensitiveEqual(header[0].name, name) {
    } else {
      var rest := header[1..];
      LookupIsFirst(rest, name);
      assert forall j :: 0 < j < |header| ==> header[j] == rest[j - 1];
      if Lookup(rest, name).Some? {
        var i :| 0 <= i < |rest| && CaseInsensitive.CaseInsensitiveEqual(rest[i].name, name)
          && rest[i].value == Lookup(rest, name).value
          && forall j :: 0 <= j < i ==> !CaseInsensitive.CaseInsensitiveEqual(rest[j].name, name);
        assert header[i + 1] == rest[i];
      }
    }
  }

  // An entry whose name is in small letters is found.
  lemma {:induction false} SmallLettersAreFound(before: seq<Field>, value: string, after: seq<Field>)
    requires Lookup(before, "Sec-WebSocket-Accept") == None
    ensures Lookup(before + [Field("sec-websocket-accept", value)] + after, "Sec-WebSocket-Accept") == Some(value)
  {
    SmallLetters();
    hide CaseInsensitive.CaseInsensitiveEqual;
    var header := before + [Field("sec-websocket-accept", value)] + after;
    if before == [] {
      assert header[0] == Field("sec-websocket-accept", value);
    } else {
      SmallLettersAreFound(before[1..], value, after);
      assert header[0] == before[0];
      assert header[1..] == before[1..] + [Field("sec-websocket-accept", value)] + after;
    }
  }

  lemma SmallLetters()
    ensures CaseInsensitive.CaseInsensitiveEqual("sec-websocket-accept", "Sec-WebSocket-Accept")
  {
  }

  // The verdict on a response that is parsed.
  lemma UpgradedIf(response: string, key: string, r: ResponseMessage.Response)
    requires ResponseMessage.ParseText(response, UNSET) == (true, r)
    ensures Lookup(r.header, "Sec-WebSocket-Accept") == None ==> !Upgraded(response, key)
    ensures Lookup(r.header, "Sec-WebSocket-Accept").Some? ==>
              var accept := Lookup(r.header, "Sec-WebSocket-Accept").value;
              Upgraded(response, key) <==>
                && "101 " <= r.statusCode
                && Handshake.UpToZero(Base64.Decode(accept)) == Handshake.UpToZero(Handshake.CodeDigest(key))
  {
    hide Lookup, ResponseMessage.ParseText, Base64.Decode, Handshake.UpToZero, Handshake.CodeDigest;
  }

  // The server's response is accepted by the client with the same key, whatever other fields it has
  // and in whatever order, and whatever follows it.
  lemma ServerIsAccepted(key: string, header: seq<Field>, body: string)
    requires forall i :: 0 <= i < |header| ==> HttpHeader.FieldOk(header[i])
    requires Holds(header, "Sec-WebSocket-Accept", Answer(key))
    ensures Upgraded(Switching(header, body), key)
  {
    StatusIsOk();
    StatusStarts();
    SwitchingIs(header, body);
    hide *;
    ResponseMessage.ResponseRoundTrip("1.1", STATUS, header, body, UNSET);
    LookupFinds(header, "Sec-WebSocket-Accept", Answer(key));
    AnswerIsAccepted(key);
    UpgradedIf(Switching(header, body), key, ResponseMessage.Response("1.1", STATUS, header));
  }

  lemma StatusIsOk()
    ensures Without("1.1", {' ', '\n'}) && Without(STATUS, {'\n'})
  {
  }

  lemma StatusStarts()
    ensures "101 " <= STATUS
  {
  }

  lemma SwitchingIs(header: seq<Field>, body: string)
    ensures Switching(header, body) == ResponseMessage.Print("1.1", STATUS, header, body)
  {
  }

  // The response starts with the status line of the source.
  lemma SwitchingStarts(header: seq<Field>, body: string)
    ensures "HTTP/1.1 " + "101 Web Socket Protocol Handshake" + "\r\n" <= Switching(header, body)
  {
    FirstLineIs(STATUS);
    hide HttpHeader.PrintFields;
  }

  lemma AnswerIsAccepted(key: string)
    ensures Handshake.UpToZero(Base64.Decode(Answer(key))) == Handshake.UpToZero(Handshake.CodeDigest(key))
  {
    hide Base64.Decode, Base64.Encode, Handshake.UpToZero, Handshake.CodeDigest, Handshake.Cut;
    Handshake.ClientAccepts(key);
  }

  // A response with one answer is accepted if and only if its status starts with `101 ` and the answer
  // decodes to the digest up to its first zero byte, here at position n, and then to nothing, or to a zero
  // and anything.
  lemma AcceptedIff(version: string, status: string, header: seq<Field>, body: string, key: string, answer: string,
        n: nat)
    requires Without(version, {' ', '\n'}) && Without(status, {'\n'})
    requires forall i :: 0 <= i < |header| ==> HttpHeader.FieldOk(header[i])
    requires Holds(header, "Sec-WebSocket-Accept", answer)
    requires var digest := Handshake.CodeDigest(key);
             n <= 20 && 0 !in digest[..n] && (n < 20 ==> digest[n] == 0)
    ensures var digest, decoded := Handshake.CodeDigest(key), Base64.Decode(answer);
            Upgraded(ResponseMessage.Print(version, status, header, body), key) <==>
              "101 " <= status && digest[..n] <= decoded && (|decoded| > n ==> decoded[n] == 0)
  {
    var digest, decoded := Handshake.CodeDigest(key), Base64.Decode(answer);
    hide *;
    ResponseMessage.ResponseRoundTrip(version, status, header, body, UNSET);
    LookupFinds(header, "Sec-WebSocket-Accept", answer);
    Handshake.UpToZeroIs(digest, n);
    Handshake.ClientAcceptsOnly(digest, decoded);
    UpgradedIf(ResponseMessage.Print(version, status, header, body), key,
               ResponseMessage.Response(version, status, header));
  }

  // A response without any entry of the name is rejected...
  lemma NoAnswerIsRejected(version: string, status: string, header: seq<Field>, body: string, key: string)
    requires Without(version, {' ', '\n'}) && Without(status, {'\n'})
    requires forall i :: 0 <= i < |header| ==>
               && HttpHeader.FieldOk(header[i])
               && !CaseInsensitive.CaseInsensitiveEqual(header[i].name, "Sec-WebSocket-Accept")
    ensures !Upgraded(ResponseMessage.Print(version, status, header, body), key)
  {
    hide *;
    ResponseMessage.ResponseRoundTrip(version, status, header, body, UNSET);
    LookupIsFirst(header, "Sec-WebSocket-Accept");
    UpgradedIf(ResponseMessage.Print(version, status, header, body), key,
               ResponseMessage.Response(version, status, header));
  }

  // ...and so is, whatever follows the status line, a response with another status,
  lemma OtherStatusIsRejected(version: string, status: string, rest: string, key: string)
    requires Without(version, {' ', '\n'}) && Without(status, {'\n'}) && !("101 " <= status)
    ensures !Upgraded("HTTP/" + version + [' '] + status + "\r" + ['\n'] + rest, key)
  {
    var line := "HTTP/" + version + [' '] + status + "\r";
    assert Without(line, {'\n'});
    FindFirst(line, '\n', rest, {'\n'});
    hide ResponseMessage.ParseStatusLine, Without, HttpHeader.Fields, Lookup;
    ResponseMessage.StatusLineIsRead(version, status, UNSET);
  }

  // and one whose first line has no space.
  lemma NoSpaceIsRejected(response: string, key: string)
    requires response == "" || Without(FirstLine(response), {' '})
    ensures !Upgraded(response, key)
  {
    if response != "" {
      FindNone(FirstLine(response), {' '});
    }
    hide FindAny, Lookup;
  }

  // Any request that carries a Base64 key gives that key to the server, and the server's response to
  // it is accepted by the client.
  lemma HandshakeSucceeds(nonce: seq<Base64.Octet>, request: RequestMessage.Request, before: RequestMessage.Message,
        header: seq<Field>, requestBody: string, responseBody: string)
    requires RequestMessage.RequestOk(request) && Holds(request.header, "Sec-WebSocket-Key", Base64.Encode(nonce))
    requires forall i :: 0 <= i < |header| ==> HttpHeader.FieldOk(header[i])
    requires Holds(header, "Sec-WebSocket-Accept", Answer(Base64.Encode(nonce)))
    ensures var (ok, m) := RequestMessage.ParseText(RequestMessage.Print(request, requestBody), before);
            ok && Lookup(m.header, "Sec-WebSocket-Key") == Some(Base64.Encode(nonce))
    ensures Upgraded(Switching(header, responseBody), Base64.Encode(nonce))
  {
    hide *;
    RequestMessage.RequestRoundTrip(request, before, requestBody);
    ReturnedHeader(request, before);
    LookupFinds(request.header, "Sec-WebSocket-Key", Base64.Encode(nonce));
    ServerIsAccepted(Base64.Encode(nonce), header, responseBody);
  }

  lemma ReturnedHeader(request: RequestMessage.Request, before: RequestMessage.Message)
    ensures RequestMessage.Returned(request, before).header == request.header
  {
  }

  // Keys and answers can be carried in a header field.
  lemma Base64IsFieldOk(name: string, octets: seq<Base64.Octet>)
    requires Without(name, {':', '\n'})
    ensures HttpHeader.FieldOk(Field(name, Base64.Encode(octets)))
  {
    Base64.EncodedCharacters(octets);
  }
}
