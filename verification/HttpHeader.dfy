/** The part of `std::istream` that the parsers use: a byte sequence, a position and two state
    bits. */
module Streams {
  import opened Text

  // The line at the front of a text that is not empty, and the number of characters `getline`
  // extracts with it: the newline too, if there is one.
  function FirstLine(text: string): string {
    text[..Find(text, 0, '\n')]
  }

  function LineLength(text: string): (n: nat)
    requires text != ""
    ensures 0 < n <= |text|
  {
    var k := Find(text, 0, '\n');
    if k == |text| then k else k + 1
  }

  class IStream {
    const data: string
    var pos: nat
    var eofbit: bool
    var failbit: bool

    ghost predicate Valid()
      reads this
    {
      pos <= |data| && (eofbit ==> pos == |data|)
    }

    // What can still be read.
    ghost function Rest(): string
      reads this
      requires Valid()
    {
      if eofbit || failbit then "" else data[pos..]
    }

    constructor (data: string)
      ensures Valid() && this.data == data && pos == 0 && Rest() == data
    {
      this.data := data;
      pos := 0;
      eofbit := false;
      failbit := false;
    }

    // std::getline(stream, line): false if the stream is not good or has nothing left; a last
    // line without a newline is still returned.
    method GetLine(line: string) returns (ok: bool, line': string)
      requires Valid()
      modifies this
      ensures Valid()
      ensures ok <==> old(Rest()) != ""
      ensures ok ==> line' == FirstLine(old(Rest()))
      ensures ok ==> pos == old(pos) + LineLength(old(Rest())) && Rest() == old(Rest())[LineLength(old(Rest()))..]
      ensures !ok ==> pos == old(pos) && Rest() == ""
    {
      if eofbit || failbit {
        failbit := true;
        return false, line;
      }
      line' := "";
      ghost var rest := data[pos..];
      ghost var start := pos;
      while pos < |data| && data[pos] != '\n'
        invariant start <= pos <= |data|
        invariant line' == data[start..pos]
        invariant forall i :: start <= i < pos ==> data[i] != '\n'
        invariant !eofbit && !failbit
        decreases |data| - pos
      {
        line' := line' + [data[pos]];
        pos := pos + 1;
      }
      FindIs(rest, 0, {'\n'}, pos - start);
      assert line' == rest[..pos - start];
      if pos < |data| {
        pos := pos + 1;
        ok := true;
      } else {
        eofbit := true;
        ok := line' != "";
        failbit := !ok;
      }
    }
  }
}

/** `HttpHeader::parse`: header fields, one a line, up to the first line without a colon
    (section 3.2 of RFC 7230). */
module HttpHeader {
  import opened Text
  import opened Streams

  // ----- Specification -----

  // The space skipper: it stops at the last character of the line even if that is a space.
  function SkipSpaces(line: string, from: nat): (k: nat)
    requires from <= |line|
    ensures from <= k <= |line| && (k == |line| ==> from == |line|)
    ensures forall i :: from <= i < k ==> line[i] == ' '
    ensures k + 1 < |line| ==> line[k] != ' '
    decreases |line| - from
  {
    if from + 1 < |line| && line[from] == ' ' then SkipSpaces(line, from + 1) else from
  }

  // The field on a line with a colon: nothing if the colon ends the line, and a final carriage
  // return is no part of the value.
  function LineField(line: string): seq<Field>
    requires Find(line, 0, ':') < |line|
  {
    var colon := Find(line, 0, ':');
    var start := SkipSpaces(line, colon + 1);
    if start == |line| then []
    else [Field(line[..colon], line[start..if line[|line| - 1] == '\r' then |line| - 1 else |line|])]
  }

  predicate IsFieldLine(line: string) {
    Find(line, 0, ':') < |line|
  }

  // The fields at the front of a text...
  function Fields(text: string): seq<Field>
    decreases |text|
  {
    if text == "" || !IsFieldLine(FirstLine(text)) then []
    else LineField(FirstLine(text)) + Fields(text[LineLength(text)..])
  }

  // ...and how many characters they take, with the line that ends them.
  function Extent(text: string): (n: nat)
    ensures n <= |text|
    decreases |text|
  {
    if text == "" then 0
    else if !IsFieldLine(FirstLine(text)) then LineLength(text)
    else LineLength(text) + Extent(text[LineLength(text)..])
  }

  // ----- The code -----

  // The body of the loop, for a line whose first colon is at paramEnd.
  method EmplaceField(line: string, paramEnd: nat, result: seq<Field>) returns (result': seq<Field>)
    requires paramEnd == Find(line, 0, ':') < |line|
    ensures result' == result + LineField(line)
  {
    result' := result;
    var valueStart := paramEnd + 1;
    while valueStart + 1 < |line| && line[valueStart] == ' '
      invariant paramEnd + 1 <= valueStart <= |line|
      invariant SkipSpaces(line, valueStart) == SkipSpaces(line, paramEnd + 1)
    {
      valueStart := valueStart + 1;
    }
    if valueStart < |line| {
      var count := |line| - valueStart - (if line[|line| - 1] == '\r' then 1 else 0);
      result' := result + [Field(line[..paramEnd], line[valueStart..valueStart + count])];
    }
  }

  method HttpHeaderParse(stream: IStream) returns (result: seq<Field>)
    requires stream.Valid()
    modifies stream
    ensures stream.Valid()
    ensures result == Fields(old(stream.Rest()))
    ensures stream.pos == old(stream.pos) + Extent(old(stream.Rest()))
  {
    result := [];
    ghost var text, start := stream.Rest(), stream.pos;
    var ok, line := stream.GetLine("");
    while ok && Find(line, 0, ':') != |line|
      invariant stream.Valid()
      invariant ok ==> text != "" && line == FirstLine(text) && stream.Rest() == text[LineLength(text)..]
      invariant ok ==> stream.pos == start + LineLength(text)
      invariant !ok ==> text == "" && stream.pos == start
      invariant result + Fields(text) == Fields(old(stream.Rest()))
      invariant start + Extent(text) == old(stream.pos) + Extent(old(stream.Rest()))
      decreases |text|
    {
      ghost var before := result;
      result := EmplaceField(line, Find(line, 0, ':'), result);
      Associative(before, LineField(line), Fields(text[LineLength(text)..]));
      start := stream.pos;
      text := stream.Rest();
      ok, line := stream.GetLine(line);
    }
  }

  // ----- Properties -----

  // Section 3.2 of RFC 7230, with one space after the colon.
  function PrintField(field: Field): string {
    field.name + ":" + " " + field.value + "\r" + "\n"
  }

  function PrintFields(fields: seq<Field>): string {
    if fields == [] then "" else PrintField(fields[0]) + PrintFields(fields[1..])
  }

  // A name and a value that keep to their line.
  predicate Clean(field: Field) {
    Without(field.name, {':', '\n'}) && Without(field.value, {'\n'})
  }

  predicate AllClean(fields: seq<Field>) {
    forall i :: 0 <= i < |fields| ==> Clean(fields[i])
  }

  // Everything the parser returns is clean.
  lemma {:induction false} ParsedFieldsAreClean(text: string)
    ensures AllClean(Fields(text))
    decreases |text|
  {
    if text == "" || !IsFieldLine(FirstLine(text)) {
    } else {
      LineFieldIsClean(text);
      ParsedFieldsAreClean(text[LineLength(text)..]);
    }
  }

  lemma LineFieldIsClean(text: string)
    requires text != "" && IsFieldLine(FirstLine(text))
    ensures AllClean(LineField(FirstLine(text)))
  {
  }

  // A value is part of the text.
  lemma {:induction false} ParsedFieldsAreShort(text: string)
    ensures forall f :: f in Fields(text) ==> |f.value| <= |text|
    decreases |text|
  {
    hide SkipSpaces;
    if text == "" || !IsFieldLine(FirstLine(text)) {
    } else {
      assert forall f :: f in LineField(FirstLine(text)) ==> |f.value| <= |text|;
      ParsedFieldsAreShort(text[LineLength(text)..]);
    }
  }

  function DropSpaces(value: string): string {
    if value != "" && value[0] == ' ' then DropSpaces(value[1..]) else value
  }

  lemma {:induction false} DropSpacesOnly(value: string)
    ensures DropSpaces(value) == value <==> value == "" || value[0] != ' '
    ensures |DropSpaces(value)| <= |value|
  {
    if value == "" || value[0] != ' ' {
    } else {
      DropSpacesOnly(value[1..]);
    }
  }

  lemma {:induction false} SkipPrintedSpaces(before: string, value: string)
    ensures SkipSpaces(before + value + "\r", |before|) == |before| + |value| - |DropSpaces(value)|
    ensures |DropSpaces(value)| <= |value| && value[|value| - |DropSpaces(value)|..] == DropSpaces(value)
    decreases |value|
  {
    if value != "" && value[0] == ' ' {
      SkipPrintedSpaces(before + " ", value[1..]);
      assert before + " " + value[1..] + "\r" == before + value + "\r";
      assert value[1..][|value| - 1 - |DropSpaces(value)|..] == value[|value| - |DropSpaces(value)|..];
    } else {
      assert (before + value + "\r")[|before|] != ' ';
    }
  }

  // A printed line gives its field back, without the spaces that start the value.
  lemma PrintedLineField(field: Field)
    requires Clean(field)
    ensures var line := field.name + ":" + " " + field.value + "\r";
            IsFieldLine(line) && LineField(line) == [Field(field.name, DropSpaces(field.value))]
  {
    var name, value := field.name, field.value;
    var line := name + ":" + " " + value + "\r";
    WithoutFewer(name, {':', '\n'}, {':'});
    assert line == name + [':'] + (" " + value + "\r");
    FindFirst(name, ':', " " + value + "\r", {':'});
    var before := name + ":" + " ";
    assert line == before + value + "\r";
    SkipPrintedSpaces(before, value);
    var start := |before| + |value| - |DropSpaces(value)|;
    assert line[|name| + 1] == ' ';
    assert SkipSpaces(line, |name| + 1) == SkipSpaces(line, |before|) == start;
    assert line[start..|line| - 1] == value[|value| - |DropSpaces(value)|..];
  }

  lemma PrintedLine(field: Field, rest: string)
    requires Clean(field)
    ensures var text := PrintField(field) + rest;
            && text != "" && FirstLine(text) == field.name + ":" + " " + field.value + "\r"
            && LineLength(text) == |PrintField(field)| && text[LineLength(text)..] == rest
  {
    var line := field.name + ":" + " " + field.value + "\r";
    assert Without(line, {'\n'});
    assert PrintField(field) + rest == line + ['\n'] + rest;
    FindFirst(line, '\n', rest, {'\n'});
  }

  function Trimmed(fields: seq<Field>): (trimmed: seq<Field>)
    ensures |trimmed| == |fields|
    ensures forall i :: 0 <= i < |fields| ==> trimmed[i] == Field(fields[i].name, DropSpaces(fields[i].value))
  {
    if fields == [] then [] else [Field(fields[0].name, DropSpaces(fields[0].value))] + Trimmed(fields[1..])
  }

  lemma BlankLine(body: string)
    ensures var text := "\r" + "\n" + body;
            && text != "" && FirstLine(text) == "\r" && LineLength(text) == 2 && !IsFieldLine("\r")
  {
    assert "\r" + "\n" + body == "\r" + ['\n'] + body;
    FindFirst("\r", '\n', body, {'\n'});
  }

  // Printed clean fields and a blank line are read up to the body.
  lemma {:induction false} ParsePrinted(fields: seq<Field>, body: string)
    requires AllClean(fields)
    ensures Fields(PrintFields(fields) + ("\r" + "\n" + body)) == Trimmed(fields)
    ensures Extent(PrintFields(fields) + ("\r" + "\n" + body)) == |PrintFields(fields)| + 2
  {
    var end := "\r" + "\n" + body;
    if fields == [] {
      BlankLine(body);
      assert PrintFields(fields) + end == end;
    } else {
      var rest := PrintFields(fields[1..]) + end;
      ParsePrinted(fields[1..], body);
      PrintedLine(fields[0], rest);
      PrintedLineField(fields[0]);
      Associative(PrintField(fields[0]), PrintFields(fields[1..]), end);
    }
  }

  predicate FieldOk(field: Field) {
    Clean(field) && (field.value == "" || field.value[0] != ' ')
  }

  // The header round trip holds for exactly the fields whose name has no colon and no newline
  // and whose value has no newline and does not start with a space.
  lemma HeaderRoundTrip(fields: seq<Field>, body: string)
    ensures Fields(PrintFields(fields) + ("\r" + "\n" + body)) == fields
       <==> forall i :: 0 <= i < |fields| ==> FieldOk(fields[i])
  {
    ParsedFieldsAreClean(PrintFields(fields) + ("\r" + "\n" + body));
    if AllClean(fields) {
      ParsePrinted(fields, body);
      forall i | 0 <= i < |fields|
        ensures Trimmed(fields)[i] == fields[i] <==> FieldOk(fields[i])
      {
        DropSpacesOnly(fields[i].value);
      }
      if Trimmed(fields) == fields {
        assert forall i :: 0 <= i < |fields| ==> Trimmed(fields)[i] == fields[i];
      }
    }
  }

  // ----- Lines as they come -----

  function Spaces(n: nat): (s: string)
    ensures |s| == n && forall i :: 0 <= i < n ==> s[i] == ' '
  {
    seq(n, _ => ' ')
  }

  // A line of a name, a colon, any number of spaces and a value: the value is returned, with its last
  // carriage return cut off if there is one.
  lemma ValueIsRead(name: string, n: nat, value: string)
    requires Without(name, {':'}) && value != "" && value[0] != ' '
    ensures var line := name + [':'] + Spaces(n) + value;
            && IsFieldLine(line)
            && LineField(line) == [Field(name, if value[|value| - 1] == '\r' then value[..|value| - 1] else value)]
  {
    var line := name + [':'] + Spaces(n) + value;
    NameIsRead(name, Spaces(n), value);
    SpacesAreSkipped(name, n, value);
    hide SkipSpaces, FindAny, Without;
    ValueAtEnd(name + [':'] + Spaces(n), value);
  }

  lemma ValueAtEnd(front: string, value: string)
    requires value != ""
    ensures var line := front + value;
            && line[|line| - 1] == value[|value| - 1] && line[|front|..|line|] == value
            && line[|front|..|line| - 1] == value[..|value| - 1]
  {
  }

  // With only spaces after the colon the value is the last of them, and with nothing there is no field.
  lemma SpacesAreRead(name: string, n: nat)
    requires Without(name, {':'})
    ensures var line := name + [':'] + Spaces(n);
            && IsFieldLine(line)
            && LineField(line) == if n > 0 then [Field(name, " ")] else []
  {
    var line := name + [':'] + Spaces(n);
    NameIsRead(name, Spaces(n), "");
    assert line + "" == line;
    var k := |name| + if n > 0 then n else 1;
    SkipIs(line, |name| + 1, k);
    hide SkipSpaces, FindAny, Without;
    if n > 0 {
      assert line[k..|line|] == " ";
    }
  }

  lemma NameIsRead(name: string, spaces: string, value: string)
    requires Without(name, {':'})
    ensures var line := name + [':'] + spaces + value;
            Find(line, 0, ':') == |name| && line[..|name|] == name
  {
    hide FindAny, Without;
    FindFirst(name, ':', spaces + value, {':'});
    Associative(name + [':'], spaces, value);
  }

  lemma SpacesAreSkipped(name: string, n: nat, value: string)
    requires value != "" && value[0] != ' '
    ensures SkipSpaces(name + [':'] + Spaces(n) + value, |name| + 1) == |name| + 1 + n
  {
    SkipIs(name + [':'] + Spaces(n) + value, |name| + 1, |name| + 1 + n);
  }

  // The contract of the skipper determines its result.
  lemma SkipIs(line: string, from: nat, k: nat)
    requires from <= k <= |line| && (k == |line| ==> from == |line|)
    requires forall i :: from <= i < k ==> line[i] == ' '
    requires k + 1 < |line| ==> line[k] != ' '
    ensures SkipSpaces(line, from) == k
  {
  }

  // A line with a colon adds its field to those of the rest, and one without ends the header, whether or
  // not a newline follows.
  lemma LineIsRead(line: string, rest: string)
    requires Without(line, {'\n'})
    ensures ':' in line ==>
              && IsFieldLine(line) && Fields(line + ['\n'] + rest) == LineField(line) + Fields(rest)
              && Fields(line) == LineField(line)
    ensures ':' !in line ==>
              && Fields(line + ['\n'] + rest) == [] && Extent(line + ['\n'] + rest) == |line| + 1
              && Fields(line) == [] && Extent(line) == |line|
  {
    hide LineField;
    FindFirst(line, '\n', rest, {'\n'});
    FindNone(line, {'\n'});
    ColonIsFound(line);
    hide FindAny, Without;
    assert line[..|line|] == line;
    if ':' in line {
      assert line[LineLength(line)..] == "" && Fields("") == [];
      assert LineField(line) + [] == LineField(line);
    }
  }

  lemma ColonIsFound(line: string)
    ensures IsFieldLine(line) <==> ':' in line
  {
    var k := Find(line, 0, ':');
    if k < |line| {
      assert line[k] == ':';
    }
  }
}
