/** `QueryString::create` and `QueryString::parse`. The single pass of `parse` is proved to be
    "split at every `&`, cut each piece at its first `=`, drop empty names, decode the values". */
module QueryString {
  import opened Text
  import Percent

  // ----- Specification -----

  // The pieces between the `&` signs.
  function Split(s: string): (pieces: seq<string>)
    ensures |pieces| > 0
    decreases |s|
  {
    var k := Find(s, 0, '&');
    if k == |s| then [s] else [s[..k]] + Split(s[k + 1..])
  }

  // The field of a piece, if its name is not empty.
  function PieceFields(piece: string): seq<Field> {
    var k := Find(piece, 0, '=');
    if k == 0 then []
    else [Field(piece[..k], Percent.Decode(if k < |piece| then piece[k + 1..] else ""))]
  }

  function PiecesFields(pieces: seq<string>): seq<Field> {
    if pieces == [] then [] else PieceFields(pieces[0]) + PiecesFields(pieces[1..])
  }

  function Parse(queryString: string): seq<Field> {
    PiecesFields(Split(queryString))
  }

  ghost predicate Encodable(fields: seq<Field>) {
    forall i :: 0 <= i < |fields| ==> Percent.IsByteString(fields[i].value)
  }

  function Piece(field: Field): string
    requires Percent.IsByteString(field.value)
  {
    field.name + "=" + Percent.Encode(field.value)
  }

  // The pieces of the fields, joined by `&`.
  function Create(fields: seq<Field>): string
    requires Encodable(fields)
  {
    var n := |fields|;
    if n == 0 then ""
    else if n == 1 then Piece(fields[0])
    else Create(fields[..n - 1]) + "&" + Piece(fields[n - 1])
  }

  // ----- The code -----

  lemma CreateStep(fields: seq<Field>, i: nat)
    requires i < |fields| && Encodable(fields)
    ensures Create(fields[..i + 1]) == (if i == 0 then "" else Create(fields[..i]) + "&") + Piece(fields[i])
  {
    assert fields[..i + 1][..i] == fields[..i];
  }

  method QueryStringCreate(fields: seq<Field>) returns (result: string)
    requires Encodable(fields)
    ensures result == Create(fields)
  {
    result := "";
    var first := true;
    for i := 0 to |fields|
      invariant first <==> i == 0
      invariant result == Create(fields[..i])
    {
      var value := Percent.PercentEncode(fields[i].value);
      CreateStep(fields, i);
      var piece := fields[i].name + "=" + value;
      if !first {
        Associative(result, "&", piece);
      }
      result := result + ((if !first then "&" else "") + piece);
      first := false;
    }
    assert fields[..|fields|] == fields;
  }

  // Parsing a suffix: everything up to the next `&`, then what follows it.
  lemma ParseFrom(s: string, from: nat, k: nat)
    requires from <= k <= |s|
    requires forall i :: from <= i < k ==> s[i] != '&'
    requires k < |s| ==> s[k] == '&'
    ensures Parse(s[from..]) == PieceFields(s[from..k]) + if k < |s| then Parse(s[k + 1..]) else []
  {
    var rest := s[from..];
    FindIs(rest, 0, {'&'}, k - from);
    if k < |s| {
      assert rest[..k - from] == s[from..k];
      assert rest[k - from + 1..] == s[k + 1..];
      var pieces := Split(rest);
      assert pieces == [s[from..k]] + Split(s[k + 1..]);
      assert pieces[1..] == Split(s[k + 1..]);
    } else {
      assert s[from..k] == rest;
      OnePiece(rest);
    }
  }

  lemma OnePiece(s: string)
    requires Find(s, 0, '&') == |s|
    ensures Parse(s) == PieceFields(s)
  {
    var pieces := Split(s);
    assert pieces == [s] && pieces[1..] == [];
    assert PiecesFields(pieces) == PieceFields(s) + [];
  }

  // What the scanner's positions say about the piece s[from..c].
  ghost predicate Scanned(s: string, from: nat, c: nat, nameEnd: nat, valuePos: nat) {
    && from <= c <= |s| < NPOS
    && (forall i :: from <= i < c ==> s[i] != '&')
    && if nameEnd == NPOS then valuePos == NPOS && forall i :: from <= i < c ==> s[i] != '='
       else from <= nameEnd < c && s[nameEnd] == '=' && valuePos == nameEnd + 1
            && forall i :: from <= i < nameEnd ==> s[i] != '='
  }

  lemma ScannedPiece(s: string, from: nat, c: nat, nameEnd: nat, valuePos: nat)
    requires Scanned(s, from, c, nameEnd, valuePos)
    ensures var name := if nameEnd == NPOS then s[from..c] else s[from..nameEnd];
            var value := if valuePos == NPOS then "" else s[valuePos..c];
            PieceFields(s[from..c]) == if name == "" then [] else [Field(name, Percent.Decode(value))]
  {
    hide Percent.Decode, FindAny;
    var piece := s[from..c];
    var k := if nameEnd == NPOS then |piece| else nameEnd - from;
    FindIs(piece, 0, {'='}, k);
    if nameEnd == NPOS {
      assert piece[..k] == piece;
    } else {
      assert piece[..k] == s[from..nameEnd];
      assert piece[k + 1..] == s[valuePos..c];
    }
  }

  // The fields emplaced so far are those of the pieces before s[from..].
  ghost predicate Emplaced(result: seq<Field>, s: string, from: nat) {
    from <= |s| && result + Parse(s[from..]) == Parse(s)
  }

  lemma ScannedStart(s: string)
    requires |s| < NPOS
    ensures Scanned(s, 0, 0, NPOS, NPOS) && Emplaced([], s, 0)
    ensures Parse("") == []
  {
  }

  lemma ScannedNext(s: string, from: nat, c: nat, nameEnd: nat, valuePos: nat)
    requires c < |s| && Scanned(s, from, c, nameEnd, valuePos)
    ensures s[c] == '&' ==> Scanned(s, c + 1, c + 1, NPOS, NPOS)
    ensures s[c] == '=' && nameEnd == NPOS ==> Scanned(s, from, c + 1, c, c + 1)
    ensures s[c] != '&' && !(s[c] == '=' && nameEnd == NPOS) ==> Scanned(s, from, c + 1, nameEnd, valuePos)
  {
  }

  // The field, if any, that the positions delimit when the piece ends at c.
  function Delimited(s: string, from: nat, c: nat, nameEnd: nat, valuePos: nat): seq<Field>
    requires from <= c <= |s| < NPOS
    requires nameEnd == NPOS || from <= nameEnd <= c
    requires valuePos == NPOS || valuePos <= c
  {
    var name := s[from..if nameEnd == NPOS then c else nameEnd];
    if name == "" then [] else [Field(name, Percent.Decode(if valuePos == NPOS then "" else s[valuePos..c]))]
  }

  lemma EmplacePiece(result: seq<Field>, s: string, from: nat, c: nat, nameEnd: nat, valuePos: nat)
    requires Scanned(s, from, c, nameEnd, valuePos) && Emplaced(result, s, from)
    requires c < |s| ==> s[c] == '&'
    ensures from <= c <= |s| < NPOS && (nameEnd == NPOS || from <= nameEnd <= c) && (valuePos == NPOS || valuePos <= c)
    ensures c < |s| ==> Emplaced(result + Delimited(s, from, c, nameEnd, valuePos), s, c + 1)
    ensures c == |s| ==> result + Delimited(s, from, c, nameEnd, valuePos) == Parse(s)
  {
    ParseFrom(s, from, c);
    ScannedPiece(s, from, c, nameEnd, valuePos);
    if c < |s| {
      Associative(result, PieceFields(s[from..c]), Parse(s[c + 1..]));
    }
  }

  // The branch for `&`: the piece that ends at c.
  method Emplace(queryString: string, namePos: nat, c: nat, nameEndPos: nat, valuePos: nat, result: seq<Field>)
    returns (result': seq<Field>)
    requires Scanned(queryString, namePos, c, nameEndPos, valuePos) && c < |queryString| && queryString[c] == '&'
    requires Emplaced(result, queryString, namePos)
    ensures Emplaced(result', queryString, c + 1)
  {
    hide Scanned, Emplaced, Parse;
    EmplacePiece(result, queryString, namePos, c, nameEndPos, valuePos);
    result' := result;
    var name := queryString[namePos..if nameEndPos == NPOS then c else nameEndPos];
    if name != "" {
      var value := if valuePos == NPOS then "" else queryString[valuePos..c];
      value := Percent.PercentDecode(value);
      result' := result + [Field(name, value)];
    }
    assert result' == result + Delimited(queryString, namePos, c, nameEndPos, valuePos);
  }

  // The code after the loop: the piece that ends the string.
  method EmplaceLast(queryString: string, namePos: nat, nameEndPos: nat, valuePos: nat, result: seq<Field>)
    returns (result': seq<Field>)
    requires Scanned(queryString, namePos, |queryString|, nameEndPos, valuePos)
    requires Emplaced(result, queryString, namePos)
    ensures result' == Parse(queryString)
  {
    hide Scanned, Emplaced, Parse;
    EmplacePiece(result, queryString, namePos, |queryString|, nameEndPos, valuePos);
    result' := result;
    if namePos < |queryString| {
      var name := queryString[namePos..if nameEndPos == NPOS then |queryString| else nameEndPos];
      if name != "" {
        var value := if valuePos >= |queryString| then "" else queryString[valuePos..];
        assert valuePos != NPOS ==> value == queryString[valuePos..|queryString|];
        value := Percent.PercentDecode(value);
        result' := result + [Field(name, value)];
      }
    }
  }

  method QueryStringParse(queryString: string) returns (result: seq<Field>)
    requires |queryString| < NPOS
    ensures result == Parse(queryString)
  {
    result := [];
    hide *;
    ScannedStart(queryString);
    if queryString == "" {
      return;
    }
    var namePos: nat, nameEndPos: nat, valuePos: nat := 0, NPOS, NPOS;
    for c := 0 to |queryString|
      invariant Scanned(queryString, namePos, c, nameEndPos, valuePos)
      invariant Emplaced(result, queryString, namePos)
    {
      ScannedNext(queryString, namePos, c, nameEndPos, valuePos);
      if queryString[c] == '&' {
        result := Emplace(queryString, namePos, c, nameEndPos, valuePos, result);
        namePos := c + 1;
        nameEndPos := NPOS;
        valuePos := NPOS;
      } else if queryString[c] == '=' && nameEndPos == NPOS {
        nameEndPos := c;
        valuePos := c + 1;
      }
    }
    result := EmplaceLast(queryString, namePos, nameEndPos, valuePos, result);
  }

  // ----- Properties -----

  // Parsing distributes over `&`, whatever the two parts are.
  lemma {:induction false} ParseJoined(a: string, b: string)
    ensures Parse(a + "&" + b) == Parse(a) + Parse(b)
    decreases |a|
  {
    hide *;
    var s, k := a + "&" + b, Find(a, 0, '&');
    ParseFrom(s, 0, k);
    ParseFrom(a, 0, k);
    assert s[0..] == s && a[0..] == a;
    assert s[0..k] == a[0..k];
    if k < |a| {
      ParseJoined(a[k + 1..], b);
      assert s[k + 1..] == a[k + 1..] + "&" + b;
      Associative(PieceFields(a[0..k]), Parse(a[k + 1..]), Parse(b));
    } else {
      assert s[k + 1..] == b;
    }
  }

  // A piece: with and without an equals sign, and without a name.
  lemma PieceIsParsed(name: string, value: string)
    requires name != "" && Without(name, {'&', '='}) && Without(value, {'&'})
    ensures Parse(name + ['='] + value) == [Field(name, Percent.Decode(value))]
    ensures Parse(name) == [Field(name, "")]
    ensures Parse(['='] + value) == [] && Parse("") == []
  {
    hide Parse, Split, Percent.Decode;
    Percent.DecodeNothing();
    WithoutFewer(name, {'&', '='}, {'&'});
    WithoutFewer(name, {'&', '='}, {'='});
    OnlyPiece(name);
    OnlyPiece("");
    OneEquals();
    WithoutParts("=", value, {'&'});
    WithoutParts(name, ['='] + value, {'&'});
    Associative(name, ['='], value);
    OnlyPiece(['='] + value);
    OnlyPiece(name + ['='] + value);
    FindFirst(name, '=', value, {'='});
    FindNone(name, {'='});
    assert name[..|name|] == name;
  }

  lemma OnlyPiece(piece: string)
    requires Without(piece, {'&'})
    ensures Parse(piece) == PieceFields(piece)
  {
    FindNone(piece, {'&'});
    OnePiece(piece);
  }

  // A key that can be carried.
  predicate KeyOk(name: string) {
    name != "" && Without(name, {'&', '='})
  }

  // Every key that comes out is one.
  lemma {:induction false} ParsedKeys(s: string)
    ensures forall i :: 0 <= i < |Parse(s)| ==> KeyOk(Parse(s)[i].name)
    decreases |s|
  {
    var k := Find(s, 0, '&');
    ParseFrom(s, 0, k);
    assert s[0..] == s;
    PieceKey(s[0..k]);
    if k == |s| {
    } else {
      ParsedKeys(s[k + 1..]);
    }
  }

  // The names that come out are parts of the text.
  lemma {:induction false} ParsedNamesWithout(s: string, chars: set<char>)
    requires Without(s, chars)
    ensures forall i :: 0 <= i < |Parse(s)| ==> Without(Parse(s)[i].name, chars)
    decreases |s|
  {
    var k := Find(s, 0, '&');
    ParseFrom(s, 0, k);
    assert s[0..] == s;
    PieceNameWithout(s[0..k], chars);
    hide Parse, PieceFields;
    if k == |s| {
    } else {
      ParsedNamesWithout(s[k + 1..], chars);
    }
  }

  lemma PieceNameWithout(piece: string, chars: set<char>)
    requires Without(piece, chars)
    ensures forall i :: 0 <= i < |PieceFields(piece)| ==> Without(PieceFields(piece)[i].name, chars)
  {
  }

  lemma PieceKey(piece: string)
    requires forall i :: 0 <= i < |piece| ==> piece[i] != '&'
    ensures PieceFields(piece) != [] ==> |PieceFields(piece)| == 1 && KeyOk(PieceFields(piece)[0].name)
  {
  }

  lemma PieceRoundTrip(field: Field)
    requires KeyOk(field.name) && Percent.IsByteString(field.value)
    ensures Parse(Piece(field)) == [field]
  {
    var text := Percent.Encode(field.value);
    Percent.DecodeEncode(field.value);
    EncodedIsClean(field.value);
    hide Parse, Split, Percent.Encode, Percent.Decode, Without;
    WithoutFewer(field.name, {'&', '='}, {'='});
    FindFirst(field.name, '=', text, {'='});
    WithoutFewer(field.name, {'&', '='}, {'&'});
    OneEquals();
    WithoutParts(field.name, "=", {'&'});
    WithoutParts(field.name + "=", text, {'&'});
    FindNone(Piece(field), {'&'});
    OnePiece(Piece(field));
  }

  lemma OneEquals()
    ensures Without("=", {'&'})
  {
  }

  lemma EncodedIsClean(value: string)
    requires Percent.IsByteString(value)
    ensures Without(Percent.Encode(value), {'&'})
  {
  }

  lemma {:induction false} CreateRoundTrip(fields: seq<Field>)
    requires Encodable(fields) && forall i :: 0 <= i < |fields| ==> KeyOk(fields[i].name)
    ensures Parse(Create(fields)) == fields
  {
    hide Create, Parse, Piece;
    var n := |fields|;
    if n == 0 {
      CreateNothing(fields);
    } else {
      PieceRoundTrip(fields[n - 1]);
      CreateStep(fields, n - 1);
      assert fields[..n] == fields;
      if n > 1 {
        CreateRoundTrip(fields[..n - 1]);
        ParseJoined(Create(fields[..n - 1]), Piece(fields[n - 1]));
      } else {
        assert "" + Piece(fields[0]) == Piece(fields[0]);
      }
    }
  }

  lemma CreateNothing(fields: seq<Field>)
    requires |fields| == 0 && Encodable(fields)
    ensures Parse(Create(fields)) == fields
  {
    OnePiece("");
  }

  // Fields survive `create` and `parse` exactly when all their keys can be carried.
  lemma ParseCreate(fields: seq<Field>)
    requires Encodable(fields)
    ensures Parse(Create(fields)) == fields <==> forall i :: 0 <= i < |fields| ==> KeyOk(fields[i].name)
  {
    ParsedKeys(Create(fields));
    if forall i :: 0 <= i < |fields| ==> KeyOk(fields[i].name) {
      CreateRoundTrip(fields);
    }
  }
}
