# Verification of the hand-written algorithms of juce_simpleweb

The library carries two files of algorithms that do not lean on other code: `common/WSCrypto.cpp`
(SHA-1 and Base64 for the WebSocket handshake) and `common/utility.hpp` (scanners for percent
encoding, query strings, header fields, attributes and request lines, the date header, the hash of
the header map, and the gate that makes handlers stop). Two pieces of `websocket/` build on nothing
else: the answer to the handshake, and the frames that carry messages. This project models them in
Dafny, states what they are meant to compute independently of how they do it, and proves the one from
the other.
`dafny verify dfyconfig.toml` checks everything. The literals in `TraceOf*.dfy` are written by `traces.py`, and
Dafny proves each of them.

| file | models | reference it is proved against |
|---|---|---|
| `Sha1Spec.dfy`, `Sha1.dfy` | `innerHash`, `calcSha1` | FIPS 180-4, sections 5 and 6.1.2: pad all, expand all, fold |
| `Base64.dfy` | `base64_encode`, `base64_decode` | RFC 4648, sections 4 and 5: groups of 24 bits |
| `Percent.dfy` | `Percent` | RFC 3986, sections 2.1 and 2.3 |
| `QueryString.dfy` | `QueryString` | split at `&`, cut at the first `=`, decode |
| `HttpHeader.dfy` | `getline` on an input stream, `HttpHeader::parse` | RFC 7230, section 3.2, and a printer of header fields |
| `Attributes.dfy` | `SemicolonSeparatedAttributes::parse` | a grammar of attributes, and a printer of attribute lists |
| `RequestMessage.dfy` | `RequestMessage::parse` | RFC 7230, section 3.1.1, and a printer of whole requests |
| `Date.dfy` | `Date::to_string` | the format of RFC 7231, section 7.1.1.1, and an uncached clock |
| `CaseInsensitive.dfy` | `case_insensitive_equal`, `CaseInsensitiveHash` | equality up to the case of letters |
| `ScopeRunner.dfy` | `ScopeRunner`, `SharedLock` | the set of live locks, over all interleavings |
| `Handshake.dfy` | `Sec-WebSocket-Accept` in `write_handshake` and `upgrade` | RFC 6455, section 4.2.2 |
| `KnownDigest.dfy`, `Traces.dfy`, `TraceOf*.dfy` | two keys, their digests and their answers | every word and round of FIPS 180-4 on literals, and the example of RFC 6455, section 1.3 |
| `ResponseMessage.dfy` | `ResponseMessage::parse` | RFC 7230, section 3.1.2, and a printer of responses |
| `Upgrade.dfy` | the server's 101 response and the client's verdict on it | the handshake end to end |
| `Frames.dfy` | the client's `send`, the server's `read_message` | RFC 6455, sections 5.2 to 5.5, and a sender of messages in parts |
| `Text.dfy` | `std::string::find`, map entries | |

Each operation that works by loops and updates is a method with the same positions, branches and
updates, and its contract equates its result with a specification function on values; the theorems
are about that function. The specification functions have no contracts to speak of: what they mean
is stated by the lemmas.

## Main results

- `calcSha1` computes the FIPS 180-4 digest of every message shorter than 2^29 bytes, and the message
  it hashes is padded as the standard asks if and only if the message is that short. The one-pass
  tail handling (or-ing shifted bytes into cleared words) is proved against padding the whole message. The
  digest is the last of the chained hash values of any padded message, and for the sample key of RFC 6455,
  whose message takes two blocks, the answer is the one printed in its section 1.3.
- Base64: decoding undoes encoding, with and without padding and in the URL-safe alphabet, and
  encoding undoes decoding on exactly the canonical texts. The tables are the alphabet of RFC 4648, every text,
  well-formed or not, decodes to the octets at their positions, and the vectors of section 10 hold. The 32-bit
  overflow check is exact.
- Each parser and its printer form a round trip under a side condition that is proved necessary and
  sufficient: percent encoding, query strings, header fields, attribute lists, whole requests.
  Fields carried in the query of a printed request survive both parsers.
- `ScopeRunner`: in every interleaving, with spurious failures, the count is the number of live locks
  or the gate is closed and none is live; closing is permanent; `stop` and null returns are honest.
  `continue_lock` is lock-free: in every run, its exchanges that fail for real are bounded by the calls
  that were behind at the start and, for each time that some call got a lock, gave one back or closed
  the gate, one for each call. A call of `stop` is still waiting at the end of a run if and only if each
  of its exchanges met a live lock or failed spuriously on a count of zero; overlapping locks can make
  that any number of exchanges, and from every state `stop` can return once the locks are released.
- `Date::to_string`: a call returns the string of the instant that the cache is then filed under, less
  than one second away, if and only if the cache was empty, filed under an instant a second or more
  away, or under one that can be converted. While conversions succeed, every reply of every sequence
  of calls is thus right for an instant asked for within a second. The one exception is a call near an
  instant whose conversion failed: a failed call moves the instant of the cache but keeps its string.
- The handshake answers what RFC 6455 asks if and only if no zero byte of the SHA-1 digest has a nonzero
  one after it, because the digest is copied as a C string. For the key `l` it does not: its digest is
  computed, word by word and round by round, inside the proof. The client accepts exactly the answers that
  decode to the digest up to its first zero byte and then to nothing, or to a zero and anything; an empty
  answer in particular if and only if the digest starts with a zero byte.
- End to end, a request that carries a key gives that key to the server, and the server's response is
  accepted by the client, whatever the key, the other header fields and their order. Of all responses with one
  answer, the client accepts exactly those whose status starts with `101 ` and whose answer decodes as above;
  names are compared up to the case of letters, and without such a name a response is rejected.
- Frames: the server reads exactly the frame that the client wrote, whatever follows it and whatever the
  mask. Messages sent in any parts with pings and pongs in between are reported whole, once and in
  order, if and only if all of it fits the size limit. A close frame after them is reported with the status and
  the reason that were sent, and nothing behind it is looked at.
- The size limit does not hold on every input, because the sum in the check and the number of bytes to
  transfer wrap around: a fragment of one byte and then a final one that declares 2^64 - 1 bytes make a
  message of 2^64 bytes, whatever the limit. No message reported or put together exceeds the limit if and
  only if no fragment makes a sum of 2^64 or more and no other frame is longer than the limit.

## How C++ is represented

- `unsigned int` in SHA-1 is `bv32`, `unsigned char` there `bv8`. `bytelength << 3`, a shift of an `int`, is
  its value modulo 2^32. In Base64, bytes and `int` values are integers, with shifts, masks and ors of
  disjoint fields as quotients, remainders and sums. `char` in the scanners is a character with the code
  of the `unsigned char`.
- The two lookup tables of Base64 are functions by ranges. The round loops of `innerHash`, the tail
  handling of `calcSha1` and the branches of the scanners are methods of their own.
- `std::string::npos` is 2^64 - 1, and strings are shorter than that. `CaseInsensitiveMultimap` is the
  sequence of its entries in the order in which they were emplaced.
- `std::istream` is a byte sequence with a position and two state bits.
- `strtol` on the two characters of a percent code is modelled exactly for the C locale, with its signs,
  white space and `0x`. `tolower` is that of the C locale, `std::hash<int>` any function, and `gmtime` any
  function that may fail.
- In the frames, bytes and sizes are integers, sums of `std::size_t` are taken modulo 2^64, exclusive or is
  defined bit by bit, and what the socket delivers is a sequence of bytes that may end anywhere. A stream
  with nothing left gives EOF, whose low byte is 255.
- Every access to the atomic count is one step, and the steps of different calls interleave in any order.

Where the code and what one expects of it differ, the model follows the code: the request parser drops
the last character of the version whatever it is; the space skipper of the header parser never skips
the last character of a line; keys of query strings are not encoded; the first character of an attribute
value never ends it, and a semicolon ends it even inside quotes; the final branch of the attribute parser
for a value that ends in a quote cuts nothing off, because `substr` gets a size where it needs a length;
a ping in the middle of a fragmented message counts against the size limit together with the fragments.

## Model

| member | source | states |
|---|---|---|
| Sha1.ClearWBuffer | common/WSCrypto.cpp:49-55 | The first sixteen words become zero and the others stay. |
| Sha1.ChoiceIsCh | common/WSCrypto.cpp:77-87 | The or-form of the first round function is the standard's exclusive-or form. |
| Sha1.MajorityIsMaj | common/WSCrypto.cpp:94-99 | The or-form of the third round function is the standard's exclusive-or form. |
| Sha1.MacroArguments | common/WSCrypto.cpp:77-105 | In every round the function and the constant passed to the macro are the standard's for that round. |
| Sha1.Sha1Macro | common/WSCrypto.cpp:67-75 | The five assignments in sequence are one simultaneous round of section 6.1.2. |
| Sha1.SchedulePrefix | common/WSCrypto.cpp:82-105 | A word of the message schedule does not depend on how far the schedule is expanded, so expanding lazily is sound. |
| Sha1.StoreScheduleWord | common/WSCrypto.cpp:84 | The assignment at the head of a round extends the schedule in the buffer by its next word, whatever the buffer held there. |
| Sha1.RoundStep | common/WSCrypto.cpp:67-105 | One round on a buffer that is filled far enough takes the standard's working variables to those after the next round. |
| Sha1.Rounds0To15 | common/WSCrypto.cpp:77-81 | After the first loop the variables are the standard's after 16 rounds. |
| Sha1.Rounds16To19 | common/WSCrypto.cpp:82-87 | The second loop leaves 20 schedule words and the standard's variables after 20 rounds. |
| Sha1.Rounds20To39 | common/WSCrypto.cpp:88-93 | The third loop leaves 40 schedule words and the standard's variables after 40 rounds. |
| Sha1.Rounds40To59 | common/WSCrypto.cpp:94-99 | The fourth loop leaves 60 schedule words and the standard's variables after 60 rounds. |
| Sha1.Rounds60To79 | common/WSCrypto.cpp:100-105 | The fifth loop leaves the whole schedule and the standard's variables after 80 rounds. |
| Sha1.AddToResult | common/WSCrypto.cpp:109-113 | Each word of the result grows by its working variable modulo 2^32. |
| Sha1.InnerHash | common/WSCrypto.cpp:57-114 | The new state is the compression of section 6.1.2, with the schedule fully expanded first, of the old state and of words 0 to 15 alone. |
| Sha1.LengthFieldIsExact | common/WSCrypto.cpp:163 | Words 14 and 15 hold the standard's 64-bit length if and only if the message is shorter than 2^29 bytes. |
| Sha1.PaddingIsExact | common/WSCrypto.cpp:149-164 | The padded message that the code hashes is that of section 5.1.1 if and only if the message is shorter than 2^29 bytes. |
| Sha1.LoadBlock | common/WSCrypto.cpp:135-145 | The buffer gets the sixteen big-endian words of the next 64 bytes, and the position moves past them. |
| Sha1.OrIntoBlock | common/WSCrypto.cpp:153-157 | Or-ing a byte shifted into place into the words of a block whose byte there is zero gives the words of the block with that byte stored. |
| Sha1.StoreByte | common/WSCrypto.cpp:155-157 | The or-assignment stores one byte of the block. |
| Sha1.BuildTail | common/WSCrypto.cpp:150-157 | The cleared and filled buffer holds the remaining bytes, the byte 0x80 and zeros. |
| Sha1.TwoTailBlocks | common/WSCrypto.cpp:158-164 | With 56 or more bytes left, the padded message ends in that tail and a block of zeros and the length. |
| Sha1.OneTailBlock | common/WSCrypto.cpp:158-164 | With fewer than 56 bytes left, the padded message ends in one block, the tail with the length at its end. |
| Sha1.StoreLengthWord | common/WSCrypto.cpp:163 | Assigning word 15 of a block that ends in eight zero bytes stores the length field. |
| Sha1.HashFullBlocks | common/WSCrypto.cpp:128-147 | After the loop the state is the hash of all complete blocks of the padded message, and fewer than 64 bytes are left. |
| Sha1.HashTail | common/WSCrypto.cpp:149-164 | After the tail the state is the hash of the whole padded message, in one more block or two. |
| Sha1.StoreDigest | common/WSCrypto.cpp:166-170 | The twenty bytes are those of the five words, most significant first, and nothing else is written. |
| Sha1.CalcSha1 | common/WSCrypto.cpp:117-171 | For messages below 2^29 bytes the bytes written are the FIPS 180-4 digest; for all lengths an int can hold, the digest of the message padded with the length modulo 2^32 bits. |
| Sha1.DigestOfChain | common/WSCrypto.cpp:119-171 | For every padded message, the code's padding or the standard's, there are hash values that start at the five constants, each next one the compression of the one before it with the next 64 bytes, and the digest is the bytes of the last. |
| Sha1.LengthFieldWraps | common/WSCrypto.cpp:163 | For every length, the length field is that of the length in bits modulo 2^32. |
| Sha1.PaddingParts | common/WSCrypto.cpp:149-164 | For every message, the standard's padding is 0x80, zeros and the length in the fewest whole blocks that hold them. |
| Base64.IndexOfLetter | common/WSCrypto.cpp:189-242 | The decode table inverts the encode table. |
| Base64.LetterOfIndex | common/WSCrypto.cpp:189-242 | On the alphabet the encode table inverts the decode table. |
| Base64.TablesAreTheAlphabet | common/WSCrypto.cpp:189-242 | For every sextet, both tables agree with the alphabet of RFC 4648 written out. |
| Base64.OtherCharacters | common/WSCrypto.cpp:236-242 | Of the characters outside the alphabet, minus and period count as 62, comma and underscore as 63, and the others as 0. |
| Base64.EncodedLength | common/WSCrypto.cpp:197 | An encoding has four characters for every three octets begun. |
| Base64.OverflowCheckIsExact | common/WSCrypto.cpp:197-200 | For every 32-bit length the check fires if and only if the true length does not fit in 32 bits; otherwise the computed length is the true one. |
| Base64.GroupSextets | common/WSCrypto.cpp:209-214 | The four shifted and masked table indices are the sextets of the 24-bit group. |
| Base64.WriteGroup | common/WSCrypto.cpp:209-215 | One pass of the loop appends the encoding of three octets. |
| Base64.WriteTail | common/WSCrypto.cpp:217-229 | The branch after the loop appends the padded encoding of the one or two octets left. |
| Base64.EncodeInto | common/WSCrypto.cpp:206-229 | The buffer is filled exactly with the encoding. |
| Base64.Base64Encode | common/WSCrypto.cpp:188-233 | The result is the section 4 encoding, or empty exactly when its length does not fit in 32 bits. |
| Base64.CountGroups | common/WSCrypto.cpp:245-247 | The padding flag is set exactly when the last group is short or padded, and the other groups are counted. |
| Base64.ReadGroup | common/WSCrypto.cpp:252-255 | Three octets of a group are stored at the write position. |
| Base64.ReadGroups | common/WSCrypto.cpp:250-256 | The loop decodes all groups but the last short or padded one. |
| Base64.ReadLast | common/WSCrypto.cpp:257-267 | The branch after the loop decodes the last group to one or two octets. |
| Base64.Base64Decode | common/WSCrypto.cpp:234-269 | On any text whatever, the result is the group-wise decoding. |
| Base64.DecodeEncode | common/WSCrypto.cpp:188-269 | Decoding the encoding of any octets gives them back. |
| Base64.DecodeEncodeVariants | common/WSCrypto.cpp:188-269 | So does decoding it after any of its padding is stripped, and after replacing plus and slash by minus and underscore. |
| Base64.DecodeUrlSafe | common/WSCrypto.cpp:236-242 | Every text decodes the same in the alphabet of section 5. |
| Base64.DecodeStripped | common/WSCrypto.cpp:245-266 | Dropping equals signs from the last group of any text, but for its first character, changes nothing. |
| Base64.EncodeIsCanonical | common/WSCrypto.cpp:188-233 | Every encoding is canonical: whole groups, padding only at the end, unused bits zero. |
| Base64.EncodeDecode | common/WSCrypto.cpp:188-269 | Encoding what a text decodes to restores the text if and only if it is canonical. |
| Base64.DecodedAt | common/WSCrypto.cpp:250-267 | Of every text, well-formed or not, each decoded octet is made of the bits of the characters at its position. |
| Base64.DecodedLength | common/WSCrypto.cpp:245-267 | All groups but the last give three octets, and that one as many as its length and its equals signs say. |
| Base64.Vectors | common/WSCrypto.cpp:188-269 | The vectors of section 10 of RFC 4648, in both directions. |
| Percent.Strtol16IsStrtol | common/utility.hpp:96-97 | On two characters whatever they are, the number is that of `strtol` to base 16: white space, a sign, a prefix, digits. |
| Percent.PercentEncode | common/utility.hpp:72-86 | The loop computes the character-wise encoding. |
| Percent.PercentDecode | common/utility.hpp:89-108 | The loop computes the decoding of every text. |
| Percent.EncodedCharacters | common/utility.hpp:79-82 | Encoded text has only unreserved characters and percent signs. |
| Percent.EncodeIsNormal | common/utility.hpp:72-86 | Encoded text consists of unreserved characters and upper-case pairs for the other characters. |
| Percent.DecodeEncodedPrefix | common/utility.hpp:72-108 | Decoding undoes encoding in front of any other text. |
| Percent.DecodeEncode | common/utility.hpp:72-108 | Decoding undoes encoding for every byte string. |
| Percent.EncodeDecode | common/utility.hpp:72-108 | Encoding undoes decoding if and only if the text is of the form the encoder produces. |
| Percent.DecodedLength | common/utility.hpp:91 | A decoded text of n characters has at least n/3 + n%3, the size reserved, and at most n. |
| Percent.EncodedLength | common/utility.hpp:76 | An encoded text is at least as long as the value, the size reserved, and at most three times as long. |
| Percent.UnreservedIs | common/utility.hpp:79 | The characters left alone are those of section 2.3 of RFC 3986, written out. |
| Percent.HexDigits | common/utility.hpp:73-83 | The digits written are the sixteen capital ones, and digits in capital and in small letters have the same values. |
| Percent.CodeIsDecoded | common/utility.hpp:95-99 | A percent code in capital, small or mixed letters stands for the character with that number, in front of any text. |
| Percent.CharacterIsEncoded | common/utility.hpp:78-83 | A character is encoded as itself if it is unreserved and otherwise as its number in capital hexadecimal digits. |
| Percent.OthersAreDecoded | common/utility.hpp:95-104 | A plus sign stands for a space, a code cut off by the end for its own characters, and any other character for itself. |
| Percent.OddCodes | common/utility.hpp:96-97 | Codes of a sign or white space and a digit, of `0x`, and of characters that are no digits. |
| QueryString.QueryStringCreate | common/utility.hpp:115-125 | The loop with its `first` flag joins the encoded pieces with `&`. |
| QueryString.ScannedNext | common/utility.hpp:137-152 | Every iteration keeps the positions in order: start of the name, its end, start of the value. |
| QueryString.ScannedPiece | common/utility.hpp:139-143 | The slices that the positions delimit are the name and the value of the piece. |
| QueryString.EmplacePiece | common/utility.hpp:138-159 | At each `&` and at the end, the fields emplaced are those of the pieces passed so far. |
| QueryString.QueryStringParse | common/utility.hpp:128-162 | For every string the single pass is: split at `&`, cut at the first `=`, drop empty names, decode the values. |
| QueryString.ParseJoined | common/utility.hpp:128-162 | Parsing two texts joined by `&` gives the fields of the first and then those of the second. |
| QueryString.PieceIsParsed | common/utility.hpp:137-160 | A piece is a key and a decoded value around the first equals sign, a key alone has an empty value, and a piece without a key is dropped. |
| QueryString.ParsedKeys | common/utility.hpp:128-162 | Every key returned is nonempty and has no `&` and no `=`. |
| QueryString.ParsedNamesWithout | common/utility.hpp:128-162 | A character that the text does not have is in no key returned. |
| QueryString.CreateRoundTrip | common/utility.hpp:115-162 | Fields with such keys and any byte values survive create and parse, in order. |
| QueryString.ParseCreate | common/utility.hpp:115-162 | Fields survive create and parse if and only if all their keys are such keys. |
| Streams.IStream.GetLine | common/utility.hpp:172-257 | `getline`: the text up to the next newline, which is taken too; a last line without one still counts, and nothing left means failure. |
| HttpHeader.SkipSpaces | common/utility.hpp:173-175 | The skipper passes spaces only, and stops at the last character of the line even if it is a space. |
| HttpHeader.EmplaceField | common/utility.hpp:173-177 | The loop body emplaces the field of a line with a colon, if anything follows the colon. |
| HttpHeader.HttpHeaderParse | common/utility.hpp:168-180 | The fields are those of the lines before the first one without a colon, and the stream is left behind that line. |
| HttpHeader.ParsedFieldsAreClean | common/utility.hpp:168-180 | No name returned has a colon or a newline, and no value a newline. |
| HttpHeader.PrintedLineField | common/utility.hpp:172-177 | A printed header line gives back its name and its value without leading spaces. |
| HttpHeader.ParsePrinted | common/utility.hpp:168-180 | Printed fields and a blank line are read back, values without leading spaces, exactly up to the body. |
| HttpHeader.HeaderRoundTrip | common/utility.hpp:168-180 | Printed fields come back unchanged if and only if no name has a colon or newline and no value has a newline or starts with a space. |
| HttpHeader.ValueIsRead | common/utility.hpp:172-177 | After any number of spaces the value is returned whole, without its last carriage return if it has one. |
| HttpHeader.SpacesAreRead | common/utility.hpp:173-177 | With only spaces after the colon the value is the last of them, and with nothing there is no field. |
| HttpHeader.LineIsRead | common/utility.hpp:172-179 | A line with a colon adds its field to those of the rest, one without ends the header, and the last line needs no newline. |
| Attributes.BeforeName | common/utility.hpp:195-198 | In front of a name the scanner skips spaces and semicolons and otherwise starts a name. |
| Attributes.InName | common/utility.hpp:199-207 | In a name a semicolon ends a bare attribute and an equals sign the name; the positions stay ordered. |
| Attributes.AfterEquals | common/utility.hpp:208-214 | The first character of a value is never a terminator; an opening quote is skipped unless it is the last character. |
| Attributes.InValue | common/utility.hpp:215-220 | A later quote or semicolon ends the value, even inside quotes; the slices are in range. |
| Attributes.EndInName | common/utility.hpp:224-226 | A bare name at the end is emplaced. |
| Attributes.EndAfterEquals | common/utility.hpp:224-233 | A name with an equals sign and nothing behind it is dropped. |
| Attributes.EndInValue | common/utility.hpp:227-232 | A value that the end cuts off is emplaced whole. |
| Attributes.SubstrToEnd | common/utility.hpp:228-229 | The slice taken when the text ends in a quote runs to the end of the text, the quote included. |
| Attributes.AttributesParse | common/utility.hpp:188-236 | On every text the scanner computes the attributes of the grammar; its positions stay ordered throughout, so every slice is in range. |
| Attributes.ParsedNames | common/utility.hpp:188-236 | Every name returned is nonempty, does not start with a space or semicolon, and has no semicolon or equals sign after its first character. |
| Attributes.RoundTripIf | common/utility.hpp:188-236 | Attributes with such names, bare or with any quoted and percent-encoded byte value, joined by `; `, come back in order. |
| Attributes.RoundTrip | common/utility.hpp:188-236 | They come back if and only if all their names are such names. |
| Attributes.UnquotedValue | common/utility.hpp:208-220 | A value without a quote in front ends at the first quote or semicolon after its first character, and the rest is parsed on. |
| Attributes.QuotedValue | common/utility.hpp:208-220 | A value with a quote in front ends at the first quote or semicolon behind that quote. |
| Attributes.NothingBehind | common/utility.hpp:224-233 | A quote that ends the text is the value, and an equals sign that does so drops the attribute. |
| RequestMessage.ScanTarget | common/utility.hpp:260-269 | The loop finds the next space and, before it, the position after the first `?`. |
| RequestMessage.AssignTarget | common/utility.hpp:271-276 | Path and query string are the target cut at its first `?`; without one the query string is not assigned. |
| RequestMessage.FinishLine | common/utility.hpp:278-285 | The rest must be `HTTP`, a slash and the version, whose last character is dropped. |
| RequestMessage.ParseRequestLine | common/utility.hpp:257-293 | On every line: acceptance, and the out-parameters assigned up to where the parser gives up. |
| RequestMessage.RequestMessageParse | common/utility.hpp:254-295 | On every stream: result, out-parameters, and the position at which the stream is left. |
| RequestMessage.AcceptedLines | common/utility.hpp:257-293 | Exactly the lines made of method, space, target, space and `HTTP/` with anything after it are accepted, method and target having no space. |
| RequestMessage.NothingLost | common/utility.hpp:257-282 | An accepted line is spelled by the parts returned and at most one further character. |
| RequestMessage.ParsedPartsAreClean | common/utility.hpp:254-295 | Method, path, version and header fields of an accepted request have no delimiter of theirs in them, nor has the query string if it was assigned. |
| RequestMessage.ParsePrintedLine | common/utility.hpp:257-282 | A printed request line is read back into its parts. |
| RequestMessage.LineIsParsed | common/utility.hpp:257-282 | `method path?query HTTP/version` gives its four parts, and without a query the query string keeps its old value. |
| RequestMessage.BrokenQuery | common/utility.hpp:260-276 | A query with a space or newline comes back cut off there, if the request is accepted. |
| RequestMessage.RequestRoundTrip | common/utility.hpp:168-295 | A printed request followed by any body is parsed into exactly its parts if and only if they keep clear of the delimiters; the stream is then left at the body. |
| RequestMessage.CarriedFields | common/utility.hpp:115-295 | Fields created into the query of a printed request come out of the request parser and the query parser unchanged if and only if every key is nonempty and free of `&`, `=`, space and newline. |
| Dates.Date.ToString | common/utility.hpp:334-411 | One call: the cached string if less than a second has passed, else the string computed anew or empty, and the static variables afterwards. |
| Dates.Format | common/utility.hpp:358-407 | The appends give the rendering of the calendar fields. |
| Dates.NearIsZeroSeconds | common/utility.hpp:342 | The truncating duration cast is zero exactly for instants less than one second apart, on either side. |
| Dates.CacheMatches | common/utility.hpp:334-411 | After any calls, failed ones included, a cached string is that of the instant it is filed under if that instant can be converted. |
| Dates.LastWasAskedFor | common/utility.hpp:345 | The instant that the cache is filed under was asked for. |
| Dates.ReplyIsFreshIff | common/utility.hpp:334-411 | After any calls, a call returns the string of the instant the cache is then filed under, always less than a second away, if and only if the cache was empty, filed a second or more away, or under an instant that can be converted. |
| Dates.HonestReply | common/utility.hpp:334-411 | On that condition the reply is right for some instant within a second; off it, with no convertible instant that near, for none. |
| Dates.RepliesAreFresh | common/utility.hpp:334-411 | While conversions succeed, every reply of every sequence of calls renders an instant asked for, less than one second from the requested one. |
| Dates.StaleReply | common/utility.hpp:342-358 | After a successful call and a failing one, the failing call repeated returns the old string, which is right for no instant within a second. |
| Dates.HonestCalendars | common/utility.hpp:334-411 | All replies are right within a second for every calendar that never fails or always fails, and not for one that succeeds somewhere and fails throughout two seconds elsewhere. |
| Dates.RenderReadsBack | common/utility.hpp:361-407 | A date always has 29 characters, and all its fields can be read back if and only if the year is between 0 and 9999. |
| Dates.WeekdayNames | common/utility.hpp:361-369 | The names of the seven weekdays from Sunday, and none for other numbers. |
| Dates.MonthNames | common/utility.hpp:374-387 | The names of the twelve months from January, and none for other numbers. |
| Dates.KnownDate | common/utility.hpp:333 | The date in the comment on the function, Wed, 31 Jul 2019 11:34:23 GMT. |
| Dates.TowardZero | common/utility.hpp:342 | The count of whole seconds is truncated toward zero on either side. |
| CaseInsensitive.EqualIsSameLowerCase | common/utility.hpp:42-47 | Two strings are equated exactly when they are the same in lower case. |
| CaseInsensitive.EqualIsAnEquivalence | common/utility.hpp:42-47 | The comparison is an equivalence relation, and equates a string with its lower case. |
| CaseInsensitive.EqualUpToCase | common/utility.hpp:42-47 | Two strings are equated if and only if they have the same length and at every position the same character or one letter in its two cases. |
| CaseInsensitive.CaseInsensitiveHash | common/utility.hpp:55-64 | The loop computes the left fold of the mixing step over the lower-case characters. |
| CaseInsensitive.EqualStringsHaveEqualHashes | common/utility.hpp:42-66 | Equated strings have equal hashes, for every hash of integers. |
| CaseInsensitive.HashOfOne | common/utility.hpp:57-63 | The hash of one character is that of its code in lower case plus the constant. |
| CaseInsensitive.HashOfTwo | common/utility.hpp:57-63 | The hash of two characters whose codes hash to zero, as a number. |
| ScopeRunners.ScopeRunner.constructor | common/utility.hpp:452 | The gate starts open with no locks. |
| ScopeRunners.ScopeRunner.CompareExchangeWeak | common/utility.hpp:458-470 | The atomic operation, which may fail spuriously and reports what it read. |
| ScopeRunners.ScopeRunner.ContinueLock | common/utility.hpp:457 | `continue_lock` reads the count; the live locks stay. |
| ScopeRunners.ScopeRunner.ContinueLockTry | common/utility.hpp:458-464 | One evaluation of its loop condition: a lock comes to the live ones, from an open gate only, or nothing changes; null means that the gate is closed. |
| ScopeRunners.ScopeRunner.ReleaseLock | common/utility.hpp:447-449 | The destructor takes its lock from the live ones and leaves the gate open. |
| ScopeRunners.ScopeRunner.BeginStop | common/utility.hpp:469 | `stop` enters its loop; count and live locks stay. |
| ScopeRunners.ScopeRunner.StopLoopCondition | common/utility.hpp:470 | One exchange of `stop`: if it returns, the gate is closed and no lock is live. |
| ScopeRunners.ScopeRunner.StopLoopBody | common/utility.hpp:471-474 | `stop` returns only if the gate is closed and no lock is live. |
| ScopeRunners.StepKeepsInvariant | common/utility.hpp:434-477 | Every step keeps: the count is the number of live locks or the gate is closed without any; negative values read, null returns and returns of `stop` all mean closed. A closed gate stays closed. |
| ScopeRunners.RunKeepsInvariant | common/utility.hpp:434-477 | So does every sequence of steps. |
| ScopeRunners.LiveAfterStep | common/utility.hpp:434-477 | A step adds or removes at most the acting call's own lock. |
| ScopeRunners.CountIsLiveOrClosed | common/utility.hpp:434-477 | In every reachable state the count is the number of live locks, or it is -1 and no lock is live; neither it nor any value read by either loop exceeds the number of calls. |
| ScopeRunners.ClosedForever | common/utility.hpp:456-476 | If `stop` has returned or `continue_lock` has returned null, the gate is closed, and whatever happens later it stays closed and no lock is live. |
| ScopeRunners.StopReturnsIff | common/utility.hpp:467-476 | In every reachable state, an exchange of `stop` and its test make it return, with the count at -1, if and only if the count is -1 already or no lock is live and the exchange is not a spurious failure; otherwise the count stays. |
| ScopeRunners.StopWaitsIff | common/utility.hpp:467-476 | In every run a call of `stop` is still waiting at the end if and only if each of its exchanges met a live lock or failed spuriously on a count of zero. |
| ScopeRunners.FailureHasACause | common/utility.hpp:456-465 | If an exchange of `continue_lock` fails for real, then since its value was read another call has got a lock, given one back or closed the gate. |
| ScopeRunners.StaleAfterStep | common/utility.hpp:456-465 | A real failure leaves one call fewer that is behind, and only a call that gets or gives back a lock or closes the gate leaves others behind. |
| ScopeRunners.LockFree | common/utility.hpp:456-476 | In every run, the exchanges of `continue_lock` that fail for real are at most the calls behind at the start plus, for each lock got or given back and the closing, the number of calls. |
| ScopeRunners.TriesMakeProgress | common/utility.hpp:456-465 | Among more tries than calls are behind, none failing spuriously, one gives its call a lock or null. |
| ScopeRunners.StopCanReturn | common/utility.hpp:467-476 | From every state that keeps the invariant, releasing the live locks and steps of `stop` alone let it return. |
| ScopeRunners.StopMayStarve | common/utility.hpp:456-476 | For every n, overlapping locks, each given back six steps after it was got, make 2n exchanges of `stop` fail for real. |
| Handshake.HexString | websocket/server_ws.hpp:562-567 | The copied and resized digest is the digest with zeros from its first zero byte on, whatever lies behind it in memory. |
| Handshake.Accept | websocket/server_ws.hpp:562-571 | The answer is the Base64 text of that. |
| Handshake.Accepted | websocket/client_ws.hpp:461-473 | The client accepts an answer if and only if what it decodes to agrees with the digest up to the first zero byte of each. |
| Handshake.CutIsExact | websocket/server_ws.hpp:566-567 | A digest survives the copy if and only if every byte after a zero is zero. |
| Handshake.AcceptIsExact | websocket/server_ws.hpp:562-571 | The server answers what RFC 6455 asks if and only if no zero byte of the digest has a nonzero one after it. |
| Handshake.ClientAccepts | websocket/client_ws.hpp:461-473 | The client accepts the answer of this server for every key, and that of the standard. |
| Handshake.ClientAcceptsOnly | websocket/client_ws.hpp:461-473 | For every digest, the client accepts exactly the answers that decode to the digest up to its first zero byte and then to nothing, or to a zero and anything. |
| Handshake.EmptyAnswer | websocket/client_ws.hpp:461-473 | It accepts an empty answer if and only if the digest starts with a zero byte. |
| Traces.CompressedRows | common/WSCrypto.cpp:57-114 | Rows of schedule words and working variables that follow one another give the compression of their block. |
| TraceOfL.CompressedBlock | common/WSCrypto.cpp:57-114 | The compression of the padded block of the key `l`, all 64 schedule words and 80 rounds computed. |
| TraceOfSample0.CompressedBlock | common/WSCrypto.cpp:57-114 | The compression of the first block of the sample key of RFC 6455. |
| TraceOfSample1.CompressedBlock | common/WSCrypto.cpp:57-114 | The compression of the second one, from the hash value of the first. |
| KnownDigest.ZeroInside | websocket/server_ws.hpp:562-567 | The digest of the key `l` has a zero byte at position 10 and 0x48 after it. |
| KnownDigest.WrongAnswer | websocket/server_ws.hpp:562-571 | For the key `l` the server does not answer what RFC 6455 asks. |
| KnownDigest.SampleAnswer | websocket/server_ws.hpp:559-571 | For the key `dGhlIHNhbXBsZSBub25jZQ==` both the standard and the server answer `s3pPLMBiTxaQ9kYGzzhZRbK+xOo=`, as section 1.3 of RFC 6455 prints. |
| ResponseMessage.ParseLine | common/utility.hpp:311-324 | On every status line: acceptance, and version and status code as far as they are assigned, with the wrapped count of a space before position 5. |
| ResponseMessage.ResponseMessageParse | common/utility.hpp:309-327 | On every stream: result and out-parameters. |
| ResponseMessage.ResponseRoundTrip | common/utility.hpp:309-327 | A printed response comes back in its parts, whatever follows it. |
| ResponseMessage.OddLines | common/utility.hpp:311-323 | Lines without a carriage return, with a space before position 5, cut off behind the space, and too short. |
| HttpHeader.ParsedFieldsAreShort | common/utility.hpp:168-180 | No value returned is longer than the text. |
| Base64.EncodedCharacters | common/WSCrypto.cpp:188-233 | An encoding has letters of the alphabet and equals signs only. |
| Upgrade.Find | websocket/client_ws.hpp:461 | The case-insensitive lookup gives the value of an entry with that name, or nothing. |
| Upgrade.WriteResponse | websocket/server_ws.hpp:582-587 | The output is the status line 101, the fields in their order and a blank line. |
| Upgrade.UpgradeClient | websocket/client_ws.hpp:453-479 | On every response: accepted if and only if it parses, its status starts with `101 `, and its answer agrees with the digest up to the first zero byte of each. |
| Upgrade.LookupFinds | websocket/client_ws.hpp:461 | If some entry has the name in any case, and all that do have one value, the lookup gives that value. |
| Upgrade.LookupIsFirst | websocket/client_ws.hpp:461 | Nothing is found if and only if no entry has the name in any case; otherwise a value of one that has. |
| Upgrade.SmallLettersAreFound | websocket/client_ws.hpp:461 | The lookup of `Sec-WebSocket-Accept` finds an entry named in all small letters, between any others. |
| Upgrade.ServerIsAccepted | websocket/client_ws.hpp:453-479 | The client accepts the server's response to its key, whatever other fields it has, in whatever order, and whatever follows it. |
| Upgrade.HandshakeSucceeds | websocket/server_ws.hpp:553-587 | A request that carries a Base64 key gives that key to the server, and the client accepts the server's response. |
| Upgrade.AcceptedIff | websocket/client_ws.hpp:453-479 | A response with one answer is accepted if and only if its status starts with `101 ` and the answer decodes to the digest up to its first zero byte and then to nothing, or to a zero and anything. |
| Upgrade.NoAnswerIsRejected | websocket/client_ws.hpp:461-479 | A response without an entry of the name is rejected. |
| Upgrade.OtherStatusIsRejected | websocket/client_ws.hpp:457-460 | A response whose status does not start with `101 ` is rejected, whatever follows its status line. |
| Upgrade.NoSpaceIsRejected | websocket/client_ws.hpp:453-456 | A response whose first line has no space is rejected, an empty one too. |
| Upgrade.SwitchingStarts | websocket/server_ws.hpp:583 | The server's response starts with the status line of the source, written out. |
| Upgrade.Base64IsFieldOk | websocket/server_ws.hpp:569-571 | Keys and answers are field values that survive printing and parsing. |
| Frames.PutLength | websocket/client_ws.hpp:218-219 | The downward loop writes the length in that many bytes, most significant first. |
| Frames.PutHeader | websocket/client_ws.hpp:205-222 | The header has the length in 7, 16 or 64 bits, with the mask bit. |
| Frames.Send | websocket/client_ws.hpp:192-228 | The bytes written are the frame of section 5.2. |
| Frames.Connection.ReadLength | websocket/server_ws.hpp:655-662 | The shifting loop reads a number, most significant byte first. |
| Frames.Connection.ReadPayload | websocket/server_ws.hpp:719-739 | Mask and payload are taken from the bytes transferred and the payload is unmasked; where these end early the mask keeps zeros and the payload is made of EOF. |
| Frames.Connection.Append | websocket/server_ws.hpp:723-739 | A fragment is added to the message being put together, which is started if need be; another frame is a message of its own. |
| Frames.Connection.HandleContent | websocket/server_ws.hpp:723-788 | What is reported for a frame, what is kept of an unfinished message, and whether reading goes on. |
| Frames.Connection.ReadMessageContent | websocket/server_ws.hpp:701-792 | Size check, content and report of a frame whose length is known. |
| Frames.Connection.ReadMessage | websocket/server_ws.hpp:614-699 | On any input: one frame, or the reason why there is none. |
| Frames.Connection.ReadMessages | websocket/server_ws.hpp:614-792 | On any input: everything that is reported until reading ends. |
| Frames.MaskedTwice | websocket/client_ws.hpp:227-228 | Unmasking undoes masking. |
| Frames.ValueOfBigEndian | websocket/client_ws.hpp:218-219 | The number read from the bytes of a number that fits in them is that number. |
| Frames.FrameIsRead | websocket/server_ws.hpp:614-739 | A frame written by the client, followed by anything, is rejected if and only if the wrapped sum exceeds the limit, and otherwise read exactly, with its first byte and payload, if and only if 4 more than its length is below 2^64. |
| Frames.FramesAreServed | websocket/server_ws.hpp:614-792 | Frames sent with any masks are handled in turn if and only if they fit the limit; the first that does not ends the reading. |
| Frames.ControlsAreHandled | websocket/server_ws.hpp:753-775 | Pings are answered with their payload and leave an unfinished message alone, as pongs do. |
| Frames.PartsAreHandled | websocket/server_ws.hpp:723-788 | The parts of a message and the control frames in between give one report of the whole message, after its last part, with the byte of a message sent whole. |
| Frames.MessagesArePutTogether | websocket/server_ws.hpp:723-788 | So for any sequence of messages, in order and with nothing left over. |
| Frames.OneReportEach | websocket/server_ws.hpp:723-788 | Exactly one report for each message comes of it all, with the payloads of its parts in order. |
| Frames.TwoParts | websocket/server_ws.hpp:723-788 | Two parts with a ping and a pong between them: the pong sent with byte 138, and the bytes of the two parts joined. |
| Frames.OddFrames | websocket/server_ws.hpp:723-788 | Frames that the client here never writes: continuations of nothing, messages inside messages, control frames that are not final, reserved opcodes. |
| Frames.UnfinishedClose | websocket/server_ws.hpp:726-753 | A close frame that is not final is reported with the first two bytes of what it becomes part of. |
| Frames.NothingLeft | websocket/server_ws.hpp:719-739 | Cut off before the mask is complete, the missing bytes of the mask are zero and those of the payload 255. |
| Frames.UnmaskedIsRefused | websocket/server_ws.hpp:614-699 | Reading ends with that error at a frame without the mask bit, and only there. |
| Frames.PartsFitIff | websocket/server_ws.hpp:702 | The frames of a message pass the size check if and only if each part fits with those before it, and each control frame with the parts it interrupts. |
| Frames.MessagesAreServed | websocket/server_ws.hpp:614-792 | What the client sends, the server reports whole and in order if and only if it fits the limit in that sense. |
| Frames.MessagesInFront | websocket/server_ws.hpp:614-792 | Messages that fit are reported whatever bytes follow them. |
| Frames.CloseIsReported | websocket/server_ws.hpp:741-753 | A close frame, in whatever state: its status is the number in the first two bytes, its reason the rest, or the status is 0 without two bytes; nothing that follows is looked at. |
| Frames.MessagesThenClose | websocket/server_ws.hpp:614-792 | Messages that fit and then a close frame with any payload, whatever bytes follow. |
| Frames.StatusIsReported | websocket/server_ws.hpp:741-753 | The status below 65536 and the reason that were sent are reported, after the messages and before nothing. |
| Frames.LengthCodes | websocket/client_ws.hpp:205-222 | The length fields on both sides of the limits of the three forms, as bytes. |
| Frames.MaskedHello | websocket/client_ws.hpp:192-228 | The masked text `Hello` of section 5.7 of RFC 6455, byte by byte, written and read. |
| Frames.CheckIsExact | websocket/server_ws.hpp:702 | A frame that passes the size check fits the limit with what is pending if and only if their sum does not wrap. |
| Frames.FrameFitsIff | websocket/server_ws.hpp:701-739 | The message that a frame past the check adds to is within the limit if and only if, for a fragment, the sum does not wrap, and for another frame, it is within the limit by itself; a frame that leaves room for the limit below 2^64 always is. |
| Frames.NothingTooBig | websocket/server_ws.hpp:614-792 | On every input, no message reported or put together exceeds the limit if and only if that holds of each frame read; and then nothing reported exceeds it. |
| Frames.WrappedSum | websocket/server_ws.hpp:701-788 | A fragment of one byte, a final fragment that declares 2^64 - 1 bytes and three more bytes make a reported message of 2^64 bytes, whatever the limit. |

## Left out

- `common/WSCrypto.cpp` `sha1ToHexString` and `is_base64`: one table lookup each.
- `SimpleWebSocketServer.*`, `SimpleWebSocketClient.*`: JUCE threads, listeners and file serving around the classes of `websocket/` and `webserver/`.
- `websocket/server_ws.hpp`, `websocket/client_ws.hpp`: sockets, timers, send queues, the set of connections, the server's unmasked `send` and the client's reader of such frames.
- `websocket/server_wss.hpp`, `websocket/client_wss.hpp`, `webserver/server_http.hpp`, `webserver/server_https.hpp`: TLS and HTTP service over asio.
- `common/crypto.hpp` and `openssl`: thin wrappers and third-party declarations.
- `common/status_code.hpp`, `webserver/status_code.hpp`, `MIMETypes`: finite tables.
- `common/mutex.hpp`, `common/asio_compatibility.hpp`: annotations and aliases.
- Memory ordering, the pause in the spin loops and allocation failure: atomics are sequentially consistent steps.
- The test of `expected` in `continue_lock` and the exchange after it are one step, since the test reads a local variable only.
- The order in which an unordered multimap is iterated: `create` gets its fields in some order, and the round trips keep it.
- Locales other than C, for `tolower` and `strtol`.
- `gmtime` itself, the mutex of `Date`, and overflow of time points.
- Sha1.CalcSha1: negative lengths, and lengths of 2^31 bytes or more, which an int cannot hold.
- Base64.CountGroups: texts of 2^31 - 3 characters or more, as for Base64.Base64Decode.
- Base64.Base64Decode: texts of 2^31 - 3 characters or more, whose length the code converts to an int with overflow.
- Handshake.HexString: where the digest has no zero byte, C++ leaves open what reading past the array does; the model reads on to the next zero byte in memory, which changes nothing. A missing answer header, which the client dereferences before it tests for it, is not modelled.
- Handshake.Accept, and Handshake.HexString with it: keys of 2^31 - 36 characters or more, whose length with the magic string the code converts to an int.
- Handshake.AcceptIsExact: keys of 2^29 - 36 characters or more, whose SHA-1 padding is not that of the standard.
- Handshake.Accepted: the same keys, and answers of 2^31 - 3 characters or more, whose length `base64_decode` converts to an int.
- Upgrade.UpgradeClient: responses of 2^31 - 4 characters or more, which could carry such an answer.
- Upgrade.Find: which of several entries with one name the map gives; the model gives the first, and the theorems hold for any.
- Frames.WrappedSum: memory is unbounded; in the program the loop that adds 2^64 bytes to a stream ends only when that number is counted down, whether or not the stream can hold them.
- Frames in the buffer before the handshake is answered, which the server would find ahead of the bytes it transfers.
- The retry of the server when a read of two bytes gives none.
