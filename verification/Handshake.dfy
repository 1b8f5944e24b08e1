/** The `Sec-WebSocket-Accept` value of `write_handshake` on the server and its check in `upgrade` on
    the client, against section 4.2.2 of RFC 6455: the Base64 text of the SHA-1 digest of the key and
    a fixed string. Both sides pass the digest through C strings, which end at a zero byte. */
module Handshake {
  import Sha1Spec
  import Sha1
  import opened Base64

  // ----- Specification -----

  const MAGIC := "258EAFA5-E914-47DA-95CA-C5AB0DC85B11"

  function ByteOf(c: char): Sha1Spec.Byte {
    (c as int % 256) as Sha1Spec.Byte
  }

  function Bytes(s: string): (bytes: seq<Sha1Spec.Byte>)
    ensures |bytes| == |s|
    ensures forall i :: 0 <= i < |s| ==> bytes[i] == ByteOf(s[i])
  {
    seq(|s|, i requires 0 <= i < |s| => ByteOf(s[i]))
  }

  function Octets(bytes: seq<Sha1Spec.Byte>): (octets: seq<Octet>)
    ensures |octets| == |bytes|
  {
    seq(|bytes|, i requires 0 <= i < |bytes| => bytes[i] as int)
  }

  // The digest of a key.
  function KeyDigest(key: string): (digest: seq<Octet>)
    ensures |digest| == 20
  {
    Octets(Sha1Spec.Sha1(Bytes(key + MAGIC)))
  }

  // The digest of a key with the code's padding, for any length that an int can hold.
  function CodeDigest(key: string): (digest: seq<Octet>)
    ensures |digest| == 20
  {
    Octets(Sha1Spec.DigestOfPadded(Sha1.Padded(Bytes(key + MAGIC))))
  }

  // What the standard asks the server to answer.
  function StandardAccept(key: string): string {
    Encode(KeyDigest(key))
  }

  // The octets in front of the first zero, which a C string keeps.
  function UpToZero(octets: seq<Octet>): (front: seq<Octet>)
    ensures |front| <= |octets| && front == octets[..|front|] && 0 !in front
    ensures |front| < |octets| ==> octets[|front|] == 0
  {
    if octets == [] || octets[0] == 0 then [] else [octets[0]] + UpToZero(octets[1..])
  }

  // std::string::resize.
  function Resized(octets: seq<Octet>, n: nat): (resized: seq<Octet>)
    ensures |resized| == n
  {
    if |octets| >= n then octets[..n] else octets + seq(n - |octets|, _ => 0)
  }

  // What becomes of a digest: every octet after the first zero is zero.
  function Cut(digest: seq<Octet>): seq<Octet> {
    Resized(UpToZero(digest), |digest|)
  }

  // ----- The code -----

  // The digest of key and magic string, copied into a std::string from a pointer to its first byte.
  // The copy goes on, past the digest if need be, to the first zero byte in memory; `beyond` is the
  // memory behind the digest.
  method HexString(key: string, beyond: seq<Octet>) returns (hexString: seq<Octet>)
    requires |key| + |MAGIC| < 0x8000_0000 && 0 in beyond
    ensures hexString == Cut(CodeDigest(key))
  {
    var inSha := Bytes(key + MAGIC);
    var hash := new Sha1Spec.Byte[20];
    Sha1.CalcSha1(inSha, hash);
    assert hash[..] == hash[..20];
    hexString := UpToZero(Octets(hash[..]) + beyond);
    hexString := Resized(hexString, 20);
    CutIgnoresBeyond(CodeDigest(key), beyond);
  }

  // The server's answer.
  method Accept(key: string, beyond: seq<Octet>) returns (b64: string)
    requires |key| + |MAGIC| < 0x8000_0000 && 0 in beyond
    ensures b64 == Encode(Cut(CodeDigest(key)))
  {
    var hexString := HexString(key, beyond);
    b64 := Base64Encode(hexString);
  }

  // The client's test of an answer: strcmp of two C strings.
  method Accepted(nonceBase64: string, accept: string, beyond: seq<Octet>) returns (equal: bool)
    requires |nonceBase64| + |MAGIC| < 0x8000_0000 && 0 in beyond && |accept| + 3 < 0x8000_0000
    ensures equal <==> UpToZero(Decode(accept)) == UpToZero(CodeDigest(nonceBase64))
  {
    var b64 := Base64Decode(accept);
    var hexString := HexString(nonceBase64, beyond);
    CutKeepsFront(CodeDigest(nonceBase64));
    equal := UpToZero(b64) == UpToZero(hexString);
  }

  // ----- Properties -----

  // The front of a sequence is determined by where its first zero is.
  lemma {:induction false} UpToZeroIs(octets: seq<Octet>, n: nat)
    requires n <= |octets| && 0 !in octets[..n] && (n < |octets| ==> octets[n] == 0)
    ensures UpToZero(octets) == octets[..n]
  {
    if n == 0 {
    } else {
      assert octets[0] == octets[..n][0];
      assert octets[1..][..n - 1] == octets[..n][1..];
      UpToZeroIs(octets[1..], n - 1);
    }
  }

  // What lies behind the digest in memory does not matter.
  lemma CutIgnoresBeyond(digest: seq<Octet>, beyond: seq<Octet>)
    ensures Resized(UpToZero(digest + beyond), |digest|) == Cut(digest)
  {
    var n := |UpToZero(digest)|;
    if n < |digest| {
      assert (digest + beyond)[..n] == digest[..n];
      UpToZeroIs(digest + beyond, n);
    } else {
      NoZeroBefore(digest, beyond);
    }
  }

  lemma {:induction false} NoZeroBefore(a: seq<Octet>, b: seq<Octet>)
    requires UpToZero(a) == a
    ensures UpToZero(a + b) == a + UpToZero(b)
  {
    if a == [] {
      assert a + b == b;
    } else {
      assert (a + b)[1..] == a[1..] + b;
      assert UpToZero(a[1..]) == a[1..];
      NoZeroBefore(a[1..], b);
    }
  }

  lemma CutKeepsFront(digest: seq<Octet>)
    ensures UpToZero(Cut(digest)) == UpToZero(digest)
  {
    var n := |UpToZero(digest)|;
    assert Cut(digest)[..n] == UpToZero(digest);
    UpToZeroIs(Cut(digest), n);
  }

  // A digest comes through unchanged if and only if every octet after a zero is zero.
  lemma CutIsExact(digest: seq<Octet>)
    ensures Cut(digest) == digest <==> forall i, j :: 0 <= i < j < |digest| && digest[i] == 0 ==> digest[j] == 0
  {
    var n := |UpToZero(digest)|;
    assert forall i :: 0 <= i < n ==> digest[i] == UpToZero(digest)[i] && UpToZero(digest)[i] in UpToZero(digest);
    assert forall j :: n <= j < |digest| ==> Cut(digest)[j] == 0;
    if n < |digest| {
      assert digest[n] == 0;
    }
  }

  lemma CodeDigestIsExact(key: string)
    requires |key| + |MAGIC| < 0x2000_0000
    ensures CodeDigest(key) == KeyDigest(key)
  {
    Sha1.PaddingIsExact(Bytes(key + MAGIC));
    hide Sha1.Padded, Sha1Spec.Pad, Sha1Spec.DigestOfPadded, Octets, Bytes;
  }

  // The server answers what the standard asks if and only if no zero byte of the digest has a
  // nonzero one after it.
  lemma AcceptIsExact(key: string)
    requires |key| + |MAGIC| < 0x2000_0000
    ensures Encode(Cut(CodeDigest(key))) == StandardAccept(key)
       <==> forall i, j :: 0 <= i < j < 20 && KeyDigest(key)[i] == 0 ==> KeyDigest(key)[j] == 0
  {
    CodeDigestIsExact(key);
    hide KeyDigest, CodeDigest, Cut, Encode, Decode;
    CutIsExact(KeyDigest(key));
    DecodeEncode(Cut(KeyDigest(key)));
    DecodeEncode(KeyDigest(key));
  }

  // The client accepts the answer of this server, whatever the key, and that of the standard.
  lemma ClientAccepts(key: string)
    ensures UpToZero(Decode(Encode(Cut(CodeDigest(key))))) == UpToZero(CodeDigest(key))
    ensures |key| + |MAGIC| < 0x2000_0000 ==> UpToZero(Decode(StandardAccept(key))) == UpToZero(CodeDigest(key))
  {
    if |key| + |MAGIC| < 0x2000_0000 {
      CodeDigestIsExact(key);
    }
    hide KeyDigest, CodeDigest, Cut, Encode, Decode, UpToZero;
    DecodeEncode(KeyDigest(key));
    DecodeEncode(Cut(CodeDigest(key)));
    CutKeepsFront(CodeDigest(key));
  }

  // The client accepts exactly the answers that decode to the digest up to its first zero, and
  // after that to nothing, or to a zero and anything.
  lemma ClientAcceptsOnly(digest: seq<Octet>, decoded: seq<Octet>)
    ensures var n := |UpToZero(digest)|;
            UpToZero(decoded) == UpToZero(digest) <==>
              digest[..n] <= decoded && (|decoded| > n ==> decoded[n] == 0)
  {
    hide UpToZero;
    var n := |UpToZero(digest)|;
    if digest[..n] <= decoded && (|decoded| > n ==> decoded[n] == 0) {
      assert decoded[..n] == digest[..n];
      UpToZeroIs(decoded, n);
    }
  }

  // An empty answer in particular if and only if the digest starts with a zero.
  lemma EmptyAnswer(digest: seq<Octet>)
    requires digest != []
    ensures UpToZero(Decode("")) == UpToZero(digest) <==> digest[0] == 0
  {
    ClientAcceptsOnly(digest, Decode(""));
  }
}
