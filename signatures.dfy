/**
  The signature gate of the webhook endpoint (application.py:178-189): the request must carry
  an `X-Hub-Signature-256` header equal to `sha256=` followed by the lowercase hexadecimal
  HMAC-SHA256 (section 2 of RFC 2104) of the raw body under the application's secret key.
  The MAC itself is the configuration's `hmac` parameter; the hex encoding, the prefix and the
  comparison are modelled as they are.
*/
module Signatures {
  import opened Wrappers
  import opened Text
  import opened Goals

  /** The lowercase hex digit for `n`. */
  function HexChar(n: nat): (c: char)
    requires n < 16
    ensures HexValue(c) == Some(n)
  {
    if n < 10 then (n + '0' as int) as char else (n - 10 + 'a' as int) as char
  }

  /** The value of a lowercase hex digit; `None` for any other character. */
  function HexValue(c: char): (r: Option<nat>)
    ensures r.Some? ==> r.value < 16
  {
    if '0' <= c <= '9' then Some(c as int - '0' as int)
    else if 'a' <= c <= 'f' then Some(c as int - 'a' as int + 10)
    else None
  }

  /** `hexdigest()`: two lowercase hex digits per byte, high nibble first. */
  function HexEncode(bytes: seq<byte>): (s: string)
    ensures |s| == 2 * |bytes|
  {
    if bytes == [] then ""
    else [HexChar(bytes[0] / 16), HexChar(bytes[0] % 16)] + HexEncode(bytes[1..])
  }

  /** Reads lowercase hex digits in pairs back into bytes. */
  function HexDecode(s: string): (r: Option<seq<byte>>)
    ensures r.Some? ==> 2 * |r.value| == |s|
    decreases |s|
  {
    if s == [] then Some([])
    else if |s| == 1 then None
    else
      var hi :- HexValue(s[0]);
      var lo :- HexValue(s[1]);
      var rest :- HexDecode(s[2..]);
      Some([hi * 16 + lo] + rest)
  }

  /** Decoding an encoding gives the bytes back. */
  lemma {:induction false} HexRoundTrip(bytes: seq<byte>)
    ensures HexDecode(HexEncode(bytes)) == Some(bytes)
  {
    if bytes != [] {
      var s := HexEncode(bytes);
      assert s[2..] == HexEncode(bytes[1..]);
      HexRoundTrip(bytes[1..]);
      assert [bytes[0] / 16 * 16 + bytes[0] % 16] + bytes[1..] == bytes;
    }
  }

  /** The encoding is canonical: a string that decodes is the encoding of what it decodes to. */
  lemma {:induction false} HexCanonical(s: string, bytes: seq<byte>)
    requires HexDecode(s) == Some(bytes)
    ensures HexEncode(bytes) == s
    decreases |s|
  {
    if s != [] {
      var hi, lo := HexValue(s[0]).value, HexValue(s[1]).value;
      var rest := HexDecode(s[2..]).value;
      assert bytes == [hi * 16 + lo] + rest;
      HexCanonical(s[2..], rest);
      assert bytes[1..] == rest;
      assert bytes[0] / 16 == hi && bytes[0] % 16 == lo;
      assert HexValue(HexChar(hi)) == HexValue(s[0]);
      assert HexChar(hi) == s[0];
      assert HexChar(lo) == s[1];
      assert s == [s[0], s[1]] + s[2..];
    }
  }

  /** Two byte strings with the same encoding are equal. */
  lemma HexInjective(a: seq<byte>, b: seq<byte>)
    requires HexEncode(a) == HexEncode(b)
    ensures a == b
  {
    HexRoundTrip(a);
    HexRoundTrip(b);
  }

  predicate IsAscii(s: string) {
    forall i :: 0 <= i < |s| ==> s[i] as int < 128
  }

  lemma {:induction false} HexIsAscii(bytes: seq<byte>)
    ensures IsAscii(HexEncode(bytes))
  {
    if bytes != [] {
      HexIsAscii(bytes[1..]);
    }
  }

  /** `"sha256=" + hmac.new(secret, body, sha256).hexdigest()`. */
  function ExpectedSignature(config: Config, body: seq<byte>): (s: string)
    ensures IsAscii(s) && StartsWith(s, "sha256=")
    ensures HexDecode(s[7..]) == Some(config.hmac(config.secretKey, body))
  {
    var mac := config.hmac(config.secretKey, body);
    HexIsAscii(mac);
    HexRoundTrip(mac);
    assert ("sha256=" + HexEncode(mac))[7..] == HexEncode(mac);
    "sha256=" + HexEncode(mac)
  }

  datatype Verdict =
    | Accepted
    | MissingHeader     // 403 'Request is missing signature header'
    | NonAsciiHeader    // `hmac.compare_digest` raises TypeError on a non-ASCII str
    | BadSignature      // 403 'Invalid signature. Request rejected.'

  /** The gate: a falsy header, then `hmac.compare_digest(expected, header)`. */
  function CheckSignature(config: Config, header: Option<string>, body: seq<byte>): (v: Verdict)
    ensures v == MissingHeader <==> !Truthy(header)
    ensures v == Accepted <==> header == Some(ExpectedSignature(config, body))
  {
    if !Truthy(header) then MissingHeader
    else if !IsAscii(header.value) then NonAsciiHeader
    else if header.value == ExpectedSignature(config, body) then Accepted
    else BadSignature
  }

  /**
    A header is accepted exactly when it is `sha256=` followed by a lowercase hex string whose
    bytes are the MAC of the body: the gate is a check of the MAC, nothing weaker.
  */
  lemma AcceptedIffMac(config: Config, header: string, body: seq<byte>)
    ensures CheckSignature(config, Some(header), body) == Accepted
      <==> (StartsWith(header, "sha256=")
            && HexDecode(header[7..]) == Some(config.hmac(config.secretKey, body)))
  {
    var mac := config.hmac(config.secretKey, body);
    var expected := ExpectedSignature(config, body);
    if StartsWith(header, "sha256=") && HexDecode(header[7..]) == Some(mac) {
      HexCanonical(header[7..], mac);
      HexCanonical(expected[7..], mac);
      assert header == header[..7] + header[7..];
      assert expected == expected[..7] + expected[7..];
    }
  }
}
