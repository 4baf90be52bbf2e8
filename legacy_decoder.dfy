/**
 * The offline decoder for the aggregator's legacy article ids: the id's
 * base64-decoded bytes hold the publisher URL in a length-prefixed field,
 * wrapped in a fixed three-byte prefix and suffix.
 */
module LegacyDecoder {
  import opened Wrappers
  import opened JsString
  import opened Collaborators

  /** Bytes 08 13 22 that open a legacy id. */
  const Prefix: string := [0x08 as char, 0x13 as char, 0x22 as char]
  /** Bytes D2 01 00 that close a legacy id. */
  const Suffix: string := [0xD2 as char, 0x01 as char, 0x00 as char]

  /** `Buffer.toString('latin1')`: every byte becomes the character of that code. */
  function Latin1(bytes: seq<byte>): (s: string)
    ensures |s| == |bytes|
    ensures forall k :: 0 <= k < |s| ==> s[k] as int == bytes[k] as int
  {
    seq(|bytes|, k requires 0 <= k < |bytes| => bytes[k] as int as char)
  }

  /** Text whose characters all fit in a byte, so that Latin-1 can carry it. */
  predicate IsLatin1Text(s: string) {
    forall k :: 0 <= k < |s| ==> s[k] as int < 0x100
  }

  /** The bytes of Latin-1 text: the inverse of `Latin1`. */
  function Latin1Bytes(s: string): (bytes: seq<byte>)
    requires IsLatin1Text(s)
    ensures Latin1(bytes) == s
  {
    var bytes := seq(|s|, k requires 0 <= k < |s| => s[k] as int as byte);
    assert Latin1(bytes) == s;
    bytes
  }

  /** Removes the prefix exactly when the text starts with it. */
  function StripPrefix(s: string): (r: string)
    ensures StartsWith(s, Prefix) ==> s == Prefix + r
    ensures !StartsWith(s, Prefix) ==> r == s
  {
    if StartsWith(s, Prefix) then s[|Prefix|..] else s
  }

  /** Removes the suffix exactly when the text ends with it. */
  function StripSuffix(s: string): (r: string)
    ensures EndsWith(s, Suffix) ==> s == r + Suffix
    ensures !EndsWith(s, Suffix) ==> r == s
  {
    if EndsWith(s, Suffix) then s[..|s| - |Suffix|] else s
  }

  /** The byte the source reads as the length header: the first character's
      code as stored in a `Uint8Array` (kept modulo 256). */
  function HeaderByte(s: string): int
    requires s != []
  {
    (s[0] as int) % 0x100
  }

  /** A header byte of 0x80 or more opens a two-byte header; below, a one-byte one. */
  function HeaderSize(b: int): nat {
    if b >= 0x80 then 2 else 1
  }

  /** The payload length the header declares. */
  function DeclaredLength(b: int): int {
    if b >= 0x80 then b - 0x80 else b
  }

  /** The candidate URL cut out of the de-framed text by its length header.
      It is never longer than the header declares (so at most 127 characters),
      it is the piece of `s` right after the header, and when `s` is long
      enough it is exactly the declared number of characters; when `s` is
      shorter, it is the rest of `s`, since `substring` clamps. Empty text, or
      text shorter than its header, gives empty text. */
  function PayloadSlice(s: string): (r: string)
    ensures s == [] ==> r == []
    ensures s != [] ==>
      var h, n := HeaderSize(HeaderByte(s)), DeclaredLength(HeaderByte(s));
      && 0 <= n <= 0x7F && |r| <= n
      && (h <= |s| ==> h + |r| <= |s| && r == s[h..h + |r|])
      && (h + n <= |s| ==> |r| == n)
      && (h <= |s| < h + n ==> r == s[h..])
      && (|s| < h ==> r == [])
  {
    if s == [] then ""
    else
      var b := HeaderByte(s);
      Substring(s, HeaderSize(b), HeaderSize(b) + DeclaredLength(b))
  }

  /** A header that declares more characters than follow does not make the
      slice fail: the slice is everything after the header. */
  lemma OverlongHeaderKeepsRest(u: string, n: nat)
    requires |u| < n < 0x80
    ensures PayloadSlice([n as char] + u) == u
  {
    var s := [n as char] + u;
    assert HeaderByte(s) == n;
    assert s[1..] == u;
  }

  /** The URL test applied to the candidate. */
  predicate IsHttpUrl(s: string) {
    StartsWith(s, "http://") || StartsWith(s, "https://")
  }

  /** The legacy decoding of an id's bytes: de-frame, slice by the header,
      and accept the slice only when it is an http(s) URL. A URL it returns
      is at most 127 characters and was carried, byte for byte, by the id. */
  function LegacyUrl(bytes: seq<byte>): (r: Option<string>)
    ensures r.Some? ==> IsHttpUrl(r.value) && |r.value| <= 0x7F
    ensures r.Some? ==> Contains(Latin1(bytes), r.value)
  {
    var text := Latin1(bytes);
    var candidate := PayloadSlice(StripSuffix(StripPrefix(text)));
    if IsHttpUrl(candidate) then
      PayloadCarried(text);
      Some(candidate)
    else
      None
  }

  /** The de-framed text is a piece of the decoded text. */
  lemma FramedIsPiece(text: string) returns (offset: nat)
    ensures var framed := StripSuffix(StripPrefix(text));
      offset + |framed| <= |text| && framed == text[offset..offset + |framed|]
  {
    offset := if StartsWith(text, Prefix) then |Prefix| else 0;
  }

  /** The payload is a piece of the de-framed text. */
  lemma PayloadIsPiece(framed: string) returns (h: nat)
    ensures h + |PayloadSlice(framed)| <= |framed|
    ensures PayloadSlice(framed) == framed[h..h + |PayloadSlice(framed)|]
  {
    h := 0;
    if framed != [] && HeaderSize(HeaderByte(framed)) <= |framed| {
      h := HeaderSize(HeaderByte(framed));
    }
  }

  /** A piece of a piece is a piece. */
  lemma PieceOfPiece(text: string, mid: string, i: nat, j: nat, len: nat)
    requires i + |mid| <= |text| && mid == text[i..i + |mid|]
    requires j + len <= |mid|
    ensures mid[j..j + len] == text[i + j..i + j + len]
  {
    var inner, outer := mid[j..j + len], text[i + j..i + j + len];
    forall k | 0 <= k < len
      ensures inner[k] == outer[k]
    {
      assert mid[j + k] == text[i + j + k];
    }
  }

  /** A piece of a piece of the text is in the text. */
  lemma PieceOfPieceContained(text: string, mid: string, i: nat, t: string, j: nat)
    requires i + |mid| <= |text| && mid == text[i..i + |mid|]
    requires j + |t| <= |mid| && t == mid[j..j + |t|]
    ensures Contains(text, t)
  {
    PieceOfPiece(text, mid, i, j, |t|);
    SliceContained(text, t, i + j);
  }

  /** The sliced payload is a piece of the decoded text. */
  lemma PayloadCarried(text: string)
    ensures Contains(text, PayloadSlice(StripSuffix(StripPrefix(text))))
  {
    var framed := StripSuffix(StripPrefix(text));
    var offset := FramedIsPiece(text);
    var h := PayloadIsPiece(framed);
    PieceOfPieceContained(text, framed, offset, PayloadSlice(framed), h);
  }

  /** Removes the prefix and then the suffix from the working string, each
      only when present. */
  method StripFrame(text: string) returns (str: string)
    ensures str == StripSuffix(StripPrefix(text))
  {
    str := text;
    if StartsWith(str, Prefix) {
      str := str[|Prefix|..];
    }
    if EndsWith(str, Suffix) {
      str := str[..|str| - |Suffix|];
    }
  }

  /** Cuts the payload out of the de-framed string by its length header. */
  method SliceByHeader(framed: string) returns (str: string)
    ensures str == PayloadSlice(framed)
  {
    str := framed;
    if str == [] {
      // `bytes[0]` is undefined and `substring(1, NaN)` is empty.
      str := "";
    } else {
      var len := (str[0] as int) % 0x100;
      if len >= 0x80 {
        str := Substring(str, 2, len - 0x80 + 2);
      } else {
        str := Substring(str, 1, len + 1);
      }
    }
  }

  /** The decoder as the service runs it, reassigning one working string. */
  method DecodeLegacy(decoded: seq<byte>) returns (url: Option<string>)
    ensures url == LegacyUrl(decoded)
  {
    var str := StripFrame(Latin1(decoded));
    str := SliceByHeader(str);
    if StartsWith(str, "http://") || StartsWith(str, "https://") {
      url := Some(str);
    } else {
      url := None;
    }
  }

  /** The legacy encoding of a URL: prefix, a one-byte header `[n]` or a
      two-byte header `[0x80 + n, extra]`, the URL's bytes, suffix. */
  function EncodeLegacy(u: string, twoByteHeader: bool, extra: byte): (bytes: seq<byte>)
    requires IsLatin1Text(u) && |u| < 0x80
    ensures |bytes| == |u| + (if twoByteHeader then 8 else 7)
  {
    var header: seq<byte> := if twoByteHeader then [(0x80 + |u|) as byte, extra] else [|u| as byte];
    [0x08, 0x13, 0x22] + header + Latin1Bytes(u) + [0xD2, 0x01, 0x00]
  }

  /** The header `EncodeLegacy` writes, as text. */
  function HeaderText(n: nat, twoByteHeader: bool, extra: byte): (h: string)
    requires n < 0x80
    ensures |h| == HeaderSize(if twoByteHeader then 0x80 + n else n)
  {
    if twoByteHeader then [(0x80 + n) as char, extra as int as char] else [n as char]
  }

  /** The encoded bytes read as text are the frame around header and URL. */
  lemma EncodedText(u: string, twoByteHeader: bool, extra: byte)
    requires IsLatin1Text(u) && |u| < 0x80
    ensures Latin1(EncodeLegacy(u, twoByteHeader, extra)) == Prefix + HeaderText(|u|, twoByteHeader, extra) + u + Suffix
  {
    var bytes := EncodeLegacy(u, twoByteHeader, extra);
    var text := Prefix + HeaderText(|u|, twoByteHeader, extra) + u + Suffix;
    assert |Latin1(bytes)| == |text|;
    forall k | 0 <= k < |text| ensures Latin1(bytes)[k] == text[k] {
      var h := |HeaderText(|u|, twoByteHeader, extra)|;
      if 3 + h <= k < 3 + h + |u| {
        assert bytes[k] == Latin1Bytes(u)[k - 3 - h];
      }
    }
  }

  /** The payload of header plus URL is the URL. */
  lemma HeaderedPayload(u: string, twoByteHeader: bool, extra: byte)
    requires |u| < 0x80
    ensures PayloadSlice(HeaderText(|u|, twoByteHeader, extra) + u) == u
  {
    var framed := HeaderText(|u|, twoByteHeader, extra) + u;
    assert HeaderByte(framed) == if twoByteHeader then 0x80 + |u| else |u|;
  }

  /** Decoding an encoded http(s) URL of fewer than 128 Latin-1 characters
      gives the URL back, whichever header form was used. */
  lemma LegacyRoundTrip(u: string, twoByteHeader: bool, extra: byte)
    requires IsLatin1Text(u) && |u| < 0x80 && IsHttpUrl(u)
    ensures LegacyUrl(EncodeLegacy(u, twoByteHeader, extra)) == Some(u)
  {
    var header := HeaderText(|u|, twoByteHeader, extra);
    var text := Latin1(EncodeLegacy(u, twoByteHeader, extra));
    assert StripPrefix(text) == header + u + Suffix by {
      EncodedText(u, twoByteHeader, extra);
      assert text == Prefix + (header + u + Suffix);
    }
    assert StripSuffix(header + u + Suffix) == header + u;
    HeaderedPayload(u, twoByteHeader, extra);
    assert PayloadSlice(StripSuffix(StripPrefix(text))) == u;
  }
}
