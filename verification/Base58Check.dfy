/** Base58Check: version byte, payload and four checksum bytes, for an arbitrary digest function. */
module Base58Check {
  import opened Text
  import opened Base58

  type ByteHash = seq<byte> -> Digest

  function HexValue(c: char): (v: nat)
    requires IsHexDigit(c)
    ensures v < 16
  {
    if c <= '9' then (c - '0') as nat else (c - 'a') as nat + 10
  }

  /** `(uint8_t)std::stoi(h.substr(i, 2), nullptr, 16)`: the cast loses nothing. */
  function HexByte(h: Digest, i: nat): (b: byte)
    requires i < 63
  {
    HexValue(h[i]) * 16 + HexValue(h[i + 1])
  }

  ghost function Unhex(h: Digest): (bytes: seq<byte>)
    ensures |bytes| == 32
  {
    seq(32, i requires 0 <= i < 32 => HexByte(h, 2 * i))
  }

  /** The first four bytes of the double digest. */
  ghost function Checksum(hash: ByteHash, data: seq<byte>): (c: seq<byte>)
    ensures |c| == 4
  {
    Unhex(hash(Unhex(hash(data))))[..4]
  }

  function HexChar(v: nat): char
    requires v < 16
  {
    if v < 10 then '0' + v as char else 'a' + (v - 10) as char
  }

  /** The hexadecimal text of some bytes, the high half of each byte first. */
  ghost function Rendered(bytes: seq<byte>): string {
    if bytes == [] then ""
    else
      var n := |bytes| - 1;
      Rendered(bytes[..n]) + [HexChar(bytes[n] / 16), HexChar(bytes[n] % 16)]
  }

  lemma HexByteReads(h: Digest, i: nat)
    requires i < 63
    ensures var b := HexByte(h, i); b / 16 < 16 && HexChar(b / 16) == h[i] && HexChar(b % 16) == h[i + 1]
  {
    assert IsHexDigit(h[i]) && IsHexDigit(h[i + 1]);
  }

  lemma {:induction false} RenderedPrefix(h: Digest, n: nat)
    requires n <= 32
    ensures Rendered(Unhex(h)[..n]) == h[..2 * n]
  {
    if n > 0 {
      RenderedPrefix(h, n - 1);
      HexByteReads(h, 2 * (n - 1));
      assert Unhex(h)[..n][..n - 1] == Unhex(h)[..n - 1];
      assert h[..2 * n] == h[..2 * (n - 1)] + [h[2 * n - 2], h[2 * n - 1]];
    }
  }

  /** The checksum is what the first eight characters of the digest of the digest's bytes denote. */
  lemma ChecksumIs(hash: ByteHash, data: seq<byte>)
    ensures exists first: seq<byte> ::
              Rendered(first) == hash(data) && Rendered(Checksum(hash, data)) == hash(first)[..8]
  {
    var first := Unhex(hash(data));
    RenderedPrefix(hash(data), 32);
    assert first[..32] == first && hash(data)[..64] == hash(data);
    RenderedPrefix(hash(first), 4);
    assert Rendered(first) == hash(data);
  }

  ghost function Framed(hash: ByteHash, version: byte, payload: seq<byte>): seq<byte> {
    [version] + payload + Checksum(hash, [version] + payload)
  }

  ghost function CheckEncoded(hash: ByteHash, version: byte, payload: seq<byte>): string {
    Encoded(Framed(hash, version, payload))
  }

  /** The decoded bytes of `s`, when every character is in the alphabet. */
  ghost function Bytes(s: string): (d: Option<seq<byte>>) {
    match Decoded(s)
    case None => None
    case Some(d) => DecodedIsBytes(s); BytesOf(d)
  }

  ghost function BytesOf(d: seq<int>): (b: Option<seq<byte>>)
    requires Digits(d, 256)
    ensures b == Some(d)
  {
    var e: seq<byte> := seq(|d|, i requires 0 <= i < |d| => d[i]);
    assert e == d;
    Some(e)
  }

  ghost predicate Accepted(hash: ByteHash, s: string) {
    match Bytes(s)
    case None => false
    case Some(d) => |d| >= 5 && d[|d| - 4..] == Checksum(hash, d[..|d| - 4])
  }

  /** `SHA256(bytes(SHA256(data)))` as both check routines compute it. */
  method DoubleHash(hash: ByteHash, data: seq<byte>) returns (h2: Digest)
    ensures h2 == hash(Unhex(hash(data)))
  {
    var h1: Digest := hash(data);
    var h1bytes: seq<byte> := [];
    var i := 0;
    while i < |h1|
      invariant i <= 64 && i % 2 == 0
      invariant h1bytes == Unhex(h1)[..i / 2]
      decreases 64 - i
    {
      h1bytes := h1bytes + [HexByte(h1, i)];
      i := i + 2;
    }
    assert Unhex(h1)[..32] == Unhex(h1);
    h2 := hash(h1bytes);
  }

  method EncodeCheck(hash: ByteHash, version: byte, payload: seq<byte>) returns (s: string)
    ensures s == CheckEncoded(hash, version, payload)
  {
    var data := [version] + payload;
    var h2 := DoubleHash(hash, data);
    data := AppendChecksum(data, h2);
    s := Encode(data);
  }

  /** The last loop of `encodeCheck`. */
  method AppendChecksum(body: seq<byte>, h2: Digest) returns (data: seq<byte>)
    ensures data == body + Unhex(h2)[..4]
  {
    data := body;
    var i := 0;
    while i < 8
      invariant i <= 8 && i % 2 == 0
      invariant data == body + Unhex(h2)[..i / 2]
    {
      data := data + [HexByte(h2, i)];
      i := i + 2;
    }
  }

  /**
   * The reference parameters keep their old values unless at least five bytes decode; a checksum
   * mismatch is reported after they have been overwritten.
   */
  method DecodeCheck(hash: ByteHash, encoded: string, version0: byte, payload0: seq<byte>)
    returns (ok: bool, version: byte, payload: seq<byte>)
    ensures ok <==> Accepted(hash, encoded)
    ensures match Bytes(encoded)
            case None => (version, payload) == (version0, payload0)
            case Some(d) => (version, payload) == if |d| < 5 then (version0, payload0) else (d[0], d[1..|d| - 4])
  {
    ok, version, payload := false, version0, payload0;
    var decoded := Decode(encoded);
    if decoded == None {
      return;
    }
    var data := decoded.value;
    assert Bytes(encoded) == Some(data);
    if |data| < 5 {
      return;
    }
    version := data[0];
    payload := data[1..|data| - 4];
    var checksum := data[|data| - 4..];
    var h2 := DoubleHash(hash, data[..|data| - 4]);
    ghost var expected := Checksum(hash, data[..|data| - 4]);
    for i := 0 to 4
      invariant checksum[..i] == expected[..i]
    {
      assert expected[i] == HexByte(h2, i * 2);
      if checksum[i] != HexByte(h2, i * 2) {
        return;
      }
      assert checksum[..i + 1] == checksum[..i] + [checksum[i]];
    }
    assert checksum == checksum[..4] && expected == expected[..4];
    ok := true;
  }

  /**
   * What was encoded is decoded again, version and payload alike, exactly when version, payload
   * and checksum are not all zero.
   */
  lemma CheckRoundTrip(hash: ByteHash, version: byte, payload: seq<byte>)
    ensures var s := CheckEncoded(hash, version, payload);
            var d := Bytes(s);
      && d.Some? && |d.value| >= 5
      && (HasNonZero(Framed(hash, version, payload)) <==>
            Accepted(hash, s) && d.value[0] == version && d.value[1..|d.value| - 4] == payload)
  {
    var data := Framed(hash, version, payload);
    DecodeEncode(data);
    var d := Bytes(CheckEncoded(hash, version, payload)).value;
    if HasNonZero(data) {
      assert d == data;
      assert d[..|d| - 4] == [version] + payload;
    } else {
      assert d == [0] + data;
      assert |d[1..|d| - 4]| == |payload| + 1;
    }
  }

  /**
   * An accepted string is exactly the encoding of the version and payload it yields, unless it
   * consists of '1' characters only.
   */
  lemma AcceptedIsEncoding(hash: ByteHash, s: string)
    requires Accepted(hash, s)
    ensures var d := Bytes(s).value;
      CheckEncoded(hash, d[0], d[1..|d| - 4]) == s <==> HasNonOne(s)
  {
    var d := Bytes(s).value;
    EncodeDecode(s);
    assert [d[0]] + d[1..|d| - 4] == d[..|d| - 4];
    assert Framed(hash, d[0], d[1..|d| - 4]) == d;
  }

  /** Two accepted strings other than runs of '1' that yield the same version and payload are equal. */
  lemma AddressesAreUnique(hash: ByteHash, s: string, t: string)
    requires Accepted(hash, s) && Accepted(hash, t) && HasNonOne(s) && HasNonOne(t)
    requires var d, e := Bytes(s).value, Bytes(t).value;
      d[0] == e[0] && d[1..|d| - 4] == e[1..|e| - 4]
    ensures s == t
  {
    AcceptedIsEncoding(hash, s);
    AcceptedIsEncoding(hash, t);
  }
}
