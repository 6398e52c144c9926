// `hash.rs`: SHA-256 digests as lowercase hex. The compression function is a
// parameter: `sha` is any function from byte strings to 32 bytes.
module Digests {
  import opened Prelude

  type Hash32 = b: seq<byte> | |b| == 32 witness seq(32, _ => 0)
  type Sha256 = seq<byte> -> Hash32

  predicate IsLowerHex(c: char) {
    '0' <= c <= '9' || 'a' <= c <= 'f'
  }

  predicate AllLowerHex(s: string) {
    forall i | 0 <= i < |s| :: IsLowerHex(s[i])
  }

  predicate IsSha256Hex(s: string) {
    |s| == 64 && AllLowerHex(s)
  }

  type Sha256Hex = s: string | IsSha256Hex(s) witness seq(64, _ => '0')

  function HexChar(nibble: nat): (c: char)
    requires nibble < 16
    ensures IsLowerHex(c) && Nibble(c) == nibble
  {
    if nibble < 10 then ('0' as int + nibble) as char else ('a' as int + (nibble - 10)) as char
  }

  function Nibble(c: char): (n: nat)
    requires IsLowerHex(c)
    ensures n < 16
  {
    if c <= '9' then c as int - '0' as int else c as int - 'a' as int + 10
  }

  // format!("{b:02x}")
  function HexByte(b: byte): string {
    [HexChar(b as int / 16), HexChar(b as int % 16)]
  }

  function HexLower(bytes: seq<byte>): (s: string)
    ensures |s| == 2 * |bytes| && AllLowerHex(s)
  {
    if bytes == [] then "" else HexByte(bytes[0]) + HexLower(bytes[1..])
  }

  function Unhex(s: string): seq<byte>
    requires |s| % 2 == 0 && AllLowerHex(s)
  {
    if s == "" then []
    else [ByteOf(s[0], s[1])] + Unhex(s[2..])
  }

  lemma {:induction false} UnhexHex(bytes: seq<byte>)
    ensures Unhex(HexLower(bytes)) == bytes
  {
    if bytes != [] {
      UnhexHex(bytes[1..]);
      assert HexLower(bytes)[2..] == HexLower(bytes[1..]);
    }
  }

  function ByteOf(high: char, low: char): byte
    requires IsLowerHex(high) && IsLowerHex(low)
  {
    (Nibble(high) * 16 + Nibble(low)) as byte
  }

  lemma HexByteOf(high: char, low: char)
    requires IsLowerHex(high) && IsLowerHex(low)
    ensures HexByte(ByteOf(high, low)) == [high, low]
  {
    var h, l, b := Nibble(high), Nibble(low), ByteOf(high, low);
    assert b as int / 16 == h && b as int % 16 == l;
    assert HexChar(h) == high && HexChar(l) == low;
  }

  lemma {:induction false} HexUnhex(s: string)
    requires |s| % 2 == 0 && AllLowerHex(s)
    ensures HexLower(Unhex(s)) == s
    decreases |s|
  {
    if s != "" {
      HexUnhex(s[2..]);
      HexByteOf(s[0], s[1]);
      assert Unhex(s)[1..] == Unhex(s[2..]);
      assert s == [s[0], s[1]] + s[2..];
    }
  }

  // The digits are the usual ones, the high half of each byte first.
  lemma HexDigits(n: nat)
    requires n < 16
    ensures HexChar(n) == "0123456789abcdef"[n]
  {
  }

  lemma {:induction false} HexLowerAt(bytes: seq<byte>, i: nat)
    requires i < |bytes|
    ensures HexLower(bytes)[2 * i] == "0123456789abcdef"[bytes[i] as int / 16]
    ensures HexLower(bytes)[2 * i + 1] == "0123456789abcdef"[bytes[i] as int % 16]
  {
    if i == 0 {
      HexDigits(bytes[0] as int / 16);
      HexDigits(bytes[0] as int % 16);
    } else {
      HexLowerAt(bytes[1..], i - 1);
      var tail := HexLower(bytes[1..]);
      assert HexLower(bytes)[2 * i] == tail[2 * (i - 1)] && HexLower(bytes)[2 * i + 1] == tail[2 * (i - 1) + 1];
    }
  }

  function FromHex(s: string): (r: Option<Sha256Hex>)
    ensures r.Some? <==> |s| == 64 && forall i | 0 <= i < |s| :: IsLowerHex(s[i])
    ensures r.Some? ==> r.value == s
  {
    if |s| != 64 || !AllLowerHex(s) then None else Some(s)
  }

  // The hex digests are exactly the strings `from_hex` accepts, one for each
  // 32-byte value.
  lemma HexDigestsAreFaithful(a: Hash32, b: Hash32, s: string)
    ensures FromHex(HexLower(a)) == Some(HexLower(a))
    ensures HexLower(a) == HexLower(b) ==> a == b
    ensures FromHex(s).Some? ==> HexLower(Unhex(s)) == s && |Unhex(s)| == 32
  {
    UnhexHex(a);
    UnhexHex(b);
    if FromHex(s).Some? {
      HexUnhex(s);
    }
  }

  function DigestOf(sha: Sha256, bytes: seq<byte>): Sha256Hex {
    HexLower(sha(bytes))
  }

  // No two of the byte strings at hand share a hash.
  predicate NoCollision(sha: Sha256, a: seq<byte>, b: seq<byte>) {
    sha(a) == sha(b) ==> a == b
  }

  lemma DigestSeparates(sha: Sha256, a: seq<byte>, b: seq<byte>)
    requires NoCollision(sha, a, b)
    ensures DigestOf(sha, a) == DigestOf(sha, b) <==> a == b
  {
    UnhexHex(sha(a));
    UnhexHex(sha(b));
  }

  method FormatHexLower(bytes: seq<byte>) returns (out: string)
    ensures out == HexLower(bytes)
  {
    out := "";
    for i := 0 to |bytes|
      invariant out + HexLower(bytes[i..]) == HexLower(bytes)
    {
      ConcatAssoc(out, HexByte(bytes[i]), HexLower(bytes[i + 1..]));
      assert bytes[i..][1..] == bytes[i + 1..];
      out := out + HexByte(bytes[i]);
    }
    assert bytes[|bytes|..] == [];
    assert out + "" == out;
  }

  // The streaming hasher: what it has absorbed decides the digest.
  class Sha256Writer {
    const sha: Sha256
    var absorbed: seq<byte>

    constructor (sha: Sha256)
      ensures this.sha == sha && absorbed == []
    {
      this.sha := sha;
      absorbed := [];
    }

    method Update(bytes: seq<byte>)
      modifies this`absorbed
      ensures absorbed == old(absorbed) + bytes
    {
      absorbed := absorbed + bytes;
    }

    method Finalize() returns (digest: Sha256Hex)
      ensures digest == DigestOf(sha, absorbed)
    {
      digest := FormatHexLower(sha(absorbed));
    }
  }
}
