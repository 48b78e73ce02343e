/**
 * The pure parts of `User`: the lower-case hex rendering of the password
 * digest (`bytesToHex`) and the constructor's address normalisation.
 */
module Users {
  import opened Wrappers

  /** A Java `byte`: signed, -128..127. */
  newtype JavaByte = b: int | -128 <= b < 128

  /** The value `%02x` prints for a `Byte`: negative bytes get 256 added. */
  function Unsigned(b: JavaByte): (u: nat)
    ensures u < 256 && u % 256 == (b as int) % 256
  {
    if b < 0 then b as int + 256 else b as int
  }

  predicate IsLowerHexDigit(c: char) {
    '0' <= c <= '9' || 'a' <= c <= 'f'
  }

  function HexDigit(d: nat): (c: char)
    requires d < 16
    ensures IsLowerHexDigit(c)
  {
    if d < 10 then (d + '0' as int) as char else (d - 10 + 'a' as int) as char
  }

  function HexDigitValue(c: char): (d: nat)
    requires IsLowerHexDigit(c)
    ensures d < 16 && HexDigit(d) == c
  {
    if c <= '9' then c as int - '0' as int else c as int - 'a' as int + 10
  }

  /** `String.format("%02x", b)`: two lower-case digits, high nibble first. */
  function ByteHex(b: JavaByte): (s: string)
    ensures |s| == 2
  {
    [HexDigit(Unsigned(b) / 16), HexDigit(Unsigned(b) % 16)]
  }

  /** What the `StringBuilder` holds after appending the bytes in order. */
  function Hex(bytes: seq<JavaByte>): string
  {
    if bytes == [] then "" else Hex(bytes[..|bytes| - 1]) + ByteHex(bytes[|bytes| - 1])
  }

  /**
   * Characters `2i` and `2i+1` are the high and low nibble of byte `i`,
   * read as unsigned; so the output is twice as long and all lower-case hex.
   */
  lemma {:induction false} HexAt(bytes: seq<JavaByte>)
    ensures |Hex(bytes)| == 2 * |bytes|
    ensures forall i :: 0 <= i < |bytes| ==>
      Hex(bytes)[2 * i] == HexDigit(Unsigned(bytes[i]) / 16) && Hex(bytes)[2 * i + 1] == HexDigit(Unsigned(bytes[i]) % 16)
    ensures forall k :: 0 <= k < |Hex(bytes)| ==> IsLowerHexDigit(Hex(bytes)[k])
  {
    if bytes != [] {
      HexAt(bytes[..|bytes| - 1]);
    }
  }

  /** Reading the text back pair by pair, as the unsigned byte values. */
  function UnHex(text: string): (values: seq<nat>)
    requires |text| % 2 == 0
    requires forall k :: 0 <= k < |text| ==> IsLowerHexDigit(text[k])
    ensures |values| == |text| / 2
    ensures forall i :: 0 <= i < |values| ==> values[i] == 16 * HexDigitValue(text[2 * i]) + HexDigitValue(text[2 * i + 1])
  {
    seq(|text| / 2, i requires 0 <= i < |text| / 2 => 16 * HexDigitValue(text[2 * i]) + HexDigitValue(text[2 * i + 1]))
  }

  /** `bytesToHex` loses nothing: decoding gives back every byte. */
  lemma HexDecodes(bytes: seq<JavaByte>)
    ensures |Hex(bytes)| % 2 == 0 && forall k :: 0 <= k < |Hex(bytes)| ==> IsLowerHexDigit(Hex(bytes)[k])
    ensures var values := UnHex(Hex(bytes));
      |values| == |bytes| && forall i :: 0 <= i < |bytes| ==> values[i] == Unsigned(bytes[i])
  {
    HexAt(bytes);
  }

  /** Two byte strings with the same rendering are equal. */
  lemma HexInjective(a: seq<JavaByte>, b: seq<JavaByte>)
    requires Hex(a) == Hex(b)
    ensures a == b
  {
    HexDecodes(a);
    HexDecodes(b);
    forall i | 0 <= i < |a| ensures a[i] == b[i] {
      assert Unsigned(a[i]) == Unsigned(b[i]);
    }
  }

  /** A 20-byte SHA-1 digest becomes a 40-character hash. */
  lemma DigestHexLength(digest: seq<JavaByte>)
    requires |digest| == 20
    ensures |Hex(digest)| == 40
  {
    HexAt(digest);
  }

  /** `bytesToHex`: append `%02x` of each byte to a `StringBuilder`. */
  method BytesToHex(bytes: seq<JavaByte>) returns (hex: string)
    ensures hex == Hex(bytes)
    ensures |hex| == 2 * |bytes|
  {
    hex := "";
    for i := 0 to |bytes|
      invariant hex == Hex(bytes[..i])
    {
      assert bytes[..i + 1][..i] == bytes[..i];
      hex := hex + ByteHex(bytes[i]);
    }
    assert bytes[..|bytes|] == bytes;
    HexAt(bytes);
  }

  datatype User = User(id: int, username: string, name: string, surname: string, address: string)

  /** The private constructor: a null address becomes `""`. */
  function NewUser(id: int, username: string, name: string, surname: string, address: Option<string>): (u: User)
    ensures address.None? ==> u.address == ""
    ensures address.Some? ==> u.address == address.value
    ensures u.id == id && u.username == username && u.name == name && u.surname == surname
  {
    User(id, username, name, surname, address.GetOr(""))
  }
}
