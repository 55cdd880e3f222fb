/** Bytes as text: the base 64 encoding of section 4 of RFC 4648. */
module Base64 {
  import opened Wrappers

  type Byte = x: int | 0 <= x < 256

  /** The alphabet: capital letters, small letters, digits, '+' and '/'. */
  function Letter(sextet: int): char
    requires 0 <= sextet < 64
  {
    if sextet < 26 then ('A' as int + sextet) as char
    else if sextet < 52 then ('a' as int + (sextet - 26)) as char
    else if sextet < 62 then ('0' as int + (sextet - 52)) as char
    else if sextet == 62 then '+' else '/'
  }

  function Sextet(c: char): Option<nat> {
    if 'A' <= c <= 'Z' then Some(c as nat - 'A' as nat)
    else if 'a' <= c <= 'z' then Some(c as nat - 'a' as nat + 26)
    else if '0' <= c <= '9' then Some(c as nat - '0' as nat + 52)
    else if c == '+' then Some(62)
    else if c == '/' then Some(63)
    else None
  }

  /** Table 1 of RFC 4648: capital letters from 0, small ones from 26, digits from 52, each in order, then two signs. */
  lemma LettersInOrder(sextet: int)
    requires 0 <= sextet < 63
    ensures Letter(0) == 'A' && Letter(25) == 'Z' && Letter(26) == 'a' && Letter(51) == 'z'
    ensures Letter(52) == '0' && Letter(61) == '9' && Letter(62) == '+' && Letter(63) == '/'
    ensures sextet !in {25, 51, 61, 62} ==> Letter(sextet + 1) as int == Letter(sextet) as int + 1
  {
  }

  lemma LetterRoundTrip(sextet: int)
    requires 0 <= sextet < 64
    ensures Sextet(Letter(sextet)) == Some(sextet) && Letter(sextet) != '='
  {
  }

  /** Three bytes become four letters; one or two at the end are padded. */
  function Encode(bytes: seq<Byte>): string {
    if bytes == [] then ""
    else if |bytes| == 1 then [Letter(bytes[0] / 4), Letter(bytes[0] % 4 * 16), '=', '=']
    else if |bytes| == 2 then
      [Letter(bytes[0] / 4), Letter(bytes[0] % 4 * 16 + bytes[1] / 16), Letter(bytes[1] % 16 * 4), '=']
    else Group(bytes[0], bytes[1], bytes[2]) + Encode(bytes[3..])
  }

  /** The four letters of three bytes. */
  function Group(x: Byte, y: Byte, z: Byte): string {
    [Letter(x / 4), Letter(x % 4 * 16 + y / 16), Letter(y % 16 * 4 + z / 64), Letter(z % 64)]
  }

  function First(a: nat, b: nat): int {
    (a * 4 + b / 16) % 256
  }

  function Second(b: nat, c: nat): int {
    (b % 16 * 16 + c / 4) % 256
  }

  function Third(c: nat, d: nat): int {
    (c % 4 * 64 + d) % 256
  }

  /** Four letters become three bytes, fewer before padding. */
  function Decode(text: string): Option<seq<Byte>> {
    if text == "" then Some([])
    else if |text| < 4 then None
    else
      var a, b := Sextet(text[0]), Sextet(text[1]);
      var c, d := Sextet(text[2]), Sextet(text[3]);
      if a == None || b == None then None
      else if text[2] == '=' && text[3] == '=' then
        if |text| == 4 then Some([First(a.value, b.value)]) else None
      else if c == None then None
      else if text[3] == '=' then
        if |text| == 4 then Some([First(a.value, b.value), Second(b.value, c.value)]) else None
      else if d == None then None
      else
        var rest := Decode(text[4..]);
        if rest == None then None
        else Some([First(a.value, b.value), Second(b.value, c.value), Third(c.value, d.value)] + rest.value)
  }

  /** The bits of three bytes, regrouped into four sextets and back. */
  lemma RegroupFirst(x: Byte, y: Byte)
    ensures First(x / 4, x % 4 * 16 + y / 16) == x
  {
  }

  lemma RegroupSecond(x: Byte, y: Byte, z: Byte)
    ensures Second(x % 4 * 16 + y / 16, y % 16 * 4 + z / 64) == y
  {
    assert (x % 4 * 16 + y / 16) % 16 == y / 16;
    assert (y % 16 * 4 + z / 64) / 4 == y % 16;
  }

  lemma RegroupThird(y: Byte, z: Byte)
    ensures Third(y % 16 * 4 + z / 64, z % 64) == z
  {
    assert (y % 16 * 4 + z / 64) % 4 == z / 64;
  }

  lemma GroupLetters(x: Byte, y: Byte, z: Byte)
    ensures var g := Group(x, y, z);
            && Sextet(g[0]) == Some(x / 4) && Sextet(g[1]) == Some(x % 4 * 16 + y / 16)
            && Sextet(g[2]) == Some(y % 16 * 4 + z / 64) && Sextet(g[3]) == Some(z % 64)
            && g[2] != '=' && g[3] != '='
  {
    LetterRoundTrip(x / 4);
    LetterRoundTrip(x % 4 * 16 + y / 16);
    LetterRoundTrip(y % 16 * 4 + z / 64);
    LetterRoundTrip(z % 64);
  }

  /** A full group of four letters, and what follows it. */
  lemma DecodeGroup(x: Byte, y: Byte, z: Byte, rest: string)
    requires Decode(rest).Some?
    ensures Decode(Group(x, y, z) + rest) == Some([x, y, z] + Decode(rest).value)
  {
    GroupLetters(x, y, z);
    RegroupFirst(x, y);
    RegroupSecond(x, y, z);
    RegroupThird(y, z);
    AppendSlices(Group(x, y, z), rest);
  }

  lemma DecodeOne(x: Byte)
    ensures Decode(Encode([x])) == Some([x])
  {
    RegroupFirst(x, 0);
    LetterRoundTrip(x / 4);
    LetterRoundTrip(x % 4 * 16);
  }

  lemma DecodeTwo(x: Byte, y: Byte)
    ensures Decode(Encode([x, y])) == Some([x, y])
  {
    RegroupFirst(x, y);
    RegroupSecond(x, y, 0);
    LetterRoundTrip(x / 4);
    LetterRoundTrip(x % 4 * 16 + y / 16);
    LetterRoundTrip(y % 16 * 4);
  }

  lemma SplitThree(bytes: seq<Byte>)
    requires |bytes| > 2
    ensures bytes == [bytes[0], bytes[1], bytes[2]] + bytes[3..]
  {
  }

  lemma FewBytes(bytes: seq<Byte>)
    requires |bytes| <= 2
    ensures Decode(Encode(bytes)) == Some(bytes)
  {
    if |bytes| == 1 {
      assert bytes == [bytes[0]];
      DecodeOne(bytes[0]);
    } else if |bytes| == 2 {
      assert bytes == [bytes[0], bytes[1]];
      DecodeTwo(bytes[0], bytes[1]);
    }
  }

  /** Decoding undoes encoding. */
  lemma {:induction false} RoundTrip(bytes: seq<Byte>)
    ensures Decode(Encode(bytes)) == Some(bytes)
    decreases |bytes|
  {
    if |bytes| <= 2 {
      FewBytes(bytes);
    } else {
      RoundTrip(bytes[3..]);
      DecodeGroup(bytes[0], bytes[1], bytes[2], Encode(bytes[3..]));
      SplitThree(bytes);
    }
  }
}
