/**
 The parameter codec: `encodeURIComponent` and `decodeURIComponent` over well-formed strings,
 that is percent-encoding (RFC 3986, section 2.1) of UTF-8 octets (RFC 3629, section 3).
 */
module PercentCodec {
  import opened Options
  import opened Text

  type Octet = b: int | 0 <= b < 0x100

  // ----- UTF-8

  function Utf8(c: char): (octets: seq<Octet>) {
    var n := c as int;
    if n < 0x80 then [n]
    else if n < 0x800 then [0xC0 + n / 0x40, 0x80 + n % 0x40]
    else if n < 0x10000 then [0xE0 + n / 0x1000, 0x80 + n / 0x40 % 0x40, 0x80 + n % 0x40]
    else [0xF0 + n / 0x40000, 0x80 + n / 0x1000 % 0x40, 0x80 + n / 0x40 % 0x40, 0x80 + n % 0x40]
  }

  /** The number of leading one bits, where 5 stands for any more. */
  function LeadingOnes(b: Octet): nat {
    if b < 0x80 then 0 else if b < 0xC0 then 1 else if b < 0xE0 then 2
    else if b < 0xF0 then 3 else if b < 0xF8 then 4 else 5
  }

  predicate IsContinuation(b: Octet) {
    0x80 <= b < 0xC0
  }

  /** The code point of a whole octet sequence: not overlong, not a surrogate, not too large. */
  function FromUtf8(octets: seq<Octet>): Option<char> {
    if octets == [] || |octets| > 4 || LeadingOnes(octets[0]) != (if |octets| == 1 then 0 else |octets|)
       || exists i :: 1 <= i < |octets| && !IsContinuation(octets[i]) then None
    else
      match |octets|
      case 1 => Some(octets[0] as char)
      case 2 => Scalar(Tail(octets[0] - 0xC0, octets[1..]), 0x80)
      case 3 => Scalar(Tail(octets[0] - 0xE0, octets[1..]), 0x800)
      case _ => Scalar(Tail(octets[0] - 0xF0, octets[1..]), 0x10000)
  }

  /** The lead's bits followed by six bits of each continuation octet. */
  function Tail(bits: int, octets: seq<Octet>): int
    decreases octets
  {
    if octets == [] then bits
    else Tail(bits * 0x40 + octets[0] - 0x80, octets[1..])
  }

  function Scalar(n: int, least: nat): Option<char> {
    if least <= n < 0xD800 || (least <= n && 0xE000 <= n < 0x11_0000) then Some(n as char) else None
  }

  lemma TailOfOne(a: int, x: int)
    requires 0 <= x < 0x40
    ensures Tail(a, [0x80 + x]) == a * 0x40 + x
  {
  }

  lemma TailOfTwo(a: int, x: int, y: int)
    requires 0 <= x < 0x40 && 0 <= y < 0x40
    ensures Tail(a, [0x80 + x, 0x80 + y]) == (a * 0x40 + x) * 0x40 + y
  {
    TailOfOne(a * 0x40 + x, y);
    assert [0x80 + x, 0x80 + y][1..] == [0x80 + y];
  }

  lemma TailOfThree(a: int, x: int, y: int, z: int)
    requires 0 <= x < 0x40 && 0 <= y < 0x40 && 0 <= z < 0x40
    ensures Tail(a, [0x80 + x, 0x80 + y, 0x80 + z]) == ((a * 0x40 + x) * 0x40 + y) * 0x40 + z
  {
    TailOfTwo(a * 0x40 + x, y, z);
    assert [0x80 + x, 0x80 + y, 0x80 + z][1..] == [0x80 + y, 0x80 + z];
  }

  lemma SixBits(n: nat)
    ensures n == n / 0x40 * 0x40 + n % 0x40
    ensures n / 0x40 / 0x40 == n / 0x1000
    ensures n / 0x1000 / 0x40 == n / 0x40000
  {
  }

  lemma Utf8RoundTrip2(n: nat)
    requires 0x80 <= n < 0x800
    ensures FromUtf8(Utf8(n as char)) == Some(n as char)
  {
    SixBits(n);
    TailOfOne(n / 0x40, n % 0x40);
    assert Utf8(n as char)[1..] == [0x80 + n % 0x40];
  }

  lemma Utf8RoundTrip3(n: nat)
    requires 0x800 <= n < 0xD800 || 0xE000 <= n < 0x10000
    ensures FromUtf8(Utf8(n as char)) == Some(n as char)
  {
    SixBits(n);
    SixBits(n / 0x40);
    TailOfTwo(n / 0x1000, n / 0x40 % 0x40, n % 0x40);
    assert Utf8(n as char)[1..] == [0x80 + n / 0x40 % 0x40, 0x80 + n % 0x40];
  }

  lemma Utf8RoundTrip4(n: nat)
    requires 0x10000 <= n < 0x11_0000
    ensures FromUtf8(Utf8(n as char)) == Some(n as char)
  {
    SixBits(n);
    SixBits(n / 0x40);
    SixBits(n / 0x1000);
    TailOfThree(n / 0x40000, n / 0x1000 % 0x40, n / 0x40 % 0x40, n % 0x40);
    assert Utf8(n as char)[1..]
        == [0x80 + n / 0x1000 % 0x40, 0x80 + n / 0x40 % 0x40, 0x80 + n % 0x40];
  }

  /** Every character is recovered from its octets. */
  lemma Utf8RoundTrip(c: char)
    ensures FromUtf8(Utf8(c)) == Some(c)
  {
    var n := c as int;
    if n >= 0x10000 {
      Utf8RoundTrip4(n);
    } else if n >= 0x800 {
      Utf8RoundTrip3(n);
    } else if n >= 0x80 {
      Utf8RoundTrip2(n);
    }
  }

  // ----- hexadecimal digits

  function UpperHex(n: int): char
    requires 0 <= n < 16
  {
    if n < 10 then '0' + n as char else 'A' + (n - 10) as char
  }

  predicate IsUpperHex(c: char) {
    '0' <= c <= '9' || 'A' <= c <= 'F'
  }

  function HexValue(c: char): Option<nat> {
    if '0' <= c <= '9' then Some((c - '0') as int)
    else if 'A' <= c <= 'F' then Some((c - 'A') as int + 10)
    else if 'a' <= c <= 'f' then Some((c - 'a') as int + 10)
    else None
  }

  function Triple(b: Octet): string {
    ['%', UpperHex(b / 16), UpperHex(b % 16)]
  }

  /** One `%HH` triple at the start of the text. */
  function ReadOctet(t: string): Option<Octet> {
    if |t| < 3 || t[0] != '%' || HexValue(t[1]).None? || HexValue(t[2]).None? then None
    else Octet16(HexValue(t[1]).value, HexValue(t[2]).value)
  }

  function Octet16(high: nat, low: nat): Option<Octet> {
    if high < 16 && low < 16 then Some(high * 16 + low) else None
  }

  lemma TripleRoundTrip(b: Octet, t: string)
    ensures ReadOctet(Triple(b) + t) == Some(b)
    ensures IsUpperHex(Triple(b)[1]) && IsUpperHex(Triple(b)[2])
  {
  }

  // ----- encodeURIComponent

  predicate IsUnescaped(c: char) {
    'A' <= c <= 'Z' || 'a' <= c <= 'z' || '0' <= c <= '9' || c in "-_.!~*'()"
  }

  function Triples(octets: seq<Octet>): string {
    if octets == [] then "" else Triple(octets[0]) + Triples(octets[1..])
  }

  function EncodeChar(c: char): string {
    if IsUnescaped(c) then [c] else Triples(Utf8(c))
  }

  function Encode(s: string): string {
    if s == "" then "" else EncodeChar(s[0]) + Encode(s[1..])
  }

  function EncodeAll(values: seq<string>): (encoded: seq<string>)
    ensures |encoded| == |values|
    ensures forall i :: 0 <= i < |values| ==> encoded[i] == Encode(values[i])
  {
    if values == [] then [] else [Encode(values[0])] + EncodeAll(values[1..])
  }

  // ----- decodeURIComponent

  function ReadOctets(t: string, count: nat): (octets: Option<seq<Octet>>)
    ensures octets.Some? ==> |octets.value| == count && |t| >= 3 * count
  {
    if count == 0 then Some([])
    else
      var first := ReadOctet(t);
      if first.None? then None
      else
        var rest := ReadOctets(t[3..], count - 1);
        if rest.None? then None else Some([first.value] + rest.value)
  }

  function Prepend(c: char, rest: Option<string>): Option<string> {
    if rest.None? then None else Some([c] + rest.value)
  }

  /** `None` is the URIError of a malformed sequence. */
  function Decode(t: string): Option<string> {
    if t == "" then Some("")
    else if t[0] != '%' then Prepend(t[0], Decode(t[1..]))
    else
      var lead := ReadOctet(t);
      if lead.None? then None
      else
        var ones := LeadingOnes(lead.value);
        if ones == 1 || ones > 4 then None
        else
          var count := if ones == 0 then 1 else ones;
          var octets := ReadOctets(t, count);
          if octets.None? then None
          else
            var c := FromUtf8(octets.value);
            if c.None? then None else Prepend(c.value, Decode(t[3 * count..]))
  }

  function DecodeAll(texts: seq<string>): Option<seq<string>> {
    if texts == [] then Some([])
    else
      var first, rest := Decode(texts[0]), DecodeAll(texts[1..]);
      if first.None? || rest.None? then None else Some([first.value] + rest.value)
  }

  // ----- the laws

  lemma {:induction false} TriplesRoundTrip(octets: seq<Octet>, t: string)
    ensures ReadOctets(Triples(octets) + t, |octets|) == Some(octets)
    ensures |Triples(octets)| == 3 * |octets|
  {
    if octets != [] {
      var rest := Triples(octets[1..]) + t;
      assert Triples(octets) + t == Triple(octets[0]) + rest;
      TripleRoundTrip(octets[0], rest);
      TriplesRoundTrip(octets[1..], t);
      assert (Triple(octets[0]) + rest)[3..] == rest;
      assert [octets[0]] + octets[1..] == octets;
    }
  }

  lemma DecodeOctets(octets: seq<Octet>, c: char, t: string)
    requires octets != [] && FromUtf8(octets) == Some(c)
    ensures Decode(Triples(octets) + t) == Prepend(c, Decode(t))
  {
    var rest := Triples(octets[1..]) + t;
    var text := Triples(octets) + t;
    TriplesRoundTrip(octets, t);
    assert text == Triple(octets[0]) + rest;
    TripleRoundTrip(octets[0], rest);
    assert text[3 * |octets|..] == t;
  }

  lemma DecodeEncodedChar(c: char, t: string)
    ensures Decode(EncodeChar(c) + t) == Prepend(c, Decode(t))
  {
    if IsUnescaped(c) {
      assert ([c] + t)[1..] == t;
    } else {
      Utf8RoundTrip(c);
      DecodeOctets(Utf8(c), c, t);
    }
  }

  /** Decoding undoes encoding, for every well-formed string. */
  lemma {:induction false} DecodeEncode(s: string)
    ensures Decode(Encode(s)) == Some(s)
  {
    if s != "" {
      DecodeEncodedChar(s[0], Encode(s[1..]));
      DecodeEncode(s[1..]);
      assert [s[0]] + s[1..] == s;
    }
  }

  lemma {:induction false} DecodeEncodeAll(values: seq<string>)
    ensures DecodeAll(EncodeAll(values)) == Some(values)
  {
    if values != [] {
      DecodeEncode(values[0]);
      DecodeEncodeAll(values[1..]);
      assert EncodeAll(values)[1..] == EncodeAll(values[1..]);
      assert [values[0]] + values[1..] == values;
    }
  }

  /** Different strings have different encodings. */
  lemma EncodeInjective(a: string, b: string)
    requires Encode(a) == Encode(b)
    ensures a == b
  {
    DecodeEncode(a);
    DecodeEncode(b);
  }

  // ----- what comes out

  /** Letters, digits, and the nine marks. */
  predicate StaysPlain(c: char) {
    || 'A' <= c <= 'Z' || 'a' <= c <= 'z' || '0' <= c <= '9'
    || c == '-' || c == '_' || c == '.' || c == '!' || c == '~' || c == '*' || c == '\'' || c == '(' || c == ')'
  }

  /** Text made of those and upper-case `%HH` triples only. */
  predicate IsEncoded(t: string)
    decreases |t|
  {
    t == ""
    || (StaysPlain(t[0]) && IsEncoded(t[1..]))
    || (|t| >= 3 && t[0] == '%' && IsUpperHex(t[1]) && IsUpperHex(t[2]) && IsEncoded(t[3..]))
  }

  lemma TriplesCons(octets: seq<Octet>, t: string)
    requires octets != []
    ensures Triples(octets) + t == Triple(octets[0]) + (Triples(octets[1..]) + t)
  {
  }

  lemma TripleEncoded(b: Octet, t: string)
    requires IsEncoded(t)
    ensures IsEncoded(Triple(b) + t)
  {
  }

  lemma {:induction false} TriplesEncoded(octets: seq<Octet>, t: string)
    requires IsEncoded(t)
    ensures IsEncoded(Triples(octets) + t)
  {
    if octets == [] {
      assert Triples(octets) + t == t;
    } else {
      TriplesEncoded(octets[1..], t);
      TripleEncoded(octets[0], Triples(octets[1..]) + t);
      TriplesCons(octets, t);
    }
  }

  lemma {:induction false} EncodeIsEncoded(s: string)
    ensures IsEncoded(Encode(s))
  {
    if s != "" {
      EncodeIsEncoded(s[1..]);
      if StaysPlain(s[0]) {
        assert Encode(s)[1..] == Encode(s[1..]);
      } else {
        TriplesEncoded(Utf8(s[0]), Encode(s[1..]));
      }
    }
  }

  /** The characters a query string is built with around encoded text. */
  predicate IsSeparator(c: char) {
    c in "&=, |\t"
  }

  lemma {:induction false} EncodedWithout(t: string, c: char)
    requires IsEncoded(t) && IsSeparator(c)
    ensures Without(t, c)
    decreases |t|
  {
    if t != "" {
      if StaysPlain(t[0]) {
        EncodedWithout(t[1..], c);
        assert forall i :: 1 <= i < |t| ==> t[i] == t[1..][i - 1];
      } else {
        EncodedWithout(t[3..], c);
        assert forall i :: 3 <= i < |t| ==> t[i] == t[3..][i - 3];
      }
    }
  }

  /** Encoded text never contains a separator. */
  lemma EncodeHidesSeparators(s: string, c: char)
    requires IsSeparator(c)
    ensures Without(Encode(s), c)
  {
    EncodeIsEncoded(s);
    EncodedWithout(Encode(s), c);
  }

  // ----- which characters stay

  lemma {:induction false} EncodedIsPlain(t: string)
    requires IsEncoded(t)
    ensures forall i :: 0 <= i < |t| ==> StaysPlain(t[i]) || t[i] == '%'
    decreases |t|
  {
    if t != "" {
      var n := if StaysPlain(t[0]) then 1 else 3;
      EncodedIsPlain(t[n..]);
      assert forall i :: n <= i < |t| ==> t[i] == t[n..][i - n];
    }
  }

  /** Nothing but letters, digits, the nine marks and `%` comes out. */
  lemma EncodedCharacters(s: string, i: nat)
    requires i < |Encode(s)|
    ensures StaysPlain(Encode(s)[i]) || Encode(s)[i] == '%'
  {
    EncodeIsEncoded(s);
    EncodedIsPlain(Encode(s));
  }

  lemma EncodeCharLength(c: char)
    ensures if StaysPlain(c) then EncodeChar(c) == [c] else |EncodeChar(c)| >= 3
  {
    TriplesRoundTrip(Utf8(c), "");
  }

  lemma {:induction false} EncodeLength(s: string)
    ensures |Encode(s)| >= |s|
    ensures Encode(s) == s <==> forall i :: 0 <= i < |s| ==> StaysPlain(s[i])
    ensures |Encode(s)| == |s| ==> Encode(s) == s
  {
    if s != "" {
      EncodeLength(s[1..]);
      EncodeCharLength(s[0]);
      assert s == [s[0]] + s[1..];
      if StaysPlain(s[0]) {
        assert Encode(s)[1..] == Encode(s[1..]);
        assert forall i :: 1 <= i < |s| ==> s[i] == s[1..][i - 1];
      }
    }
  }

  /** A text is its own encoding exactly when it has letters, digits and the nine marks only. */
  lemma EncodesItselfIff(s: string)
    ensures Encode(s) == s <==> forall i :: 0 <= i < |s| ==> StaysPlain(s[i])
  {
    EncodeLength(s);
  }

  // ----- what can be decoded

  /** A hexadecimal digit of the value, in either case. */
  predicate IsDigitOf(c: char, value: int)
    requires 0 <= value < 16
  {
    c == "0123456789ABCDEF"[value] || c == "0123456789abcdef"[value]
  }

  predicate IsTripleOf(t: string, b: Octet) {
    |t| == 3 && t[0] == '%' && IsDigitOf(t[1], b / 16) && IsDigitOf(t[2], b % 16)
  }

  predicate Escapes(t: string, octets: seq<Octet>) {
    if octets == [] then t == ""
    else |t| >= 3 && IsTripleOf(t[..3], octets[0]) && Escapes(t[3..], octets[1..])
  }

  /** A character stands for itself, unless it is `%`; or its UTF-8 octets are escaped one by one. */
  predicate SpellsChar(t: string, c: char) {
    (t == [c] && c != '%') || Escapes(t, Utf8(c))
  }

  ghost predicate Spells(t: string, s: string)
    decreases s
  {
    if s == "" then t == ""
    else exists n :: 0 < n <= |t| && SpellsChar(t[..n], s[0]) && Spells(t[n..], s[1..])
  }

  lemma DigitsReadBack(c: char)
    ensures HexValue(c).Some? ==> 0 <= HexValue(c).value < 16 && IsDigitOf(c, HexValue(c).value)
    ensures forall v :: 0 <= v < 16 && IsDigitOf(c, v) ==> HexValue(c) == Some(v)
  {
  }

  /** An octet is read exactly where its triple stands. */
  lemma ReadOctetIff(t: string, b: Octet)
    ensures ReadOctet(t) == Some(b) <==> |t| >= 3 && IsTripleOf(t[..3], b)
  {
    if |t| >= 3 {
      DigitsReadBack(t[1]);
      DigitsReadBack(t[2]);
    }
  }

  lemma {:induction false} ReadOctetsIff(t: string, octets: seq<Octet>)
    ensures ReadOctets(t, |octets|) == Some(octets)
       <==> |t| >= 3 * |octets| && Escapes(t[..3 * |octets|], octets)
    decreases |octets|
  {
    if octets != [] {
      ReadOctetIff(t, octets[0]);
      if |t| >= 3 * |octets| {
        var start := t[..3 * |octets|];
        assert start[..3] == t[..3];
        assert start[3..] == t[3..][..3 * |octets[1..]|];
      }
      if |t| >= 3 {
        ReadOctetsIff(t[3..], octets[1..]);
      }
      assert octets == [octets[0]] + octets[1..];
    }
  }

  lemma SixBitsBack(a: int, x: int)
    requires 0 <= x < 0x40
    ensures (a * 0x40 + x) / 0x40 == a && (a * 0x40 + x) % 0x40 == x
  {
  }

  lemma Utf8Strict2(octets: seq<Octet>, c: char)
    requires FromUtf8(octets) == Some(c) && |octets| == 2
    ensures octets == Utf8(c)
  {
    var a: int, x: int := octets[0] - 0xC0, octets[1] - 0x80;
    assert IsContinuation(octets[1]) && octets[1..] == [0x80 + x];
    TailOfOne(a, x);
    SixBitsBack(a, x);
  }

  lemma Utf8Strict3(octets: seq<Octet>, c: char)
    requires FromUtf8(octets) == Some(c) && |octets| == 3
    ensures octets == Utf8(c)
  {
    var a: int, x: int, y: int := octets[0] - 0xE0, octets[1] - 0x80, octets[2] - 0x80;
    assert IsContinuation(octets[1]) && IsContinuation(octets[2]) && octets[1..] == [0x80 + x, 0x80 + y];
    TailOfTwo(a, x, y);
    SixBitsBack(a * 0x40 + x, y);
    SixBitsBack(a, x);
    SixBits(c as int);
  }

  lemma Utf8Strict4(octets: seq<Octet>, c: char)
    requires FromUtf8(octets) == Some(c) && |octets| == 4
    ensures octets == Utf8(c)
  {
    var a: int, x: int := octets[0] - 0xF0, octets[1] - 0x80;
    var y: int, z: int := octets[2] - 0x80, octets[3] - 0x80;
    assert IsContinuation(octets[1]) && IsContinuation(octets[2]) && IsContinuation(octets[3]);
    assert octets[1..] == [0x80 + x, 0x80 + y, 0x80 + z];
    TailOfThree(a, x, y, z);
    SixBitsBack((a * 0x40 + x) * 0x40 + y, z);
    SixBitsBack(a * 0x40 + x, y);
    SixBitsBack(a, x);
    SixBits(c as int);
  }

  /** An escaped octet has its two digits in upper case. */
  lemma TripleText(b: Octet)
    ensures Triple(b) == ['%', "0123456789ABCDEF"[b / 16], "0123456789ABCDEF"[b % 16]]
    ensures IsTripleOf(Triple(b), b)
  {
  }

  /** Only a character's own octets are read as the character. */
  lemma Utf8Strict(octets: seq<Octet>, c: char)
    requires FromUtf8(octets) == Some(c)
    ensures octets == Utf8(c)
  {
    if |octets| == 2 {
      Utf8Strict2(octets, c);
    } else if |octets| == 3 {
      Utf8Strict3(octets, c);
    } else if |octets| == 4 {
      Utf8Strict4(octets, c);
    }
  }

  /** What the `%` at the start of a text is read as: some octets, one character, and the rest. */
  lemma DecodeEscape(t: string, octets: seq<Octet>, c: char)
    requires octets != [] && |t| >= 3 * |octets| && Escapes(t[..3 * |octets|], octets)
    requires FromUtf8(octets) == Some(c)
    ensures Decode(t) == Prepend(c, Decode(t[3 * |octets|..]))
  {
    ReadOctetsIff(t, octets);
    ReadOctetIff(t, octets[0]);
    assert t[..3 * |octets|][..3] == t[..3];
  }

  lemma DecodedEscape(t: string) returns (octets: seq<Octet>, c: char)
    requires t != "" && t[0] == '%' && Decode(t).Some?
    ensures octets != [] && |t| >= 3 * |octets| && Escapes(t[..3 * |octets|], octets)
    ensures FromUtf8(octets) == Some(c)
    ensures Decode(t) == Prepend(c, Decode(t[3 * |octets|..]))
  {
    var ones := LeadingOnes(ReadOctet(t).value);
    octets := ReadOctets(t, if ones == 0 then 1 else ones).value;
    c := FromUtf8(octets).value;
    ReadOctetsIff(t, octets);
  }

  lemma {:induction false} DecodedIsSpelled(t: string, s: string)
    requires Decode(t) == Some(s)
    ensures Spells(t, s)
    decreases |t|
  {
    if t != "" {
      if t[0] != '%' {
        DecodedIsSpelled(t[1..], s[1..]);
        assert SpellsChar(t[..1], s[0]) && Spells(t[1..], s[1..]);
      } else {
        var octets, c := DecodedEscape(t);
        var n := 3 * |octets|;
        Utf8Strict(octets, c);
        DecodedIsSpelled(t[n..], s[1..]);
        assert SpellsChar(t[..n], s[0]) && Spells(t[n..], s[1..]);
      }
    }
  }

  lemma {:induction false} SpelledIsDecoded(t: string, s: string)
    requires Spells(t, s)
    ensures Decode(t) == Some(s)
    decreases s
  {
    if s != "" {
      var n := SpelledStart(t, s);
      SpelledIsDecoded(t[n..], s[1..]);
      assert [s[0]] + s[1..] == s;
    }
  }

  lemma SpelledStart(t: string, s: string) returns (n: nat)
    requires Spells(t, s) && s != ""
    ensures n <= |t| && Spells(t[n..], s[1..]) && Decode(t) == Prepend(s[0], Decode(t[n..]))
  {
    n :| 0 < n <= |t| && SpellsChar(t[..n], s[0]) && Spells(t[n..], s[1..]);
    DecodeSpelledChar(t, n, s[0]);
  }

  lemma DecodeSpelledChar(t: string, n: nat, c: char)
    requires 0 < n <= |t| && SpellsChar(t[..n], c)
    ensures Decode(t) == Prepend(c, Decode(t[n..]))
  {
    if t[..n] == [c] && c != '%' {
      assert t[0] == t[..n][0];
    } else {
      Utf8RoundTrip(c);
      EscapesLength(t[..n], Utf8(c));
      DecodeEscape(t, Utf8(c), c);
    }
  }

  /**
   Decoding a text gives a string exactly when the text spells it, each character plain or as the
   escaped octets of its one UTF-8 form; so it fails exactly on texts that spell nothing.
   */
  lemma DecodeIff(t: string, s: string)
    ensures Decode(t) == Some(s) <==> Spells(t, s)
  {
    if Decode(t) == Some(s) {
      DecodedIsSpelled(t, s);
    }
    if Spells(t, s) {
      SpelledIsDecoded(t, s);
    }
  }

  lemma {:induction false} EscapesLength(t: string, octets: seq<Octet>)
    requires Escapes(t, octets)
    ensures |t| == 3 * |octets|
  {
    if octets != [] {
      EscapesLength(t[3..], octets[1..]);
    }
  }
}
