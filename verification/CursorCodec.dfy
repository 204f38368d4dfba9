/** The opaque cursor text: unpadded base64url (sections 3.2 and 5 of RFC 4648) over a JSON payload that
    is left as bytes. */
module CursorCodec {
  import opened Wrappers

  type byte = b: int | 0 <= b < 256

  type sextet = v: int | 0 <= v < 64

  type ascii = c: int | 0 <= c < 128

  /** Cursor text, as ASCII codes. */
  type Text = seq<ascii>

  const PAD: ascii := 61

  /** The URL-safe alphabet: A-Z, a-z, 0-9, minus, underscore. */
  function Digit(v: sextet): ascii {
    if v < 26 then 65 + v else if v < 52 then 71 + v else if v < 62 then v - 4 else if v == 62 then 45 else 95
  }

  function Value(c: ascii): Option<sextet> {
    if 65 <= c <= 90 then Some(c - 65)
    else if 97 <= c <= 122 then Some(c - 71)
    else if 48 <= c <= 57 then Some(c + 4)
    else if c == 45 then Some(62)
    else if c == 95 then Some(63)
    else None
  }

  // ----- one group: three bytes, four digits of six bits -----

  function Digits(a: byte, b: byte, c: byte): (s: Text)
    ensures |s| == 4
  {
    [Digit(a / 4), Digit(a % 4 * 16 + b / 16), Digit(b % 16 * 4 + c / 64), Digit(c % 64)]
  }

  function Bytes(p: sextet, q: sextet, r: sextet, t: sextet): (bytes: seq<byte>)
    ensures |bytes| == 3
  {
    [p * 4 + q / 16, q % 16 * 16 + r / 4, r % 4 * 64 + t]
  }

  // ----- the codec -----

  function Encode(bytes: seq<byte>): Text {
    if bytes == [] then []
    else if |bytes| == 1 then Digits(bytes[0], 0, 0)[..2] + [PAD, PAD]
    else if |bytes| == 2 then Digits(bytes[0], bytes[1], 0)[..3] + [PAD]
    else Digits(bytes[0], bytes[1], bytes[2]) + Encode(bytes[3..])
  }

  /** `rstrip("=")`. */
  function Stripped(text: Text): Text {
    if text != [] && text[|text| - 1] == PAD then Stripped(text[..|text| - 1]) else text
  }

  function Padding(n: nat): Text {
    if n == 0 then [] else Padding(n - 1) + [PAD]
  }

  function Decode(text: Text): Option<seq<byte>> {
    if text == [] then Some([])
    else if |text| < 4 then None
    else
      var p, q, r, t := Value(text[0]), Value(text[1]), Value(text[2]), Value(text[3]);
      if p.None? || q.None? then None
      else if |text| == 4 && text[2] == PAD && text[3] == PAD then Some(Bytes(p.value, q.value, 0, 0)[..1])
      else if r.None? then None
      else if |text| == 4 && text[3] == PAD then Some(Bytes(p.value, q.value, r.value, 0)[..2])
      else if t.None? then None
      else
        match Decode(text[4..])
        case None => None
        case Some(rest) => Some(Bytes(p.value, q.value, r.value, t.value) + rest)
  }

  /** The padding restored before decoding: `-len % 4` equals signs. */
  function Repadded(text: Text): Text {
    text + Padding((4 - |text| % 4) % 4)
  }

  function EncodeCursor(payload: seq<byte>): Text {
    Stripped(Encode(payload))
  }

  function DecodeCursor(text: Text): Option<seq<byte>> {
    Decode(Repadded(text))
  }

  // ----- round trip -----

  lemma {:induction false} DigitHasValue(v: sextet)
    ensures Value(Digit(v)) == Some(v) && Digit(v) != PAD
  {}

  /** Cutting three bytes into four sextets and joining them again. */
  lemma {:induction false} Regroup(a: byte, b: byte, c: byte)
    ensures Bytes(a / 4, a % 4 * 16 + b / 16, b % 16 * 4 + c / 64, c % 64) == [a, b, c]
  {
    var q, r: int := a % 4 * 16 + b / 16, b % 16 * 4 + c / 64;
    assert q / 16 == a % 4 && q % 16 == b / 16;
    assert r / 4 == b % 16 && r % 4 == c / 64;
  }

  lemma {:induction false} GroupRoundTrip(a: byte, b: byte, c: byte)
    ensures var s := Digits(a, b, c);
            && Value(s[0]).Some? && Value(s[1]).Some? && Value(s[2]).Some? && Value(s[3]).Some?
            && Bytes(Value(s[0]).value, Value(s[1]).value, Value(s[2]).value, Value(s[3]).value) == [a, b, c]
            && (c == 0 ==> Value(s[3]).value == 0) && (b == 0 && c == 0 ==> Value(s[2]).value == 0)
            && PAD !in s
  {
    DigitHasValue(a / 4);
    DigitHasValue(a % 4 * 16 + b / 16);
    DigitHasValue(b % 16 * 4 + c / 64);
    DigitHasValue(c % 64);
    Regroup(a, b, c);
  }

  lemma {:induction false} DecodeShort(bytes: seq<byte>)
    requires 1 <= |bytes| <= 2
    ensures Decode(Encode(bytes)) == Some(bytes)
  {
    var a, b := bytes[0], if |bytes| > 1 then bytes[1] else 0;
    GroupRoundTrip(a, b, 0);
    var s, text := Digits(a, b, 0), Encode(bytes);
    assert s[2] in s;
    assert |text| == 4 && text[0] == s[0] && text[1] == s[1] && text[3] == PAD;
    assert bytes == [a, b, 0][..|bytes|];
  }

  lemma {:induction false} DecodeGroup(a: byte, b: byte, c: byte, text: Text, rest: seq<byte>)
    requires Decode(text) == Some(rest)
    ensures Decode(Digits(a, b, c) + text) == Some([a, b, c] + rest)
  {
    GroupRoundTrip(a, b, c);
    var s := Digits(a, b, c);
    var all := s + text;
    assert all[4..] == text && all[0] == s[0] && all[1] == s[1] && all[2] == s[2] && all[3] == s[3];
    assert s[2] in s && s[3] in s;
  }

  lemma {:induction false} DecodeEncode(bytes: seq<byte>)
    ensures Decode(Encode(bytes)) == Some(bytes)
  {
    if 1 <= |bytes| <= 2 {
      DecodeShort(bytes);
    } else if bytes != [] {
      DecodeEncode(bytes[3..]);
      DecodeGroup(bytes[0], bytes[1], bytes[2], Encode(bytes[3..]), bytes[3..]);
      assert bytes == [bytes[0], bytes[1], bytes[2]] + bytes[3..];
    }
  }

  lemma {:induction false} ShortPaddings()
    ensures Padding(0) == [] && Padding(1) == [PAD] && Padding(2) == [PAD, PAD]
  {
    assert Padding(2) == Padding(1) + [PAD] && Padding(1) == Padding(0) + [PAD];
  }

  lemma {:induction false} PadCount(n: nat, pads: nat)
    requires pads <= 2 && (n + pads) % 4 == 0
    ensures (4 - n % 4) % 4 == pads
  {}

  lemma {:induction false} StripOne(text: Text)
    ensures Stripped(text + [PAD]) == Stripped(text)
  {
    assert (text + [PAD])[..|text|] == text;
  }

  lemma {:induction false} StripPads(body: Text, pads: nat)
    requires body == [] || body[|body| - 1] != PAD
    ensures Stripped(body + Padding(pads)) == body
  {
    if pads == 0 {
      assert body + [] == body;
    } else {
      assert body + (Padding(pads - 1) + [PAD]) == (body + Padding(pads - 1)) + [PAD];
      StripOne(body + Padding(pads - 1));
      StripPads(body, pads - 1);
    }
  }

  lemma {:induction false} ShortShape(bytes: seq<byte>) returns (body: Text, pads: nat)
    requires 1 <= |bytes| <= 2
    ensures Encode(bytes) == body + Padding(pads) && pads <= 2 && (|body| + pads) % 4 == 0
    ensures body != [] && body[|body| - 1] != PAD
  {
    ShortPaddings();
    var s := Digits(bytes[0], if |bytes| > 1 then bytes[1] else 0, 0);
    GroupRoundTrip(bytes[0], if |bytes| > 1 then bytes[1] else 0, 0);
    assert s[1] in s && s[2] in s;
    body, pads := s[..|bytes| + 1], 3 - |bytes|;
  }

  lemma {:induction false} DigitsAreFour(a: byte, b: byte, c: byte)
    ensures var s := Digits(a, b, c); |s| == 4 && s[3] != PAD
  {
    DigitHasValue(c % 64);
  }

  lemma {:induction false} Lengthened(group: Text, rest: Text, pads: nat) returns (body: Text)
    requires |group| == 4 && group[3] != PAD
    requires (|rest| + pads) % 4 == 0 && (rest == [] || rest[|rest| - 1] != PAD)
    ensures group + (rest + Padding(pads)) == body + Padding(pads)
    ensures (|body| + pads) % 4 == 0 && body != [] && body[|body| - 1] != PAD
  {
    body := group + rest;
    assert body + Padding(pads) == group + (rest + Padding(pads));
    assert |body| + pads == |rest| + pads + 4;
  }

  /** Whole groups of digits, then a body and padding that complete a group. */
  lemma {:induction false} EncodedShape(bytes: seq<byte>) returns (body: Text, pads: nat)
    ensures Encode(bytes) == body + Padding(pads) && pads <= 2 && (|body| + pads) % 4 == 0
    ensures body == [] || body[|body| - 1] != PAD
  {
    if bytes == [] {
      body, pads := [], 0;
    } else if |bytes| < 3 {
      body, pads := ShortShape(bytes);
    } else {
      var rest;
      rest, pads := EncodedShape(bytes[3..]);
      DigitsAreFour(bytes[0], bytes[1], bytes[2]);
      body := Lengthened(Digits(bytes[0], bytes[1], bytes[2]), rest, pads);
    }
  }

  lemma {:induction false} RestoreShape(body: Text, pads: nat)
    requires pads <= 2 && (|body| + pads) % 4 == 0 && (body == [] || body[|body| - 1] != PAD)
    ensures Repadded(Stripped(body + Padding(pads))) == body + Padding(pads)
  {
    StripPads(body, pads);
    PadCount(|body|, pads);
  }

  /** Stripping the padding and restoring it loses nothing: every payload comes back. */
  lemma {:induction false} CursorRoundTrip(payload: seq<byte>)
    ensures DecodeCursor(EncodeCursor(payload)) == Some(payload)
  {
    var body, pads := EncodedShape(payload);
    RestoreShape(body, pads);
    DecodeEncode(payload);
  }

  // ----- what the text is -----

  const UPPER := "ABCDEFGHIJKLMNOPQRSTUVWXYZ"

  const LOWER := "abcdefghijklmnopqrstuvwxyz"

  const ALPHABET := UPPER + LOWER + "0123456789-_"

  lemma {:induction false} DigitIsInTheAlphabet(v: sextet)
    ensures |ALPHABET| == 64 && Digit(v) as char == ALPHABET[v]
  {
    assert ALPHABET[v] == if v < 26 then UPPER[v] else if v < 52 then LOWER[v - 26] else "0123456789-_"[v - 52];
  }

  /** The byte at `i`, or zero past the end. */
  function ByteAt(payload: seq<byte>, i: nat): byte {
    if i < |payload| then payload[i] else 0
  }

  /** The three bytes from `i` on as one number. */
  function Number(payload: seq<byte>, i: nat): int {
    ByteAt(payload, i) as int * 0x1_0000 + ByteAt(payload, i + 1) as int * 0x100 + ByteAt(payload, i + 2)
  }

  /** The four digits from `i` on are those of the number, as far as the text reaches; the rest are zero. */
  predicate Spells(text: Text, i: nat, v: seq<sextet>, number: int) {
    && |v| == 4 && v[0] as int * 0x4_0000 + v[1] as int * 0x1000 + v[2] as int * 0x40 + v[3] == number
    && forall k :: 0 <= k < 4 ==> if i + k < |text| then text[i + k] as char == ALPHABET[v[k]] else v[k] == 0
  }

  function Sextets(a: byte, b: byte, c: byte): seq<sextet> {
    [a / 4, a % 4 * 16 + b / 16, b % 16 * 4 + c / 64, c % 64]
  }

  lemma {:induction false} SextetsAreTheNumber(a: byte, b: byte, c: byte)
    ensures var v := Sextets(a, b, c);
            v[0] as int * 0x4_0000 + v[1] as int * 0x1000 + v[2] as int * 0x40 + v[3]
              == a as int * 0x1_0000 + b as int * 0x100 + c
  {}

  lemma {:induction false} SpelledUpTo(digits: Text, v: seq<sextet>, n: nat, number: int)
    requires |digits| == 4 == |v| && n <= 4 && forall k :: 0 <= k < 4 ==> digits[k] == Digit(v[k])
    requires v[0] as int * 0x4_0000 + v[1] as int * 0x1000 + v[2] as int * 0x40 + v[3] == number
    requires forall k :: n <= k < 4 ==> v[k] == 0
    ensures Spells(digits[..n], 0, v, number)
  {
    forall k | 0 <= k < 4 ensures digits[k] as char == ALPHABET[v[k]] {
      DigitIsInTheAlphabet(v[k]);
    }
  }

  lemma {:induction false} GroupIsSpelled(a: byte, b: byte, c: byte, n: nat)
    requires 2 <= n <= 4 && (n < 4 ==> c == 0) && (n < 3 ==> b == 0)
    ensures Spells(Digits(a, b, c)[..n], 0, Sextets(a, b, c), a as int * 0x1_0000 + b as int * 0x100 + c)
  {
    SextetsAreTheNumber(a, b, c);
    SpelledUpTo(Digits(a, b, c), Sextets(a, b, c), n, a as int * 0x1_0000 + b as int * 0x100 + c);
  }

  lemma {:induction false} StrippedShort(bytes: seq<byte>)
    requires 1 <= |bytes| <= 2
    ensures Stripped(Encode(bytes)) == Digits(bytes[0], ByteAt(bytes, 1), 0)[..|bytes| + 1]
  {
    var digits := Digits(bytes[0], ByteAt(bytes, 1), 0);
    GroupRoundTrip(bytes[0], ByteAt(bytes, 1), 0);
    assert digits[1] in digits && digits[2] in digits;
    ShortPaddings();
    StripPads(digits[..|bytes| + 1], 3 - |bytes|);
    assert Encode(bytes) == digits[..|bytes| + 1] + Padding(3 - |bytes|);
  }

  lemma {:induction false} StrippedLong(bytes: seq<byte>)
    requires |bytes| >= 3
    ensures Stripped(Encode(bytes)) == Digits(bytes[0], bytes[1], bytes[2]) + Stripped(Encode(bytes[3..]))
  {
    var group := Digits(bytes[0], bytes[1], bytes[2]);
    var body, pads := EncodedShape(bytes[3..]);
    DigitsAreFour(bytes[0], bytes[1], bytes[2]);
    StripPads(body, pads);
    StripPads(group + body, pads);
    assert group + (body + Padding(pads)) == (group + body) + Padding(pads);
  }

  lemma {:induction false} SpelledLater(group: Text, text: Text, i: nat, v: seq<sextet>, number: int)
    requires |group| == 4 && Spells(text, i, v, number)
    ensures Spells(group + text, i + 4, v, number)
  {
    forall k | 0 <= k < 4 && i + 4 + k < |group + text| ensures (group + text)[i + 4 + k] as char == ALPHABET[v[k]] {
      assert (group + text)[i + 4 + k] == text[i + k];
    }
  }

  lemma {:induction false} SpelledFirst(group: Text, text: Text, v: seq<sextet>, number: int)
    requires |group| == 4 && Spells(group, 0, v, number)
    ensures Spells(group + text, 0, v, number)
  {
    forall k | 0 <= k < 4 ensures (group + text)[k] as char == ALPHABET[v[k]] {
      assert (group + text)[k] == group[0 + k];
    }
  }

  /** Four digits for three bytes, rounded up. */
  lemma {:induction false} CursorLength(payload: seq<byte>)
    ensures |EncodeCursor(payload)| == (4 * |payload| + 2) / 3
  {
    if 1 <= |payload| < 3 {
      StrippedShort(payload);
    } else if payload != [] {
      StrippedLong(payload);
      CursorLength(payload[3..]);
    }
  }

  lemma {:induction false} FirstGroupIsSpelled(payload: seq<byte>)
    requires payload != []
    ensures Spells(EncodeCursor(payload), 0, Sextets(payload[0], ByteAt(payload, 1), ByteAt(payload, 2)),
              Number(payload, 0))
  {
    var a, b, c := payload[0], ByteAt(payload, 1), ByteAt(payload, 2);
    if |payload| < 3 {
      StrippedShort(payload);
      GroupIsSpelled(a, b, c, |payload| + 1);
    } else {
      StrippedLong(payload);
      GroupIsSpelled(a, b, c, 4);
      assert Digits(a, b, c)[..4] == Digits(a, b, c);
      SpelledFirst(Digits(a, b, c), EncodeCursor(payload[3..]), Sextets(a, b, c), Number(payload, 0));
    }
  }

  lemma {:induction false} NumberLater(payload: seq<byte>, i: nat)
    requires |payload| >= 3
    ensures Number(payload[3..], i) == Number(payload, i + 3)
  {
    forall k: nat ensures ByteAt(payload[3..], k) == ByteAt(payload, k + 3) {
    }
  }

  lemma {:induction false} LaterGroupIsSpelled(payload: seq<byte>, rest: Text, text: Text, i: nat, at: nat,
      v: seq<sextet>)
    requires |payload| >= 3 && text == Digits(payload[0], payload[1], payload[2]) + rest
    requires Spells(rest, at, v, Number(payload[3..], i))
    ensures Spells(text, at + 4, v, Number(payload, i + 3))
  {
    NumberLater(payload, i);
    SpelledLater(Digits(payload[0], payload[1], payload[2]), rest, at, v, Number(payload[3..], i));
  }

  /** The cursor text is the payload's bits, six to a digit of the URL-safe alphabet, the most significant
      first and without padding: every three bytes and the four digits in their place are one number. */
  lemma {:induction false} CursorTextIsExact(payload: seq<byte>, g: nat) returns (v: seq<sextet>)
    requires 3 * g < |payload|
    ensures |EncodeCursor(payload)| == (4 * |payload| + 2) / 3
    ensures Spells(EncodeCursor(payload), 4 * g, v, Number(payload, 3 * g))
  {
    CursorLength(payload);
    if g == 0 {
      v := Sextets(payload[0], ByteAt(payload, 1), ByteAt(payload, 2));
      FirstGroupIsSpelled(payload);
    } else {
      v := CursorTextIsExact(payload[3..], g - 1);
      StrippedLong(payload);
      LaterGroupIsSpelled(payload, EncodeCursor(payload[3..]), EncodeCursor(payload), 3 * (g - 1), 4 * (g - 1), v);
    }
  }
}
