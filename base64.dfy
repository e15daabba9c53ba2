/**
 * Standard base64 (section 4 of RFC 4648): the alphabet A-Z a-z 0-9 + /,
 * each 3-byte group becomes 4 characters, and a final group of 1 or 2
 * bytes is padded with "==" or "=". This is what `base64.b64encode` computes
 * for the bytes of a plist <data> value. The decoder is the inverse used to
 * state that the encoding loses nothing.
 */
module Base64 {
  import opened Wrappers

  type byte = b: int | 0 <= b < 256
  type sextet = i: int | 0 <= i < 64

  predicate IsAlphabet(c: char) {
    ('A' <= c <= 'Z') || ('a' <= c <= 'z') || ('0' <= c <= '9') || c == '+' || c == '/'
  }

  /** The character for a 6-bit value (Table 1 of RFC 4648). */
  function CharOf(i: sextet): (c: char)
    ensures IsAlphabet(c)
  {
    if i < 26 then (65 + i) as char
    else if i < 52 then (97 + i - 26) as char
    else if i < 62 then (48 + i - 52) as char
    else if i == 62 then '+'
    else '/'
  }

  /** The 6-bit value of an alphabet character, None for any other character. */
  function IndexOf(c: char): (r: Option<sextet>)
    ensures r.Some? <==> IsAlphabet(c)
    ensures r.Some? ==> CharOf(r.value) == c
  {
    if 'A' <= c <= 'Z' then Some(c as int - 65)
    else if 'a' <= c <= 'z' then Some(c as int - 97 + 26)
    else if '0' <= c <= '9' then Some(c as int - 48 + 52)
    else if c == '+' then Some(62)
    else if c == '/' then Some(63)
    else None
  }

  lemma IndexOfCharOf(i: sextet)
    ensures IndexOf(CharOf(i)) == Some(i)
  {
  }

  /** Number of '=' characters that end the encoding of n bytes. */
  function Padding(n: nat): (p: nat)
    ensures p <= 2
  {
    (3 - n % 3) % 3
  }

  function EncodeGroup(b0: byte, b1: byte, b2: byte): (s: string)
    ensures |s| == 4
  {
    [CharOf(b0 / 4), CharOf((b0 % 4) * 16 + b1 / 16), CharOf((b1 % 16) * 4 + b2 / 64), CharOf(b2 % 64)]
  }

  /** base64.b64encode(bytes).decode("ascii") */
  function Encode(b: seq<byte>): (s: string)
    ensures |s| % 4 == 0
    ensures |b| == 0 <==> |s| == 0
    decreases |b|
  {
    if |b| == 0 then ""
    else if |b| == 1 then [CharOf(b[0] / 4), CharOf((b[0] % 4) * 16), '=', '=']
    else if |b| == 2 then [CharOf(b[0] / 4), CharOf((b[0] % 4) * 16 + b[1] / 16), CharOf((b[1] % 16) * 4), '=']
    else EncodeGroup(b[0], b[1], b[2]) + Encode(b[3..])
  }

  /** n bytes encode to 4 * ceil(n / 3) characters. */
  lemma {:induction false} EncodeLength(b: seq<byte>)
    ensures |Encode(b)| == 4 * ((|b| + 2) / 3)
    decreases |b|
  {
    if |b| >= 3 {
      EncodeLength(b[3..]);
      assert |Encode(b)| == 4 + |Encode(b[3..])|;
      assert (|b| + 2) / 3 == (|b[3..]| + 2) / 3 + 1;
    }
  }

  /** s is alphabet characters followed by exactly p '=' characters. */
  ghost predicate PaddedAlphabet(s: string, p: nat) {
    |s| >= p &&
    (forall i :: 0 <= i < |s| - p ==> IsAlphabet(s[i])) &&
    (forall i :: |s| - p <= i < |s| ==> s[i] == '=')
  }

  /** A group of alphabet characters in front keeps the shape. */
  lemma PaddedAlphabetPrepend(g: string, rest: string, p: nat)
    requires forall i :: 0 <= i < |g| ==> IsAlphabet(g[i])
    requires PaddedAlphabet(rest, p)
    ensures PaddedAlphabet(g + rest, p)
  {
    var s := g + rest;
    forall i | 0 <= i < |s| - p ensures IsAlphabet(s[i]) {
      if i >= |g| {
        assert s[i] == rest[i - |g|];
      }
    }
    forall i | |s| - p <= i < |s| ensures s[i] == '=' {
      assert s[i] == rest[i - |g|];
    }
  }

  lemma PaddingStep(n: nat)
    requires n >= 3
    ensures Padding(n - 3) == Padding(n)
  {
    assert (n - 3) % 3 == n % 3;
  }

  lemma EncodePaddedShort(b: seq<byte>)
    requires 0 < |b| < 3
    ensures PaddedAlphabet(Encode(b), Padding(|b|))
  {
    var s := Encode(b);
    if |b| == 1 {
      assert Padding(|b|) == 2;
      assert IsAlphabet(s[0]) && IsAlphabet(s[1]) && s[2] == '=' && s[3] == '=';
    } else {
      assert Padding(|b|) == 1;
      assert IsAlphabet(s[0]) && IsAlphabet(s[1]) && IsAlphabet(s[2]) && s[3] == '=';
    }
  }

  lemma {:induction false} EncodePadded(b: seq<byte>)
    ensures PaddedAlphabet(Encode(b), Padding(|b|))
    decreases |b|
  {
    if 0 < |b| < 3 {
      EncodePaddedShort(b);
    } else if |b| >= 3 {
      var g, rest := EncodeGroup(b[0], b[1], b[2]), Encode(b[3..]);
      EncodePadded(b[3..]);
      EncodeUnfold(b);
      PaddingStep(|b|);
      PaddedAlphabetPrepend(g, rest, Padding(|b|));
    }
  }

  /** Every character is in the alphabet except the Padding(n) trailing '=' characters. */
  lemma EncodeAlphabet(b: seq<byte>)
    ensures |Encode(b)| >= Padding(|b|)
    ensures forall i :: 0 <= i < |Encode(b)| - Padding(|b|) ==> IsAlphabet(Encode(b)[i])
    ensures forall i :: |Encode(b)| - Padding(|b|) <= i < |Encode(b)| ==> Encode(b)[i] == '='
  {
    EncodePadded(b);
  }

  /** Decodes one 4-character group with no padding. */
  function DecodeGroup(s: string): (r: Option<seq<byte>>)
    requires |s| == 4
  {
    var c0, c1, c2, c3 := IndexOf(s[0]), IndexOf(s[1]), IndexOf(s[2]), IndexOf(s[3]);
    if c0.None? || c1.None? || c2.None? || c3.None? then None
    else Some(DecodeSextets(c0.value, c1.value, c2.value, c3.value))
  }

  /** The three bytes carried by four 6-bit values. */
  function DecodeSextets(c0: sextet, c1: sextet, c2: sextet, c3: sextet): seq<byte> {
    [c0 * 4 + c1 / 16, (c1 % 16) * 16 + c2 / 4, (c2 % 4) * 64 + c3]
  }

  /**
   * Decodes the last 4-character group, which may end in "=" or "==". The
   * bits the padding leaves over must be zero, as in the text Encode writes.
   */
  function DecodeFinalGroup(s: string): (r: Option<seq<byte>>)
    requires |s| == 4
  {
    if s[2] == '=' && s[3] == '=' then
      var c0, c1 := IndexOf(s[0]), IndexOf(s[1]);
      if c0.None? || c1.None? || c1.value % 16 != 0 then None
      else Some([c0.value * 4 + c1.value / 16])
    else if s[3] == '=' then
      var c0, c1, c2 := IndexOf(s[0]), IndexOf(s[1]), IndexOf(s[2]);
      if c0.None? || c1.None? || c2.None? || c2.value % 4 != 0 then None
      else Some([c0.value * 4 + c1.value / 16, (c1.value % 16) * 16 + c2.value / 4])
    else DecodeGroup(s)
  }

  /** Strict decoder: a multiple of 4 characters, padding only at the end, zero pad bits. */
  function Decode(s: string): (r: Option<seq<byte>>)
    decreases |s|
  {
    if |s| == 0 then Some([])
    else if |s| < 4 then None
    else if |s| == 4 then DecodeFinalGroup(s)
    else
      match DecodeGroup(s[..4])
      case None => None
      case Some(head) =>
        match Decode(s[4..])
        case None => None
        case Some(tail) => Some(head + tail)
  }

  lemma DecodeEncodeGroup(b0: byte, b1: byte, b2: byte)
    ensures DecodeGroup(EncodeGroup(b0, b1, b2)) == Some([b0, b1, b2])
  {
    var c0, c1, c2, c3 := BytesToSextets(b0, b1, b2);
    IndexOfCharOf(c0);
    IndexOfCharOf(c1);
    IndexOfCharOf(c2);
    IndexOfCharOf(c3);
    assert EncodeGroup(b0, b1, b2) == [CharOf(c0), CharOf(c1), CharOf(c2), CharOf(c3)];
  }

  /** The four sextets three bytes split into, and the bytes they give back. */
  lemma BytesToSextets(b0: byte, b1: byte, b2: byte) returns (c0: sextet, c1: sextet, c2: sextet, c3: sextet)
    ensures c0 == b0 / 4 && c1 == (b0 % 4) * 16 + b1 / 16 && c2 == (b1 % 16) * 4 + b2 / 64 && c3 == b2 % 64
    ensures DecodeSextets(c0, c1, c2, c3) == [b0, b1, b2]
  {
    c0, c1, c2, c3 := b0 / 4, (b0 % 4) * 16 + b1 / 16, (b1 % 16) * 4 + b2 / 64, b2 % 64;
    assert c0 * 4 + c1 / 16 == b0;
    assert (c1 % 16) * 16 + c2 / 4 == b1;
    assert (c2 % 4) * 64 + c3 == b2;
  }

  lemma DecodeEncodeOne(b0: byte)
    ensures Decode(Encode([b0])) == Some([b0])
  {
    var c0, c1 := b0 / 4, (b0 % 4) * 16;
    IndexOfCharOf(c0);
    IndexOfCharOf(c1);
    var s := Encode([b0]);
    assert s == [CharOf(c0), CharOf(c1), '=', '='];
    assert c0 * 4 + c1 / 16 == b0;
  }

  lemma DecodeEncodeTwo(b0: byte, b1: byte)
    ensures Decode(Encode([b0, b1])) == Some([b0, b1])
  {
    var c0, c1, c2 := b0 / 4, (b0 % 4) * 16 + b1 / 16, (b1 % 16) * 4;
    IndexOfCharOf(c0);
    IndexOfCharOf(c1);
    IndexOfCharOf(c2);
    var s := Encode([b0, b1]);
    assert s == [CharOf(c0), CharOf(c1), CharOf(c2), '='];
    assert c0 * 4 + c1 / 16 == b0;
    assert (c1 % 16) * 16 + c2 / 4 == b1;
  }

  /** A full leading group followed by more groups decodes group by group. */
  lemma DecodeAppend(g: string, rest: string)
    requires |g| == 4 && DecodeGroup(g).Some?
    ensures Decode(g + rest) ==
      if |rest| == 0 then DecodeFinalGroup(g)
      else match Decode(rest)
        case None => None
        case Some(tail) => Some(DecodeGroup(g).value + tail)
  {
    var s := g + rest;
    assert s[..4] == g;
    assert s[4..] == rest;
    if |rest| == 0 {
      assert s == g;
    }
  }

  lemma EncodeUnfold(b: seq<byte>)
    requires |b| >= 3
    ensures Encode(b) == EncodeGroup(b[0], b[1], b[2]) + Encode(b[3..])
  {
  }

  lemma DecodeEncodeStep(b: seq<byte>, rest: string)
    requires |b| >= 3
    requires Decode(rest) == Some(b[3..])
    ensures Decode(EncodeGroup(b[0], b[1], b[2]) + rest) == Some(b)
  {
    var g := EncodeGroup(b[0], b[1], b[2]);
    DecodeEncodeGroup(b[0], b[1], b[2]);
    DecodeAppend(g, rest);
    if |rest| == 0 {
      assert DecodeFinalGroup(g) == DecodeGroup(g);
      assert b == [b[0], b[1], b[2]];
    } else {
      assert b == [b[0], b[1], b[2]] + b[3..];
    }
  }

  /** A group that decodes is the encoding of the three bytes it decodes to. */
  lemma EncodeDecodeGroup(s: string)
    requires |s| == 4 && DecodeGroup(s).Some?
    ensures |DecodeGroup(s).value| == 3
    ensures var b := DecodeGroup(s).value; EncodeGroup(b[0], b[1], b[2]) == s
  {
    var c0, c1, c2, c3 := IndexOf(s[0]).value, IndexOf(s[1]).value, IndexOf(s[2]).value, IndexOf(s[3]).value;
    var b0, b1, b2 := SextetsToBytes(c0, c1, c2, c3);
    assert EncodeGroup(b0, b1, b2) == [CharOf(c0), CharOf(c1), CharOf(c2), CharOf(c3)];
  }

  /** The three bytes four sextets carry, and the sextets they give back. */
  lemma SextetsToBytes(c0: sextet, c1: sextet, c2: sextet, c3: sextet) returns (b0: byte, b1: byte, b2: byte)
    ensures [b0, b1, b2] == DecodeSextets(c0, c1, c2, c3)
    ensures b0 / 4 == c0 && (b0 % 4) * 16 + b1 / 16 == c1
    ensures (b1 % 16) * 4 + b2 / 64 == c2 && b2 % 64 == c3
  {
    b0, b1, b2 := c0 * 4 + c1 / 16, (c1 % 16) * 16 + c2 / 4, (c2 % 4) * 64 + c3;
    assert (b1 % 16) * 4 + b2 / 64 == c2 by {
      assert b1 % 16 == c2 / 4 && b2 / 64 == c2 % 4;
    }
  }

  /** A final group that decodes is the encoding of the bytes it decodes to. */
  lemma EncodeDecodeFinalGroup(s: string)
    requires |s| == 4 && DecodeFinalGroup(s).Some?
    ensures Encode(DecodeFinalGroup(s).value) == s
  {
    if s[2] == '=' && s[3] == '=' {
      var c0: int, c1: int := IndexOf(s[0]).value, IndexOf(s[1]).value;
      var b0: byte := c0 * 4 + c1 / 16;
      assert b0 / 4 == c0 && (b0 % 4) * 16 == c1;
      assert Encode([b0]) == [CharOf(c0), CharOf(c1), '=', '='];
    } else if s[3] == '=' {
      var c0: int, c1: int, c2: int := IndexOf(s[0]).value, IndexOf(s[1]).value, IndexOf(s[2]).value;
      var b0: byte, b1: byte := c0 * 4 + c1 / 16, (c1 % 16) * 16 + c2 / 4;
      assert b0 / 4 == c0 && (b0 % 4) * 16 + b1 / 16 == c1 && (b1 % 16) * 4 == c2;
      assert Encode([b0, b1]) == [CharOf(c0), CharOf(c1), CharOf(c2), '='];
    } else {
      EncodeDecodeGroup(s);
      var b := DecodeGroup(s).value;
      assert Encode(b) == EncodeGroup(b[0], b[1], b[2]) + Encode(b[3..]);
    }
  }

  /**
   * Decode accepts only what Encode writes: text that decodes is the
   * encoding of its bytes, so no other text decodes to the same bytes.
   */
  lemma {:induction false} EncodeDecode(s: string)
    requires Decode(s).Some?
    ensures Encode(Decode(s).value) == s
    decreases |s|
  {
    if |s| == 4 {
      EncodeDecodeFinalGroup(s);
    } else if |s| > 4 {
      var head, tail := DecodeGroup(s[..4]).value, Decode(s[4..]).value;
      EncodeDecodeGroup(s[..4]);
      EncodeDecode(s[4..]);
      var b := head + tail;
      assert b[3..] == tail;
      EncodeUnfold(b);
      assert s == s[..4] + s[4..];
    }
  }

  /** Decoding an encoding gives back the original bytes, the empty sequence included. */
  lemma {:induction false} DecodeEncode(b: seq<byte>)
    ensures Decode(Encode(b)) == Some(b)
    decreases |b|
  {
    if |b| == 0 {
    } else if |b| == 1 {
      assert b == [b[0]];
      DecodeEncodeOne(b[0]);
    } else if |b| == 2 {
      assert b == [b[0], b[1]];
      DecodeEncodeTwo(b[0], b[1]);
    } else {
      EncodeUnfold(b);
      DecodeEncode(b[3..]);
      DecodeEncodeStep(b, Encode(b[3..]));
    }
  }
}
