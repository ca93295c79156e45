/**
 * The base64 text encoding used for persisted pairing secrets: the alphabet
 * and padding of section 4 of RFC 4648, as produced by `binascii.b2a_base64`
 * (which ends its output with a newline) and read back by
 * `binascii.a2b_base64`.
 */
module Base64 {
  import opened Types

  type Sextet = s: int | 0 <= s < 64

  /** The character that stands for a 6-bit group (RFC 4648, table 1). */
  function Symbol(s: Sextet): (c: char)
    ensures c != '=' && c != '\n'
  {
    if s < 26 then ('A' as int + s) as char
    else if s < 52 then ('a' as int + (s - 26)) as char
    else if s < 62 then ('0' as int + (s - 52)) as char
    else if s == 62 then '+'
    else '/'
  }

  /** The 6-bit group a character stands for, or None outside the alphabet. */
  function Value(c: char): (r: Option<Sextet>)
    ensures r.Some? ==> Symbol(r.value) == c
    ensures c == '=' || c == '\n' ==> r.None?
  {
    if 'A' <= c <= 'Z' then Some(c as int - 'A' as int)
    else if 'a' <= c <= 'z' then Some(c as int - 'a' as int + 26)
    else if '0' <= c <= '9' then Some(c as int - '0' as int + 52)
    else if c == '+' then Some(62)
    else if c == '/' then Some(63)
    else None
  }

  lemma ValueOfSymbol(s: Sextet)
    ensures Value(Symbol(s)) == Some(s)
  {
  }

  /** A character that may stand in encoded text: a symbol of the alphabet or the pad '='. */
  predicate Legal(c: char)
  {
    c == '=' || Value(c).Some?
  }

  predicate AllLegal(t: string)
  {
    forall i :: 0 <= i < |t| ==> Legal(t[i])
  }

  lemma AllLegalSplit(t: string)
    requires |t| >= 4
    ensures AllLegal(t[..4]) && AllLegal(t[4..]) ==> AllLegal(t)
  {
    if AllLegal(t[..4]) && AllLegal(t[4..]) {
      forall i | 0 <= i < |t| ensures Legal(t[i]) {
        if i < 4 { assert t[i] == t[..4][i]; } else { assert t[i] == t[4..][i - 4]; }
      }
    }
  }

  // The 6-bit groups cut from three octets a, b, c (most significant bits first).
  function Hi(a: Byte): Sextet { a / 4 }
  function MidHi(a: Byte, b: Byte): Sextet { (a % 4) * 16 + b / 16 }
  function MidLo(b: Byte, c: Byte): Sextet { (b % 16) * 4 + c / 64 }
  function Lo(c: Byte): Sextet { c % 64 }

  // The octets put back together from four 6-bit groups s0, s1, s2, s3.
  function First(s0: Sextet, s1: Sextet): Byte { s0 * 4 + s1 / 16 }
  function Second(s1: Sextet, s2: Sextet): Byte { (s1 % 16) * 16 + s2 / 4 }
  function Third(s2: Sextet, s3: Sextet): Byte { (s2 % 4) * 64 + s3 }

  lemma Rejoin(a: Byte, b: Byte, c: Byte)
    ensures First(Hi(a), MidHi(a, b)) == a
    ensures Second(MidHi(a, b), MidLo(b, c)) == b
    ensures Third(MidLo(b, c), Lo(c)) == c
  {
  }

  /** The four characters for three octets. */
  function Quad(a: Byte, b: Byte, c: Byte): string
  {
    [Symbol(Hi(a)), Symbol(MidHi(a, b)), Symbol(MidLo(b, c)), Symbol(Lo(c))]
  }

  /** Groups of three octets become four characters; a final short group is padded with '='. */
  function EncodeGroups(b: Bytes): (r: string)
    ensures AllLegal(r)
    decreases |b|
  {
    if |b| == 0 then ""
    else if |b| == 1 then [Symbol(Hi(b[0])), Symbol(MidHi(b[0], 0)), '=', '=']
    else if |b| == 2 then [Symbol(Hi(b[0])), Symbol(MidHi(b[0], b[1])), Symbol(MidLo(b[1], 0)), '=']
    else
      var q, rest := Quad(b[0], b[1], b[2]), EncodeGroups(b[3..]);
      assert (q + rest)[..4] == q && (q + rest)[4..] == rest;
      AllLegalSplit(q + rest);
      q + rest
  }

  /**
   * `binascii.b2a_base64`: the padded encoding followed by a newline; every
   * character before the newline is a symbol of the alphabet or the pad.
   */
  function Encode(b: Bytes): (r: string)
    ensures |r| > 0 && r[|r| - 1] == '\n'
    ensures AllLegal(r[..|r| - 1])
  {
    var t := EncodeGroups(b) + "\n";
    assert t[..|t| - 1] == EncodeGroups(b);
    t
  }

  /** The short test vectors of section 10 of RFC 4648, each followed by the newline. */
  lemma EncodeRfcPadded()
    ensures Encode([]) == "\n"
    ensures Encode([0x66]) == "Zg==\n"
    ensures Encode([0x66, 0x6f]) == "Zm8=\n"
  {
  }

  /** "foo" from section 10 of RFC 4648: one whole group, no padding. */
  lemma EncodeRfcFoo()
    ensures Encode([0x66, 0x6f, 0x6f]) == "Zm9v\n"
  {
    var foo: Bytes := [0x66, 0x6f, 0x6f];
    assert foo[3..] == [];
    assert Quad(0x66, 0x6f, 0x6f) == "Zm9v";
  }

  /** "foobar" from section 10 of RFC 4648: two whole groups. */
  lemma EncodeRfcFoobar()
    ensures Encode([0x66, 0x6f, 0x6f, 0x62, 0x61, 0x72]) == "Zm9vYmFy\n"
  {
    var foo: Bytes, bar: Bytes := [0x66, 0x6f, 0x6f], [0x62, 0x61, 0x72];
    assert foo[3..] == [] && bar[3..] == [];
    assert EncodeGroups(foo) == "Zm9v" by {
      assert Quad(0x66, 0x6f, 0x6f) == "Zm9v";
    }
    assert EncodeGroups(bar) == "YmFy" by {
      assert Quad(0x62, 0x61, 0x72) == "YmFy";
    }
    assert (foo + bar)[3..] == bar;
    assert foo + bar == [0x66, 0x6f, 0x6f, 0x62, 0x61, 0x72];
  }

  /** The last two symbols of the alphabet, `+` and `/`. */
  lemma EncodeHighSymbols()
    ensures Encode([0xfb, 0xff]) == "+/8=\n"
  {
  }

  lemma {:induction false} EncodedGroupsLength(b: Bytes)
    ensures |EncodeGroups(b)| == 4 * ((|b| + 2) / 3)
    decreases |b|
  {
    if |b| > 2 {
      EncodedGroupsLength(b[3..]);
      assert (|b| + 2) / 3 == (|b[3..]| + 2) / 3 + 1;
    }
  }

  /** Four characters for every started group of three octets, then the newline. */
  lemma EncodedLength(b: Bytes)
    ensures |Encode(b)| == 4 * ((|b| + 2) / 3) + 1
    ensures Encode(b)[|Encode(b)| - 1] == '\n'
  {
    EncodedGroupsLength(b);
  }

  /**
   * Decodes one group of four characters; `last` tells whether it ends the
   * text, the only place where '=' padding may stand. The bits that padding
   * leaves over are ignored, as `a2b_base64` ignores them.
   */
  function DecodeQuad(q: string, last: bool): Option<Bytes>
    requires |q| == 4
  {
    match (Value(q[0]), Value(q[1]), Value(q[2]), Value(q[3]))
    case (Some(s0), Some(s1), Some(s2), Some(s3)) =>
      Some([First(s0, s1), Second(s1, s2), Third(s2, s3)])
    case (Some(s0), Some(s1), Some(s2), None) =>
      if last && q[3] == '=' then Some([First(s0, s1), Second(s1, s2)]) else None
    case (Some(s0), Some(s1), None, None) =>
      if last && q[2] == '=' && q[3] == '=' then Some([First(s0, s1)]) else None
    case _ => None
  }

  function DecodeGroups(t: string): Option<Bytes>
    decreases |t|
  {
    if |t| == 0 then Some([])
    else if |t| < 4 then None
    else
      match DecodeQuad(t[..4], |t| == 4)
      case None => None
      case Some(g) =>
        match DecodeGroups(t[4..])
        case None => None
        case Some(rest) => Some(g + rest)
  }

  /**
   * `binascii.a2b_base64` on the text `b2a_base64` writes: padded groups of
   * four characters, optionally followed by one newline. None stands for the
   * exception raised on any other text.
   */
  function Decode(t: string): Option<Bytes>
  {
    if |t| > 0 && t[|t| - 1] == '\n' then DecodeGroups(t[..|t| - 1]) else DecodeGroups(t)
  }

  lemma QuadRoundTrip(a: Byte, b: Byte, c: Byte, last: bool)
    ensures DecodeQuad(Quad(a, b, c), last) == Some([a, b, c])
  {
    ValueOfSymbol(Hi(a));
    ValueOfSymbol(MidHi(a, b));
    ValueOfSymbol(MidLo(b, c));
    ValueOfSymbol(Lo(c));
    Rejoin(a, b, c);
  }

  lemma OneOctetRoundTrip(b: Bytes)
    requires |b| == 1
    ensures DecodeGroups(EncodeGroups(b)) == Some(b)
  {
    var s0, s1 := Hi(b[0]), MidHi(b[0], 0);
    var t := [Symbol(s0), Symbol(s1), '=', '='];
    assert EncodeGroups(b) == t;
    ValueOfSymbol(s0);
    ValueOfSymbol(s1);
    assert First(s0, s1) == b[0] by { Rejoin(b[0], 0, 0); }
    assert Value(t[0]) == Some(s0) && Value(t[1]) == Some(s1);
    assert Value(t[2]) == None && Value(t[3]) == None;
    assert [First(s0, s1)] == b;
    assert DecodeQuad(t, true) == Some(b);
    assert t[..4] == t && t[4..] == [];
    assert DecodeGroups(t[4..]) == Some([]);
    assert b + [] == b;
  }

  lemma TwoOctetsRoundTrip(b: Bytes)
    requires |b| == 2
    ensures DecodeGroups(EncodeGroups(b)) == Some(b)
  {
    var t := EncodeGroups(b);
    ValueOfSymbol(Hi(b[0]));
    ValueOfSymbol(MidHi(b[0], b[1]));
    ValueOfSymbol(MidLo(b[1], 0));
    Rejoin(b[0], b[1], 0);
    assert t[..4] == t && t[4..] == [];
    assert Value(t[2]) == Some(MidLo(b[1], 0)) && Value(t[3]) == None;
    assert [First(Hi(b[0]), MidHi(b[0], b[1])), Second(MidHi(b[0], b[1]), MidLo(b[1], 0))] == b;
    assert DecodeQuad(t[..4], |t| == 4) == Some(b);
    assert DecodeGroups(t[4..]) == Some([]);
    assert b + [] == b;
  }

  lemma DecodeGroupsStep(t: string, g: Bytes, rest: Bytes)
    requires |t| >= 4
    requires DecodeQuad(t[..4], |t| == 4) == Some(g)
    requires DecodeGroups(t[4..]) == Some(rest)
    ensures DecodeGroups(t) == Some(g + rest)
  {
  }

  lemma LongRoundTrip(b: Bytes)
    requires |b| > 2
    requires DecodeGroups(EncodeGroups(b[3..])) == Some(b[3..])
    ensures DecodeGroups(EncodeGroups(b)) == Some(b)
  {
    var q, rest := Quad(b[0], b[1], b[2]), EncodeGroups(b[3..]);
    var t := q + rest;
    assert EncodeGroups(b) == t;
    assert t[..4] == q && t[4..] == rest;
    QuadRoundTrip(b[0], b[1], b[2], |t| == 4);
    DecodeGroupsStep(t, [b[0], b[1], b[2]], b[3..]);
    SplitThree(b);
  }

  lemma SplitThree(b: Bytes)
    requires |b| > 2
    ensures [b[0], b[1], b[2]] + b[3..] == b
  {
    assert b[..3] == [b[0], b[1], b[2]];
    assert b[..3] + b[3..] == b;
  }

  lemma {:induction false} DecodeEncodeGroups(b: Bytes)
    ensures DecodeGroups(EncodeGroups(b)) == Some(b)
    decreases |b|
  {
    if |b| == 1 {
      OneOctetRoundTrip(b);
    } else if |b| == 2 {
      TwoOctetsRoundTrip(b);
    } else if |b| > 2 {
      DecodeEncodeGroups(b[3..]);
      LongRoundTrip(b);
    }
  }

  /** Decoding what `b2a_base64` wrote gives back the original octets. */
  lemma DecodeEncode(b: Bytes)
    ensures Decode(Encode(b)) == Some(b)
  {
    var t := Encode(b);
    assert t[..|t| - 1] == EncodeGroups(b);
    DecodeEncodeGroups(b);
  }
}
