/** UTF-8: the check a decoder makes byte by byte, against the encoding of code points. */
module Texts {
  import opened ByteStreams

  predicate Continuation(b: byte) {
    0x80 <= b <= 0xBF
  }

  /**
   * The number of bytes of the well-formed UTF-8 character at the front of s, section 4 of RFC 3629; 0 if
   * there is none.
   */
  function Utf8Width(s: Bytes): (n: nat)
    ensures n <= |s|
  {
    if s == [] then 0
    else if s[0] <= 0x7F then 1
    else if |s| >= 2 && 0xC2 <= s[0] <= 0xDF && Continuation(s[1]) then 2
    else if |s| >= 3 && Continuation(s[1]) && Continuation(s[2])
            && (if s[0] == 0xE0 then s[1] >= 0xA0 else if s[0] == 0xED then s[1] <= 0x9F
              else 0xE1 <= s[0] <= 0xEF) then 3
    else if |s| >= 4 && Continuation(s[1]) && Continuation(s[2]) && Continuation(s[3])
            && (if s[0] == 0xF0 then s[1] >= 0x90 else if s[0] == 0xF4 then s[1] <= 0x8F
              else 0xF1 <= s[0] <= 0xF3) then 4
    else 0
  }

  predicate Utf8(s: Bytes) {
    s == [] || (Utf8Width(s) > 0 && Utf8(s[Utf8Width(s)..]))
  }

  lemma Utf8WidthAppend(s: Bytes, t: Bytes)
    requires Utf8Width(s) > 0
    ensures Utf8Width(s + t) == Utf8Width(s)
  {
  }

  lemma Utf8First(s: Bytes, t: Bytes)
    requires Utf8Width(s) > 0 && Utf8(s[Utf8Width(s)..] + t)
    ensures Utf8(s + t)
  {
    Utf8WidthAppend(s, t);
    DropOfSum(s, t, Utf8Width(s));
  }

  lemma {:induction false} Utf8Append(s: Bytes, t: Bytes)
    requires Utf8(s) && Utf8(t)
    ensures Utf8(s + t)
    decreases |s|
  {
    if s == [] {
      assert s + t == t;
    } else {
      hide Utf8Width;
      Utf8Append(s[Utf8Width(s)..], t);
      Utf8First(s, t);
    }
  }

  // ---------------------------------------------------------------- code points

  /** The code points that are characters: all but the surrogates. */
  predicate Scalar(cp: int) {
    0 <= cp < 0xD800 || 0xE000 <= cp < 0x110000
  }

  /** A continuation byte with the six bits of cp above the lowest shift bits, given as a power of two. */
  function Tail(cp: nat, power: nat): byte
    requires power > 0
  {
    (0x80 + cp / power % 64) as byte
  }

  /** Section 3 of RFC 3629. */
  function EncodeScalar(cp: int): Bytes
    requires Scalar(cp)
  {
    if cp < 0x80 then [cp as byte]
    else if cp < 0x800 then [(0xC0 + cp / 0x40) as byte, Tail(cp, 1)]
    else if cp < 0x10000 then [(0xE0 + cp / 0x1000) as byte, Tail(cp, 0x40), Tail(cp, 1)]
    else [(0xF0 + cp / 0x40000) as byte, Tail(cp, 0x1000), Tail(cp, 0x40), Tail(cp, 1)]
  }

  function EncodeText(text: seq<int>): Bytes
    requires forall i | 0 <= i < |text| :: Scalar(text[i])
  {
    if text == [] then [] else EncodeScalar(text[0]) + EncodeText(text[1..])
  }

  ghost predicate Spells(text: seq<int>, v: Bytes) {
    (forall i | 0 <= i < |text| :: Scalar(text[i])) && v == EncodeText(text)
  }

  /** The bytes that are the encoding of some text. */
  ghost predicate IsText(v: Bytes) {
    exists text :: Spells(text, v)
  }

  lemma ScalarWidthAlone(cp: int)
    requires Scalar(cp)
    ensures Utf8Width(EncodeScalar(cp)) == |EncodeScalar(cp)| > 0
  {
  }

  lemma ScalarWidth(cp: int, rest: Bytes)
    requires Scalar(cp)
    ensures Utf8Width(EncodeScalar(cp) + rest) == |EncodeScalar(cp)| > 0
  {
    ScalarWidthAlone(cp);
    hide Utf8Width, EncodeScalar;
    Utf8WidthAppend(EncodeScalar(cp), rest);
  }

  lemma {:induction false} TextIsUtf8(text: seq<int>)
    requires forall i | 0 <= i < |text| :: Scalar(text[i])
    ensures Utf8(EncodeText(text))
  {
    if text != [] {
      var first, rest := EncodeScalar(text[0]), EncodeText(text[1..]);
      TextIsUtf8(text[1..]);
      ScalarWidth(text[0], rest);
      DropOfSum(first, rest, |first|);
    }
  }

  /** The lowest six bits a continuation byte stands for. */
  function Low(b: byte): int {
    b as int - 0x80
  }

  function DecodeScalar(s: Bytes): int
    requires Utf8Width(s) > 0
  {
    match Utf8Width(s)
    case 1 => s[0] as int
    case 2 => (s[0] as int - 0xC0) * 0x40 + Low(s[1])
    case 3 => ((s[0] as int - 0xE0) * 0x40 + Low(s[1])) * 0x40 + Low(s[2])
    case _ => (((s[0] as int - 0xF0) * 0x40 + Low(s[1])) * 0x40 + Low(s[2])) * 0x40 + Low(s[3])
  }

  /** Six bits appended to a number are its lowest six bits. */
  lemma SixBits(q: nat, r: nat)
    requires r < 0x40
    ensures (q * 0x40 + r) / 0x40 == q && (q * 0x40 + r) % 0x40 == r
  {
  }

  lemma ThreeParts(x: nat, y: nat, z: nat)
    requires y < 0x40 && z < 0x40
    ensures
      var cp := (x * 0x40 + y) * 0x40 + z;
      cp / 0x1000 == x && cp / 0x40 == x * 0x40 + y && cp / 0x40 % 0x40 == y && cp % 0x40 == z
  {
    SixBits(x, y);
    SixBits(x * 0x40 + y, z);
    assert (x * 0x40 + y) * 0x40 + z == x * 0x1000 + (y * 0x40 + z);
  }

  lemma FrontOfThree(s: Bytes)
    requires Utf8Width(s) == 3
    ensures Scalar(DecodeScalar(s)) && EncodeScalar(DecodeScalar(s)) == s[..3]
  {
    ThreeParts(s[0] as int - 0xE0, Low(s[1]), Low(s[2]));
    assert DecodeScalar(s) == ((s[0] as int - 0xE0) * 0x40 + Low(s[1])) * 0x40 + Low(s[2]);
  }

  lemma FrontOfFour(s: Bytes)
    requires Utf8Width(s) == 4
    ensures Scalar(DecodeScalar(s)) && EncodeScalar(DecodeScalar(s)) == s[..4]
  {
    var x := (s[0] as int - 0xF0) * 0x40 + Low(s[1]);
    SixBits(s[0] as int - 0xF0, Low(s[1]));
    ThreeParts(x, Low(s[2]), Low(s[3]));
    assert DecodeScalar(s) == (x * 0x40 + Low(s[2])) * 0x40 + Low(s[3]);
    assert DecodeScalar(s) / 0x40000 == x / 0x40;
  }

  /** What the check accepts at the front is the encoding of a code point, in its only form. */
  lemma FrontIsScalar(s: Bytes)
    requires Utf8Width(s) > 0
    ensures Scalar(DecodeScalar(s)) && EncodeScalar(DecodeScalar(s)) == s[..Utf8Width(s)]
  {
    if Utf8Width(s) == 3 {
      FrontOfThree(s);
    } else if Utf8Width(s) == 4 {
      FrontOfFour(s);
    } else if Utf8Width(s) == 2 {
      SixBits(s[0] as int - 0xC0, Low(s[1]));
    }
  }

  lemma {:induction false} Utf8IsText(v: Bytes) returns (text: seq<int>)
    requires Utf8(v)
    ensures Spells(text, v)
    decreases |v|
  {
    hide Utf8Width, EncodeScalar, DecodeScalar, Scalar;
    text := [];
    if v != [] {
      var n := Utf8Width(v);
      var rest := Utf8IsText(v[n..]);
      FrontIsScalar(v);
      text := [DecodeScalar(v)] + rest;
      assert text[1..] == rest;
      assert v == v[..n] + v[n..];
    }
  }

  /** The check accepts exactly the encodings of texts. */
  lemma Utf8Exact(v: Bytes)
    ensures Utf8(v) <==> IsText(v)
  {
    if Utf8(v) {
      var text := Utf8IsText(v);
    } else if IsText(v) {
      var text :| Spells(text, v);
      TextIsUtf8(text);
    }
  }
}
