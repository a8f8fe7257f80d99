/** Percent encoding of paths, the hrefs of a listing, and the way back from an href to a path. */
module Uris {
  import opened ByteStreams
  import opened Texts

  const SLASH: byte := 47
  const DOT: byte := 46
  const PERCENT: byte := 37

  /** The unreserved characters of section 2.3 of RFC 3986. */
  predicate Unreserved(b: byte) {
    48 <= b <= 57 || 65 <= b <= 90 || 97 <= b <= 122 || b in {45, 46, 95, 126}
  }

  function HexDigit(n: int): byte
    requires 0 <= n < 16
  {
    (if n < 10 then 48 + n else 55 + n) as byte
  }

  function HexValue(b: byte): Option<int> {
    if 48 <= b <= 57 then Some(b as int - 48)
    else if 65 <= b <= 70 then Some(b as int - 55)
    else if 97 <= b <= 102 then Some(b as int - 87)
    else None
  }

  function EncodeByte(b: byte): Bytes {
    if Unreserved(b) then [b] else [PERCENT, HexDigit(b as int / 16), HexDigit(b as int % 16)]
  }

  function EncodeSegment(s: Bytes): Bytes {
    if s == [] then [] else EncodeByte(s[0]) + EncodeSegment(s[1..])
  }

  /** The parts of s between its slashes. */
  function Split(s: Bytes): (parts: seq<Bytes>)
    ensures parts != []
  {
    if s == [] then [[]]
    else if s[0] == SLASH then [[]] + Split(s[1..])
    else var rest := Split(s[1..]); [[s[0]] + rest[0]] + rest[1..]
  }

  function Join(parts: seq<Bytes>): Bytes {
    if parts == [] then [] else if |parts| == 1 then parts[0] else parts[0] + [SLASH] + Join(parts[1..])
  }

  function EncodeParts(parts: seq<Bytes>): (encoded: seq<Bytes>)
    ensures |encoded| == |parts| && forall i | 0 <= i < |parts| :: encoded[i] == EncodeSegment(parts[i])
  {
    if parts == [] then [] else [EncodeSegment(parts[0])] + EncodeParts(parts[1..])
  }

  function EncodeUri(v: Bytes): Bytes {
    Join(EncodeParts(Split(v)))
  }

  function PercentDecode(s: Bytes): Bytes {
    if s == [] then []
    else if s[0] == PERCENT && |s| >= 3 && HexValue(s[1]).Some? && HexValue(s[2]).Some? then
      [(HexValue(s[1]).value * 16 + HexValue(s[2]).value) as byte] + PercentDecode(s[3..])
    else [s[0]] + PercentDecode(s[1..])
  }

  function DecodeUri(v: Bytes): Option<Bytes> {
    var d := PercentDecode(v);
    if Utf8(d) then Some(d) else None
  }

  // ---------------------------------------------------------------- round trip of the encoding

  /** The encoding byte by byte, in which slashes stand for themselves. */
  function EncodePath(s: Bytes): Bytes {
    if s == [] then [] else (if s[0] == SLASH then [SLASH] else EncodeByte(s[0])) + EncodePath(s[1..])
  }

  lemma {:induction false} JoinHead(prefix: Bytes, parts: seq<Bytes>)
    requires parts != []
    ensures Join([prefix + parts[0]] + parts[1..]) == prefix + Join(parts)
  {
    var longer := [prefix + parts[0]] + parts[1..];
    assert longer[1..] == parts[1..];
    if |parts| > 1 {
      var rest := Join(parts[1..]);
      assert Join(longer) == (prefix + parts[0]) + [SLASH] + rest;
      assert (prefix + parts[0]) + [SLASH] + rest == prefix + (parts[0] + [SLASH] + rest);
    }
  }

  lemma EmptyPartFirst(parts: seq<Bytes>)
    requires parts != []
    ensures Join([[]] + parts) == [SLASH] + Join(parts)
  {
    assert ([[]] + parts)[1..] == parts;
  }

  lemma EncodePartsFirst(first: Bytes, parts: seq<Bytes>)
    ensures EncodeParts([first] + parts) == [EncodeSegment(first)] + EncodeParts(parts)
  {
    assert ([first] + parts)[1..] == parts;
  }

  lemma EncodeSegmentFirst(b: byte, s: Bytes)
    ensures EncodeSegment([b] + s) == EncodeByte(b) + EncodeSegment(s)
  {
    assert ([b] + s)[1..] == s;
  }

  /** The first byte of a path is encoded on its own. */
  lemma EncodeUriFirst(v: Bytes)
    requires v != []
    ensures EncodeUri(v) == (if v[0] == SLASH then [SLASH] else EncodeByte(v[0])) + EncodeUri(v[1..])
  {
    assert EncodeSegment([]) == [];
    hide EncodeByte, EncodeSegment, EncodeParts;
    var rest := Split(v[1..]);
    if v[0] == SLASH {
      hide Join;
      EncodePartsFirst([], rest);
      EmptyPartFirst(EncodeParts(rest));
    } else {
      hide Join;
      EncodePartsFirst([v[0]] + rest[0], rest[1..]);
      EncodePartsFirst(rest[0], rest[1..]);
      EncodeSegmentFirst(v[0], rest[0]);
      assert rest == [rest[0]] + rest[1..];
      var encoded := EncodeParts(rest);
      assert encoded[1..] == EncodeParts(rest[1..]);
      JoinHead(EncodeByte(v[0]), encoded);
    }
  }

  lemma {:induction false} EncodeUriBytewise(v: Bytes)
    ensures EncodeUri(v) == EncodePath(v)
  {
    if v == [] {
      assert EncodeParts([[]]) == [EncodeSegment([])];
    } else {
      hide EncodeUri, EncodeByte;
      EncodeUriFirst(v);
      EncodeUriBytewise(v[1..]);
    }
  }

  lemma DecodeByte(b: byte, rest: Bytes)
    ensures PercentDecode(EncodeByte(b) + rest) == [b] + PercentDecode(rest)
  {
    var s := EncodeByte(b) + rest;
    if Unreserved(b) {
      assert s[1..] == rest;
    } else {
      assert s[3..] == rest;
    }
  }

  lemma {:induction false} DecodeEncodedPath(v: Bytes)
    ensures PercentDecode(EncodePath(v)) == v
  {
    if v != [] {
      DecodeEncodedPath(v[1..]);
      if v[0] == SLASH {
        assert EncodePath(v)[1..] == EncodePath(v[1..]);
      } else {
        DecodeByte(v[0], EncodePath(v[1..]));
      }
    }
  }

  /** Decoding undoes encoding, on exactly the strings that spell a text; the others are refused. */
  lemma DecodeUndoesEncode(v: Bytes)
    ensures DecodeUri(EncodeUri(v)) == if IsText(v) then Some(v) else None
  {
    EncodeUriBytewise(v);
    DecodeEncodedPath(v);
    Utf8Exact(v);
  }

  /** What is decoded is always a text. */
  lemma DecodedIsText(v: Bytes)
    ensures DecodeUri(v).Some? <==> IsText(PercentDecode(v))
    ensures DecodeUri(v).Some? ==> DecodeUri(v).value == PercentDecode(v)
  {
    Utf8Exact(PercentDecode(v));
  }

  // ---------------------------------------------------------------- the alphabet of the encoding

  /** The unreserved characters, as section 2.3 of RFC 3986 spells them. */
  predicate UnreservedChar(c: char) {
    'A' <= c <= 'Z' || 'a' <= c <= 'z' || '0' <= c <= '9' || c == '-' || c == '.' || c == '_' || c == '~'
  }

  function UpperHex(n: nat): char
    requires n < 16
  {
    if n < 10 then '0' + n as char else 'A' + (n - 10) as char
  }

  function LowerHex(n: nat): char
    requires n < 16
  {
    if n < 10 then '0' + n as char else 'a' + (n - 10) as char
  }

  lemma {:induction false} EncodePathSum(v: Bytes, w: Bytes)
    ensures EncodePath(v + w) == EncodePath(v) + EncodePath(w)
  {
    if v == [] {
      assert v + w == w && EncodePath(v) + EncodePath(w) == EncodePath(w);
    } else {
      hide EncodeByte;
      EncodePathSum(v[1..], w);
      assert (v + w)[1..] == v[1..] + w;
      Associative(if v[0] == SLASH then [SLASH] else EncodeByte(v[0]), EncodePath(v[1..]), EncodePath(w));
    }
  }

  /** A string is encoded byte by byte. */
  lemma EncodedSum(v: Bytes, w: Bytes)
    ensures EncodeUri(v + w) == EncodeUri(v) + EncodeUri(w)
  {
    hide EncodeUri;
    EncodeUriBytewise(v + w);
    EncodeUriBytewise(v);
    EncodeUriBytewise(w);
    EncodePathSum(v, w);
  }

  /**
   * Unreserved characters and slashes stand for themselves, and every other byte becomes a percent sign and two
   * upper-case hexadecimal digits.
   */
  lemma EncodedByte(b: byte)
    ensures EncodeUri([b]) ==
      if UnreservedChar(b as char) || b as char == '/' then [b]
      else ['%' as byte, UpperHex(b as int / 16) as byte, UpperHex(b as int % 16) as byte]
  {
    hide EncodeUri;
    EncodeUriBytewise([b]);
    assert EncodePath([b]) == (if b == SLASH then [SLASH] else EncodeByte(b)) + EncodePath([]);
  }

  predicate IsHexDigit(c: byte, n: int) {
    0 <= n < 16 && (c as char == UpperHex(n) || c as char == LowerHex(n))
  }

  lemma HexValueExact(c: byte)
    ensures forall n :: IsHexDigit(c, n) <==> HexValue(c) == Some(n)
  {
  }

  /** A percent sign and two hexadecimal digits, of either case, are decoded to the byte they spell. */
  lemma DecodedTriple(high: byte, low: byte, b: byte, rest: Bytes)
    requires IsHexDigit(high, b as int / 16) && IsHexDigit(low, b as int % 16)
    ensures PercentDecode(['%' as byte, high, low] + rest) == [b] + PercentDecode(rest)
  {
    HexValueExact(high);
    HexValueExact(low);
    hide HexValue, IsHexDigit;
    var s := ['%' as byte, high, low] + rest;
    assert s[3..] == rest;
  }

  ghost predicate IsTriple(s: Bytes) {
    |s| >= 3 && s[0] as char == '%' && (exists n :: IsHexDigit(s[1], n)) && exists n :: IsHexDigit(s[2], n)
  }

  /** Any other byte stands for itself, a percent sign without two digits behind it too. */
  lemma DecodedOther(s: Bytes)
    requires s != [] && !IsTriple(s)
    ensures PercentDecode(s) == [s[0]] + PercentDecode(s[1..])
  {
    if |s| >= 3 {
      HexValueExact(s[1]);
      HexValueExact(s[2]);
      assert HexValue(s[1]).Some? ==> IsHexDigit(s[1], HexValue(s[1]).value);
      assert HexValue(s[2]).Some? ==> IsHexDigit(s[2], HexValue(s[2]).value);
    }
  }

  /** Bytes without a slash lengthen the first part. */
  lemma {:induction false} SplitAfter(prefix: Bytes, s: Bytes)
    requires SLASH !in prefix
    ensures Split(prefix + s) == [prefix + Split(s)[0]] + Split(s)[1..]
  {
    if prefix == [] {
      assert prefix + s == s && prefix + Split(s)[0] == Split(s)[0];
    } else {
      SplitAfter(prefix[1..], s);
      assert (prefix + s)[1..] == prefix[1..] + s;
      assert [prefix[0]] + (prefix[1..] + Split(s)[0]) == prefix + Split(s)[0];
    }
  }

  lemma {:induction false} SplitEncodedPath(v: Bytes)
    ensures Split(EncodePath(v)) == EncodeParts(Split(v))
  {
    if v == [] {
      assert EncodeParts([[]]) == [[]];
    } else {
      SplitEncodedPath(v[1..]);
      var rest := Split(v[1..]);
      if v[0] == SLASH {
        assert EncodePath(v)[1..] == EncodePath(v[1..]);
        assert EncodeParts(Split(v)) == [[]] + EncodeParts(rest);
      } else {
        SplitAfter(EncodeByte(v[0]), EncodePath(v[1..]));
        assert EncodeSegment([v[0]] + rest[0]) == EncodeByte(v[0]) + EncodeSegment(rest[0]);
      }
    }
  }

  /** The separators of a path and of its encoding match one for one, with each part encoded on its own. */
  lemma SeparatorsMatch(v: Bytes)
    ensures Split(EncodeUri(v)) == EncodeParts(Split(v))
  {
    EncodeUriBytewise(v);
    SplitEncodedPath(v);
  }

  // ---------------------------------------------------------------- listing and fetching

  predicate HasDotDot(s: Bytes) {
    |s| >= 2 && ((s[0] == DOT && s[1] == DOT) || HasDotDot(s[1..]))
  }

  function Named(parts: seq<Bytes>): seq<Bytes> {
    if parts == [] then []
    else (if parts[0] == [] || parts[0] == [DOT] then [] else [parts[0]]) + Named(parts[1..])
  }

  /** The components of a path: repeated slashes, a trailing slash and "." components do not count. */
  function Components(s: Bytes): seq<Bytes> {
    Named(Split(s))
  }

  /** Two dots in a row, anywhere. */
  lemma {:induction false} DotDotAnywhere(s: Bytes)
    ensures HasDotDot(s) <==> exists i: nat :: i + 1 < |s| && s[i] as char == '.' && s[i + 1] as char == '.'
  {
    if |s| >= 2 {
      DotDotAnywhere(s[1..]);
      if i: nat :| i + 1 < |s| && s[i] as char == '.' && s[i + 1] as char == '.' {
        assert i > 0 ==> s[1..][i - 1] == s[i] && s[1..][i] == s[i + 1];
      }
      if i: nat :| i + 1 < |s[1..]| && s[1..][i] as char == '.' && s[1..][i + 1] as char == '.' {
        assert s[i + 1] == s[1..][i] && s[i + 2] == s[1..][i + 1];
      }
    }
  }

  lemma {:induction false} NamedSum(parts: seq<Bytes>, more: seq<Bytes>)
    ensures Named(parts + more) == Named(parts) + Named(more)
  {
    if parts == [] {
      assert parts + more == more;
    } else {
      NamedSum(parts[1..], more);
      assert (parts + more)[1..] == parts[1..] + more;
      Associative(if parts[0] == [] || parts[0] == [DOT] then [] else [parts[0]], Named(parts[1..]), Named(more));
    }
  }

  lemma SplitFirst(b: byte, s: Bytes)
    ensures Split([b] + s) ==
      if b == SLASH then [[]] + Split(s) else [[b] + Split(s)[0]] + Split(s)[1..]
  {
    assert ([b] + s)[1..] == s;
  }

  lemma TailOfSum(x: seq<Bytes>, y: seq<Bytes>)
    requires x != []
    ensures (x + y)[0] == x[0] && (x + y)[1..] == x[1..] + y
  {
  }

  lemma {:induction false} SplitSum(v: Bytes, w: Bytes)
    ensures Split(v + ([SLASH] + w)) == Split(v) + Split(w)
  {
    if v == [] {
      SplitFirst(SLASH, w);
      assert v + ([SLASH] + w) == [SLASH] + w;
    } else {
      var b, rest := v[0], v[1..];
      assert v == [b] + rest;
      SplitSum(rest, w);
      SplitFirst(b, rest);
      SplitFirst(b, rest + ([SLASH] + w));
      hide Split;
      Associative([b], rest, [SLASH] + w);
      TailOfSum(Split(rest), Split(w));
      Associative(if b == SLASH then [[]] else [[b] + Split(rest)[0]],
                  if b == SLASH then Split(rest) else Split(rest)[1..], Split(w));
    }
  }

  /**
   * The components of a path are those of the parts between its slashes, in order; a part is a component unless
   * it is empty or a dot.
   */
  lemma ComponentsByPart(v: Bytes, w: Bytes, part: Bytes)
    requires '/' as byte !in part
    ensures Components(v + ['/' as byte] + w) == Components(v) + Components(w)
    ensures Components(part) == if part == [] || part == ['.' as byte] then [] else [part]
  {
    SplitSum(v, w);
    Associative(v, [SLASH], w);
    NamedSum(Split(v), Split(w));
    SplitAfter(part, []);
    assert part + [] == part;
    assert Named([part]) == (if part == [] || part == [DOT] then [] else [part]) + Named([]);
  }

  /** The dav directory joined with a decoded path: an absolute path replaces it. */
  datatype Joined = Below(components: seq<Bytes>) | Replaced(components: seq<Bytes>)

  function ExtractPath(wanted: Bytes): Option<Joined>
    requires wanted != []
  {
    if HasDotDot(wanted) then None else
    match DecodeUri(wanted[1..])
    case None => None
    case Some(d) => Some(if d != [] && d[0] == SLASH then Replaced(Components(d)) else Below(Components(d)))
  }

  lemma DotsOfFirst(b: byte, rest: Bytes)
    ensures HasDotDot([b] + rest) <==> (b == DOT && rest != [] && rest[0] == DOT) || HasDotDot(rest)
  {
    assert ([b] + rest)[1..] == rest;
  }

  lemma EncodePathHead(v: Bytes)
    requires v != []
    ensures EncodePath(v) != [] && (EncodePath(v)[0] == DOT <==> v[0] == DOT)
  {
  }

  lemma NoDotAtFront(s: Bytes)
    requires s != [] && s[0] != DOT
    ensures HasDotDot(s) <==> HasDotDot(s[1..])
  {
  }

  lemma NoThreeDots(e: Bytes, rest: Bytes)
    requires |e| == 3 && DOT !in e
    ensures HasDotDot(e + rest) <==> HasDotDot(rest)
  {
    hide HasDotDot;
    var s := e + rest;
    NoDotAtFront(s);
    NoDotAtFront(s[1..]);
    NoDotAtFront(s[2..]);
    assert s[1..][1..] == s[2..] && s[2..][1..] == rest;
  }

  /** The encoding of a byte adds no dots, unless it is a dot that stays what it is. */
  lemma DotsAfterByte(b: byte, rest: Bytes)
    ensures HasDotDot((if b == SLASH then [SLASH] else EncodeByte(b)) + rest) <==>
      (b == DOT && rest != [] && rest[0] == DOT) || HasDotDot(rest)
  {
    hide HasDotDot;
    if b == SLASH || Unreserved(b) {
      DotsOfFirst(b, rest);
    } else {
      NoThreeDots(EncodeByte(b), rest);
    }
  }

  lemma {:induction false} EncodePathDots(v: Bytes)
    ensures HasDotDot(EncodePath(v)) <==> HasDotDot(v)
  {
    if v != [] {
      hide EncodeByte, HasDotDot;
      var rest := EncodePath(v[1..]);
      EncodePathDots(v[1..]);
      DotsAfterByte(v[0], rest);
      DotsOfFirst(v[0], v[1..]);
      assert [v[0]] + v[1..] == v;
      if |v| > 1 {
        EncodePathHead(v[1..]);
      }
    }
  }

  /** A request for an encoded text leads to its components, unless two dots in a row make it refused. */
  lemma RequestedPath(v: Bytes)
    ensures ExtractPath([SLASH] + EncodeUri(v)) ==
      if HasDotDot(v) || !IsText(v) then None
      else if v != [] && v[0] == SLASH then Some(Replaced(Components(v)))
      else Some(Below(Components(v)))
  {
    DecodeUndoesEncode(v);
    EncodeUriBytewise(v);
    EncodePathDots(v);
    DotsOfFirst(SLASH, EncodeUri(v));
    assert ([SLASH] + EncodeUri(v))[1..] == EncodeUri(v);
  }

  /** The href a listing shows for the item with the given name relative to the dav directory. */
  function Href(name: Bytes, isDir: bool): Bytes {
    var href := EncodeUri([SLASH] + name);
    if isDir && (href == [] || href[|href| - 1] != SLASH) then href + [SLASH] else href
  }

  /** A name that a directory can list. */
  predicate ItemName(n: Bytes) {
    n != [] && SLASH !in n && n != [DOT]
  }

  lemma {:induction false} DotsBeforeSlash(s: Bytes)
    ensures HasDotDot(s + [SLASH]) <==> HasDotDot(s)
  {
    if s != [] {
      DotsBeforeSlash(s[1..]);
      assert (s + [SLASH])[1..] == s[1..] + [SLASH];
    }
  }

  /** An href contains two dots in a row exactly when the name it encodes does. */
  lemma HrefDots(name: Bytes, isDir: bool)
    ensures HasDotDot(Href(name, isDir)) <==> HasDotDot(name)
  {
    EncodeUriBytewise([SLASH] + name);
    EncodePathDots([SLASH] + name);
    DotsOfFirst(SLASH, name);
    DotsBeforeSlash(EncodeUri([SLASH] + name));
  }

  lemma {:induction false} EncodePathAppend(v: Bytes, b: byte)
    requires b == SLASH
    ensures EncodePath(v + [b]) == EncodePath(v) + [b]
  {
    if v == [] {
      assert v + [b] == [b];
      assert EncodePath([b]) == [SLASH] + EncodePath([]);
    } else {
      hide EncodeByte;
      EncodePathAppend(v[1..], b);
      assert (v + [b])[1..] == v[1..] + [b];
      Associative(if v[0] == SLASH then [SLASH] else EncodeByte(v[0]), EncodePath(v[1..]), [b]);
    }
  }

  /** What an href decodes to after its first slash: the name, and the slash that was added to a collection's. */
  lemma HrefDecodes(name: Bytes, isDir: bool)
    ensures
      var href := Href(name, isDir);
      && href != []
      && (|| PercentDecode(href[1..]) == name
          || (isDir && name != [] && PercentDecode(href[1..]) == name + [SLASH]))
  {
    EncodeUriBytewise([SLASH] + name);
    var e := EncodePath(name);
    assert ([SLASH] + name)[1..] == name;
    assert EncodeUri([SLASH] + name) == [SLASH] + e;
    DecodeEncodedPath(name);
    if Href(name, isDir) == [SLASH] + e {
      assert ([SLASH] + e)[1..] == e;
    } else {
      assert Href(name, isDir)[1..] == e + [SLASH];
      EncodePathAppend(name, SLASH);
      DecodeEncodedPath(name + [SLASH]);
    }
  }

  lemma {:induction false} EncodePathLast(v: Bytes)
    requires v != []
    ensures
      var e := EncodePath(v);
      e != [] && (e[|e| - 1] == SLASH <==> v[|v| - 1] == SLASH)
  {
    if |v| > 1 {
      EncodePathLast(v[1..]);
    } else {
      assert EncodePath(v) == (if v[0] == SLASH then [SLASH] else EncodeByte(v[0])) + EncodePath([]);
    }
  }

  /** An href spells the name behind a slash, and a collection's ends with a slash. */
  lemma HrefSpells(name: Bytes, isDir: bool)
    ensures
      var closed := name == [] || name[|name| - 1] == SLASH;
      PercentDecode(Href(name, isDir)) == [SLASH] + name + (if isDir && !closed then [SLASH] else [])
    ensures isDir ==> Href(name, isDir) != [] && Href(name, isDir)[|Href(name, isDir)| - 1] == SLASH
  {
    var whole := [SLASH] + name;
    EncodeUriBytewise(whole);
    DecodeEncodedPath(whole);
    EncodePathAppend(whole, SLASH);
    DecodeEncodedPath(whole + [SLASH]);
    EncodePathLast(whole);
  }

  lemma NamedFirst(name: Bytes, parts: seq<Bytes>)
    requires ItemName(name)
    ensures Named([name] + parts) == [name] + Named(parts)
  {
    assert ([name] + parts)[1..] == parts;
  }

  lemma ComponentsOfName(name: Bytes)
    requires ItemName(name)
    ensures Components(name) == [name] && Components(name + [SLASH]) == [name]
  {
    SplitAfter(name, []);
    SplitAfter(name, [SLASH]);
    assert name + [] == name;
    assert Split([SLASH]) == [[]] + Split([]) == [[], []];
    NamedFirst(name, []);
    NamedFirst(name, [[]]);
    assert Named([[]]) == Named([]);
  }

  /** A name in front of a slash is the first component. */
  lemma ComponentsAfterName(name: Bytes, rest: Bytes)
    requires ItemName(name)
    ensures Components(name + ([SLASH] + rest)) == [name] + Components(rest)
  {
    SplitAfter(name, [SLASH] + rest);
    assert ([SLASH] + rest)[1..] == rest;
    assert Split([SLASH] + rest) == [[]] + Split(rest);
    assert name + [] == name;
    NamedFirst(name, Split(rest));
  }

  lemma JoinFirst(names: seq<Bytes>)
    requires |names| > 1
    ensures
      var tail := Join(names[1..]);
      && Join(names) == names[0] + ([SLASH] + tail)
      && Join(names) + [SLASH] == names[0] + ([SLASH] + (tail + [SLASH]))
  {
    var tail := Join(names[1..]);
    assert Join(names) == names[0] + [SLASH] + tail;
    hide Join;
    Associative(names[0], [SLASH], tail);
    Associative(names[0], [SLASH] + tail, [SLASH]);
    Associative([SLASH], tail, [SLASH]);
  }

  /** Joining item names and taking the components apart again gives the names, a trailing slash included. */
  lemma {:induction false} ComponentsOfJoin(names: seq<Bytes>)
    requires forall n | n in names :: ItemName(n)
    ensures Components(Join(names)) == names
    ensures names != [] ==> Components(Join(names) + [SLASH]) == names
  {
    if names == [] {
      assert Split([]) == [[]] && Named([[]]) == Named([]);
    } else if |names| == 1 {
      hide Components;
      ComponentsOfName(names[0]);
    } else {
      hide Components, Join, ItemName;
      ComponentsOfJoin(names[1..]);
      var tail := Join(names[1..]);
      JoinFirst(names);
      ComponentsAfterName(names[0], tail);
      ComponentsAfterName(names[0], tail + [SLASH]);
    }
  }

  lemma JoinStartsWithName(names: seq<Bytes>)
    requires names != [] && forall n | n in names :: ItemName(n)
    ensures Join(names) != [] && Join(names)[0] != SLASH
  {
    assert names[0] in names && ItemName(names[0]) && names[0][0] in names[0];
  }

  /**
   * Fetching the href of a listed item leads back to the very item, for collections and files, unless
   * its name contains two dots in a row: then the server refuses it.
   */
  lemma ListedItemsResolve(names: seq<Bytes>, isDir: bool)
    requires (forall n | n in names :: ItemName(n)) && IsText(Join(names))
    ensures Href(Join(names), isDir) != []
    ensures ExtractPath(Href(Join(names), isDir)) == if HasDotDot(Join(names)) then None else Some(Below(names))
  {
    var name := Join(names);
    Utf8Exact(name);
    assert Utf8([SLASH]) by {
      assert Utf8([SLASH][1..]);
    }
    hide Href, HasDotDot, PercentDecode, Components, Join, Utf8;
    HrefDots(name, isDir);
    HrefDecodes(name, isDir);
    ComponentsOfJoin(names);
    Utf8Append(name, [SLASH]);
    if names != [] {
      JoinStartsWithName(names);
    }
  }
}
