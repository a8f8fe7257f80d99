/** The Range header: a single byte range, with an optional end. */
module Ranges {
  import opened ByteStreams

  datatype RangeValue = RangeValue(start: nat, end: Option<nat>)

  predicate IsDigit(c: char) {
    '0' <= c <= '9'
  }

  function Digit(c: char): nat
    requires IsDigit(c)
  {
    (c - '0') as nat
  }

  /** Reads decimal digits onto acc; fails on any other character and as soon as 64 bits do not suffice. */
  function Accumulate(s: string, acc: nat): Option<nat> {
    if s == "" then Some(acc)
    else if !IsDigit(s[0]) || acc * 10 + Digit(s[0]) >= U64_SIZE then None
    else Accumulate(s[1..], acc * 10 + Digit(s[0]))
  }

  /** The unsigned 64-bit number a string spells: digits after an optional plus sign. */
  function ParseU64(s: string): Option<nat> {
    if s == "" || s == "+" then None
    else Accumulate(if s[0] == '+' then s[1..] else s, 0)
  }

  /** The position of the first c in s, or |s|. */
  function Find(s: string, c: char): (i: nat)
    ensures i <= |s| && c !in s[..i] && (i < |s| ==> s[i] == c)
  {
    if s == "" || s[0] == c then 0 else
      var i := Find(s[1..], c);
      assert s[..1 + i] == [s[0]] + s[1..][..i];
      1 + i
  }

  /** What stands before the first c, and what stands after it if there is one. */
  function SplitOnce(s: string, c: char): (string, Option<string>) {
    var i := Find(s, c);
    if i < |s| then (s[..i], Some(s[i + 1..])) else (s, None)
  }

  function ParseRange(header: string): Option<RangeValue> {
    var (units, rest) := SplitOnce(header, '=');
    if units != "bytes" || rest.None? then None else
    var (first, second) := SplitOnce(rest.value, '-');
    match ParseU64(first)
    case None => None
    case Some(start) =>
      if second.None? || second.value == "" then Some(RangeValue(start, None)) else
      match ParseU64(second.value)
      case None => None
      case Some(end) => Some(RangeValue(start, Some(end)))
  }

  // ---------------------------------------------------------------- parsing undoes printing

  function Print(n: nat): (s: string)
    ensures s != "" && forall i | 0 <= i < |s| :: IsDigit(s[i])
  {
    var d := ['0' + (n % 10) as char];
    if n < 10 then d else Print(n / 10) + d
  }

  lemma {:induction false} AccumulateAppend(s: string, d: char, acc: nat)
    requires IsDigit(d)
    ensures Accumulate(s + [d], acc) ==
      match Accumulate(s, acc)
      case None => None
      case Some(v) => if v * 10 + Digit(d) < U64_SIZE then Some(v * 10 + Digit(d)) else None
  {
    if s == "" {
      assert s + [d] == [d];
      assert Accumulate([d], acc)
        == if acc * 10 + Digit(d) < U64_SIZE then Accumulate("", acc * 10 + Digit(d)) else None;
    } else {
      assert (s + [d])[1..] == s[1..] + [d];
      if IsDigit(s[0]) {
        AccumulateAppend(s[1..], d, acc * 10 + Digit(s[0]));
      }
    }
  }

  lemma {:induction false} AccumulatePrint(n: nat)
    ensures Accumulate(Print(n), 0) == if n < U64_SIZE then Some(n) else None
  {
    var d := '0' + (n % 10) as char;
    if n < 10 {
      assert Print(n) == "" + [d];
      AccumulateAppend("", d, 0);
    } else {
      AccumulatePrint(n / 10);
      AccumulateAppend(Print(n / 10), d, 0);
    }
  }

  /** A printed number is read back exactly when it fits 64 bits. */
  lemma ParsePrint(n: nat)
    ensures ParseU64(Print(n)) == if n < U64_SIZE then Some(n) else None
  {
    AccumulatePrint(n);
    assert IsDigit(Print(n)[0]);
  }

  lemma SplitOnceAt(before: string, c: char, after: string)
    requires c !in before
    ensures SplitOnce(before + [c] + after, c) == (before, Some(after))
  {
    var s := before + [c] + after;
    var i := Find(s, c);
    assert s[|before|] == c && forall j | 0 <= j < |before| :: s[j] == before[j] && before[j] in before;
    assert forall j | 0 <= j < i :: s[j] == s[..i][j] && s[..i][j] in s[..i];
    assert i == |before|;
    assert s[..|before|] == before && s[|before| + 1..] == after;
  }

  /** A header "bytes=first-second" is split into its two numbers. */
  lemma ParseSplit(first: string, second: string)
    requires '-' !in first
    ensures ParseRange("bytes=" + first + "-" + second) ==
      match ParseU64(first)
      case None => None
      case Some(start) =>
        if second == "" then Some(RangeValue(start, None)) else
        match ParseU64(second)
        case None => None
        case Some(end) => Some(RangeValue(start, Some(end)))
  {
    var range := first + ['-'] + second;
    assert "bytes=" + first + "-" + second == "bytes" + ['='] + range;
    SplitOnceAt("bytes", '=', range);
    SplitOnceAt(first, '-', second);
  }

  lemma PrintHasNoDash(n: nat)
    ensures '-' !in Print(n)
  {
    assert !IsDigit('-');
  }

  /** A printed range with both ends is read back exactly when both fit 64 bits. */
  lemma ParseClosedRange(s: nat, e: nat)
    ensures ParseRange("bytes=" + Print(s) + "-" + Print(e)) ==
      if s < U64_SIZE && e < U64_SIZE then Some(RangeValue(s, Some(e))) else None
  {
    PrintHasNoDash(s);
    ParseSplit(Print(s), Print(e));
    ParsePrint(s);
    ParsePrint(e);
  }

  /** A printed range without an end is read back exactly when its start fits 64 bits. */
  lemma ParseOpenRange(s: nat)
    ensures ParseRange("bytes=" + Print(s) + "-") == if s < U64_SIZE then Some(RangeValue(s, None)) else None
  {
    PrintHasNoDash(s);
    ParseSplit(Print(s), "");
    assert "bytes=" + Print(s) + "-" + "" == "bytes=" + Print(s) + "-";
    ParsePrint(s);
  }

  // ---------------------------------------------------------------- what a number is

  predicate AllDigits(s: string) {
    forall i | 0 <= i < |s| :: IsDigit(s[i])
  }

  /** The number some decimal digits spell, the last one counting ones. */
  function Value(s: string): nat
    requires AllDigits(s)
  {
    if s == "" then 0 else Value(s[..|s| - 1]) * 10 + Digit(s[|s| - 1])
  }

  lemma {:induction false} AccumulateOnlyDigits(s: string, acc: nat, k: nat)
    requires Accumulate(s, acc).Some? && k < |s|
    ensures IsDigit(s[k])
  {
    if k > 0 {
      AccumulateOnlyDigits(s[1..], acc * 10 + Digit(s[0]), k - 1);
    }
  }

  lemma {:induction false} AccumulateSpells(s: string)
    ensures Accumulate(s, 0) == if AllDigits(s) && Value(s) < U64_SIZE then Some(Value(s)) else None
  {
    if s != "" {
      var init, d := s[..|s| - 1], s[|s| - 1];
      AccumulateSpells(init);
      assert s == init + [d];
      assert AllDigits(s) <==> AllDigits(init) && IsDigit(d);
      if IsDigit(d) {
        AccumulateAppend(init, d, 0);
      } else if Accumulate(s, 0).Some? {
        AccumulateOnlyDigits(s, 0, |s| - 1);
      }
    }
  }

  /** A string is read as the number it spells, after an optional plus sign, exactly when it spells one of 64 bits. */
  lemma ParseU64Spells(s: string)
    ensures
      var digits := if s != "" && s[0] == '+' then s[1..] else s;
      ParseU64(s) == if digits != "" && AllDigits(digits) && Value(digits) < U64_SIZE then Some(Value(digits)) else None
  {
    AccumulateSpells(if s != "" && s[0] == '+' then s[1..] else s);
  }

  // ---------------------------------------------------------------- other headers

  lemma NotFound(s: string, c: char)
    requires c !in s
    ensures SplitOnce(s, c) == (s, None)
  {
    forall j | 0 <= j < |s|
      ensures s[j] != c
    {
      assert s[j] in s;
    }
  }

  /** Without an equals sign there is no range. */
  lemma NoEqualsNoRange(header: string)
    requires '=' !in header
    ensures ParseRange(header) == None
  {
    NotFound(header, '=');
  }

  /** Without a dash, all behind the equals sign is the start. */
  lemma ParseUnsplit(first: string)
    requires '-' !in first
    ensures ParseRange("bytes=" + first) ==
      match ParseU64(first)
      case None => None
      case Some(start) => Some(RangeValue(start, None))
  {
    assert "bytes=" + first == "bytes" + ['='] + first;
    SplitOnceAt("bytes", '=', first);
    NotFound(first, '-');
  }

  /** A suffix range, which has no start, is no range. */
  lemma NoStartNoRange(second: string)
    ensures ParseRange("bytes=-" + second) == None
  {
    ParseSplit("", second);
    assert "bytes=" + "" + "-" + second == "bytes=-" + second;
  }

  /** Other units than bytes, whatever follows them, are no range. */
  lemma OtherUnitsNoRange(units: string, rest: string)
    requires '=' !in units && units != "bytes"
    ensures ParseRange(units + "=" + rest) == None
  {
    SplitOnceAt(units, '=', rest);
  }

  /** A start on its own, without a dash, counts as a range without an end. */
  lemma StartAlone(s: nat)
    ensures ParseRange("bytes=" + Print(s)) == if s < U64_SIZE then Some(RangeValue(s, None)) else None
  {
    PrintHasNoDash(s);
    ParseUnsplit(Print(s));
    ParsePrint(s);
  }

  lemma {:induction false} AccumulateBounded(s: string, acc: nat)
    requires acc < U64_SIZE
    ensures Accumulate(s, acc).Some? ==> Accumulate(s, acc).value < U64_SIZE
  {
    if s != "" && IsDigit(s[0]) && acc * 10 + Digit(s[0]) < U64_SIZE {
      AccumulateBounded(s[1..], acc * 10 + Digit(s[0]));
    }
  }

  lemma ParsedRangeBounded(header: string)
    ensures match ParseRange(header)
      case None => true
      case Some(r) => r.start < U64_SIZE && (r.end.Some? ==> r.end.value < U64_SIZE)
  {
    if ParseRange(header).Some? {
      var range := SplitOnce(header, '=').1.value;
      var (first, second) := SplitOnce(range, '-');
      AccumulateBounded(if first[0] == '+' then first[1..] else first, 0);
      if second.Some? && second.value != "" {
        AccumulateBounded(if second.value[0] == '+' then second.value[1..] else second.value, 0);
      }
    }
  }

  lemma NumberHasNoComma(s: string)
    requires ParseU64(s).Some?
    ensures ',' !in s
  {
    if ',' in s {
      var k :| 0 <= k < |s| && s[k] == ',';
      if s[0] == '+' {
        AccumulateOnlyDigits(s[1..], 0, k - 1);
      } else {
        AccumulateOnlyDigits(s, 0, k);
      }
      assert false;
    }
  }

  lemma SplitOnceParts(s: string, c: char, x: char)
    requires x != c && x in s
    ensures var (before, after) := SplitOnce(s, c); x in before || (after.Some? && x in after.value)
  {
    var k :| 0 <= k < |s| && s[k] == x;
    var i := Find(s, c);
    if i < |s| {
      if k < i {
        assert s[..i][k] == x;
      } else {
        assert s[i + 1..][k - i - 1] == x;
      }
    }
  }

  /** A list of ranges is no range, wherever its comma stands. */
  lemma ListIsNoRange(header: string)
    requires ',' in header
    ensures ParseRange(header) == None
  {
    if ParseRange(header).Some? {
      SplitOnceParts(header, '=', ',');
      var rest := SplitOnce(header, '=').1.value;
      SplitOnceParts(rest, '-', ',');
      var (first, second) := SplitOnce(rest, '-');
      NumberHasNoComma(first);
      if second.Some? && second.value != "" {
        NumberHasNoComma(second.value);
      }
      assert false;
    }
  }
}
