/** The `pageids` request parameter of `_getPageInfo`: the page ids of the
    geosearch hits, each written as JavaScript writes a whole number, joined
    with `|`. The decoder is the reading the encyclopedia service applies
    to it (`split("|")`, then a number per piece). */
module PageIds {
  import opened Wrappers

  const Separator: char := '|'

  predicate IsDigit(c: char) {
    '0' <= c <= '9'
  }

  function DigitChar(d: nat): (c: char)
    requires d < 10
    ensures IsDigit(c)
  {
    "0123456789"[d]
  }

  function DigitValue(c: char): (d: nat)
    requires IsDigit(c)
    ensures d < 10
  {
    (c as int) - ('0' as int)
  }

  lemma DigitValueOfDigitChar(d: nat)
    requires d < 10
    ensures DigitValue(DigitChar(d)) == d
  {
  }

  predicate AllDigits(s: string) {
    forall i :: 0 <= i < |s| ==> IsDigit(s[i])
  }

  /** Decimal notation of a natural number, without leading zeros. */
  function NatToString(n: nat): (s: string)
    ensures |s| > 0 && AllDigits(s)
    ensures n < 10 <==> |s| == 1
    decreases n
  {
    if n < 10 then [DigitChar(n)] else NatToString(n / 10) + [DigitChar(n % 10)]
  }

  /** `String(pageid)` for a whole number: decimal, with a leading `-` when
      negative. */
  function IdToString(id: int): (s: string)
    ensures |s| > 0 && Separator !in s
  {
    if id < 0 then "-" + NatToString(-id) else NatToString(id)
  }

  /** Value of a non-empty string of decimal digits. */
  function DigitsValue(s: string): (n: nat)
    requires |s| > 0 && AllDigits(s)
    decreases |s|
  {
    if |s| == 1 then DigitValue(s[0])
    else DigitsValue(s[..|s| - 1]) * 10 + DigitValue(s[|s| - 1])
  }

  /** Reads one id back: an optional `-` followed by at least one digit. */
  function ParseId(s: string): (r: Option<int>)
    ensures r.Some? ==> |s| > 0 && Separator !in s
  {
    if |s| > 0 && s[0] == '-' then
      if |s| > 1 && AllDigits(s[1..]) then Some(0 - DigitsValue(s[1..]) as int) else None
    else if |s| > 0 && AllDigits(s) then Some(DigitsValue(s))
    else None
  }

  lemma {:induction false} NatToStringRoundTrip(n: nat)
    ensures DigitsValue(NatToString(n)) == n
    decreases n
  {
    if n < 10 {
      DigitValueOfDigitChar(n);
    } else {
      var s := NatToString(n);
      var prefix := NatToString(n / 10);
      assert s[..|s| - 1] == prefix;
      assert s[|s| - 1] == DigitChar(n % 10);
      NatToStringRoundTrip(n / 10);
      DigitValueOfDigitChar(n % 10);
    }
  }

  lemma NonNegativeIdRoundTrip(n: nat)
    ensures ParseId(NatToString(n)) == Some(n)
  {
    var s := NatToString(n);
    assert IsDigit(s[0]);
    NatToStringRoundTrip(n);
  }

  lemma NegativeIdRoundTrip(n: nat)
    ensures ParseId("-" + NatToString(n)) == Some(0 - n as int)
  {
    var t := NatToString(n);
    var s := "-" + t;
    assert s[1..] == t;
    NatToStringRoundTrip(n);
  }

  /** Every id reads back as itself. */
  lemma IdRoundTrip(id: int)
    ensures ParseId(IdToString(id)) == Some(id)
  {
    if id < 0 {
      assert IdToString(id) == "-" + NatToString(-id);
      NegativeIdRoundTrip(-id);
    } else {
      assert IdToString(id) == NatToString(id);
      NonNegativeIdRoundTrip(id);
    }
  }

  /** `Array.prototype.join(sep)`: the empty list joins to the empty string. */
  function Join(parts: seq<string>, sep: char): (s: string)
    ensures |parts| == 0 ==> s == ""
    ensures |parts| == 1 ==> s == parts[0]
    decreases |parts|
  {
    if |parts| == 0 then ""
    else if |parts| == 1 then parts[0]
    else parts[0] + [sep] + Join(parts[1..], sep)
  }

  /** `String.prototype.split(sep)` for a one-character separator: it always
      yields at least one piece, and `""` splits to `[""]`. */
  function Split(s: string, sep: char): (parts: seq<string>)
    ensures |parts| > 0
    ensures |parts| == 1 <==> sep !in s
    decreases |s|
  {
    if |s| == 0 then [""]
    else if s[0] == sep then [""] + Split(s[1..], sep)
    else
      var rest := Split(s[1..], sep);
      [[s[0]] + rest[0]] + rest[1..]
  }

  lemma {:induction false} SplitWithoutSeparator(p: string, sep: char)
    requires sep !in p
    ensures Split(p, sep) == [p]
    decreases |p|
  {
    if |p| > 0 {
      assert sep !in p[1..];
      SplitWithoutSeparator(p[1..], sep);
      assert [p[0]] + p[1..] == p;
    }
  }

  lemma {:induction false} SplitAfterFirstPiece(p: string, sep: char, rest: string)
    requires sep !in p
    ensures Split(p + [sep] + rest, sep) == [p] + Split(rest, sep)
    decreases |p|
  {
    var s := p + [sep] + rest;
    if |p| == 0 {
      assert s[1..] == rest;
    } else {
      assert s[0] == p[0] && s[0] != sep;
      assert s[1..] == p[1..] + [sep] + rest;
      assert sep !in p[1..];
      SplitAfterFirstPiece(p[1..], sep, rest);
      var tail := Split(s[1..], sep);
      assert tail[0] == p[1..] && tail[1..] == Split(rest, sep);
      assert Split(s, sep) == [[s[0]] + tail[0]] + tail[1..];
      assert [p[0]] + p[1..] == p;
    }
  }

  /** Splitting undoes joining, provided no piece holds the separator and
      there is at least one piece. */
  lemma {:induction false} SplitJoin(parts: seq<string>, sep: char)
    requires |parts| > 0
    requires forall i :: 0 <= i < |parts| ==> sep !in parts[i]
    ensures Split(Join(parts, sep), sep) == parts
    decreases |parts|
  {
    if |parts| == 1 {
      SplitWithoutSeparator(parts[0], sep);
    } else {
      SplitAfterFirstPiece(parts[0], sep, Join(parts[1..], sep));
      SplitJoin(parts[1..], sep);
      assert [parts[0]] + parts[1..] == parts;
    }
  }

  function IdStrings(ids: seq<int>): (parts: seq<string>)
    ensures |parts| == |ids|
    ensures forall i :: 0 <= i < |ids| ==> parts[i] == IdToString(ids[i])
  {
    seq(|ids|, i requires 0 <= i < |ids| => IdToString(ids[i]))
  }

  /** The `pageids` parameter built from the hits' ids, in order. */
  function EncodePageIds(ids: seq<int>): (s: string)
    ensures s == "" <==> ids == []
  {
    Join(IdStrings(ids), Separator)
  }

  /** Reads a list of ids back, one per piece; the empty string stands for
      the empty list, since splitting it would give one empty piece. */
  function ParseIds(parts: seq<string>): (r: Option<seq<int>>)
    ensures r.Some? ==> |r.value| == |parts|
    decreases |parts|
  {
    if |parts| == 0 then Some([])
    else
      match ParseId(parts[0])
      case None => None
      case Some(id) =>
        match ParseIds(parts[1..])
        case None => None
        case Some(ids) => Some([id] + ids)
  }

  function DecodePageIds(s: string): (r: Option<seq<int>>)
    ensures r.Some? && s != "" ==> |r.value| == |Split(s, Separator)|
  {
    if s == "" then Some([]) else ParseIds(Split(s, Separator))
  }

  /** A list reads back piece by piece. */
  lemma {:induction false} ParseIdsPointwise(parts: seq<string>, ids: seq<int>)
    requires |parts| == |ids|
    requires forall i :: 0 <= i < |parts| ==> ParseId(parts[i]) == Some(ids[i])
    ensures ParseIds(parts) == Some(ids)
    decreases |parts|
  {
    if |parts| > 0 {
      ParseIdsPointwise(parts[1..], ids[1..]);
      assert [ids[0]] + ids[1..] == ids;
    }
  }

  lemma ParseIdStrings(ids: seq<int>)
    ensures ParseIds(IdStrings(ids)) == Some(ids)
  {
    var parts := IdStrings(ids);
    forall i | 0 <= i < |ids|
      ensures ParseId(parts[i]) == Some(ids[i])
    {
      IdRoundTrip(ids[i]);
    }
    ParseIdsPointwise(parts, ids);
  }

  /** Decoding the `pageids` parameter gives back exactly the hits' ids, in
      their order; the empty list travels as the empty string. */
  lemma PageIdsRoundTrip(ids: seq<int>)
    ensures DecodePageIds(EncodePageIds(ids)) == Some(ids)
  {
    if ids != [] {
      SplitJoin(IdStrings(ids), Separator);
      ParseIdStrings(ids);
    }
  }
}
