/**
Decimal names: the .dlog file of a handle, and the key of a chunk's result in the master's
table.  Formatting can be undone, so grouping by name is grouping by handle.
*/
module Names {
  import opened Wrappers
  import opened Types

  predicate IsDigit(c: char) {
    '0' <= c <= '9'
  }

  function DigitChar(d: nat): (c: char)
    requires d < 10
    ensures IsDigit(c) && DigitOf(c) == d
  {
    '0' + d as char
  }

  function DigitOf(c: char): (d: nat)
    requires IsDigit(c)
    ensures d < 10
  {
    c as int - '0' as int
  }

  /** %d of a natural number. */
  function Decimal(n: nat): (s: string)
    ensures |s| > 0 && forall i :: 0 <= i < |s| ==> IsDigit(s[i])
  {
    if n < 10 then [DigitChar(n)] else Decimal(n / 10) + [DigitChar(n % 10)]
  }

  /** %d of an integer. */
  function DecimalInt(i: int): string {
    if i < 0 then "-" + Decimal(-i) else Decimal(i)
  }

  const PREFIX: string := "download_log_"
  const EXTENSION: string := ".dlog"

  function FileName(h: Handle): string {
    PREFIX + (Decimal(h.Id) + ("-" + DecimalInt(h.TimeStamp))) + EXTENSION
  }

  function ResultKey(id: nat, chunkIndex: int): string {
    Decimal(id) + (":" + DecimalInt(chunkIndex))
  }

  // ---------------------------------------------------------------- parsing

  /** How many digits some text starts with. */
  function LeadingDigits(s: string): (n: nat)
    ensures n <= |s| && forall i :: 0 <= i < n ==> IsDigit(s[i])
  {
    if s == "" || !IsDigit(s[0]) then 0 else 1 + LeadingDigits(s[1..])
  }

  function DigitsValue(s: string): nat
    requires forall i :: 0 <= i < |s| ==> IsDigit(s[i])
  {
    if s == "" then 0 else 10 * DigitsValue(s[..|s| - 1]) + DigitOf(s[|s| - 1])
  }

  /** A scan of %d into an unsigned number: digits, and what follows them. */
  function ScanDigits(s: string): Option<(nat, string)> {
    var n := LeadingDigits(s);
    if n == 0 then None else Some((DigitsValue(s[..n]), s[n..]))
  }

  function ScanUint64(s: string): Option<(Uint64, string)> {
    match ScanDigits(s)
    case None => None
    case Some((v, rest)) => if v < TWO64 then Some((v, rest)) else None
  }

  /** A scan of %d into a signed number. */
  function ScanInt64(s: string): Option<(Int64, string)> {
    var negative := s != "" && s[0] == '-';
    var digits := if s != "" && (s[0] == '-' || s[0] == '+') then s[1..] else s;
    match ScanDigits(digits)
    case None => None
    case Some((v, rest)) =>
      if negative then (if v <= TWO63 then Some((-(v as int), rest)) else None)
      else if v < TWO63 then Some((v, rest)) else None
  }

  /** The extension: from the last dot on. */
  function Ext(name: string): (e: string)
    ensures |e| <= |name| && name[|name| - |e|..] == e
  {
    if name == "" then ""
    else if name[|name| - 1] == '.' then "."
    else
      var e := Ext(name[..|name| - 1]);
      if e == "" then "" else e + [name[|name| - 1]]
  }

  predicate IsDownloadLogFile(name: string) {
    Ext(name) == EXTENSION
  }

  datatype NameError = BadExtension | BadPrefix | BadFormat

  function ParseHandle(name: string): Result<Handle, NameError> {
    if !IsDownloadLogFile(name) then Err(BadExtension)
    else
      var base := name[..|name| - |Ext(name)|];
      if !(PREFIX <= base) then Err(BadPrefix)
      else
        match ScanUint64(base[|PREFIX|..])
        case None => Err(BadFormat)
        case Some((id, rest)) =>
          if rest == "" || rest[0] != '-' then Err(BadFormat)
          else
            match ScanInt64(rest[1..])
            case None => Err(BadFormat)
            case Some((stamp, _)) => Ok(Handle(id, stamp))
  }

  // --------------------------------------------------------------- theorems

  lemma {:induction false} ScanStops(s: string, rest: string)
    requires forall i :: 0 <= i < |s| ==> IsDigit(s[i])
    requires rest == "" || !IsDigit(rest[0])
    ensures LeadingDigits(s + rest) == |s|
  {
    if s == "" {
      assert s + rest == rest;
    } else {
      assert (s + rest)[1..] == s[1..] + rest;
      ScanStops(s[1..], rest);
    }
  }

  lemma {:induction false} DecimalValue(n: nat)
    ensures DigitsValue(Decimal(n)) == n
  {
    var s := Decimal(n);
    if n >= 10 {
      assert s[..|s| - 1] == Decimal(n / 10);
      DecimalValue(n / 10);
    } else {
      assert s[..0] == "";
    }
  }

  lemma ScanDecimal(n: nat, rest: string)
    requires rest == "" || !IsDigit(rest[0])
    ensures ScanDigits(Decimal(n) + rest) == Some((n, rest))
  {
    var s := Decimal(n);
    ScanStops(s, rest);
    assert (s + rest)[..|s|] == s && (s + rest)[|s|..] == rest;
    DecimalValue(n);
  }

  lemma ScanDecimalInt(i: Int64)
    ensures ScanInt64(DecimalInt(i)) == Some((i, ""))
  {
    if i < 0 {
      var m: nat := -(i as int);
      ScanDecimal(m, "");
      assert DecimalInt(i)[1..] == Decimal(m) + "";
    } else {
      ScanDecimal(i, "");
      assert Decimal(i) + "" == DecimalInt(i);
      assert IsDigit(DecimalInt(i)[0]);
    }
  }

  lemma {:induction false} ExtOfDotted(base: string, suffix: string)
    requires forall i :: 0 <= i < |suffix| ==> suffix[i] != '.'
    ensures Ext(base + "." + suffix) == "." + suffix
    decreases |suffix|
  {
    if suffix == "" {
      ExtOfDot(base + ".");
      assert base + "." + suffix == base + ".";
    } else {
      var front, last := suffix[..|suffix| - 1], suffix[|suffix| - 1];
      ExtOfDotted(base, front);
      ExtSnoc(base + "." + front, last);
      FrontAndLast(base + ".", suffix);
      FrontAndLast(".", suffix);
    }
  }

  lemma ExtOfDot(name: string)
    requires name != "" && name[|name| - 1] == '.'
    ensures Ext(name) == "."
  {
  }

  lemma FrontAndLast(before: string, s: string)
    requires s != ""
    ensures before + s == (before + s[..|s| - 1]) + [s[|s| - 1]]
  {
  }

  lemma ExtSnoc(name: string, c: char)
    requires c != '.' && Ext(name) != ""
    ensures Ext(name + [c]) == Ext(name) + [c]
  {
    assert (name + [c])[..|name|] == name;
  }

  /** A log file is one whose name ends in ".dlog". */
  lemma ExtensionIff(name: string)
    ensures IsDownloadLogFile(name) <==> |name| >= 5 && name[|name| - 5..] == ".dlog"
  {
    if |name| >= 5 && name[|name| - 5..] == ".dlog" {
      ExtOfDotted(name[..|name| - 5], "dlog");
      assert name == name[..|name| - 5] + "." + "dlog";
      assert "." + "dlog" == EXTENSION;
    }
  }

  lemma FileNameParts(h: Handle)
    ensures var name := FileName(h);
            && Ext(name) == EXTENSION
            && PREFIX <= name[..|name| - 5]
            && name[..|name| - 5][|PREFIX|..] == Decimal(h.Id) + ("-" + DecimalInt(h.TimeStamp))
  {
    var part := Decimal(h.Id) + ("-" + DecimalInt(h.TimeStamp));
    var base := PREFIX + part;
    ExtOfDotted(base, "dlog");
    assert base + "." + "dlog" == FileName(h);
    assert "." + "dlog" == EXTENSION;
    assert FileName(h)[..|FileName(h)| - 5] == base;
    assert base[|PREFIX|..] == part;
  }

  /** Parsing a handle's file name gives the handle back. */
  lemma FileNameRoundTrip(h: Handle)
    ensures ParseHandle(FileName(h)) == Ok(h)
  {
    var name := FileName(h);
    FileNameParts(h);
    ScanDecimal(h.Id, "-" + DecimalInt(h.TimeStamp));
    ScanDecimalInt(h.TimeStamp);
    ParseOfParts(h, name, name[..|name| - 5][|PREFIX|..], DecimalInt(h.TimeStamp));
  }

  lemma ParseOfParts(h: Handle, name: string, part: string, stamp: string)
    requires IsDownloadLogFile(name) && PREFIX <= name[..|name| - 5] && part == name[..|name| - 5][|PREFIX|..]
    requires ScanUint64(part) == Some((h.Id, "-" + stamp)) && ScanInt64(stamp) == Some((h.TimeStamp, ""))
    ensures ParseHandle(name) == Ok(h)
  {
    assert ("-" + stamp)[1..] == stamp;
  }

  /** Two handles with one file are one handle, so grouping by file name is grouping by handle. */
  lemma FileNameInjective(a: Handle, b: Handle)
    ensures FileName(a) == FileName(b) <==> a == b
  {
    FileNameRoundTrip(a);
    FileNameRoundTrip(b);
  }

  /** A result key starts with "id:" exactly when it belongs to that id. */
  lemma KeyPrefixIff(id: nat, owner: nat, chunkIndex: int)
    ensures Decimal(id) + ":" <= ResultKey(owner, chunkIndex) <==> id == owner
  {
    var key := ResultKey(owner, chunkIndex);
    ScanDecimal(owner, ":" + DecimalInt(chunkIndex));
    if Decimal(id) + ":" <= key {
      BehindPrefix(Decimal(id), ":", key);
      ScanDecimal(id, key[|Decimal(id)|..]);
    }
  }

  lemma BehindPrefix(a: string, b: string, s: string)
    requires a + b <= s && b != ""
    ensures var rest := s[|a|..]; s == a + rest && rest != "" && rest[0] == b[0]
  {
    assert s[|a|] == (a + b)[|a|];
  }

  lemma SignShows(i: int)
    ensures DecimalInt(i)[0] == '-' <==> i < 0
  {
    if i >= 0 { assert IsDigit(DecimalInt(i)[0]); }
  }

  lemma DecimalInjective(a: int, b: int)
    requires DecimalInt(a) == DecimalInt(b)
    ensures a == b
  {
    SignShows(a);
    SignShows(b);
    if a < 0 {
      assert DecimalInt(a)[1..] == Decimal(-a);
      assert DecimalInt(b)[1..] == Decimal(-b);
      DecimalValue(-a);
      DecimalValue(-b);
    } else {
      DecimalValue(a);
      DecimalValue(b);
    }
  }

  /** The shortest digits: only zero starts with a 0; a negative number is a minus and its absolute value. */
  lemma {:induction false} DecimalIsShortest(n: nat)
    ensures Decimal(n)[0] == '0' <==> n == 0
    ensures Decimal(0) == "0" && DecimalInt(n) == Decimal(n)
    ensures n > 0 ==> DecimalInt(-(n as int)) == "-" + Decimal(n)
  {
    if n >= 10 { DecimalIsShortest(n / 10); }
  }

  /** Different chunks have different keys. */
  lemma ResultKeyInjective(a: nat, i: int, b: nat, j: int)
    ensures ResultKey(a, i) == ResultKey(b, j) <==> a == b && i == j
  {
    if ResultKey(a, i) == ResultKey(b, j) {
      ScanDecimal(a, ":" + DecimalInt(i));
      ScanDecimal(b, ":" + DecimalInt(j));
      assert (":" + DecimalInt(i))[1..] == DecimalInt(i);
      assert (":" + DecimalInt(j))[1..] == DecimalInt(j);
      DecimalInjective(i, j);
    }
  }
}
