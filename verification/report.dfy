/** The output line printed for each match:
    `<filename>:<line+1>:<start+1>-<end+1>: <highlighted line>`, so that line
    and column numbers are shown one-based while the records stay zero-based. */
module Report {
  import opened Results
  import opened Matcher

  /** A decimal digit. */
  predicate IsDigit(c: char) {
    '0' <= c <= '9'
  }

  /** Every character of `s` is a decimal digit. */
  predicate AllDigits(s: string) {
    forall i :: 0 <= i < |s| ==> IsDigit(s[i])
  }

  /** The decimal numeral of `n`, without leading zeros. */
  function Decimal(n: nat): (s: string)
    ensures |s| > 0 && AllDigits(s)
    ensures |s| > 1 ==> s[0] != '0'
  {
    if n < 10 then [('0' as int + n) as char]
    else Decimal(n / 10) + [('0' as int + n % 10) as char]
  }

  /** The value of a string of decimal digits. */
  function DecimalValue(s: string): nat
    requires AllDigits(s)
  {
    if |s| == 0 then 0
    else DecimalValue(s[..|s| - 1]) * 10 + (s[|s| - 1] as int - '0' as int)
  }

  /** Reading a printed number back gives the number. */
  lemma {:induction false} DecimalRoundTrip(n: nat)
    ensures DecimalValue(Decimal(n)) == n
  {
    if n >= 10 {
      var s := Decimal(n);
      assert s[..|s| - 1] == Decimal(n / 10);
      DecimalRoundTrip(n / 10);
    }
  }

  /** The number of leading digits of `s`. */
  function DigitRun(s: string): (k: nat)
    ensures k <= |s| && AllDigits(s[..k])
    ensures k < |s| ==> !IsDigit(s[k])
  {
    if |s| == 0 || !IsDigit(s[0]) then 0
    else
      var k := 1 + DigitRun(s[1..]);
      assert s[..k] == [s[0]] + s[1..][..k - 1];
      k
  }

  /** A numeral followed by a non-digit is read up to its last digit exactly. */
  lemma {:induction false} DigitRunOfNumeral(d: string, t: string)
    requires AllDigits(d)
    requires |t| > 0 && !IsDigit(t[0])
    ensures DigitRun(d + t) == |d|
  {
    if |d| > 0 {
      assert (d + t)[1..] == d[1..] + t;
      DigitRunOfNumeral(d[1..], t);
    }
  }

  /** Reads a numeral off the front of `s`, returning its value and the rest. */
  function ReadNumber(s: string): (r: Option<(nat, string)>)
    ensures r.Some? ==> |r.value.1| < |s|
  {
    var k := DigitRun(s);
    if k == 0 then None else Some((DecimalValue(s[..k]), s[k..]))
  }

  /** The numbers a report line states after its filename. */
  datatype Header = Header(line: nat, start: nat, end: nat, text: string)

  /** The text printed before the highlighted line, after the filename. */
  function Locator(m: Match): string {
    LocatorThen(m.line + 1, m.start + 1, m.end + 1, [])
  }

  /** The locator for the given numbers followed by `rest`. */
  function LocatorThen(line: nat, start: nat, end: nat, rest: string): string {
    ":" + (Decimal(line) + (":" + (Decimal(start) + ("-" + (Decimal(end) + (": " + rest))))))
  }

  /** Appending after a locator appends after its final separator. */
  lemma LocatorAppend(line: nat, start: nat, end: nat, rest: string)
    ensures LocatorThen(line, start, end, []) + rest == LocatorThen(line, start, end, rest)
  {
  }

  /** One output line, with the match still marked. */
  function ReportLine(filename: string, m: Match): (out: seq<Piece>)
    ensures |out| == 1 + |m.highlight|
    ensures out[0].Plain? && |filename| < |out[0].text| && out[0].text[..|filename|] == filename
    ensures out[1..] == m.highlight
  {
    [Plain(filename + Locator(m))] + m.highlight
  }

  /** Parses the text after a report line's filename back into its numbers. */
  function ParseLocator(s: string): Option<Header>
  {
    if |s| == 0 || s[0] != ':' then None
    else match ReadNumber(s[1..])
      case None => None
      case Some((line, s1)) =>
        if |s1| == 0 || s1[0] != ':' then None
        else match ReadNumber(s1[1..])
          case None => None
          case Some((start, s2)) =>
            if |s2| == 0 || s2[0] != '-' then None
            else match ReadNumber(s2[1..])
              case None => None
              case Some((end, s3)) =>
                if |s3| < 2 || s3[..2] != ": " then None
                else Some(Header(line, start, end, s3[2..]))
  }

  /** A printed number followed by a non-digit reads back as that number and the text after it. */
  lemma ReadNumeral(n: nat, t: string)
    requires |t| > 0 && !IsDigit(t[0])
    ensures ReadNumber(Decimal(n) + t) == Some((n, t))
  {
    var d := Decimal(n);
    DigitRunOfNumeral(d, t);
    assert (d + t)[..|d|] == d;
    assert (d + t)[|d|..] == t;
    DecimalRoundTrip(n);
  }

  /** The locator text reads back as the three numbers it was printed from,
      followed by whatever came after it. */
  lemma ParseLocatorRoundTrip(line: nat, start: nat, end: nat, rest: string)
    ensures ParseLocator(LocatorThen(line, start, end, rest)) == Some(Header(line, start, end, rest))
  {
    var t3 := ": " + rest;
    var t2 := "-" + (Decimal(end) + t3);
    var t1 := ":" + (Decimal(start) + t2);
    var s := ":" + (Decimal(line) + t1);
    assert s == LocatorThen(line, start, end, rest);
    ReadNumeral(line, t1);
    ReadNumeral(start, t2);
    ReadNumeral(end, t3);
    assert s[1..] == Decimal(line) + t1;
    assert t1[1..] == Decimal(start) + t2;
    assert t2[1..] == Decimal(end) + t3;
    assert t3[..2] == ": " && t3[2..] == rest;
  }

  /** Erasing marks piece by piece: the first piece's text comes first. */
  lemma EraseFirst(p: Piece, ps: seq<Piece>)
    ensures Erase([p] + ps) == p.text + Erase(ps)
  {
    assert ([p] + ps)[1..] == ps;
  }

  /** The text of a report line: filename, locator, then the line's text. */
  lemma ReportText(filename: string, m: Match)
    ensures Erase(ReportLine(filename, m))
      == filename + LocatorThen(m.line + 1, m.start + 1, m.end + 1, Erase(m.highlight))
  {
    var loc := Locator(m);
    EraseFirst(Plain(filename + loc), m.highlight);
    assert (filename + loc) + Erase(m.highlight) == filename + (loc + Erase(m.highlight));
    LocatorAppend(m.line + 1, m.start + 1, m.end + 1, Erase(m.highlight));
  }

  /** A printed report line starts with the filename, and what follows reads
      back as the one-based line, start and end and the original line text. */
  lemma ReportRoundTrip(filename: string, m: Match)
    ensures var out := Erase(ReportLine(filename, m));
      && out[..|filename|] == filename
      && ParseLocator(out[|filename|..]) == Some(Header(m.line + 1, m.start + 1, m.end + 1, Erase(m.highlight)))
  {
    var tail := LocatorThen(m.line + 1, m.start + 1, m.end + 1, Erase(m.highlight));
    ReportText(filename, m);
    assert (filename + tail)[..|filename|] == filename;
    assert (filename + tail)[|filename|..] == tail;
    ParseLocatorRoundTrip(m.line + 1, m.start + 1, m.end + 1, Erase(m.highlight));
  }

  /** For a faithful record the text after the locator is exactly the
      original line, and all three reported numbers are one-based. */
  lemma ReportOfMatch(filename: string, m: Match, cfg: Config.Config, n: nat, content: string)
    requires Faithful(m, cfg, n, content)
    ensures ParseLocator(Erase(ReportLine(filename, m))[|filename|..])
      == Some(Header(n + 1, m.start + 1, m.start + |cfg.pattern| + 1, content))
  {
    assert Header(m.line + 1, m.start + 1, m.end + 1, Erase(m.highlight))
      == Header(n + 1, m.start + 1, m.start + |cfg.pattern| + 1, content);
    ReportRoundTrip(filename, m);
  }
}
