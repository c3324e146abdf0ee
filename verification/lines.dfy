/** Splitting file content into lines the way Rust's `str::lines` does: a line
    ends at '\n'; a '\r' directly before that '\n' belongs to the line ending;
    the last line needs no terminator; and a trailing '\n' does not start an
    extra empty line. */
module Lines {
  import opened Results
  import opened Text

  /** Drops the '\r' of a "\r\n" line ending from a line's text. */
  function StripCr(l: string): (r: string)
    ensures |l| > 0 && l[|l| - 1] == '\r' ==> r + ['\r'] == l
    ensures !(|l| > 0 && l[|l| - 1] == '\r') ==> r == l
  {
    if |l| > 0 && l[|l| - 1] == '\r' then l[..|l| - 1] else l
  }

  /** The lines of `s`, in order and without their line endings. */
  function Split(s: string): (ls: seq<string>)
    decreases |s|
    ensures forall i :: 0 <= i < |ls| ==> '\n' !in ls[i]
    ensures |s| == 0 <==> |ls| == 0
  {
    if |s| == 0 then []
    else match Find(s, "\n")
      case None =>
        NoNewlineBefore(s, |s|);
        [s]
      case Some(k) =>
        NoNewlineBefore(s, k);
        [StripCr(s[..k])] + Split(s[k + 1..])
  }

  /** No position before `k` holds the first '\n' searched for. */
  lemma NoNewlineBefore(s: string, k: nat)
    requires k <= |s|
    requires forall j :: 0 <= j < k ==> !OccursAt(s, "\n", j)
    ensures '\n' !in s[..k]
  {
    forall j | 0 <= j < k
      ensures s[j] != '\n'
    {
      OccursAtSingle(s, '\n', j);
    }
  }

  /** In a line followed by '\n', that '\n' is the first one. */
  lemma FindAfterLine(l: string, rest: string)
    requires '\n' !in l
    ensures Find(l + "\n" + rest, "\n") == Some(|l|)
  {
    var s := l + "\n" + rest;
    OccursAtSingle(s, '\n', |l|);
    forall j | 0 <= j < |l|
      ensures !OccursAt(s, "\n", j)
    {
      OccursAtSingle(s, '\n', j);
      assert s[j] == l[j];
    }
  }

  /** A line followed by '\n' splits off as the first line, without a '\r'
      that ends it. */
  lemma SplitAfterLine(line: string, rest: string)
    requires '\n' !in line
    ensures Split(line + "\n" + rest) == [StripCr(line)] + Split(rest)
  {
    var s := line + "\n" + rest;
    FindAfterLine(line, rest);
    assert s[..|line|] == line;
    assert s[|line| + 1..] == rest;
  }

  /** A text without "\r\n" has none after any of its positions. */
  lemma NoCrlfAfter(s: string, k: nat)
    requires k < |s| && !Contains(s, "\r\n")
    ensures !Contains(s[k + 1..], "\r\n")
  {
    var rest := s[k + 1..];
    forall j | 0 <= j <= |rest|
      ensures !OccursAt(rest, "\r\n", j)
    {
      assert !OccursAt(s, "\r\n", k + 1 + j);
      if j + 2 <= |rest| {
        assert rest[j..j + 2] == s[k + 1 + j..k + 1 + j + 2];
      }
    }
  }

  /** Terminates every line with '\n' and joins them: the inverse of `Split`
      on lines that contain no '\n' and do not end in '\r'. */
  function Unsplit(ls: seq<string>): (s: string)
  {
    if |ls| == 0 then [] else ls[0] + "\n" + Unsplit(ls[1..])
  }

  /** A line that `Split` can produce and give back unchanged. */
  predicate PlainLine(l: string) {
    '\n' !in l && !(|l| > 0 && l[|l| - 1] == '\r')
  }

  /** Splitting joined lines gives the lines back. */
  lemma {:induction false} SplitUnsplit(ls: seq<string>)
    requires forall i :: 0 <= i < |ls| ==> PlainLine(ls[i])
    ensures Split(Unsplit(ls)) == ls
  {
    if |ls| > 0 {
      var s := Unsplit(ls);
      var k := |ls[0]|;
      FindAfterLine(ls[0], Unsplit(ls[1..]));
      assert s[..k] == ls[0];
      assert s[k + 1..] == Unsplit(ls[1..]);
      SplitUnsplit(ls[1..]);
    }
  }

  /** Text without any '\n' is one line, kept verbatim, even when it ends in
      '\r': only a '\r' that precedes a '\n' belongs to a line ending. */
  lemma SplitOneLine(s: string)
    requires |s| > 0 && '\n' !in s
    ensures Split(s) == [s]
  {
    forall k | 0 <= k <= |s|
      ensures !OccursAt(s, "\n", k)
    {
      OccursAtSingle(s, '\n', k);
    }
  }

  /** Terminates every line with "\r\n" and joins them, as text written with
      carriage-return line endings. */
  function UnsplitCrlf(ls: seq<string>): (s: string)
  {
    if |ls| == 0 then [] else ls[0] + "\r\n" + UnsplitCrlf(ls[1..])
  }

  /** Splitting lines joined with "\r\n" gives the lines back: each "\r\n"
      is a line ending, and only one '\r' is dropped, so a line that itself
      ends in '\r' keeps it. */
  lemma {:induction false} SplitUnsplitCrlf(ls: seq<string>)
    requires forall i :: 0 <= i < |ls| ==> '\n' !in ls[i]
    ensures Split(UnsplitCrlf(ls)) == ls
  {
    if |ls| > 0 {
      var line := ls[0] + "\r";
      var rest := UnsplitCrlf(ls[1..]);
      var s := UnsplitCrlf(ls);
      assert s == line + "\n" + rest;
      FindAfterLine(line, rest);
      var k := |line|;
      assert s[..k] == line;
      assert s[k + 1..] == rest;
      assert StripCr(line) == ls[0];
      SplitUnsplitCrlf(ls[1..]);
    }
  }

  /** The first '\n' that `Find` reports cuts the text into a line without
      '\n', that '\n', and the rest. */
  lemma FirstNewline(s: string, k: nat)
    requires Find(s, "\n") == Some(k)
    ensures k < |s| && '\n' !in s[..k]
    ensures s == s[..k] + "\n" + s[k + 1..]
  {
    NoNewlineBefore(s, k);
    OccursAtSingle(s, '\n', k);
  }

  /** Text in which `Find` reports no '\n' has none. */
  lemma NoNewline(s: string)
    requires Find(s, "\n").None?
    ensures '\n' !in s
  {
    NoNewlineBefore(s, |s|);
    assert s[..|s|] == s;
  }

  /** Appending after a complete first line appends to the rest only. */
  lemma SplitAfterLineThen(line: string, rest: string, t: string)
    requires '\n' !in line
    ensures Split(line + "\n" + rest + t) == [StripCr(line)] + Split(rest + t)
  {
    assert line + "\n" + rest + t == line + "\n" + (rest + t);
    SplitAfterLine(line, rest + t);
  }

  /** A text that does not end with '\n' splits into the same lines whether or
      not a final "\r\n" follows it: the last line ending is optional. */
  lemma {:induction false} FinalCrlfOptional(s: string)
    requires |s| > 0 && s[|s| - 1] != '\n'
    ensures Split(s + "\r\n") == Split(s)
    decreases |s|
  {
    match Find(s, "\n")
    case None =>
      NoNewline(s);
      SplitOneLine(s);
      assert s + "\r\n" == (s + "\r") + "\n" + [];
      SplitAfterLine(s + "\r", []);
    case Some(k) =>
      FirstNewline(s, k);
      SplitAfterLine(s[..k], s[k + 1..]);
      SplitAfterLineThen(s[..k], s[k + 1..], "\r\n");
      FinalCrlfOptional(s[k + 1..]);
  }

  /** A text that ends in neither '\n' nor '\r' splits into the same lines
      whether or not a final '\n' follows it. */
  lemma {:induction false} FinalLfOptional(s: string)
    requires |s| > 0 && s[|s| - 1] != '\n' && s[|s| - 1] != '\r'
    ensures Split(s + "\n") == Split(s)
    decreases |s|
  {
    match Find(s, "\n")
    case None =>
      NoNewline(s);
      SplitOneLine(s);
      assert s + "\n" == s + "\n" + [];
      SplitAfterLine(s, []);
    case Some(k) =>
      FirstNewline(s, k);
      SplitAfterLine(s[..k], s[k + 1..]);
      SplitAfterLineThen(s[..k], s[k + 1..], "\n");
      FinalLfOptional(s[k + 1..]);
  }

  /** Terminates line `i` with "\r\n" when `crlf[i]` holds and with '\n'
      otherwise, and joins them: text whose lines choose their own endings. */
  function UnsplitWith(ls: seq<string>, crlf: seq<bool>): string
    requires |crlf| == |ls|
  {
    if |ls| == 0 then []
    else ls[0] + (if crlf[0] then "\r\n" else "\n") + UnsplitWith(ls[1..], crlf[1..])
  }

  /** Splitting lines joined with a mix of "\r\n" and '\n' endings gives the
      lines back, provided a line ended by a bare '\n' does not itself end in
      '\r' (that '\r' would read as part of a "\r\n" ending). */
  lemma {:induction false} SplitUnsplitWith(ls: seq<string>, crlf: seq<bool>)
    requires |crlf| == |ls|
    requires forall i :: 0 <= i < |ls| ==> '\n' !in ls[i]
    requires forall i :: 0 <= i < |ls| && !crlf[i] ==> PlainLine(ls[i])
    ensures Split(UnsplitWith(ls, crlf)) == ls
  {
    if |ls| > 0 {
      var line := if crlf[0] then ls[0] + "\r" else ls[0];
      var rest := UnsplitWith(ls[1..], crlf[1..]);
      var s := UnsplitWith(ls, crlf);
      assert s == line + "\n" + rest;
      SplitAfterLine(line, rest);
      assert StripCr(line) == ls[0];
      SplitUnsplitWith(ls[1..], crlf[1..]);
    }
  }

  /** Joining the lines of a text without "\r\n" line endings gives the text
      back, with a final '\n' added when it had none. A '\r' elsewhere, even at
      the very end, is kept in its line. */
  lemma {:induction false} UnsplitSplit(s: string)
    requires !Contains(s, "\r\n")
    ensures Unsplit(Split(s)) == Terminated(s)
    decreases |s|
  {
    if |s| > 0 {
      var f := Find(s, "\n");
      if f.None? {
        UnsplitSplitOneLine(s);
      } else {
        var k := f.value;
        SplitFirstLine(s, k);
        UnsplitSplit(s[k + 1..]);
        TerminatedAfterLine(s[..k], s[k + 1..]);
      }
    }
  }

  /** The text with a final '\n' added unless it is empty or already ends
      with one. */
  function Terminated(s: string): string
  {
    if |s| == 0 || s[|s| - 1] == '\n' then s else s + "\n"
  }

  /** Terminating the rest after a complete line terminates the whole text. */
  lemma TerminatedAfterLine(line: string, rest: string)
    ensures line + "\n" + Terminated(rest) == Terminated(line + "\n" + rest)
  {
  }

  /** Text without any '\n' is a single line, which joining terminates. */
  lemma UnsplitSplitOneLine(s: string)
    requires |s| > 0 && Find(s, "\n").None?
    ensures Unsplit(Split(s)) == Terminated(s)
  {
  }

  /** Without "\r\n" line endings, the first line is everything before the
      first '\n', and joining puts that '\n' back in front of the rest. */
  lemma SplitFirstLine(s: string, k: nat)
    requires !Contains(s, "\r\n")
    requires Find(s, "\n") == Some(k)
    ensures !Contains(s[k + 1..], "\r\n")
    ensures s == s[..k] + "\n" + s[k + 1..]
    ensures Unsplit(Split(s)) == s[..k] + "\n" + Unsplit(Split(s[k + 1..]))
  {
    var line, rest := s[..k], s[k + 1..];
    OccursAtSingle(s, '\n', k);
    assert s == line + "\n" + rest;
    NoCrlfAfter(s, k);
    assert StripCr(line) == line by {
      if k > 0 {
        assert !OccursAt(s, "\r\n", k - 1);
        assert s[k - 1..k + 1] == [line[k - 1], '\n'];
      }
    }
    assert Split(s) == [line] + Split(rest);
    assert ([line] + Split(rest))[1..] == Split(rest);
  }

}
