/** The line matcher: for every line of the file, in order, the first
    occurrence of the pattern in the line's comparison copy becomes one match
    record carrying its span and a highlighted rendering of the line. */
module Matcher {
  import opened Results
  import opened Text
  import opened Config
  import Lines

  /** A piece of rendered text: shown as is, or marked (the source colours
      marked text red). */
  datatype Piece = Plain(text: string) | Mark(text: string)

  /** One reported line: `start` and `end` delimit the match in the line,
      `line` is the zero-based line index, `content` the original line. */
  datatype Match = Match(
    start: nat,
    end: nat,
    line: nat,
    pattern: string,
    content: string,
    highlight: seq<Piece>)

  /** The text of a rendering with every mark removed. */
  function Erase(ps: seq<Piece>): string
  {
    if |ps| == 0 then [] else ps[0].text + Erase(ps[1..])
  }

  /** `h` renders `content` as plain text before `start`, the span
      `[start, end)` marked, and plain text after `end`. */
  predicate HighlightsSpan(h: seq<Piece>, content: string, start: nat, end: nat)
    requires start <= end <= |content|
  {
    && |h| == 3
    && h[0].Plain? && h[1].Mark? && h[2].Plain?
    && |h[0].text| == start
    && h[1].text == content[start..end]
    && Erase(h) == content
  }

  /** The line as compared against the pattern: folded when case is ignored. */
  function Compared(cfg: Config, content: string): (s: string)
    ensures |s| == |content|
  {
    if cfg.insensitive then Lower(content) else content
  }

  /** The line with the span `[start, end)` marked and everything else plain. */
  function Splice(content: string, start: nat, end: nat): (h: seq<Piece>)
    requires start <= end <= |content|
    ensures HighlightsSpan(h, content, start, end)
  {
    var h := [Plain(content[..start]), Mark(content[start..end]), Plain(content[end..])];
    var h1 := [Mark(content[start..end]), Plain(content[end..])];
    var h2 := [Plain(content[end..])];
    assert h[1..] == h1 && h1[1..] == h2 && h2[1..] == [];
    assert Erase(h2) == content[end..];
    assert Erase(h1) == content[start..end] + content[end..];
    assert content[..start] + content[start..end] + content[end..] == content;
    h
  }

  /** The promises a match record makes about line `n` with text `content`
      under `cfg`. */
  predicate Faithful(m: Match, cfg: Config, n: nat, content: string) {
    && m.line == n
    && m.content == content
    && m.pattern == cfg.pattern
    && m.end == m.start + |cfg.pattern|
    && m.start <= m.end <= |content|
    && OccursAt(Compared(cfg, content), cfg.pattern, m.start)
    && (forall j :: 0 <= j < m.start ==> !OccursAt(Compared(cfg, content), cfg.pattern, j))
    && HighlightsSpan(m.highlight, content, m.start, m.end)
  }

  /** The body of the source's loop for one line: a match exactly when the
      comparison copy contains the pattern. */
  function MatchLine(cfg: Config, n: nat, content: string): (r: Option<Match>)
    ensures r.Some? <==> Contains(Compared(cfg, content), cfg.pattern)
    ensures r.Some? ==> Faithful(r.value, cfg, n, content)
  {
    match Find(Compared(cfg, content), cfg.pattern)
    case None => None
    case Some(start) =>
      var end := start + |cfg.pattern|;
      Some(Match(start, end, n, cfg.pattern, content, Splice(content, start, end)))
  }

  /** Whether line `n` has a match under `cfg`. */
  predicate HasMatch(cfg: Config, lines: seq<string>, n: int)
    requires 0 <= n < |lines|
  {
    Contains(Compared(cfg, lines[n]), cfg.pattern)
  }

  /** Every record describes the line it names. */
  predicate AllFaithful(cfg: Config, lines: seq<string>, ms: seq<Match>) {
    forall i :: 0 <= i < |ms| ==>
      ms[i].line < |lines| && Faithful(ms[i], cfg, ms[i].line, lines[ms[i].line])
  }

  /** Records appear in strictly ascending line order, hence at most one per line. */
  predicate Ascending(ms: seq<Match>) {
    forall i, j :: 0 <= i < j < |ms| ==> ms[i].line < ms[j].line
  }

  /** Every record names one of the first `n` lines. */
  predicate Below(ms: seq<Match>, n: nat) {
    forall i :: 0 <= i < |ms| ==> ms[i].line < n
  }

  /** Among the first `n` lines, a line has a record exactly when its
      comparison copy contains the pattern. */
  predicate CompleteUpTo(cfg: Config, lines: seq<string>, n: nat, ms: seq<Match>)
    requires n <= |lines|
  {
    forall k :: 0 <= k < n ==>
      (HasMatch(cfg, lines, k) <==> exists i :: 0 <= i < |ms| && ms[i].line == k)
  }

  /** A line has a record exactly when its comparison copy contains the pattern. */
  predicate Complete(cfg: Config, lines: seq<string>, ms: seq<Match>) {
    CompleteUpTo(cfg, lines, |lines|, ms)
  }

  /** The records the outcome of one line contributes. */
  function Outcome(o: Option<Match>): (ms: seq<Match>)
    ensures |ms| <= 1
    ensures o.Some? <==> |ms| == 1
    ensures o.Some? ==> ms[0] == o.value
  {
    if o.Some? then [o.value] else []
  }

  /** The matches of the first `n` lines: the outcome of each line in turn. */
  function MatchesUpTo(cfg: Config, lines: seq<string>, n: nat): seq<Match>
    requires n <= |lines|
  {
    if n == 0 then []
    else MatchesUpTo(cfg, lines, n - 1) + Outcome(MatchLine(cfg, n - 1, lines[n - 1]))
  }

  /** The matches of all lines: every record describes the line it names,
      records ascend by line, and a line has a record exactly when its
      comparison copy contains the pattern. */
  function Matches(cfg: Config, lines: seq<string>): (ms: seq<Match>)
    ensures AllFaithful(cfg, lines, ms)
    ensures Ascending(ms)
    ensures Complete(cfg, lines, ms)
  {
    MatchesGuarantees(cfg, lines, |lines|);
    MatchesUpTo(cfg, lines, |lines|)
  }

  /** The promises of the matcher over the first `n` lines: every record
      describes the line it names, records come in strictly ascending line
      order (so at most one per line) and name only those lines, and a line
      has a record exactly when it contains the pattern. */
  lemma {:induction false} MatchesGuarantees(cfg: Config, lines: seq<string>, n: nat)
    requires n <= |lines|
    ensures AllFaithful(cfg, lines, MatchesUpTo(cfg, lines, n))
    ensures Ascending(MatchesUpTo(cfg, lines, n))
    ensures Below(MatchesUpTo(cfg, lines, n), n)
    ensures CompleteUpTo(cfg, lines, n, MatchesUpTo(cfg, lines, n))
  {
    if n > 0 {
      MatchesGuarantees(cfg, lines, n - 1);
      MatchesExtend(cfg, lines, n - 1, MatchesUpTo(cfg, lines, n - 1), MatchLine(cfg, n - 1, lines[n - 1]));
    }
  }

  /** Adding the outcome of line `n` to the matches of the lines before it
      keeps the promises. */
  lemma MatchesExtend(cfg: Config, lines: seq<string>, n: nat, prev: seq<Match>, next: Option<Match>)
    requires n < |lines|
    requires AllFaithful(cfg, lines, prev) && Ascending(prev) && Below(prev, n)
    requires CompleteUpTo(cfg, lines, n, prev)
    requires next.Some? <==> HasMatch(cfg, lines, n)
    requires next.Some? ==> Faithful(next.value, cfg, n, lines[n])
    ensures var r := prev + Outcome(next);
      AllFaithful(cfg, lines, r) && Ascending(r) && Below(r, n + 1) && CompleteUpTo(cfg, lines, n + 1, r)
  {
    var r := prev + Outcome(next);
    assert forall i :: 0 <= i < |prev| ==> r[i] == prev[i];
    forall k | 0 <= k < n + 1
      ensures HasMatch(cfg, lines, k) <==> exists i :: 0 <= i < |r| && r[i].line == k
    {
      if k < n {
        if exists i :: 0 <= i < |r| && r[i].line == k {
          var i :| 0 <= i < |r| && r[i].line == k;
          assert i < |prev|;
        }
      } else if next.Some? {
        assert r[|r| - 1].line == k;
      }
    }
  }

  /** Case-insensitive search with a folded pattern finds a line exactly when
      some stretch of the original line spells the pattern in any casing; the
      record keeps the original casing and its span folds to the pattern. */
  lemma InsensitiveMatchesAnyCasing(cfg: Config, n: nat, content: string)
    requires cfg.insensitive && Normalized(cfg)
    ensures MatchLine(cfg, n, content).Some? <==>
      exists k :: 0 <= k <= |content| && OccursFoldedAt(content, cfg.pattern, k)
    ensures MatchLine(cfg, n, content).Some? ==>
      var m := MatchLine(cfg, n, content).value;
      m.content == content && Lower(content[m.start..m.end]) == cfg.pattern
  {
    var p := cfg.pattern;
    var folded := Lower(content);
    forall k | 0 <= k <= |content|
      ensures OccursAt(folded, p, k) <==> OccursFoldedAt(content, p, k)
    {
      if k + |p| <= |content| {
        LowerSlice(content, k, k + |p|);
      }
    }
  }

  /** Case-sensitive search finds a line exactly when the pattern occurs in it
      verbatim, so an occurrence in a different casing is not reported. */
  lemma SensitiveMatchesExactly(cfg: Config, n: nat, content: string)
    requires !cfg.insensitive
    ensures MatchLine(cfg, n, content).Some? <==> Contains(content, cfg.pattern)
    ensures MatchLine(cfg, n, content).Some? ==>
      content[MatchLine(cfg, n, content).value.start..MatchLine(cfg, n, content).value.end] == cfg.pattern
  {
  }

  /** The records the empty pattern should give for the first `n` lines: one
      per line, in order, each with the empty span at offset 0. */
  function EmptySpans(cfg: Config, lines: seq<string>, n: nat): (ms: seq<Match>)
    requires n <= |lines|
    ensures |ms| == n
    ensures forall i :: 0 <= i < n ==> EmptySpanAt(ms[i], i) && ms[i].content == lines[i]
  {
    if n == 0 then []
    else
      var m := Match(0, 0, n - 1, cfg.pattern, lines[n - 1], Splice(lines[n - 1], 0, 0));
      var ms := EmptySpans(cfg, lines, n - 1) + [m];
      assert forall i :: 0 <= i < n - 1 ==> ms[i] == EmptySpans(cfg, lines, n - 1)[i];
      ms
  }

  /** The empty pattern matches every line, empty lines included, with the
      empty span at offset 0. */
  lemma {:induction false} EmptyPatternMatchesEveryLine(cfg: Config, lines: seq<string>, n: nat)
    requires cfg.pattern == [] && n <= |lines|
    ensures MatchesUpTo(cfg, lines, n) == EmptySpans(cfg, lines, n)
  {
    if n > 0 {
      EmptyPatternMatchesEveryLine(cfg, lines, n - 1);
      FindEmpty(Compared(cfg, lines[n - 1]));
    }
  }

  /** The record is for line `i`, with the empty span at offset 0. */
  predicate EmptySpanAt(m: Match, i: nat) {
    m.line == i && m.start == 0 && m.end == 0
  }

  /** Lines none of which contains the pattern yield no records. */
  lemma {:induction false} NoOccurrenceNoMatches(cfg: Config, lines: seq<string>, n: nat)
    requires n <= |lines|
    requires forall k :: 0 <= k < n ==> !HasMatch(cfg, lines, k)
    ensures MatchesUpTo(cfg, lines, n) == []
  {
    if n > 0 {
      NoOccurrenceNoMatches(cfg, lines, n - 1);
      assert !HasMatch(cfg, lines, n - 1);
    }
  }

  /** A rendering that highlights the span `[start, end)` of `content` is the
      one `Splice` builds: the span determines every piece. */
  lemma SpliceUnique(h: seq<Piece>, content: string, start: nat, end: nat)
    requires start <= end <= |content|
    requires HighlightsSpan(h, content, start, end)
    ensures h == Splice(content, start, end)
  {
    var a, b, c := h[0].text, h[1].text, h[2].text;
    assert h[1..][1..][1..] == [];
    assert Erase(h[1..][1..]) == c;
    assert Erase(h[1..]) == b + c;
    assert content == a + (b + c);
    assert a == content[..start] && c == content[end..] by {
      assert content[..start] == (a + (b + c))[..|a|];
      assert content[end..] == (a + (b + c))[|a| + |b|..];
    }
  }

  /** A record that keeps every promise about line `n` is the record the
      matcher builds for it: the promises fix each field. */
  lemma FaithfulIsMatchLine(m: Match, cfg: Config, n: nat, content: string)
    requires Faithful(m, cfg, n, content)
    ensures MatchLine(cfg, n, content) == Some(m)
  {
    var compared := Compared(cfg, content);
    var r := MatchLine(cfg, n, content);
    assert Contains(compared, cfg.pattern);
    var k := r.value.start;
    assert k == m.start;
    SpliceUnique(m.highlight, content, m.start, m.end);
  }

  /** One pass of the source's loop body: fold the line when case is ignored,
      search it, and build the record with its highlighted rendering. */
  method MatchOne(cfg: Config, n: nat, content: string) returns (r: Option<Match>)
    ensures r.Some? <==> Contains(Compared(cfg, content), cfg.pattern)
    ensures r.Some? ==> Faithful(r.value, cfg, n, content)
  {
    var compared := Compared(cfg, content);
    var found := Find(compared, cfg.pattern);
    if found.Some? {
      var start := found.value;
      var end := start + |cfg.pattern|;
      var highlight := Splice(content, start, end);
      r := Some(Match(start, end, n, cfg.pattern, content, highlight));
    } else {
      r := None;
    }
  }

  /** One more line adds its record, if it has one, after the records before it. */
  lemma MatchesUpToStep(cfg: Config, lines: seq<string>, n: nat, ms: seq<Match>, next: Option<Match>)
    requires n < |lines| && ms == MatchesUpTo(cfg, lines, n) && next == MatchLine(cfg, n, lines[n])
    ensures MatchesUpTo(cfg, lines, n + 1) == if next.Some? then ms + [next.value] else ms
  {
  }

  /** The loop of `find_match` over the lines, in order: every record
      describes its line, records ascend by line, and a line has a record
      exactly when it contains the pattern. */
  method MatchAll(cfg: Config, lines: seq<string>) returns (ms: seq<Match>)
    ensures AllFaithful(cfg, lines, ms)
    ensures Ascending(ms)
    ensures Complete(cfg, lines, ms)
    ensures ms == Matches(cfg, lines)
  {
    ms := [];
    var n := 0;
    while n < |lines|
      invariant n <= |lines|
      invariant AllFaithful(cfg, lines, ms) && Ascending(ms) && Below(ms, n)
      invariant CompleteUpTo(cfg, lines, n, ms)
      invariant ms == MatchesUpTo(cfg, lines, n)
    {
      var next := MatchOne(cfg, n, lines[n]);
      MatchesExtend(cfg, lines, n, ms, next);
      if next.Some? {
        FaithfulIsMatchLine(next.value, cfg, n, lines[n]);
      }
      MatchesUpToStep(cfg, lines, n, ms, next);
      ms := ms + Outcome(next);
      n := n + 1;
    }
  }

  /** `find_match` on the file's content: its lines are searched in order,
      and the result keeps the matcher's promises. */
  method FindMatch(cfg: Config, content: string) returns (ms: seq<Match>)
    ensures ms == Matches(cfg, Lines.Split(content))
    ensures AllFaithful(cfg, Lines.Split(content), ms)
    ensures Ascending(ms)
    ensures Complete(cfg, Lines.Split(content), ms)
  {
    var lines := Lines.Split(content);
    ms := MatchAll(cfg, lines);
  }
}
