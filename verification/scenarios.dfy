/** Concrete searches over a three-line file, derived from the matcher's
    general contract rather than by evaluation. */
module Scenarios {
  import opened Text
  import opened Config
  import opened Matcher

  const File: seq<string> := ["Hello world", "goodbye", "HELLO again"]

  /** An occurrence at `k` agrees with the pattern character by character. */
  lemma OccurrenceAgrees(h: string, p: string, k: int, i: int)
    requires OccursAt(h, p, k) && 0 <= i < |p|
    ensures h[k + i] == p[i]
  {
    assert h[k..k + |p|][i] == h[k + i];
  }

  /** A pattern containing a character the text lacks does not occur in it. */
  lemma AbsentCharacter(h: string, p: string, i: int)
    requires 0 <= i < |p| && p[i] !in h
    ensures !Contains(h, p)
  {
    forall k | 0 <= k <= |h| ensures !OccursAt(h, p, k) {
      if OccursAt(h, p, k) {
        OccurrenceAgrees(h, p, k, i);
      }
    }
  }

  /** A line whose comparison copy starts with the pattern matches at 0. */
  lemma FirstOccurrenceAtStart(cfg: Config, n: nat, content: string)
    requires OccursAt(Compared(cfg, content), cfg.pattern, 0)
    ensures MatchLine(cfg, n, content).Some?
    ensures MatchLine(cfg, n, content).value.start == 0
    ensures MatchLine(cfg, n, content).value.end == |cfg.pattern|
    ensures MatchLine(cfg, n, content).value.line == n
    ensures MatchLine(cfg, n, content).value.content == content
  {
  }

  /** Of three lines, only the first has a match. */
  lemma OnlyFirstOfThree(cfg: Config, lines: seq<string>)
    requires |lines| == 3
    requires HasMatch(cfg, lines, 0) && !HasMatch(cfg, lines, 1) && !HasMatch(cfg, lines, 2)
    ensures |Matches(cfg, lines)| == 1 && Matches(cfg, lines)[0] == MatchLine(cfg, 0, lines[0]).value
  {
    assert MatchesUpTo(cfg, lines, 0) == [];
    var m1 := MatchesUpTo(cfg, lines, 1);
    assert m1 == Outcome(MatchLine(cfg, 0, lines[0]));
    var m2 := MatchesUpTo(cfg, lines, 2);
    assert m2 == m1 + Outcome(MatchLine(cfg, 1, lines[1]));
    assert Matches(cfg, lines) == m2 + Outcome(MatchLine(cfg, 2, lines[2]));
  }

  /** Of three lines, only the first and the last have a match. */
  lemma FirstAndLastOfThree(cfg: Config, lines: seq<string>)
    requires |lines| == 3
    requires HasMatch(cfg, lines, 0) && !HasMatch(cfg, lines, 1) && HasMatch(cfg, lines, 2)
    ensures |Matches(cfg, lines)| == 2
    ensures Matches(cfg, lines)[0] == MatchLine(cfg, 0, lines[0]).value
    ensures Matches(cfg, lines)[1] == MatchLine(cfg, 2, lines[2]).value
  {
    assert MatchesUpTo(cfg, lines, 0) == [];
    var m1 := MatchesUpTo(cfg, lines, 1);
    assert m1 == Outcome(MatchLine(cfg, 0, lines[0]));
    var m2 := MatchesUpTo(cfg, lines, 2);
    assert m2 == m1 + Outcome(MatchLine(cfg, 1, lines[1]));
    assert Matches(cfg, lines) == m2 + Outcome(MatchLine(cfg, 2, lines[2]));
  }

  /** Case-sensitive "Hello" matches only the first line, at columns 0 to 5. */
  lemma SensitiveScenario()
    ensures var r := Matches(Config("notes.txt", "Hello", false), File);
      |r| == 1 && r[0].line == 0 && r[0].start == 0 && r[0].end == 5 && r[0].content == "Hello world"
  {
    var cfg := Config("notes.txt", "Hello", false);
    assert OccursAt(File[0], "Hello", 0) by {
      assert File[0][0..5] == "Hello";
    }
    assert !HasMatch(cfg, File, 1) by {
      AbsentCharacter(File[1], "Hello", 0);
    }
    assert !HasMatch(cfg, File, 2) by {
      AbsentCharacter(File[2], "Hello", 1);
    }
    OnlyFirstOfThree(cfg, File);
    FirstOccurrenceAtStart(cfg, 0, File[0]);
  }

  /** Case-insensitive "hello" matches the first and last lines, each at
      columns 0 to 5, and keeps their original casing. */
  lemma InsensitiveScenario()
    ensures var r := Matches(Config("notes.txt", "hello", true), File);
      && |r| == 2
      && r[0].line == 0 && r[0].start == 0 && r[0].end == 5 && r[0].content == "Hello world"
      && r[1].line == 2 && r[1].start == 0 && r[1].end == 5 && r[1].content == "HELLO again"
  {
    var cfg := Config("notes.txt", "hello", true);
    FoldedHello(File[0]);
    FoldedHello(File[2]);
    NoHelloInGoodbye();
    FirstAndLastOfThree(cfg, File);
    FirstOccurrenceAtStart(cfg, 0, File[0]);
    FirstOccurrenceAtStart(cfg, 2, File[2]);
  }

  /** The middle line holds no spelling of "hello" in any casing. */
  lemma NoHelloInGoodbye()
    ensures !Contains(Lower(File[1]), "hello")
  {
    var folded := Lower(File[1]);
    assert forall j :: 0 <= j < |folded| ==> folded[j] == File[1][j];
    AbsentCharacter(folded, "hello", 0);
  }

  /** A line starting with "hello" in any casing folds to one starting with "hello". */
  lemma FoldedHello(line: string)
    requires |line| >= 5 && SpellsIgnoringCase(line[..5], "hello")
    ensures OccursAt(Lower(line), "hello", 0)
  {
    LowerEqualsIffSpells(line[..5], "hello");
    LowerSlice(line, 0, 5);
  }
}
