/** Text primitives the search utility relies on: ASCII case folding and
    first-occurrence substring search over `seq<char>`. */
module Text {
  import opened Results

  /** True for the characters 'A' through 'Z'. */
  predicate IsUpper(c: char) {
    'A' <= c <= 'Z'
  }

  /** ASCII lowercasing of one character; every other character is kept. */
  function LowerChar(c: char): (d: char)
    ensures IsUpper(c) ==> d as int == c as int + 32 && 'a' <= d <= 'z'
    ensures !IsUpper(c) ==> d == c
    ensures !IsUpper(d)
  {
    if IsUpper(c) then (c as int + 32) as char else c
  }

  /** Case folding of a whole string, character by character; the folded copy
      keeps the length of the original, so offsets found in it index the original. */
  function Lower(s: string): (t: string)
    ensures |t| == |s|
    ensures forall i :: 0 <= i < |s| ==> t[i] == LowerChar(s[i])
  {
    seq(|s|, i requires 0 <= i < |s| => LowerChar(s[i]))
  }

  /** A string that folding leaves unchanged: it has no upper-case letter. */
  predicate IsLowered(s: string) {
    forall i :: 0 <= i < |s| ==> !IsUpper(s[i])
  }

  /** Folding leaves no upper-case letter, so folding twice is folding once. */
  lemma LowerIsLowered(s: string)
    ensures IsLowered(Lower(s))
    ensures Lower(Lower(s)) == Lower(s)
  {
  }

  /** A string with no upper-case letter is its own fold. */
  lemma LoweredIsFixpoint(s: string)
    requires IsLowered(s)
    ensures Lower(s) == s
  {
  }

  /** Folding commutes with taking a slice. */
  lemma LowerSlice(s: string, a: nat, b: nat)
    requires a <= b <= |s|
    ensures Lower(s)[a..b] == Lower(s[a..b])
  {
  }

  /** `c` is `d` or the upper-case spelling of the lower-case letter `d`. */
  predicate CaseVariantOf(c: char, d: char) {
    c == d || ('a' <= d <= 'z' && c as int == d as int - 32)
  }

  /** `s` spells the lower-case literal `lit` in some mixture of cases. */
  predicate SpellsIgnoringCase(s: string, lit: string) {
    |s| == |lit| && forall i :: 0 <= i < |s| ==> CaseVariantOf(s[i], lit[i])
  }

  /** Comparing the folded string with a lower-case literal accepts exactly the
      case spellings of that literal. */
  lemma LowerEqualsIffSpells(s: string, lit: string)
    requires IsLowered(lit)
    ensures Lower(s) == lit <==> SpellsIgnoringCase(s, lit)
  {
    if Lower(s) == lit {
      forall i | 0 <= i < |s|
        ensures CaseVariantOf(s[i], lit[i])
      {
        assert Lower(s)[i] == lit[i];
      }
    }
    if SpellsIgnoringCase(s, lit) {
      forall i | 0 <= i < |s|
        ensures Lower(s)[i] == lit[i]
      {
        assert CaseVariantOf(s[i], lit[i]);
      }
    }
  }

  /** `p` occurs in `h` starting at position `k`. */
  predicate OccursAt(h: string, p: string, k: int) {
    0 <= k && k + |p| <= |h| && h[k..k + |p|] == p
  }

  /** A one-character pattern occurs exactly where that character stands. */
  lemma OccursAtSingle(h: string, c: char, j: int)
    ensures OccursAt(h, [c], j) <==> 0 <= j < |h| && h[j] == c
  {
    if 0 <= j < |h| {
      assert h[j..j + 1] == [h[j]];
    }
  }

  /** `p` occurs somewhere in `h`. */
  predicate Contains(h: string, p: string) {
    exists k :: 0 <= k <= |h| && OccursAt(h, p, k)
  }

  /** The stretch of `h` at position `k` folds to `p`: `p` occurs there in
      some casing. */
  predicate OccursFoldedAt(h: string, p: string, k: int) {
    0 <= k && k + |p| <= |h| && Lower(h[k..k + |p|]) == p
  }

  /** Forward search for `p` in `h`, starting at position `i`. */
  function FindFrom(h: string, p: string, i: nat): (r: Option<nat>)
    decreases |h| - i
    ensures r.Some? ==> i <= r.value && OccursAt(h, p, r.value)
    ensures r.Some? ==> forall j :: i <= j < r.value ==> !OccursAt(h, p, j)
    ensures r.None? ==> forall j :: i <= j ==> !OccursAt(h, p, j)
  {
    if i + |p| > |h| then None
    else if h[i..i + |p|] == p then Some(i)
    else FindFrom(h, p, i + 1)
  }

  /** The position of the first occurrence of `p` in `h`, if any; an empty `p`
      is found at position 0. */
  function Find(h: string, p: string): (r: Option<nat>)
    ensures r.Some? <==> Contains(h, p)
    ensures r.Some? ==> OccursAt(h, p, r.value)
    ensures r.Some? ==> forall j :: 0 <= j < r.value ==> !OccursAt(h, p, j)
  {
    FindFrom(h, p, 0)
  }

  /** The empty pattern is found at the very start of every string. */
  lemma FindEmpty(h: string)
    ensures Find(h, []) == Some(0)
  {
    assert OccursAt(h, [], 0);
  }

  /** A pattern longer than the text is never found. */
  lemma FindTooLong(h: string, p: string)
    requires |h| < |p|
    ensures Find(h, p) == None
  {
  }
}
