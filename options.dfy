/** The option-field parser of excel_to_pdf_fixed.py (the block regex, the
    per-line regex and the positional fallback), with the block regex
    written out as a scanner that follows Python's `re.findall`. */
module OptionParser {
  import opened PyText

  /** `[A-F]`. */
  predicate IsOptionLetter(c: char) { 'A' <= c <= 'F' }

  /** `[、\.\)]`. */
  predicate IsDelimiter(c: char) { c == '、' || c == '.' || c == ')' }

  /** An option letter followed by a delimiter starts at `i`. */
  predicate PairAt(t: string, i: nat) {
    i + 1 < |t| && IsOptionLetter(t[i]) && IsDelimiter(t[i + 1])
  }

  ghost predicate HasPair(t: string) {
    exists i :: PairAt(t, i)
  }

  // ---------------------------------------------------------------------
  // Tier 1: ([A-F])[、\.\)]\s*(.*?)(?=(?:\n+[A-F][、\.\)]|\Z))  with re.S

  /** The end of the run of newlines that starts at `e`. */
  function NewlineRunEnd(t: string, e: nat): (j: nat)
    requires e <= |t|
    ensures e <= j <= |t|
    ensures forall k :: e <= k < j ==> t[k] == '\n'
    ensures j < |t| ==> t[j] != '\n'
    decreases |t| - e
  {
    if e == |t| || t[e] != '\n' then e else NewlineRunEnd(t, e + 1)
  }

  /** The lookahead holds at `e`: the end of the text, or one or more
      newlines followed by a letter and a delimiter.  `\n+` is greedy and
      a letter is never a newline, so the whole run is taken. */
  predicate StopAt(t: string, e: nat)
    requires e <= |t|
  {
    e == |t| || (t[e] == '\n' && PairAt(t, NewlineRunEnd(t, e)))
  }

  /** Where the lazy `.*?` that starts at `i` stops: the first position at
      which the lookahead holds (there always is one, the end of the text). */
  function BlockEnd(t: string, i: nat): (e: nat)
    requires i <= |t|
    ensures i <= e <= |t|
    ensures StopAt(t, e)
    ensures forall k :: i <= k < e ==> !StopAt(t, k)
    decreases |t| - i
  {
    if StopAt(t, i) then i else BlockEnd(t, i + 1)
  }

  /** The start of the captured option text: the greedy `\s*` takes every
      space after the delimiter.  It never has to give any back, because
      `.*?` can always reach the end of the text. */
  function ValueStart(t: string, p: nat): nat
    requires PairAt(t, p)
  {
    SkipSpace(t, p + 2)
  }

  /** The end of a match that starts at `p`. */
  function MatchEnd(t: string, p: nat): (e: nat)
    requires PairAt(t, p)
    ensures p + 2 <= e <= |t|
  {
    BlockEnd(t, ValueStart(t, p))
  }

  /** The start positions of the matches `findall` reports when it searches
      from `p`: every pair starts a match unless an earlier match already
      covers it, and the search resumes at the end of each match. */
  function MatchStartsFrom(t: string, p: nat): (r: seq<nat>)
    requires p <= |t|
    ensures forall k :: 0 <= k < |r| ==> p <= r[k] && PairAt(t, r[k])
    decreases |t| - p
  {
    if p == |t| then []
    else if PairAt(t, p) then
      var e := MatchEnd(t, p);
      var rest := MatchStartsFrom(t, e);
      var r := [p] + rest;
      r
    else
      MatchStartsFrom(t, p + 1)
  }

  /** Consecutive matches do not overlap: the search resumes where the
      previous match ended. */
  lemma {:induction false} MatchStartsApart(t: string, p: nat, k: nat)
    requires p <= |t|
    requires k + 1 < |MatchStartsFrom(t, p)|
    ensures var r := MatchStartsFrom(t, p);
      PairAt(t, r[k]) && MatchEnd(t, r[k]) <= r[k + 1]
    decreases |t| - p
  {
    var r := MatchStartsFrom(t, p);
    if PairAt(t, p) {
      var e := MatchEnd(t, p);
      var rest := MatchStartsFrom(t, e);
      assert r == [p] + rest;
      if k > 0 {
        MatchStartsApart(t, e, k - 1);
        assert r[k] == rest[k - 1] && r[k + 1] == rest[k];
      }
    } else {
      MatchStartsApart(t, p + 1, k);
    }
  }

  /** Position `q` lies inside one of the matches that start at `starts`. */
  ghost predicate CoveredBy(t: string, starts: seq<nat>, q: nat) {
    exists k :: 0 <= k < |starts| && Inside(t, starts[k], q)
  }

  /** Position `q` lies inside the match that starts at `s`. */
  predicate Inside(t: string, s: nat, q: nat) {
    PairAt(t, s) && s <= q < MatchEnd(t, s)
  }

  /** No pair is skipped: every pair at or after `p` either starts a
      match or lies inside an earlier one. */
  lemma {:induction false} MatchStartsCover(t: string, p: nat, q: nat)
    requires p <= q && PairAt(t, q)
    ensures CoveredBy(t, MatchStartsFrom(t, p), q)
    decreases |t| - p
  {
    if PairAt(t, p) {
      var e := MatchEnd(t, p);
      var rest := MatchStartsFrom(t, e);
      assert MatchStartsFrom(t, p) == [p] + rest;
      if q < e {
        assert Inside(t, ([p] + rest)[0], q);
      } else {
        MatchStartsCover(t, e, q);
        CoveredCons(t, p, rest, q);
      }
    } else {
      MatchStartsCover(t, p + 1, q);
    }
  }

  lemma CoveredCons(t: string, p: nat, rest: seq<nat>, q: nat)
    requires CoveredBy(t, rest, q)
    ensures CoveredBy(t, [p] + rest, q)
  {
    var k :| 0 <= k < |rest| && Inside(t, rest[k], q);
    ConsIndex(p, rest, k);
  }

  lemma ConsIndex<T>(x: T, s: seq<T>, k: nat)
    requires k < |s|
    ensures ([x] + s)[k + 1] == s[k]
  {
  }

  /** `pattern.findall(t)`: for each match, the letter and the captured
      option text (not yet stripped). */
  function BlockMatches(t: string): (ms: seq<(char, string)>)
    ensures |ms| == |MatchStartsFrom(t, 0)|
  {
    MatchesOf(t, MatchStartsFrom(t, 0))
  }

  /** The letter and the captured text of the matches that start at
      `starts`. */
  function MatchesOf(t: string, starts: seq<nat>): (ms: seq<(char, string)>)
    requires forall k :: 0 <= k < |starts| ==> PairAt(t, starts[k])
    ensures |ms| == |starts|
    decreases |starts|
  {
    if starts == [] then []
    else
      var s := starts[0];
      assert PairAt(t, s);
      [(t[s], t[ValueStart(t, s)..MatchEnd(t, s)])] + MatchesOf(t, starts[1..])
  }

  /** Tier 1 finds nothing exactly when no letter-delimiter pair occurs
      anywhere in the text. */
  lemma BlockMatchesEmptyIff(t: string)
    ensures BlockMatches(t) == [] <==> !HasPair(t)
  {
    var starts := MatchStartsFrom(t, 0);
    if starts != [] {
      assert PairAt(t, starts[0]);
    }
    if HasPair(t) {
      var q: nat :| PairAt(t, q);
      MatchStartsCover(t, 0, q);
    }
  }

  // ---------------------------------------------------------------------
  // Tier 2: per line, ^([A-F])[、\.\)]\s*(.*)$

  /** `[line.strip() for line in t.splitlines() if line.strip()]`. */
  function Lines(t: string): (r: seq<string>)
    ensures forall k :: 0 <= k < |r| ==> r[k] != "" && IsInfix(r[k], t)
  {
    var ls := SplitLines(t);
    var r := StrippedNonEmpty(ls);
    forall k | 0 <= k < |r| ensures IsInfix(r[k], t) {
      var j :| 0 <= j < |ls| && r[k] == Strip(ls[j]);
      InfixTransitive(r[k], ls[j], t);
    }
    r
  }

  /** The per-line regex matches a line: it starts with a letter and a
      delimiter (a line holds no `\n`, so `.*` reaches its end). */
  predicate LineMatches(line: string) {
    PairAt(line, 0)
  }

  /** The option text the per-line regex captures, stripped. */
  function LineValue(line: string): string
    requires LineMatches(line)
  {
    Strip(line[SkipSpace(line, 2)..])
  }

  lemma PairInInfix(r: string, t: string)
    requires IsInfix(r, t) && PairAt(r, 0)
    ensures HasPair(t)
  {
    var a, b :| 0 <= a <= b <= |t| && r == t[a..b];
    assert t[a] == r[0] && t[a + 1] == r[1];
    assert PairAt(t, a);
  }

  /** Tier 2 can never contribute: it runs only when tier 1 found nothing,
      and then no letter-delimiter pair occurs anywhere in the text, so in
      particular no line starts with one. */
  lemma SecondTierNeverMatches(t: string)
    requires BlockMatches(t) == []
    ensures forall k :: 0 <= k < |Lines(t)| ==> !LineMatches(Lines(t)[k])
  {
    BlockMatchesEmptyIff(t);
    var ls := Lines(t);
    forall k | 0 <= k < |ls| ensures !LineMatches(ls[k]) {
      if LineMatches(ls[k]) {
        PairInInfix(ls[k], t);
      }
    }
  }

  // ---------------------------------------------------------------------
  // The three tiers together

  /** The letters `findall` reported. */
  function Letters(ms: seq<(char, string)>): set<char> {
    set k | 0 <= k < |ms| :: ms[k].0
  }

  /** Match `k` is the last one for its letter. */
  predicate IsLastFor(ms: seq<(char, string)>, k: nat)
    requires k < |ms|
  {
    forall j :: k < j < |ms| ==> ms[j].0 != ms[k].0
  }

  /** The map the loop over the matches builds, one assignment per match. */
  function Assigned(ms: seq<(char, string)>): map<char, string>
  {
    if ms == [] then map[]
    else
      var m := ms[|ms| - 1];
      Assigned(ms[..|ms| - 1])[m.0 := Strip(m.1)]
  }

  lemma LettersLast(ms: seq<(char, string)>)
    requires ms != []
    ensures Letters(ms) == Letters(ms[..|ms| - 1]) + {ms[|ms| - 1].0}
  {
    var n := |ms| - 1;
    var init := ms[..n];
    forall c | c in Letters(ms) ensures c in Letters(init) + {ms[n].0} {
      var k :| 0 <= k < |ms| && ms[k].0 == c;
      if k < n { assert init[k] == ms[k]; }
    }
    forall c | c in Letters(init) ensures c in Letters(ms) {
      var k :| 0 <= k < |init| && init[k].0 == c;
      assert ms[k] == init[k];
    }
  }

  /** Tier 1 keeps every matched letter, and a letter that matched more
      than once gets the stripped text of its LAST match. */
  lemma {:induction false} AssignedLastWins(ms: seq<(char, string)>)
    ensures Assigned(ms).Keys == Letters(ms)
    ensures forall k :: 0 <= k < |ms| && IsLastFor(ms, k) ==>
      Assigned(ms)[ms[k].0] == Strip(ms[k].1)
  {
    AssignedKeys(ms);
    forall k | 0 <= k < |ms| && IsLastFor(ms, k)
      ensures Assigned(ms)[ms[k].0] == Strip(ms[k].1)
    {
      AssignedLastAt(ms, k);
    }
  }

  lemma {:induction false} AssignedKeys(ms: seq<(char, string)>)
    ensures Assigned(ms).Keys == Letters(ms)
    decreases |ms|
  {
    if ms != [] {
      AssignedKeys(ms[..|ms| - 1]);
      LettersLast(ms);
    }
  }

  lemma LastForInit(ms: seq<(char, string)>, k: nat)
    requires k < |ms| - 1 && IsLastFor(ms, k)
    ensures ms[..|ms| - 1][k] == ms[k] && IsLastFor(ms[..|ms| - 1], k)
  {
    var init := ms[..|ms| - 1];
    forall j | k < j < |init| ensures init[j].0 != init[k].0 {
      assert init[j] == ms[j];
    }
  }

  lemma {:induction false} AssignedLastAt(ms: seq<(char, string)>, k: nat)
    requires k < |ms| && IsLastFor(ms, k)
    ensures ms[k].0 in Assigned(ms) && Assigned(ms)[ms[k].0] == Strip(ms[k].1)
    decreases |ms|
  {
    var n := |ms| - 1;
    if k < n {
      var init := ms[..n];
      LastForInit(ms, k);
      AssignedLastAt(init, k);
      var m := Assigned(init);
      assert Assigned(ms) == m[ms[n].0 := Strip(ms[n].1)];
      assert ms[n].0 != ms[k].0;
    }
  }

  /** The map the per-line loop builds: each line the per-line regex
      matches assigns its letter, later lines overwriting earlier ones. */
  function LineAssigned(lines: seq<string>): map<char, string>
  {
    if lines == [] then map[]
    else
      var line := lines[|lines| - 1];
      var m := LineAssigned(lines[..|lines| - 1]);
      if LineMatches(line) then m[line[0] := LineValue(line)] else m
  }

  /** Tier 2 never assigns anything when tier 1 found no match. */
  lemma SecondTierEmpty(t: string)
    requires BlockMatches(t) == []
    ensures LineAssigned(Lines(t)) == map[]
  {
    SecondTierNeverMatches(t);
    NoMatchNothingAssigned(Lines(t));
  }

  lemma {:induction false} NoMatchNothingAssigned(lines: seq<string>)
    requires forall k :: 0 <= k < |lines| ==> !LineMatches(lines[k])
    ensures LineAssigned(lines) == map[]
  {
    if lines != [] {
      NoMatchNothingAssigned(lines[..|lines| - 1]);
    }
  }

  /** `chr(65 + i)`. */
  function LetterFor(i: nat): (c: char)
    requires i < 8
    ensures 'A' <= c <= 'H'
  {
    (65 + i) as char
  }

  /** The map the fallback loop builds: line `i` under `chr(65 + i)`. */
  function Enumerated(lines: seq<string>): map<char, string>
    requires |lines| <= 8
  {
    if lines == [] then map[]
    else
      var n := |lines| - 1;
      Enumerated(lines[..n])[LetterFor(n) := lines[n]]
  }

  /** The fallback keys the lines A, B, ... in order and has no other key. */
  lemma {:induction false} EnumeratedKeysLines(lines: seq<string>)
    requires |lines| <= 8
    ensures forall c :: c in Enumerated(lines) <==> 'A' <= c && (c as int) < 65 + |lines|
    ensures forall i :: 0 <= i < |lines| ==> Enumerated(lines)[LetterFor(i)] == lines[i]
  {
    if lines != [] {
      var n := |lines| - 1;
      EnumeratedKeysLines(lines[..n]);
      forall i | 0 <= i < |lines| ensures Enumerated(lines)[LetterFor(i)] == lines[i] {
        if i < n {
          assert LetterFor(i) != LetterFor(n);
          assert lines[..n][i] == lines[i];
        }
      }
    }
  }

  /** What the second and third tiers produce from the cleaned lines. */
  function Fallback(lines: seq<string>): map<char, string>
  {
    var m := LineAssigned(lines);
    if m == map[] && 0 < |lines| <= 8 then Enumerated(lines) else m
  }

  /** Lines 119-137: the option map of one cleaned option field. */
  method ParseOptions(optText: string) returns (options: map<char, string>)
    ensures optText == "" ==> options == map[]
    ensures optText != "" && BlockMatches(optText) != [] ==> options == Assigned(BlockMatches(optText))
    ensures optText != "" && BlockMatches(optText) == [] ==> options == Fallback(Lines(optText))
  {
    options := map[];
    if optText == "" {
      return;
    }
    var matches := BlockMatches(optText);
    if matches != [] {
      options := AssignMatches(matches);
    } else {
      options := ParseLines(Lines(optText));
    }
  }

  /** `for letter, content in matches: options[letter] = content.strip()`. */
  method AssignMatches(matches: seq<(char, string)>) returns (options: map<char, string>)
    ensures options == Assigned(matches)
  {
    options := map[];
    var i := 0;
    while i < |matches|
      invariant 0 <= i <= |matches|
      invariant options == Assigned(matches[..i])
    {
      AssignedStep(matches, i);
      options := options[matches[i].0 := Strip(matches[i].1)];
      i := i + 1;
    }
    assert matches[..i] == matches;
  }

  lemma AssignedStep(ms: seq<(char, string)>, i: nat)
    requires i < |ms|
    ensures Assigned(ms[..i + 1]) == Assigned(ms[..i])[ms[i].0 := Strip(ms[i].1)]
  {
    assert ms[..i + 1][..i] == ms[..i];
  }

  /** Lines 128-137: the per-line regex over the stripped non-empty lines,
      then the positional fallback when nothing matched. */
  method ParseLines(lines: seq<string>) returns (options: map<char, string>)
    ensures options == Fallback(lines)
  {
    options := map[];
    var i := 0;
    while i < |lines|
      invariant 0 <= i <= |lines|
      invariant options == LineAssigned(lines[..i])
    {
      assert lines[..i + 1][..i] == lines[..i];
      if LineMatches(lines[i]) {
        options := options[lines[i][0] := LineValue(lines[i])];
      }
      i := i + 1;
    }
    assert lines[..i] == lines;
    if options == map[] && 0 < |lines| <= 8 {
      i := 0;
      while i < |lines|
        invariant 0 <= i <= |lines|
        invariant options == Enumerated(lines[..i])
      {
        assert lines[..i + 1][..i] == lines[..i];
        options := options[LetterFor(i) := lines[i]];
        i := i + 1;
      }
      assert lines[..i] == lines;
    }
  }

  /** The option map in full: either tier 1's last-wins map over the block
      matches, or (no letter-delimiter pair anywhere) the lines keyed A, B,
      ... when there are one to eight of them, and nothing otherwise. */
  lemma ParseOptionsOutcome(t: string)
    ensures BlockMatches(t) == [] ==>
      Fallback(Lines(t)) == (if 0 < |Lines(t)| <= 8 then Enumerated(Lines(t)) else map[])
    ensures BlockMatches(t) == [] <==> !HasPair(t)
  {
    BlockMatchesEmptyIff(t);
    if BlockMatches(t) == [] {
      SecondTierEmpty(t);
    }
  }

  // ---------------------------------------------------------------------
  // Reading rendered options back

  /** `f"{letter}. {value}"`. */
  function OptionLine(p: (char, string)): string {
    [p.0] + ". " + p.1
  }

  /** The options written one per line: `"A. x\nB. y"`. */
  function Render(ps: seq<(char, string)>): (t: string)
    decreases |ps|
  {
    if ps == [] then ""
    else if |ps| == 1 then OptionLine(ps[0])
    else OptionLine(ps[0]) + "\n" + Render(ps[1..])
  }

  /** A value that survives the trip: non-empty, already stripped and on
      one line. */
  predicate Readable(p: (char, string)) {
    IsOptionLetter(p.0) && p.1 != "" && Strip(p.1) == p.1 && '\n' !in p.1
  }

  /** What the block regex needs of a rendered line: a letter, and a
      value on one line that does not start with a space. */
  predicate OneLine(p: (char, string)) {
    IsOptionLetter(p.0) && p.1 != "" && !IsSpace(p.1[0]) && '\n' !in p.1
  }

  /** No letter is written twice. */
  predicate DistinctLetters(ps: seq<(char, string)>) {
    forall i, j :: 0 <= i < j < |ps| ==> ps[i].0 != ps[j].0
  }

  /** Rendered options are read back by the block regex as the same
      letters with the same values, in order. */
  lemma RenderMatches(ps: seq<(char, string)>)
    requires forall i :: 0 <= i < |ps| ==> Readable(ps[i])
    ensures BlockMatches(Render(ps)) == ps
  {
    var t := Render(ps);
    forall i | 0 <= i < |ps|
      ensures OneLine(ps[i])
    {
      assert Strip(ps[i].1) == ps[i].1;
    }
    if ps == [] {
      assert MatchStartsFrom(t, 0) == [];
    } else {
      assert t[0..] == t;
      RenderedLines(t, 0, ps);
      RenderMatchesFrom(t, 0, ps);
      assert ReadsBack(t, 0, ps);
    }
  }

  /** The round trip of the option map: with distinct letters, parsing the
      rendered options gives every letter its own value and nothing else
      (`ParseOptions` returns this map for a non-empty text with matches). */
  lemma RenderRoundTrip(ps: seq<(char, string)>)
    requires forall i :: 0 <= i < |ps| ==> Readable(ps[i])
    requires DistinctLetters(ps)
    ensures var m := Assigned(BlockMatches(Render(ps)));
      && m.Keys == Letters(ps)
      && (forall i :: 0 <= i < |ps| ==> m[ps[i].0] == ps[i].1)
    ensures ps != [] ==> Render(ps) != "" && BlockMatches(Render(ps)) != []
  {
    RenderMatches(ps);
    AssignedLastWins(ps);
    forall i | 0 <= i < |ps|
      ensures IsLastFor(ps, i)
    {
    }
    if ps != [] {
      assert Render(ps)[0] == ps[0].0;
    }
  }

  /** An empty value lets the greedy `\s*` run over the newline, so its
      capture is the next option's whole line and that letter is lost. */
  lemma EmptyValueSwallowsNext(c: char, d: char, y: string)
    requires IsOptionLetter(c) && IsOptionLetter(d) && '\n' !in y
    ensures BlockMatches(Render([(c, ""), (d, y)])) == [(c, [d] + ". " + y)]
    ensures c != d ==> Assigned(BlockMatches(Render([(c, ""), (d, y)]))).Keys == {c}
  {
    var t := Render([(c, ""), (d, y)]);
    assert t == [c] + ". " + "\n" + [d] + ". " + y;
    assert t[0] == c && t[1] == '.' && t[2] == ' ' && t[3] == '\n';
    assert t[4] == d && t[5] == '.' && t[6] == ' ' && t[7..] == y;
    CaptureAfterEmpty(t, y);
    assert MatchStartsFrom(t, |t|) == [];
    assert MatchStartsFrom(t, 0) == [0] + [];
    MatchesOfCons(t, 0, []);
    assert MatchesOf(t, []) == [];
    assert BlockMatches(t) == [(t[0], t[4..|t|])];
    assert t[4..|t|] == [d] + ". " + y;
  }

  /** In `"c. \nd. y"` the match at 0 skips the newline and captures up
      to the end of the text. */
  lemma CaptureAfterEmpty(t: string, y: string)
    requires |t| == 7 + |y| && '\n' !in y
    requires IsOptionLetter(t[0]) && t[1] == '.' && t[2] == ' ' && t[3] == '\n'
    requires IsOptionLetter(t[4]) && t[5] == '.' && t[6] == ' ' && t[7..] == y
    ensures PairAt(t, 0) && ValueStart(t, 0) == 4 && MatchEnd(t, 0) == |t|
    ensures Resumes(t, 0, |t|)
  {
    assert IsSpace(t[2]) && IsSpace(t[3]) && !IsSpace(t[4]);
    assert SkipSpace(t, 2) == 4;
    forall k | 4 <= k < |t|
      ensures !StopAt(t, k)
    {
      if k >= 7 {
        assert t[k] == y[k - 7];
      }
    }
    BlockEndAt(t, 4, |t|);
  }

  /** The lazy capture that starts at `i` ends at `e` when the lookahead
      first holds there. */
  lemma {:induction false} BlockEndAt(t: string, i: nat, e: nat)
    requires i <= e <= |t| && StopAt(t, e)
    requires forall k :: i <= k < e ==> !StopAt(t, k)
    ensures BlockEnd(t, i) == e
    decreases e - i
  {
    if i < e {
      BlockEndAt(t, i + 1, e);
    }
  }

  /** One rendered line: its match starts at `o`, captures exactly `v`, and
      the search resumes after it. */
  lemma MatchOfLine(t: string, o: nat, v: string)
    requires o + 3 + |v| <= |t|
    requires IsOptionLetter(t[o]) && t[o + 1] == '.' && t[o + 2] == ' '
    requires t[o + 3..o + 3 + |v|] == v
    requires v != "" && !IsSpace(v[0]) && '\n' !in v
    requires StopAt(t, o + 3 + |v|)
    ensures PairAt(t, o) && ValueStart(t, o) == o + 3 && MatchEnd(t, o) == o + 3 + |v|
    ensures Resumes(t, o, o + 3 + |v|)
  {
    var e := o + 3 + |v|;
    assert t[o + 3] == v[0];
    assert SkipSpace(t, o + 3) == o + 3;
    forall k | o + 3 <= k < e
      ensures !StopAt(t, k)
    {
      assert t[k] == v[k - o - 3];
    }
    BlockEndAt(t, o + 3, e);
  }

  /** The matches of a list of starts, first one split off. */
  lemma MatchesOfCons(t: string, s: nat, rest: seq<nat>)
    requires PairAt(t, s) && forall k :: 0 <= k < |rest| ==> PairAt(t, rest[k])
    ensures MatchesOf(t, [s] + rest)
         == [(t[s], t[ValueStart(t, s)..MatchEnd(t, s)])] + MatchesOf(t, rest)
  {
    assert ([s] + rest)[1..] == rest;
  }

  /** The lines of `qs` are laid out in `t` from `o` to the end, as
      `Render` writes them. */
  predicate LinesAt(t: string, o: nat, qs: seq<(char, string)>)
    decreases |qs|
  {
    && qs != [] && o + 3 + |qs[0].1| <= |t|
    && t[o] == qs[0].0 && t[o + 1] == '.' && t[o + 2] == ' '
    && t[o + 3..o + 3 + |qs[0].1|] == qs[0].1
    && (|qs| == 1 ==> o + 3 + |qs[0].1| == |t|)
    && (|qs| > 1 ==>
          && o + 4 + |qs[0].1| <= |t| && t[o + 3 + |qs[0].1|] == '\n'
          && LinesAt(t, o + 4 + |qs[0].1|, qs[1..]))
  }

  /** The first rendered line of a suffix of `t`. */
  lemma RenderedLine(t: string, o: nat, qs: seq<(char, string)>)
    requires qs != [] && o <= |t| && t[o..] == Render(qs)
    ensures o + 3 + |qs[0].1| <= |t|
    ensures t[o] == qs[0].0 && t[o + 1] == '.' && t[o + 2] == ' '
    ensures t[o + 3..o + 3 + |qs[0].1|] == qs[0].1
    ensures |qs| == 1 ==> o + 3 + |qs[0].1| == |t|
    ensures |qs| > 1 ==> o + 4 + |qs[0].1| <= |t| && t[o + 3 + |qs[0].1|] == '\n'
                         && t[o + 4 + |qs[0].1|..] == Render(qs[1..])
  {
    var line := OptionLine(qs[0]);
    var u := t[o..];
    var n := |line|;
    if |qs| == 1 {
      assert u == line;
    } else {
      assert u == line + "\n" + Render(qs[1..]);
      assert u[..n] == line && u[n] == '\n' && u[n + 1..] == Render(qs[1..]);
      assert t[o + n + 1..] == u[n + 1..];
    }
    assert u[..n] == line;
    assert t[o] == u[0] == line[0] && t[o + 1] == u[1] && t[o + 2] == u[2];
    assert t[o + 3..o + n] == u[3..n] == line[3..];
  }

  /** `Render` lays its lines out one after another. */
  lemma {:induction false} RenderedLines(t: string, o: nat, qs: seq<(char, string)>)
    requires qs != [] && o <= |t| && t[o..] == Render(qs)
    ensures LinesAt(t, o, qs)
    decreases |qs|
  {
    RenderedLine(t, o, qs);
    if |qs| > 1 {
      RenderedLines(t, o + 4 + |qs[0].1|, qs[1..]);
    }
  }

  /** The search from `o` finds a match at `o` and resumes at `n`. */
  predicate Resumes(t: string, o: nat, n: nat)
    requires o <= |t| && n <= |t|
  {
    MatchStartsFrom(t, o) == [o] + MatchStartsFrom(t, n)
  }

  /** The matches found from `o` on capture exactly `qs`. */
  predicate ReadsBack(t: string, o: nat, qs: seq<(char, string)>)
    requires o <= |t|
  {
    MatchesOf(t, MatchStartsFrom(t, o)) == qs
  }

  /** Laid-out lines are read back one by one: the value of each ends at
      the newline before the next line, or at the end of the text. */
  lemma {:induction false} RenderMatchesFrom(t: string, o: nat, qs: seq<(char, string)>)
    requires o <= |t| && LinesAt(t, o, qs)
    requires forall i :: 0 <= i < |qs| ==> OneLine(qs[i])
    ensures ReadsBack(t, o, qs)
    decreases |qs|, 1
  {
    if |qs| == 1 {
      MatchOfLine(t, o, qs[0].1);
      assert MatchStartsFrom(t, o + 3 + |qs[0].1|) == [];
      ConsMatches(t, o, o + 3 + |qs[0].1|, qs);
    } else {
      assert OneLine(qs[1]);
      NextLine(t, o, qs[0].1);
      ReadsBackNext(t, o, qs);
    }
  }

  /** The first line is matched and the search resumes at the next one,
      which is read back by induction. */
  lemma {:induction false} ReadsBackNext(t: string, o: nat, qs: seq<(char, string)>)
    requires |qs| > 1 && o + 4 + |qs[0].1| <= |t| && PairAt(t, o)
    requires Resumes(t, o, o + 4 + |qs[0].1|)
    requires ValueStart(t, o) == o + 3 && MatchEnd(t, o) == o + 3 + |qs[0].1|
    requires t[o] == qs[0].0 && t[o + 3..o + 3 + |qs[0].1|] == qs[0].1
    requires LinesAt(t, o + 4 + |qs[0].1|, qs[1..])
    requires forall i :: 0 <= i < |qs| ==> OneLine(qs[i])
    ensures ReadsBack(t, o, qs)
    decreases |qs|, 0
  {
    RenderMatchesFrom(t, o + 4 + |qs[0].1|, qs[1..]);
    ConsMatches(t, o, o + 4 + |qs[0].1|, qs);
  }

  /** A match that captures the first option, followed by matches that
      capture the others. */
  lemma ConsMatches(t: string, o: nat, n: nat, qs: seq<(char, string)>)
    requires qs != [] && n <= |t| && PairAt(t, o)
    requires Resumes(t, o, n)
    requires o + 3 + |qs[0].1| <= |t|
    requires ValueStart(t, o) == o + 3 && MatchEnd(t, o) == o + 3 + |qs[0].1|
    requires t[o] == qs[0].0 && t[o + 3..o + 3 + |qs[0].1|] == qs[0].1
    requires |qs| == 1 ==> MatchStartsFrom(t, n) == []
    requires |qs| > 1 ==> ReadsBack(t, n, qs[1..])
    ensures ReadsBack(t, o, qs)
  {
    var r := MatchStartsFrom(t, n);
    MatchesOfCons(t, o, r);
    assert qs == [qs[0]] + qs[1..];
  }

  /** A line followed by another: the newline after its value stops the
      capture, and the search skips over that newline. */
  lemma NextLine(t: string, o: nat, v: string)
    requires o + 4 + |v| <= |t|
    requires IsOptionLetter(t[o]) && t[o + 1] == '.' && t[o + 2] == ' '
    requires t[o + 3..o + 3 + |v|] == v
    requires v != "" && !IsSpace(v[0]) && '\n' !in v
    requires t[o + 3 + |v|] == '\n' && PairAt(t, o + 4 + |v|)
    ensures PairAt(t, o) && ValueStart(t, o) == o + 3 && MatchEnd(t, o) == o + 3 + |v|
    ensures Resumes(t, o, o + 4 + |v|)
  {
    var e := o + 3 + |v|;
    assert NewlineRunEnd(t, e + 1) == e + 1;
    assert StopAt(t, e);
    MatchOfLine(t, o, v);
    var rest := MatchStartsFrom(t, e + 1);
    assert MatchStartsFrom(t, e) == rest;
  }
}
