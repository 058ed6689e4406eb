/** json2pdf.py: `escape_latex_math`, which rewrites the mathematical
    symbols of a question's text for LaTeX, and the fields `json_to_latex`
    selects from each question for its LaTeX block. */
module Json2Pdf {
  import opened Wrappers
  import opened PyText
  import opened Json
  import Naming

  // ---------------------------------------------------------------------
  // The symbol table (lines 89-106)

  /** The table's entries, in the dictionary's insertion order: `Key(i)`
      is replaced by `Value(i)`. */
  const Entries := 12

  function Key(i: nat): char {
    match i
    case 0 => '⋅'   // dot operator
    case 1 => '∙'   // bullet operator
    case 2 => '·'   // middle dot
    case 3 => '√'   // square root
    case 4 => '∣'   // divides
    case 5 => '∘'   // ring operator
    case 6 => '≤'   // less-than or equal to
    case 7 => '≥'   // greater-than or equal to
    case 8 => '≠'   // not equal to
    case 9 => '⟹'   // long rightwards double arrow
    case 10 => '→'  // rightwards arrow
    case _ => '∞'   // infinity
  }

  function Value(i: nat): string {
    match i
    case 0 => "\\cdot "
    case 1 => "\\cdot "
    case 2 => "\\cdot "
    case 3 => "\\sqrt{}"
    case 4 => "|"
    case 5 => "\\circ "
    case 6 => "\\leq "
    case 7 => "\\geq "
    case 8 => "\\neq "
    case 9 => "\\implies "
    case 10 => "\\to "
    case _ => "\\infty "
  }

  /** The entry whose key is `c`, or `Entries` when there is none. */
  function KeyIndex(c: char): (i: nat)
    ensures i <= Entries
    ensures i < Entries ==> Key(i) == c
  {
    match c
    case '⋅' => 0
    case '∙' => 1
    case '·' => 2
    case '√' => 3
    case '∣' => 4
    case '∘' => 5
    case '≤' => 6
    case '≥' => 7
    case '≠' => 8
    case '⟹' => 9
    case '→' => 10
    case '∞' => 11
    case _ => Entries
  }

  /** A character the table replaces. */
  predicate IsSymbol(c: char) { KeyIndex(c) < Entries }

  /** The keys are distinct: each one names its own entry. */
  lemma KeyIndexOfKey(i: nat)
    requires i < Entries
    ensures KeyIndex(Key(i)) == i
  {
  }

  /** The values are plain ASCII, so no value holds a key. */
  lemma ValueHasNoSymbol(i: nat)
    requires i < Entries
    ensures forall c :: c in Value(i) ==> !IsSymbol(c)
  {
    ValueIsAscii(i);
    forall c | c in Value(i) ensures !IsSymbol(c) {
      if IsSymbol(c) {
        KeyNotAscii(KeyIndex(c));
      }
    }
  }

  lemma ValueIsAscii(i: nat)
    requires i < Entries
    ensures forall c :: c in Value(i) ==> c < '\U{80}'
  {
  }

  lemma KeyNotAscii(i: nat)
    requires i < Entries
    ensures Key(i) >= '\U{80}'
  {
  }

  /** What `c` has become after the first `n` entries of the table. */
  function SymbolAfter(c: char, n: nat): string {
    if KeyIndex(c) < n then Value(KeyIndex(c)) else [c]
  }

  /** The text after the first `n` entries of the table: each character on
      its own, since no value holds a key that a later entry would
      rewrite. */
  function Replaced(s: string, n: nat): string
    decreases |s|
  {
    if s == [] then [] else SymbolAfter(s[0], n) + Replaced(s[1..], n)
  }

  /** Before the first entry nothing is replaced. */
  lemma {:induction false} ReplacedNone(s: string)
    ensures Replaced(s, 0) == s
    decreases |s|
  {
    if s != [] {
      ReplacedNone(s[1..]);
      assert s == [s[0]] + s[1..];
    }
  }

  lemma SymbolAfterStep(c: char, i: nat)
    requires i < Entries
    ensures ReplaceChar(SymbolAfter(c, i), Key(i), Value(i)) == SymbolAfter(c, i + 1)
  {
    var k := KeyIndex(c);
    if k < i {
      ValueHasNoSymbol(k);
      KeyIndexOfKey(i);
      assert Key(i) !in Value(k);
      ReplaceCharAbsent(Value(k), Key(i), Value(i));
    } else {
      KeyIndexOfKey(i);
      assert [c][1..] == [];
    }
  }

  /** One more entry of the loop extends the table by that entry. */
  lemma {:induction false} ReplacedStep(s: string, i: nat)
    requires i < Entries
    ensures ReplaceChar(Replaced(s, i), Key(i), Value(i)) == Replaced(s, i + 1)
    decreases |s|
  {
    if s != [] {
      ReplaceCharAppend(SymbolAfter(s[0], i), Replaced(s[1..], i), Key(i), Value(i));
      SymbolAfterStep(s[0], i);
      ReplacedStep(s[1..], i);
    }
  }

  /** After the whole table no symbol of it is left. */
  lemma {:induction false} ReplacedHasNoSymbol(s: string)
    ensures forall c :: c in Replaced(s, Entries) ==> !IsSymbol(c)
    decreases |s|
  {
    if s != [] {
      ReplacedHasNoSymbol(s[1..]);
      var k := KeyIndex(s[0]);
      if k < Entries {
        ValueHasNoSymbol(k);
      }
    }
  }

  /** A text without symbols passes the table unchanged. */
  lemma {:induction false} ReplacedNoSymbols(s: string)
    requires forall k :: 0 <= k < |s| ==> !IsSymbol(s[k])
    ensures Replaced(s, Entries) == s
    decreases |s|
  {
    if s != [] {
      ReplacedNoSymbols(s[1..]);
      assert s == [s[0]] + s[1..];
    }
  }

  // ---------------------------------------------------------------------
  // Mathematical italic letters (line 109)

  /** The class `[𝑎-𝑧𝐴-𝑍]`: U+1D434 to U+1D467, italic capitals then
      italic small letters. */
  predicate IsMathItalic(c: char) { '\U{1D434}' <= c <= '\U{1D467}' }

  /** `re.sub` of the class with `$…$` around each match: a one-character
      pattern, so each character is handled on its own. */
  function Italics(s: string): string
    decreases |s|
  {
    if s == [] then []
    else (if IsMathItalic(s[0]) then "$" + [s[0]] + "$" else [s[0]]) + Italics(s[1..])
  }

  /** The text without its dollar signs: what a substitution that only adds
      `$` around pieces of the text leaves alone. */
  function WithoutDollars(s: string): (r: string)
    decreases |s|
  {
    if s == [] then [] else (if s[0] == '$' then [] else [s[0]]) + WithoutDollars(s[1..])
  }

  lemma {:induction false} WithoutDollarsAppend(a: string, b: string)
    ensures WithoutDollars(a + b) == WithoutDollars(a) + WithoutDollars(b)
    decreases |a|
  {
    if a == [] {
      assert a + b == b;
    } else {
      assert (a + b)[1..] == a[1..] + b;
      WithoutDollarsAppend(a[1..], b);
    }
  }

  /** Dollar signs put around a piece disappear again. */
  lemma WithoutDollarsWrapped(x: string)
    ensures WithoutDollars("$" + x + "$") == WithoutDollars(x)
  {
    WithoutDollarsAppend("$" + x, "$");
    WithoutDollarsAppend("$", x);
    assert "$"[1..] == [];
  }

  /** Every italic letter is wrapped, and nothing but dollar signs is
      added. */
  lemma {:induction false} ItalicsShape(s: string)
    ensures WithoutDollars(Italics(s)) == WithoutDollars(s)
    ensures var r := Italics(s);
      forall i :: 0 <= i < |r| && IsMathItalic(r[i]) ==> 0 < i < |r| - 1 && r[i - 1] == '$' && r[i + 1] == '$'
    ensures forall c :: c in Italics(s) ==> c in s || c == '$'
    decreases |s|
  {
    if s != [] {
      ItalicsShape(s[1..]);
      var head := if IsMathItalic(s[0]) then "$" + [s[0]] + "$" else [s[0]];
      var tail := Italics(s[1..]);
      var r := head + tail;
      assert Italics(s) == r;
      assert s == [s[0]] + s[1..];
      assert WithoutDollars(r) == WithoutDollars(s) by {
        WithoutDollarsAppend(head, tail);
        if IsMathItalic(s[0]) {
          WithoutDollarsWrapped([s[0]]);
        } else {
          assert head[1..] == [];
        }
      }
      forall i | 0 <= i < |r| && IsMathItalic(r[i])
        ensures 0 < i < |r| - 1 && r[i - 1] == '$' && r[i + 1] == '$'
      {
        if i >= |head| {
          assert r[i] == tail[i - |head|];
        }
      }
      assert forall c :: c in r ==> c in s || c == '$';
    }
  }

  // ---------------------------------------------------------------------
  // Sub- and superscripts (line 112)

  /** The end of the run of `[A-Za-z0-9]` characters that starts at `i`. */
  function AlnumEnd(t: string, i: nat): (j: nat)
    requires i <= |t|
    ensures i <= j <= |t|
    ensures j < |t| ==> !IsAsciiAlnum(t[j])
    ensures forall k :: i <= k < j ==> IsAsciiAlnum(t[k])
    decreases |t| - i
  {
    if i == |t| || !IsAsciiAlnum(t[i]) then i else AlnumEnd(t, i + 1)
  }

  predicate IsScript(c: char) { c == '^' || c == '_' }

  /** The end of the match of `[A-Za-z0-9]+[\^_][A-Za-z0-9]+` that starts
      at `p`, or None.  Both runs are greedy; the first cannot give a
      character back to the operator, which is not alphanumeric. */
  function ScriptMatch(t: string, p: nat): (r: Option<nat>)
    requires p <= |t|
    ensures r.Some? ==> p + 3 <= r.value <= |t|
  {
    if p == |t| || !IsAsciiAlnum(t[p]) then None
    else
      var e := AlnumEnd(t, p);
      if e + 1 < |t| && IsScript(t[e]) && IsAsciiAlnum(t[e + 1]) then Some(AlnumEnd(t, e + 1))
      else None
  }

  /** Where the scan resumes after position `p`. */
  function ScriptNext(t: string, p: nat): (q: nat)
    requires p < |t|
    ensures p < q <= |t|
  {
    if ScriptMatch(t, p).Some? then ScriptMatch(t, p).value else p + 1
  }

  /** What the scan writes for position `p`. */
  function ScriptHead(t: string, p: nat): string
    requires p < |t|
  {
    if ScriptMatch(t, p).Some? then "$" + t[p..ScriptMatch(t, p).value] + "$" else [t[p]]
  }

  /** `re.sub(pattern, r"$\1$", t)`: the leftmost match is wrapped and the
      scan resumes at its end.  The pattern looks at nothing before the
      start of a match, so the rest is scanned as a text of its own. */
  function Scripts(t: string): string
    decreases |t|
  {
    if t == [] then [] else ScriptHead(t, 0) + Scripts(t[ScriptNext(t, 0)..])
  }

  /** Only dollar signs are added; every other character stays in place. */
  lemma {:induction false} ScriptsKeeps(t: string)
    ensures WithoutDollars(Scripts(t)) == WithoutDollars(t)
    ensures forall c :: c in Scripts(t) ==> c in t || c == '$'
    decreases |t|
  {
    if t != [] {
      var n := ScriptNext(t, 0);
      ScriptsKeeps(t[n..]);
      assert t == t[..n] + t[n..];
      WithoutDollarsAppend(t[..n], t[n..]);
      WithoutDollarsAppend(ScriptHead(t, 0), Scripts(t[n..]));
      if ScriptMatch(t, 0).Some? {
        WithoutDollarsWrapped(t[..n]);
        assert t[0..n] == t[..n];
      }
      assert forall c :: c in t[..n] ==> c in t;
      assert forall c :: c in t[n..] ==> c in t;
    }
  }

  /** A text with no `^` and no `_` is left as it is. */
  lemma {:induction false} NoScriptUnchanged(t: string)
    requires forall k :: 0 <= k < |t| ==> !IsScript(t[k])
    ensures Scripts(t) == t
    decreases |t|
  {
    if t != [] {
      assert ScriptMatch(t, 0).None?;
      NoScriptUnchanged(t[1..]);
      assert t == [t[0]] + t[1..];
    }
  }

  predicate AllAlnum(s: string) { forall k :: 0 <= k < |s| ==> IsAsciiAlnum(s[k]) }

  /** `a^2`, `m_0` and the like, standing alone, are wrapped whole. */
  lemma WrapsWord(a: string, op: char, b: string)
    requires a != [] && b != [] && AllAlnum(a) && AllAlnum(b) && IsScript(op)
    ensures Scripts(a + [op] + b) == "$" + a + [op] + b + "$"
  {
    var t := a + [op] + b;
    assert forall k :: 0 <= k < |a| ==> t[k] == a[k];
    assert forall k :: |a| < k < |t| ==> t[k] == b[k - |a| - 1];
    assert t[|a|] == op;
    assert AlnumEnd(t, 0) == |a|;
    assert AlnumEnd(t, |a| + 1) == |t|;
    assert ScriptMatch(t, 0) == Some(|t|);
    assert t[|t|..] == [];
    assert Scripts(t) == "$" + t[0..|t|] + "$" + Scripts(t[|t|..]);
    assert t[0..|t|] == t;
  }

  /** A character that is neither alphanumeric nor `^`/`_` splits the
      text: each side is wrapped as if it stood alone. */
  lemma Separated(x: string, c: char, y: string)
    requires !IsAsciiAlnum(c) && !IsScript(c)
    ensures Scripts(x + [c] + y) == Scripts(x) + [c] + Scripts(y)
  {
    var t := x + [c] + y;
    assert t[..|x|] == x && t[|x|] == c && t[|x| + 1..] == y;
    ScriptsBefore(t, |x|);
  }

  /** Up to a separator at `k`, the scan of `t` is the scan of `t[..k]`;
      the separator is copied and the rest is scanned on its own. */
  lemma {:induction false} ScriptsBefore(t: string, k: nat)
    requires k < |t| && !IsAsciiAlnum(t[k]) && !IsScript(t[k])
    ensures Scripts(t) == Scripts(t[..k]) + [t[k]] + Scripts(t[k + 1..])
    decreases k
  {
    if k == 0 {
      assert ScriptMatch(t, 0).None?;
      assert Scripts(t) == [t[0]] + Scripts(t[1..]);
      assert t[..0] == [];
      assert Scripts(t[..0]) + [t[0]] == [t[0]];
    } else {
      StepTake(t, k, 0);
      var n := ScriptNext(t, 0);
      var u := t[n..];
      assert u[k - n] == t[k];
      ScriptsBefore(u, k - n);
      ScriptsBeforeStep(t, k);
    }
  }

  lemma ScriptsBeforeStep(t: string, k: nat)
    requires 0 < k < |t| && !IsAsciiAlnum(t[k]) && !IsScript(t[k])
    requires ScriptNext(t, 0) == ScriptNext(t[..k], 0) && ScriptHead(t, 0) == ScriptHead(t[..k], 0)
    requires var n := ScriptNext(t, 0); var u := t[n..];
      n <= k && Scripts(u) == Scripts(u[..k - n]) + [u[k - n]] + Scripts(u[k - n + 1..])
    ensures Scripts(t) == Scripts(t[..k]) + [t[k]] + Scripts(t[k + 1..])
  {
    var n, w := ScriptNext(t, 0), ScriptHead(t, 0);
    var u, x := t[n..], t[..k];
    assert u[k - n] == t[k];
    assert u[..k - n] == x[n..];
    assert u[k - n + 1..] == t[k + 1..];
    var sx, st := Scripts(x[n..]), Scripts(t[k + 1..]);
    assert Scripts(u) == sx + [t[k]] + st;
    assert Scripts(t) == w + Scripts(u);
    assert Scripts(x) == w + sx;
    AppendAssoc(w, sx, [t[k]], st);
  }

  lemma AppendAssoc(a: string, b: string, c: string, d: string)
    ensures a + (b + c + d) == a + b + c + d
  {
  }

  /** A step before a separator at `k` is the same in `t` and in `t[..k]`. */
  lemma StepTake(t: string, k: nat, p: nat)
    requires p < k < |t| && !IsAsciiAlnum(t[k]) && !IsScript(t[k])
    ensures ScriptNext(t, p) == ScriptNext(t[..k], p) <= k
    ensures ScriptHead(t, p) == ScriptHead(t[..k], p)
  {
    var x := t[..k];
    assert x[p] == t[p];
    AlnumEndTake(t, k, p);
    var e := AlnumEnd(x, p);
    if e + 1 < k {
      assert x[e] == t[e] && x[e + 1] == t[e + 1];
      AlnumEndTake(t, k, e + 1);
    }
    if ScriptMatch(x, p).Some? {
      assert x[p..ScriptMatch(x, p).value] == t[p..ScriptMatch(x, p).value];
    }
  }

  lemma {:induction false} AlnumEndTake(t: string, k: nat, p: nat)
    requires p <= k < |t| && !IsAsciiAlnum(t[k])
    ensures AlnumEnd(t, p) == AlnumEnd(t[..k], p)
    decreases k - p
  {
    if p < k {
      assert t[..k][p] == t[p];
      AlnumEndTake(t, k, p + 1);
    }
  }

  // ---------------------------------------------------------------------
  // escape_latex_math (lines 84-114)

  /** What `escape_latex_math` returns. */
  function EscapeMath(text: string): string {
    if text == "" then "" else Scripts(Italics(Replaced(text, Entries)))
  }

  /** Lines 84-114: the table applied entry by entry, then the two
      substitutions. */
  method EscapeLatexMath(text: string) returns (r: string)
    ensures r == EscapeMath(text)
    ensures text == "" ==> r == ""
    ensures forall c :: c in r ==> !IsSymbol(c)
    ensures WithoutDollars(r) == WithoutDollars(Replaced(text, Entries))
  {
    if text == "" {
      return "";
    }
    r := text;
    ReplacedNone(text);
    for i := 0 to Entries
      invariant r == Replaced(text, i)
    {
      ReplacedStep(text, i);
      r := ReplaceChar(r, Key(i), Value(i));
    }
    var s := r;
    ItalicsShape(s);
    r := Italics(r);
    ScriptsKeeps(r);
    r := Scripts(r);
    NoSymbolLeft(text);
  }

  /** None of the table's symbols is left in the result. */
  lemma NoSymbolLeft(text: string)
    ensures forall c :: c in EscapeMath(text) ==> !IsSymbol(c)
  {
    if text != "" {
      var s := Replaced(text, Entries);
      ReplacedHasNoSymbol(text);
      var t := Italics(s);
      assert forall c :: c in t ==> c in s || c == '$' by {
        ItalicsShape(s);
      }
      OnlyDollarsAdded(s, t);
      assert forall c :: c in Scripts(t) ==> c in t || c == '$' by {
        ScriptsKeeps(t);
      }
      OnlyDollarsAdded(t, Scripts(t));
    }
  }

  /** Adding dollar signs adds no symbol. */
  lemma OnlyDollarsAdded(x: string, y: string)
    requires forall c :: c in x ==> !IsSymbol(c)
    requires forall c :: c in y ==> c in x || c == '$'
    ensures forall c :: c in y ==> !IsSymbol(c)
  {
    assert !IsSymbol('$');
  }

  /** A text with no symbol, no italic letter and no `^` or `_` is
      returned as it is. */
  lemma PlainTextUnchanged(text: string)
    requires forall k :: 0 <= k < |text| ==> !IsSymbol(text[k]) && !IsMathItalic(text[k]) && !IsScript(text[k])
    ensures EscapeMath(text) == text
  {
    ReplacedNoSymbols(text);
    ItalicsNone(text);
    NoScriptUnchanged(text);
  }

  lemma {:induction false} ItalicsNone(s: string)
    requires forall k :: 0 <= k < |s| ==> !IsMathItalic(s[k])
    ensures Italics(s) == s
    decreases |s|
  {
    if s != [] {
      ItalicsNone(s[1..]);
      assert s == [s[0]] + s[1..];
    }
  }

  // ---------------------------------------------------------------------
  // json_to_latex (lines 117-165): what each question contributes

  /** `escape_latex_math(v)` on a JSON value: a falsy value gives "", a
      string is escaped, and any other value has no `replace` and raises
      (None). */
  function EscapeValue(v: Value): (r: Option<string>)
    ensures !Truthy(v) ==> r == Some("")
    ensures Truthy(v) ==> (r.Some? <==> v.Str?)
  {
    if !Truthy(v) then Some("")
    else if v.Str? then Some(EscapeMath(v.s))
    else None
  }

  /** `escape_latex_math(item.get("options", {}).get(letter, ""))`; the
      second `get` raises unless the options are an object. */
  function OptionText(item: Item, letter: string): Option<string> {
    var opts := Get(item, "options", Dict(map[]));
    if !opts.Dict? then None else EscapeValue(Get(opts.fields, letter, Str("")))
  }

  /** The image file a question's block shows: None without a truthy
      `"image"`, or when `exists` says the path is absent; its base name
      otherwise.  `Path` of anything but a string raises (the outer None). */
  function ImageName(item: Item, pathExists: string -> bool): Option<Option<string>> {
    if "image" !in item || !Truthy(item["image"]) then Some(None)
    else if !item["image"].Str? then None
    else if pathExists(item["image"].s) then Some(Some(Naming.Basename(item["image"].s)))
    else Some(None)
  }

  /** The fields of one question's block: its number, its escaped texts,
      options A to D, and the image it shows. */
  datatype Block = Block(id: nat, question: string, a: string, b: string, c: string, d: string,
                         answer: string, explanation: string, image: Option<string>)

  /** The block of question `item`, numbered `id`, or None when building it
      raises. */
  function BlockOf(item: Item, id: nat, pathExists: string -> bool): (r: Option<Block>)
    ensures r.Some? ==> r.value.id == id
  {
    var image := ImageName(item, pathExists);
    var question := EscapeValue(Get(item, "question", Str("")));
    var a, b := OptionText(item, "A"), OptionText(item, "B");
    var c, d := OptionText(item, "C"), OptionText(item, "D");
    var answer := EscapeValue(Get(item, "answer", Str("")));
    var explanation := EscapeValue(Get(item, "explanation", Str("")));
    if image.None? || question.None? || a.None? || b.None? || c.None? || d.None?
       || answer.None? || explanation.None?
    then None
    else Some(Block(id, question.value, a.value, b.value, c.value, d.value,
                    answer.value, explanation.value, image.value))
  }

  /** The document `json_to_latex` fills in: its title and the blocks. */
  datatype Rendered = Rendered(title: string, blocks: seq<Block>)

  /** `title or "Questions"`. */
  function Title(title: string): string {
    if title == "" then "Questions" else title
  }

  /** Lines 117-165, without the template text and the file writes:
      `exists` tells which image paths exist.  None when a question makes
      the script raise. */
  method JsonToLatex(doc: Document, title: string, pathExists: string -> bool) returns (r: Option<Rendered>)
    ensures r.Some? <==> forall i :: 0 <= i < |Questions(doc)| ==> BlockOf(Questions(doc)[i], i + 1, pathExists).Some?
    ensures r.Some? ==> r.value.title == Title(title) && r.value.title != ""
    ensures r.Some? ==> |r.value.blocks| == |Questions(doc)|
    ensures r.Some? ==> forall i :: 0 <= i < |r.value.blocks| ==>
      Some(r.value.blocks[i]) == BlockOf(Questions(doc)[i], i + 1, pathExists) && r.value.blocks[i].id == i + 1
  {
    var questions := Questions(doc);
    var bodyParts: seq<Block> := [];
    for idx := 1 to |questions| + 1
      invariant |bodyParts| == idx - 1
      invariant forall j :: 0 <= j < idx - 1 ==> BlockOf(questions[j], j + 1, pathExists) == Some(bodyParts[j])
    {
      var block := BlockOf(questions[idx - 1], idx, pathExists);
      if block.None? {
        return None;
      }
      bodyParts := bodyParts + [block.value];
    }
    r := Some(Rendered(Title(title), bodyParts));
  }

  // ---------------------------------------------------------------------
  // Properties of the field selection

  /** Only options A to D are read: any other option key can be added or
      changed without changing the block. */
  lemma OtherOptionsIgnored(item: Item, fields: map<string, Value>, key: string, v: Value,
                            id: nat, pathExists: string -> bool)
    requires key !in ["A", "B", "C", "D"]
    ensures BlockOf(item["options" := Dict(fields[key := v])], id, pathExists)
         == BlockOf(item["options" := Dict(fields)], id, pathExists)
  {
  }

  /** A missing option is rendered as "". */
  lemma MissingOptionEmpty(item: Item, letter: string)
    requires "options" !in item || (item["options"].Dict? && letter !in item["options"].fields)
    ensures OptionText(item, letter) == Some("")
  {
  }

  /** A block shows an image exactly when `"image"` is a non-empty string
      naming an existing path, and then it shows that path's base name. */
  lemma ImageShown(item: Item, id: nat, pathExists: string -> bool)
    requires BlockOf(item, id, pathExists).Some?
    ensures var b := BlockOf(item, id, pathExists).value;
      && (b.image.Some? <==> "image" in item && item["image"].Str? && item["image"].s != ""
                             && pathExists(item["image"].s))
      && (b.image.Some? ==> b.image.value == Naming.Basename(item["image"].s))
  {
    var b := BlockOf(item, id, pathExists).value;
    assert ImageName(item, pathExists).Some? && b.image == ImageName(item, pathExists).value;
  }
}
