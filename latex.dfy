/** `latex_escape` of excel_to_pdf_fixed.py: ten one-character replacements
    applied in the dictionary's order, then the line-break rewriting. */
module Latex {
  import opened PyText

  /** The replacement table, entry by entry in the dictionary's insertion
      order: `Key(i)` is replaced by `Value(i)`. */
  const Entries := 10

  function Key(i: nat): char
    requires i < Entries
  {
    match i
    case 0 => '\\'
    case 1 => '&'
    case 2 => '%'
    case 3 => '$'
    case 4 => '#'
    case 5 => '_'
    case 6 => '{'
    case 7 => '}'
    case 8 => '~'
    case _ => '^'
  }

  function Value(i: nat): string
    requires i < Entries
  {
    match i
    case 0 => "\\textbackslash" + "{" + "}"
    case 1 => "\\&"
    case 2 => "\\%"
    case 3 => "\\$"
    case 4 => "\\#"
    case 5 => "\\_"
    case 6 => "\\{"
    case 7 => "\\}"
    case 8 => "\\textasciitilde{}"
    case _ => "\\^{}"
  }

  /** The entry that names `c`, or `Entries` when none does. */
  function KeyIndex(c: char): (i: nat)
    ensures i <= Entries
    ensures i < Entries ==> Key(i) == c
  {
    match c
    case '\\' => 0
    case '&' => 1
    case '%' => 2
    case '$' => 3
    case '#' => 4
    case '_' => 5
    case '{' => 6
    case '}' => 7
    case '~' => 8
    case '^' => 9
    case _ => Entries
  }

  /** The keys are distinct: each names its own entry. */
  lemma KeyIndexOfKey(i: nat)
    requires i < Entries
    ensures KeyIndex(Key(i)) == i
  {
  }

  /** `for k, v in replacements.items(): s = s.replace(k, v)`, from entry
      `i` on. */
  function ApplyFrom(s: string, i: nat): string
    requires i <= Entries
    decreases Entries - i
  {
    if i == Entries then s
    else ApplyFrom(ReplaceChar(s, Key(i), Value(i)), i + 1)
  }

  lemma ReplaceCharSingle(c: char, k: char, v: string)
    ensures ReplaceChar([c], k, v) == if c == k then v else [c]
  {
    assert [c][1..] == [];
  }

  /** Every step replaces characters one by one, so the table acts on a
      concatenation part by part. */
  lemma {:induction false} ApplyFromAppend(a: string, b: string, i: nat)
    requires i <= Entries
    ensures ApplyFrom(a + b, i) == ApplyFrom(a, i) + ApplyFrom(b, i)
    decreases Entries - i
  {
    if i < Entries {
      var k, v := Key(i), Value(i);
      var a', b' := ReplaceChar(a, k, v), ReplaceChar(b, k, v);
      assert ApplyFrom(a + b, i) == ApplyFrom(ReplaceChar(a + b, k, v), i + 1);
      ReplaceCharAppend(a, b, k, v);
      ApplyFromAppend(a', b', i + 1);
      assert ApplyFrom(a, i) == ApplyFrom(a', i + 1);
      assert ApplyFrom(b, i) == ApplyFrom(b', i + 1);
    }
  }

  /** A text that holds no key of entry `i` or later passes unchanged. */
  lemma {:induction false} ApplyFromNoKeys(s: string, i: nat)
    requires i <= Entries
    requires forall c :: c in s ==> KeyIndex(c) < i || KeyIndex(c) == Entries
    ensures ApplyFrom(s, i) == s
    decreases Entries - i
  {
    if i < Entries {
      KeyIndexOfKey(i);
      assert Key(i) !in s;
      ReplaceCharAbsent(s, Key(i), Value(i));
      ApplyFromNoKeys(s, i + 1);
    }
  }

  /** One character, from entry `i` on: it is left alone until the entry
      that names it, and then becomes that entry's value, which the later
      entries go on rewriting. */
  lemma {:induction false} ApplyFromChar(c: char, i: nat)
    requires i <= KeyIndex(c)
    ensures ApplyFrom([c], i) ==
      if KeyIndex(c) == Entries then [c] else ApplyFrom(Value(KeyIndex(c)), KeyIndex(c) + 1)
    decreases Entries - i
  {
    if i < Entries {
      ReplaceCharSingle(c, Key(i), Value(i));
      if c != Key(i) {
        ApplyFromChar(c, i + 1);
      }
    }
  }

  /** What one character becomes after the whole table: the backslash's
      value is itself rewritten by the brace entries. */
  function EscapeChar(c: char): string {
    match c
    case '\\' => "\\textbackslash" + "\\{" + "\\}"
    case '&' => "\\&"
    case '%' => "\\%"
    case '$' => "\\$"
    case '#' => "\\#"
    case '_' => "\\_"
    case '{' => "\\{"
    case '}' => "\\}"
    case '~' => "\\textasciitilde{}"
    case '^' => "\\^{}"
    case _ => [c]
  }

  /** The table escapes each character independently. */
  function EscapeAll(s: string): string
    decreases |s|
  {
    if s == [] then [] else EscapeChar(s[0]) + EscapeAll(s[1..])
  }

  /** The word of the backslash's value holds no key after the backslash
      entry, so every later entry leaves it alone. */
  lemma WordUntouched(w: string, i: nat)
    requires w == "\\textbackslash" && 1 <= i <= Entries
    ensures ApplyFrom(w, i) == w
  {
    ApplyFromNoKeys(w, i);
  }

  /** A brace is escaped by its own entry when the table still has it
      ahead, and left alone once that entry is past. */
  lemma BraceEscaped(b: char, i: nat)
    requires (b == '{' || b == '}') && i <= Entries
    ensures i <= KeyIndex(b) ==> ApplyFrom([b], i) == ['\\', b]
    ensures KeyIndex(b) < i ==> ApplyFrom([b], i) == [b]
  {
    var k := KeyIndex(b);
    if i <= k {
      ApplyFromChar(b, i);
      assert Value(k) == ['\\', b];
      ApplyFromNoKeys(Value(k), k + 1);
    } else {
      ApplyFromNoKeys([b], i);
    }
  }

  /** The backslash's value has its braces escaped by the later entries.
      (Stated for a variable `k`, the backslash's entry, so that the solver
      does not evaluate the whole table on the literal value.) */
  lemma BackslashValue(k: nat)
    requires k == 0
    ensures ApplyFrom(Value(k), k + 1) == "\\textbackslash" + "\\{" + "\\}"
  {
    var w := "\\textbackslash";
    calc {
      ApplyFrom(Value(k), k + 1);
      ApplyFrom(w + "{" + "}", k + 1);
      { ApplyFromAppend(w + "{", "}", k + 1); }
      ApplyFrom(w + "{", k + 1) + ApplyFrom("}", k + 1);
      { ApplyFromAppend(w, "{", k + 1); }
      ApplyFrom(w, k + 1) + ApplyFrom("{", k + 1) + ApplyFrom("}", k + 1);
      { WordUntouched(w, k + 1); }
      w + ApplyFrom("{", k + 1) + ApplyFrom("}", k + 1);
      { BraceEscaped('{', k + 1); }
      w + "\\{" + ApplyFrom("}", k + 1);
      { BraceEscaped('}', k + 1); }
      w + "\\{" + "\\}";
    }
  }

  lemma EscapeCharIsTable(c: char)
    ensures ApplyFrom([c], 0) == EscapeChar(c)
  {
    ApplyFromChar(c, 0);
    var k := KeyIndex(c);
    if k == 0 {
      BackslashValue(k);
    } else if k < Entries {
      LaterEntriesKeep(k);
      EscapeCharOfKey(k);
    }
  }

  /** Apart from the backslash's, no entry's value holds a later key. */
  lemma LaterEntriesKeep(k: nat)
    requires 0 < k < Entries
    ensures ApplyFrom(Value(k), k + 1) == Value(k)
  {
    ApplyFromNoKeys(Value(k), k + 1);
  }

  lemma EscapeCharOfKey(k: nat)
    requires 0 < k < Entries
    ensures EscapeChar(Key(k)) == Value(k)
  {
  }

  lemma {:induction false} TableIsPerChar(s: string)
    ensures ApplyFrom(s, 0) == EscapeAll(s)
    decreases |s|
  {
    if s == [] {
      ApplyFromNoKeys(s, 0);
    } else {
      assert s == [s[0]] + s[1..];
      ApplyFromAppend([s[0]], s[1..], 0);
      TableIsPerChar(s[1..]);
      EscapeCharIsTable(s[0]);
    }
  }

  // ---------------------------------------------------------------------
  // Decoding the escapes back

  /** `r` without its first `n` characters (empty when it is shorter). */
  function Drop(r: string, n: nat): string {
    if n <= |r| then r[n..] else []
  }

  /** Reads the escapes back, token by token: the character after a
      backslash tells which escape it starts (`t` for the two words, which
      differ in their sixth character). */
  function Unescape(r: string): string
    decreases |r|
  {
    if r == [] then []
    else if r[0] != '\\' || |r| < 2 then [r[0]] + Unescape(r[1..])
    else if r[1] == '^' then ['^'] + Unescape(Drop(r, 4))
    else if r[1] == 't' then
      if |r| > 5 && r[5] == 'b' then ['\\'] + Unescape(Drop(r, 18))
      else ['~'] + Unescape(Drop(r, 17))
    else [r[1]] + Unescape(r[2..])
  }

  lemma UnescapeChar(c: char, rest: string)
    ensures Unescape(EscapeChar(c) + rest) == [c] + Unescape(rest)
  {
    var e := EscapeChar(c);
    var r := e + rest;
    assert r[..|e|] == e && r[|e|..] == rest;
    assert Drop(r, |e|) == rest;
    if c == '\\' {
      assert |e| == 18 && r[0] == '\\' && r[1] == 't' && r[5] == 'b';
    } else if c == '~' {
      assert |e| == 17 && r[0] == '\\' && r[1] == 't' && r[5] == 'a';
    } else if c == '^' {
      assert |e| == 4 && r[0] == '\\' && r[1] == '^';
    } else if c in {'&', '%', '$', '#', '_', '{', '}'} {
      assert |e| == 2 && r[0] == '\\' && r[1] == c;
    } else {
      assert e == [c] && r[0] == c;
    }
  }

  /** No information is lost: the escaped text determines the original. */
  lemma {:induction false} UnescapeEscapeAll(s: string)
    ensures Unescape(EscapeAll(s)) == s
    decreases |s|
  {
    if s != [] {
      UnescapeChar(s[0], EscapeAll(s[1..]));
      UnescapeEscapeAll(s[1..]);
      assert s == [s[0]] + s[1..];
    }
  }

  // ---------------------------------------------------------------------
  // Line breaks

  /** The four line-break rewrites, in order. */
  function LineBreaks(s: string): string {
    var a := ReplaceAll(s, "\r\n", "\n");
    var b := ReplaceAll(a, "\r", "\n");
    var c := ReplaceAll(b, "\n\n", "\n\\medskip\n");
    ReplaceAll(c, "\n", "\\\\\n")
  }

  /** Every line break is preceded by LaTeX's `\\`. */
  predicate BreaksEscaped(r: string) {
    forall i :: 0 <= i < |r| && r[i] == '\n' ==> 2 <= i && r[i - 2] == '\\' && r[i - 1] == '\\'
  }

  lemma {:induction false} ReplaceNewlineEscapes(s: string)
    ensures BreaksEscaped(ReplaceChar(s, '\n', "\\\\\n"))
    decreases |s|
  {
    if s != [] {
      ReplaceNewlineEscapes(s[1..]);
      var head := if s[0] == '\n' then "\\\\\n" else [s[0]];
      var tail := ReplaceChar(s[1..], '\n', "\\\\\n");
      var r := head + tail;
      forall i | 0 <= i < |r| && r[i] == '\n'
        ensures 2 <= i && r[i - 2] == '\\' && r[i - 1] == '\\'
      {
        if i >= |head| {
          assert tail[i - |head|] == '\n';
        }
      }
    }
  }

  /** What `latex_escape` makes of its text: no carriage return is left,
      and every line break ends a LaTeX line with `\\`. */
  lemma LineBreaksShape(s: string)
    ensures '\r' !in LineBreaks(s)
    ensures BreaksEscaped(LineBreaks(s))
  {
    var a := ReplaceAll(s, "\r\n", "\n");
    ReplaceAllOneChar(a, '\r', "\n");
    ReplaceCharRemoves(a, '\r', "\n");
    var b := ReplaceAll(a, "\r", "\n");
    var c := ReplaceAll(b, "\n\n", "\n\\medskip\n");
    ReplaceAllChars(b, "\n\n", "\n\\medskip\n", '\r');
    ReplaceAllOneChar(c, '\n', "\\\\\n");
    ReplaceAllChars(c, "\n", "\\\\\n", '\r');
    ReplaceNewlineEscapes(c);
  }

  /** Lines 72-87. */
  method LatexEscape(s: string) returns (r: string)
    ensures s == "" ==> r == ""
    ensures r == LineBreaks(EscapeAll(s))
    ensures '\r' !in r && BreaksEscaped(r)
  {
    if s == "" {
      return "";
    }
    r := s;
    var i := 0;
    while i < Entries
      invariant 0 <= i <= Entries
      invariant ApplyFrom(r, i) == ApplyFrom(s, 0)
    {
      r := ReplaceChar(r, Key(i), Value(i));
      i := i + 1;
    }
    TableIsPerChar(s);
    r := ReplaceAll(r, "\r\n", "\n");
    r := ReplaceAll(r, "\r", "\n");
    r := ReplaceAll(r, "\n\n", "\n\\medskip\n");
    r := ReplaceAll(r, "\n", "\\\\\n");
    LineBreaksShape(EscapeAll(s));
  }
}
