/** `build_tex` of excel_to_pdf_fixed.py (lines 168-205): the question
    records are grouped by paper type, groups in order of first appearance
    and records in input order within a group, and each group is written
    as a LaTeX section of question subsections.  The file is modelled as
    the sequence of strings handed to `f.write`, in order. */
module TexBook {
  import opened PyText
  import opened Json
  import opened Order
  import Latex
  import opened Records

  /** `latex_escape` (lines 72-87). */
  function Tex(s: string): string {
    Latex.LineBreaks(Latex.EscapeAll(s))
  }

  // ---------------------------------------------------------------------
  // Grouping (lines 184-187)

  /** `q.get("paper_type") or "General"`. */
  function GroupKey(q: Record): Value {
    if Truthy(q.paperType) then q.paperType else Str("General")
  }

  /** The keys of the `defaultdict`, in insertion order. */
  function GroupKeys(qs: seq<Record>): seq<Value>
    decreases |qs|
  {
    if qs == [] then []
    else
      var pre := GroupKeys(qs[..|qs| - 1]);
      var k := GroupKey(qs[|qs| - 1]);
      if k in pre then pre else pre + [k]
  }

  /** The list stored under key `k`: the records with that key, in input
      order. */
  function Members(qs: seq<Record>, k: Value): seq<Record>
    decreases |qs|
  {
    if qs == [] then []
    else
      var pre := Members(qs[..|qs| - 1], k);
      if GroupKey(qs[|qs| - 1]) == k then pre + [qs[|qs| - 1]] else pre
  }

  lemma PrefixStep<T>(s: seq<T>, i: nat)
    requires i < |s|
    ensures s[..i + 1][..i] == s[..i] && s[..i + 1][i] == s[i]
  {
  }

  lemma AppendStep<T>(s: seq<T>, e: T)
    ensures (s + [e])[..|s|] == s && (s + [e])[|s|] == e
  {
  }

  /** Lines 184-187: the `defaultdict` as its key order and its map. */
  method GroupByPaperType(qs: seq<Record>) returns (keys: seq<Value>, groups: map<Value, seq<Record>>)
    ensures keys == GroupKeys(qs)
    ensures forall k :: k in groups <==> k in keys
    ensures forall k :: k in groups ==> groups[k] == Members(qs, k)
  {
    keys := [];
    groups := map[];
    for i := 0 to |qs|
      invariant keys == GroupKeys(qs[..i])
      invariant forall k :: k in groups <==> k in keys
      invariant forall k :: k in groups ==> groups[k] == Members(qs[..i], k)
    {
      PrefixStep(qs, i);
      var key := GroupKey(qs[i]);
      if key in groups {
        groups := groups[key := groups[key] + [qs[i]]];
      } else {
        MembersAbsent(qs[..i], key);
        groups := groups[key := [qs[i]]];
        keys := keys + [key];
      }
    }
    assert qs[..|qs|] == qs;
  }

  /** Every record's key is a key of the dictionary. */
  lemma {:induction false} KeysComplete(qs: seq<Record>)
    ensures forall j :: 0 <= j < |qs| ==> GroupKey(qs[j]) in GroupKeys(qs)
    decreases |qs|
  {
    if qs != [] {
      var pre := qs[..|qs| - 1];
      KeysComplete(pre);
      assert forall j :: 0 <= j < |pre| ==> qs[j] == pre[j];
    }
  }

  /** A key no record has holds an empty list. */
  lemma {:induction false} MembersAbsent(qs: seq<Record>, k: Value)
    requires k !in GroupKeys(qs)
    ensures Members(qs, k) == []
    decreases |qs|
  {
    if qs != [] {
      var pre := qs[..|qs| - 1];
      assert k !in GroupKeys(pre);
      MembersAbsent(pre, k);
    }
  }

  /** The dictionary holds each key once. */
  lemma {:induction false} KeysDistinct(qs: seq<Record>)
    ensures forall a, b :: 0 <= a < b < |GroupKeys(qs)| ==> GroupKeys(qs)[a] != GroupKeys(qs)[b]
    decreases |qs|
  {
    if qs != [] {
      KeysDistinct(qs[..|qs| - 1]);
    }
  }

  /** The first record with key `k`. */
  function FirstAt(qs: seq<Record>, k: Value): (r: nat)
    requires k in GroupKeys(qs)
    ensures r < |qs| && GroupKey(qs[r]) == k
    ensures forall j :: 0 <= j < r ==> GroupKey(qs[j]) != k
    decreases |qs|
  {
    var pre := qs[..|qs| - 1];
    if k in GroupKeys(pre) then
      var r := FirstAt(pre, k);
      assert forall j :: 0 <= j <= r ==> qs[j] == pre[j];
      r
    else
      KeysComplete(pre);
      assert forall j :: 0 <= j < |pre| ==> qs[j] == pre[j];
      |qs| - 1
  }

  /** Groups come in the order their first records appear. */
  lemma {:induction false} KeysInFirstAppearanceOrder(qs: seq<Record>, a: nat, b: nat)
    requires a < b < |GroupKeys(qs)|
    ensures FirstAt(qs, GroupKeys(qs)[a]) < FirstAt(qs, GroupKeys(qs)[b])
    decreases |qs|
  {
    var pre := qs[..|qs| - 1];
    var keys := GroupKeys(qs);
    assert keys[a] in GroupKeys(pre);
    if b < |GroupKeys(pre)| {
      KeysInFirstAppearanceOrder(pre, a, b);
    }
  }

  /** Within a group, records keep their input order: the group of `a + b`
      is the group of `a` followed by the group of `b`. */
  lemma {:induction false} MembersAppend(a: seq<Record>, b: seq<Record>, k: Value)
    ensures Members(a + b, k) == Members(a, k) + Members(b, k)
    decreases |b|
  {
    if b == [] {
      assert a + b == a;
    } else {
      var b' := b[..|b| - 1];
      MembersAppend(a, b', k);
      assert (a + b)[..|a + b| - 1] == a + b';
    }
  }

  /** Every record of a group has the group's key. */
  lemma {:induction false} MembersHaveKey(qs: seq<Record>, k: Value)
    ensures forall m :: m in Members(qs, k) ==> GroupKey(m) == k
    decreases |qs|
  {
    if qs != [] {
      MembersHaveKey(qs[..|qs| - 1], k);
    }
  }

  /** The total size of the groups listed in `keys`. */
  function GroupSizes(qs: seq<Record>, keys: seq<Value>): nat
    decreases |keys|
  {
    if keys == [] then 0
    else GroupSizes(qs, keys[..|keys| - 1]) + |Members(qs, keys[|keys| - 1])|
  }

  lemma MembersLast(pre: seq<Record>, e: Record, k: Value)
    ensures Members(pre + [e], k) == if GroupKey(e) == k then Members(pre, k) + [e] else Members(pre, k)
  {
    AppendStep(pre, e);
  }

  lemma {:induction false} SizesOther(pre: seq<Record>, e: Record, keys: seq<Value>)
    requires GroupKey(e) !in keys
    ensures GroupSizes(pre + [e], keys) == GroupSizes(pre, keys)
    decreases |keys|
  {
    if keys != [] {
      SizesOther(pre, e, keys[..|keys| - 1]);
      MembersLast(pre, e, keys[|keys| - 1]);
    }
  }

  lemma {:induction false} SizesBump(pre: seq<Record>, e: Record, keys: seq<Value>)
    requires GroupKey(e) in keys
    requires forall a, b :: 0 <= a < b < |keys| ==> keys[a] != keys[b]
    ensures GroupSizes(pre + [e], keys) == GroupSizes(pre, keys) + 1
    decreases |keys|
  {
    var init := keys[..|keys| - 1];
    var last := keys[|keys| - 1];
    MembersLast(pre, e, last);
    if GroupKey(e) == last {
      assert GroupKey(e) !in init;
      SizesOther(pre, e, init);
    } else {
      SizesBump(pre, e, init);
    }
  }

  /** The groups partition the records: every record is in the group of
      its key, and the group sizes add up to the number of records. */
  lemma {:induction false} EveryRecordOnce(qs: seq<Record>)
    ensures GroupSizes(qs, GroupKeys(qs)) == |qs|
    ensures forall j :: 0 <= j < |qs| ==> qs[j] in Members(qs, GroupKey(qs[j]))
    decreases |qs|
  {
    if qs != [] {
      var pre := qs[..|qs| - 1];
      var e := qs[|qs| - 1];
      assert qs == pre + [e];
      EveryRecordOnce(pre);
      var keys := GroupKeys(pre);
      if GroupKey(e) in keys {
        KeysDistinct(pre);
        SizesBump(pre, e, keys);
      } else {
        SizesOther(pre, e, keys);
        MembersLast(pre, e, GroupKey(e));
        MembersAbsent(pre, GroupKey(e));
        assert (keys + [GroupKey(e)])[..|keys|] == keys;
      }
      forall j | 0 <= j < |qs| ensures qs[j] in Members(qs, GroupKey(qs[j])) {
        MembersLast(pre, e, GroupKey(qs[j]));
        if j < |pre| {
          assert qs[j] == pre[j];
        }
      }
    }
  }

  // ---------------------------------------------------------------------
  // Emission (lines 170-205)

  /** The fixed text written before the groups. */
  const Preamble: string :=
    "\\documentclass[12pt]{article}\n" +
    "\\usepackage{xeCJK}\n" +
    "\\setCJKmainfont{SimSun} % 根据你系统替换字体\n" +
    "\\usepackage{graphicx}\n" +
    "\\usepackage{enumitem}\n" +
    "\\usepackage{geometry}\n" +
    "\\geometry{a4paper,margin=1in}\n" +
    "\\begin{document}\n"

  /** The three writes of one image; `rel` is `os.path.relpath` against
      the directory of the LaTeX file. */
  function ImageLines(path: string, rel: string -> string): seq<string> {
    ["\\begin{center}\n",
     "\\includegraphics[width=0.7\\linewidth]{" + ReplaceChar(rel(path), '\\', "/") + "}\n",
     "\\end{center}\n\n"]
  }

  /** Lines 192-197: the images of a record, in list order. */
  function AllImageLines(paths: seq<string>, rel: string -> string): seq<string>
    decreases |paths|
  {
    if paths == [] then []
    else AllImageLines(paths[..|paths| - 1], rel) + ImageLines(paths[|paths| - 1], rel)
  }

  /** The item of option `k`. */
  function ItemLine(opts: map<char, string>, k: char): string
    requires k in opts
  {
    "\\item " + Tex(opts[k]) + "\n"
  }

  /** The items of the keys `ks`, in that order. */
  function ItemLines(opts: map<char, string>, ks: seq<char>): (r: seq<string>)
    requires forall k :: k in ks ==> k in opts
    ensures |r| == |ks|
    decreases |ks|
  {
    if ks == [] then []
    else ItemLines(opts, ks[..|ks| - 1]) + [ItemLine(opts, ks[|ks| - 1])]
  }

  /** Lines 199-200: the items in sorted key order. */
  function OptionLines(opts: map<char, string>): seq<string> {
    ItemLines(opts, SortedChars(opts.Keys))
  }

  /** Lines 203-206: the answer and the explanation, each only in the
      answer book and only when it is not empty. */
  function AnswerLines(q: Record, includeAnswers: bool): seq<string> {
    (if includeAnswers && q.answer != "" then ["\\textbf{Answer:} " + Tex(q.answer) + "\n\n"] else [])
    + (if includeAnswers && q.explanation != "" then ["\\textit{Explanation:} " + Tex(q.explanation) + "\n\n"] else [])
  }

  /** Lines 189-207: the subsection of one record. */
  function RecordLines(q: Record, includeAnswers: bool, rel: string -> string): seq<string> {
    ["\\subsection*{" + Tex(q.id) + "}\n", Tex(q.question) + "\n\n"]
    + (if q.images != [] then AllImageLines(q.images, rel) else [])
    + (if q.options != map[] then
         ["\\begin{enumerate}[label=\\Alph*.]\n"] + OptionLines(q.options) + ["\\end{enumerate}\n\n"]
       else [])
    + AnswerLines(q, includeAnswers)
    + ["\n\\bigskip\n"]
  }

  /** The subsections of a group's records, in order. */
  function GroupLines(qlist: seq<Record>, includeAnswers: bool, rel: string -> string): seq<string>
    decreases |qlist|
  {
    if qlist == [] then []
    else GroupLines(qlist[..|qlist| - 1], includeAnswers, rel) + RecordLines(qlist[|qlist| - 1], includeAnswers, rel)
  }

  /** The section of group `k`. */
  function SectionLines(qs: seq<Record>, k: Value, includeAnswers: bool, rel: string -> string,
                        repr: Value -> string): seq<string> {
    ["\\section*{" + Tex(Show(k, repr)) + "}\n"] + GroupLines(Members(qs, k), includeAnswers, rel)
  }

  /** The sections of the groups `keys`, in order. */
  function Sections(qs: seq<Record>, keys: seq<Value>, includeAnswers: bool, rel: string -> string,
                    repr: Value -> string): seq<string>
    decreases |keys|
  {
    if keys == [] then []
    else
      Sections(qs, keys[..|keys| - 1], includeAnswers, rel, repr)
      + SectionLines(qs, keys[|keys| - 1], includeAnswers, rel, repr)
  }

  /** Everything `build_tex` writes. */
  function TexLines(qs: seq<Record>, includeAnswers: bool, rel: string -> string,
                    repr: Value -> string): seq<string> {
    [Preamble, "\n"] + Sections(qs, GroupKeys(qs), includeAnswers, rel, repr) + ["\\end{document}"]
  }

  method WriteImages(paths: seq<string>, rel: string -> string) returns (out: seq<string>)
    ensures out == AllImageLines(paths, rel)
  {
    out := [];
    for i := 0 to |paths|
      invariant out == AllImageLines(paths[..i], rel)
    {
      PrefixStep(paths, i);
      out := out + ["\\begin{center}\n"];
      out := out + ["\\includegraphics[width=0.7\\linewidth]{" + ReplaceChar(rel(paths[i]), '\\', "/") + "}\n"];
      out := out + ["\\end{center}\n\n"];
    }
    assert paths[..|paths|] == paths;
  }

  method WriteOptions(opts: map<char, string>) returns (out: seq<string>)
    ensures out == OptionLines(opts)
  {
    var ks := SortedChars(opts.Keys);
    out := [];
    for i := 0 to |ks|
      invariant out == ItemLines(opts, ks[..i])
    {
      PrefixStep(ks, i);
      var text := Latex.LatexEscape(opts[ks[i]]);
      out := out + ["\\item " + text + "\n"];
    }
    assert ks[..|ks|] == ks;
  }

  method WriteRecord(q: Record, includeAnswers: bool, rel: string -> string) returns (out: seq<string>)
    ensures out == RecordLines(q, includeAnswers, rel)
  {
    var id := Latex.LatexEscape(q.id);
    var question := Latex.LatexEscape(q.question);
    out := ["\\subsection*{" + id + "}\n", question + "\n\n"];
    var images: seq<string> := [];
    if q.images != [] {
      images := WriteImages(q.images, rel);
    }
    var options: seq<string> := [];
    if q.options != map[] {
      var items := WriteOptions(q.options);
      options := ["\\begin{enumerate}[label=\\Alph*.]\n"] + items + ["\\end{enumerate}\n\n"];
    }
    var answer: seq<string> := [];
    if includeAnswers && q.answer != "" {
      var text := Latex.LatexEscape(q.answer);
      answer := ["\\textbf{Answer:} " + text + "\n\n"];
    }
    var explanation: seq<string> := [];
    if includeAnswers && q.explanation != "" {
      var text := Latex.LatexEscape(q.explanation);
      explanation := ["\\textit{Explanation:} " + text + "\n\n"];
    }
    out := out + images + options + (answer + explanation) + ["\n\\bigskip\n"];
  }

  method WriteGroup(qlist: seq<Record>, includeAnswers: bool, rel: string -> string) returns (out: seq<string>)
    ensures out == GroupLines(qlist, includeAnswers, rel)
  {
    out := [];
    for i := 0 to |qlist|
      invariant out == GroupLines(qlist[..i], includeAnswers, rel)
    {
      PrefixStep(qlist, i);
      var lines := WriteRecord(qlist[i], includeAnswers, rel);
      out := out + lines;
    }
    assert qlist[..|qlist|] == qlist;
  }

  /** Lines 168-207: everything written to the LaTeX file. */
  method BuildTex(qs: seq<Record>, includeAnswers: bool, rel: string -> string, repr: Value -> string)
    returns (out: seq<string>)
    ensures out == TexLines(qs, includeAnswers, rel, repr)
  {
    var keys, groups := GroupByPaperType(qs);
    var body: seq<string> := [];
    for g := 0 to |keys|
      invariant body == Sections(qs, keys[..g], includeAnswers, rel, repr)
    {
      PrefixStep(keys, g);
      var title := Latex.LatexEscape(Show(keys[g], repr));
      var lines := WriteGroup(groups[keys[g]], includeAnswers, rel);
      body := body + (["\\section*{" + title + "}\n"] + lines);
    }
    assert keys[..|keys|] == keys;
    out := [Preamble, "\n"] + body + ["\\end{document}"];
  }

  // ---------------------------------------------------------------------
  // Properties of the output

  /** The options are written one item per key, in strictly increasing
      key order. */
  lemma OptionsInSortedOrder(opts: map<char, string>)
    ensures var ks := SortedChars(opts.Keys);
      && |OptionLines(opts)| == |opts|
      && CharsIncreasing(ks)
      && (forall k :: k in ks <==> k in opts)
      && forall i :: 0 <= i < |ks| ==> OptionLines(opts)[i] == ItemLine(opts, ks[i])
  {
    var ks := SortedChars(opts.Keys);
    assert ks[..|ks|] == ks;
    forall i | 0 <= i < |ks| ensures OptionLines(opts)[i] == ItemLine(opts, ks[i]) {
      ItemLinesAt(opts, ks, |ks|, i);
    }
  }

  lemma {:induction false} ItemLinesAt(opts: map<char, string>, ks: seq<char>, n: nat, i: nat)
    requires forall k :: k in ks ==> k in opts
    requires i < n <= |ks|
    ensures ItemLines(opts, ks[..n])[i] == ItemLine(opts, ks[i])
    decreases n
  {
    assert ks[..n][..n - 1] == ks[..n - 1];
    if i < n - 1 {
      ItemLinesAt(opts, ks, n - 1, i);
    } else {
      assert ks[..n][n - 1] == ks[i];
    }
  }

  /** The record with its answer and explanation blanked. */
  function Unanswered(q: Record): Record {
    q.(answer := "", explanation := "")
  }

  /** Nothing of the answer or the explanation reaches the practice book:
      its subsection is the answer book's subsection of the same record
      with both blanked. */
  lemma PracticeHidesAnswers(q: Record, rel: string -> string)
    ensures RecordLines(q, false, rel) == RecordLines(Unanswered(q), true, rel)
    ensures AnswerLines(q, false) == []
  {
  }

  /** In the answer book the answer is written exactly when it is not
      empty, and likewise the explanation. */
  lemma AnswersShownWhenPresent(q: Record)
    ensures |AnswerLines(q, true)| == (if q.answer != "" then 1 else 0) + (if q.explanation != "" then 1 else 0)
    ensures q.answer != "" ==> AnswerLines(q, true)[0] == "\\textbf{Answer:} " + Tex(q.answer) + "\n\n"
  {
  }

  /** Every record with its answer and explanation blanked. */
  function AllUnanswered(qs: seq<Record>): (r: seq<Record>)
    ensures |r| == |qs|
    decreases |qs|
  {
    if qs == [] then [] else AllUnanswered(qs[..|qs| - 1]) + [Unanswered(qs[|qs| - 1])]
  }

  lemma {:induction false} UnansweredGrouping(qs: seq<Record>, k: Value)
    ensures GroupKeys(AllUnanswered(qs)) == GroupKeys(qs)
    ensures Members(AllUnanswered(qs), k) == AllUnanswered(Members(qs, k))
    decreases |qs|
  {
    if qs != [] {
      var pre := qs[..|qs| - 1];
      UnansweredGrouping(pre, k);
      var u := AllUnanswered(qs);
      assert u[..|u| - 1] == AllUnanswered(pre);
      var m := Members(pre, k);
      assert (m + [qs[|qs| - 1]])[..|m|] == m;
    }
  }

  lemma {:induction false} UnansweredGroupLines(qlist: seq<Record>, rel: string -> string)
    ensures GroupLines(AllUnanswered(qlist), true, rel) == GroupLines(qlist, false, rel)
    decreases |qlist|
  {
    if qlist != [] {
      var u := AllUnanswered(qlist);
      assert u[..|u| - 1] == AllUnanswered(qlist[..|qlist| - 1]);
      UnansweredGroupLines(qlist[..|qlist| - 1], rel);
      PracticeHidesAnswers(qlist[|qlist| - 1], rel);
    }
  }

  lemma {:induction false} UnansweredSections(qs: seq<Record>, keys: seq<Value>, rel: string -> string,
                                              repr: Value -> string)
    ensures Sections(AllUnanswered(qs), keys, true, rel, repr) == Sections(qs, keys, false, rel, repr)
    decreases |keys|
  {
    if keys != [] {
      var k := keys[|keys| - 1];
      UnansweredSections(qs, keys[..|keys| - 1], rel, repr);
      UnansweredGrouping(qs, k);
      UnansweredGroupLines(Members(qs, k), rel);
    }
  }

  /** The practice book is the answer book of the same questions with
      every answer and explanation blanked. */
  lemma PracticeBookIsBlankedAnswerBook(qs: seq<Record>, rel: string -> string, repr: Value -> string)
    ensures TexLines(qs, false, rel, repr) == TexLines(AllUnanswered(qs), true, rel, repr)
  {
    UnansweredGrouping(qs, Str(""));
    UnansweredSections(qs, GroupKeys(qs), rel, repr);
  }
}
