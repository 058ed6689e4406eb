/** python_20250825_MRKfRn.py: `generate_html`, which turns a list of
    questions into an HTML page, with its two tag-cleaning helpers. */
module HtmlViewer {
  import opened Wrappers
  import opened PyText
  import opened Json
  import ImgTags
  import Naming

  // ---------------------------------------------------------------------
  // clean_html (lines 154-159)

  /** The first '>' or line feed at or after `i`, or `|t|`: where `.*?>`
      started at `i` succeeds or fails, `.` not matching a line feed. */
  function TagStop(t: string, i: nat): (j: nat)
    requires i <= |t|
    ensures i <= j <= |t|
    ensures j < |t| ==> t[j] == '>' || t[j] == '\n'
    ensures forall k :: i <= k < j ==> t[k] != '>' && t[k] != '\n'
    decreases |t| - i
  {
    if i == |t| || t[i] == '>' || t[i] == '\n' then i else TagStop(t, i + 1)
  }

  /** The end of the match of `<.*?>` that starts at `p`, or None: the
      lazy `.*?` stops at the first '>', and fails at a line feed. */
  function TagAt(t: string, p: nat): (r: Option<nat>)
    requires p <= |t|
    ensures r.Some? ==> p + 2 <= r.value <= |t|
    ensures r.Some? ==> t[p] == '<' && t[r.value - 1] == '>'
    ensures r.Some? ==> forall k :: p < k < r.value - 1 ==> t[k] != '>' && t[k] != '\n'
  {
    if p == |t| || t[p] != '<' then None
    else
      var j := TagStop(t, p + 1);
      if j < |t| && t[j] == '>' then Some(j + 1) else None
  }

  /** `re.sub('<.*?>', '', t)` from position `p`. */
  function StripFrom(t: string, p: nat): string
    requires p <= |t|
    decreases |t| - p
  {
    if p == |t| then []
    else match TagAt(t, p)
      case None => [t[p]] + StripFrom(t, p + 1)
      case Some(e) => StripFrom(t, e)
  }

  /** `clean_html`: "" for a falsy text, the text without its tags
      otherwise. */
  function CleanHtml(text: string): string {
    if text == "" then "" else StripFrom(text, 0)
  }

  /** No `<…>` span without a line feed is left in `r`. */
  predicate NoTag(r: string) {
    forall q, j :: 0 <= q < j < |r| && r[q] == '<' && r[j] == '>' ==> '\n' in r[q + 1..j]
  }

  /** After a '<' that no '>' closes before the line feed at `j` (or the
      end), the text up to `j` is kept as it is. */
  lemma {:induction false} KeptUntilBreak(t: string, k: nat, j: nat)
    requires k <= j <= |t|
    requires j == |t| || t[j] == '\n'
    requires forall m :: k <= m < j ==> t[m] != '>' && t[m] != '\n'
    ensures StripFrom(t, k) == t[k..j] + StripFrom(t, j)
    decreases j - k
  {
    if k < j {
      assert TagStop(t, k + 1) == j by {
        if k + 1 < j {
          assert forall m :: k + 1 <= m < j ==> t[m] != '>' && t[m] != '\n';
        }
      }
      KeptUntilBreak(t, k + 1, j);
      assert t[k..j] == [t[k]] + t[k + 1..j];
    }
  }

  /** The scan of a text with no tag from `p` on keeps all of it. */
  lemma {:induction false} NoTagKept(t: string, p: nat)
    requires p <= |t| && NoTag(t)
    ensures StripFrom(t, p) == t[p..]
    decreases |t| - p
  {
    if p < |t| {
      match TagAt(t, p)
      case None =>
        NoTagKept(t, p + 1);
        assert t[p..] == [t[p]] + t[p + 1..];
      case Some(e) =>
        assert false;
    }
  }

  /** Prefixing a character that is not '<' keeps a text free of tags. */
  lemma ConsNoTag(c: char, r: string)
    requires c != '<' && NoTag(r)
    ensures NoTag([c] + r)
  {
    var s := [c] + r;
    forall q, j | 0 <= q < j < |s| && s[q] == '<' && s[j] == '>' ensures '\n' in s[q + 1..j] {
      assert s[q] == r[q - 1] && s[j] == r[j - 1];
      assert s[q + 1..j] == r[q..j - 1];
    }
  }

  /** The cleaned text holds no tag: the scan removes every `<…>` span
      that has no line feed, and one it keeps stays broken by its line
      feed. */
  lemma {:induction false} StripNoTag(t: string, p: nat)
    requires p <= |t|
    ensures NoTag(StripFrom(t, p))
    decreases |t| - p
  {
    if p < |t| {
      match TagAt(t, p)
      case Some(e) =>
        StripNoTag(t, e);
      case None =>
        StripNoTag(t, p + 1);
        var rest := StripFrom(t, p + 1);
        if t[p] != '<' {
          ConsNoTag(t[p], rest);
        } else {
          UnclosedKept(t, p);
        }
    }
  }

  /** A '<' the scan keeps is followed, in the result, by a line feed
      before any '>'. */
  lemma UnclosedKept(t: string, p: nat)
    requires p < |t| && t[p] == '<' && TagAt(t, p).None?
    requires NoTag(StripFrom(t, p + 1))
    ensures NoTag(StripFrom(t, p))
  {
    var rest := StripFrom(t, p + 1);
    var j := TagStop(t, p + 1);
    KeptUntilBreak(t, p + 1, j);
    var s := [t[p]] + rest;
    assert s[1..] == rest;
    assert |t[p + 1..j]| == j - p - 1;
    forall k | 1 <= k < j - p ensures s[k] != '>' {
      assert s[k] == t[p + k];
    }
    if j < |t| {
      assert StripFrom(t, j) == [t[j]] + StripFrom(t, j + 1);
      assert s[j - p] == t[j];
    }
    OpenBrokenByBreak(s, j - p);
  }

  /** A text that opens with '<', has no '>' before a line feed at `b` (or
      no '>' at all when `b` is its end), and no tag after its first
      character, has no tag. */
  lemma OpenBrokenByBreak(s: string, b: nat)
    requires 0 < b <= |s| && s[0] == '<'
    requires forall k :: 1 <= k < b ==> s[k] != '>'
    requires b < |s| ==> s[b] == '\n'
    requires NoTag(s[1..])
    ensures NoTag(s)
  {
    var rest := s[1..];
    forall q, k | 0 <= q < k < |s| && s[q] == '<' && s[k] == '>' ensures '\n' in s[q + 1..k] {
      if q > 0 {
        assert s[q] == rest[q - 1] && s[k] == rest[k - 1];
        TailSlice(s, q, k);
      } else {
        assert b <= k;
        assert s[1..k][b - 1] == '\n';
      }
    }
  }

  lemma TailSlice<T>(s: seq<T>, q: nat, k: nat)
    requires 0 < q < k <= |s|
    ensures s[q + 1..k] == s[1..][q..k - 1]
  {
    var a, b := s[q + 1..k], s[1..][q..k - 1];
    assert |a| == |b|;
    assert forall i :: 0 <= i < |a| ==> a[i] == s[q + 1 + i] == b[i];
  }

  /** Cleaning is idempotent; in particular a text with no '<' is returned
      as it is. */
  lemma CleanHtmlIdempotent(text: string)
    ensures NoTag(CleanHtml(text))
    ensures CleanHtml(CleanHtml(text)) == CleanHtml(text)
  {
    if text != "" {
      StripNoTag(text, 0);
      var r := StripFrom(text, 0);
      if r != "" {
        NoTagKept(r, 0);
      }
    }
  }

  lemma NoAngleUnchanged(text: string)
    requires '<' !in text
    ensures CleanHtml(text) == text
  {
    if text != "" {
      NoTagKept(text, 0);
    }
  }

  // ---------------------------------------------------------------------
  // clean_html_keep_images (lines 133-152)

  /** The end of the match of `<img[^>]+>` that starts at `p`, or None. */
  function ImgTagAt(t: string, p: nat): (r: Option<nat>)
    requires p <= |t|
    ensures r.Some? ==> p + 6 <= r.value <= |t|
  {
    if !OccursAt(t, ImgTags.TagOpen, p) then None
    else
      var j := Naming.FirstOf(t, p + 4, {'>'});
      if p + 4 < j < |t| then Some(j + 1) else None
  }

  /** `re.findall(r'<img[^>]+>', t)` from position `p`. */
  function ImgTagsFrom(t: string, p: nat): seq<string>
    requires p <= |t|
    decreases |t| - p
  {
    if p == |t| then []
    else match ImgTagAt(t, p)
      case None => ImgTagsFrom(t, p + 1)
      case Some(e) => [t[p..e]] + ImgTagsFrom(t, e)
  }

  /** Every tag found opens with `<img`, closes with its only '>'. */
  lemma {:induction false} ImgTagsShape(t: string, p: nat)
    requires p <= |t|
    ensures forall k :: 0 <= k < |ImgTagsFrom(t, p)| ==>
      var g := ImgTagsFrom(t, p)[k];
      |g| > 5 && g[..4] == "<img" && g[|g| - 1] == '>' && '>' !in g[..|g| - 1]
    decreases |t| - p
  {
    if p < |t| {
      match ImgTagAt(t, p)
      case None =>
        ImgTagsShape(t, p + 1);
      case Some(e) =>
        ImgTagsShape(t, e);
        var g := t[p..e];
        assert g[..4] == t[p..p + 4];
        assert forall m :: 0 <= m < |g| - 1 ==> g[m] == t[p + m];
    }
  }

  /** `f'<div class="formula">{img}</div>'`. */
  function FormulaDiv(img: string): string {
    "<div class=\"formula\">" + img + "</div>"
  }

  /** The text after the loop over `imgs`: `result.replace('', x, 1)`
      puts `x` in front of `result`. */
  function Prepended(imgs: seq<string>, s: string): string
    decreases |imgs|
  {
    if imgs == [] then s
    else
      var n := |imgs| - 1;
      FormulaDiv(imgs[n]) + Prepended(imgs[..n], s)
  }

  /** The image blocks in reverse order of appearance: the first image of
      the text comes last. */
  function ReversedDivs(imgs: seq<string>): string
    decreases |imgs|
  {
    if imgs == [] then [] else ReversedDivs(imgs[1..]) + FormulaDiv(imgs[0])
  }

  /** `clean_html_keep_images`. */
  function KeepImages(text: string): string {
    if text == "" then "" else Prepended(ImgTagsFrom(text, 0), CleanHtml(text))
  }

  lemma {:induction false} ReversedDivsLast(imgs: seq<string>)
    requires imgs != []
    ensures ReversedDivs(imgs) == FormulaDiv(imgs[|imgs| - 1]) + ReversedDivs(imgs[..|imgs| - 1])
    decreases |imgs|
  {
    if |imgs| > 1 {
      var t := imgs[1..];
      ReversedDivsLast(t);
      assert t[..|t| - 1] == imgs[..|imgs| - 1][1..];
      assert imgs[..|imgs| - 1][0] == imgs[0];
    } else {
      assert imgs[1..] == [] && imgs[..0] == [];
    }
  }

  /** The images end up in front of the cleaned text in reverse order. */
  lemma {:induction false} PrependedReversed(imgs: seq<string>, s: string)
    ensures Prepended(imgs, s) == ReversedDivs(imgs) + s
    decreases |imgs|
  {
    if imgs != [] {
      PrependedReversed(imgs[..|imgs| - 1], s);
      ReversedDivsLast(imgs);
    }
  }

  lemma PrependedStep(imgs: seq<string>, k: nat, s: string)
    requires k < |imgs|
    ensures Prepended(imgs[..k + 1], s) == FormulaDiv(imgs[k]) + Prepended(imgs[..k], s)
  {
    assert imgs[..k + 1][..k] == imgs[..k];
  }

  /** Lines 133-152. */
  method CleanHtmlKeepImages(text: string) returns (result: string)
    ensures result == KeepImages(text)
    ensures text != "" ==> result == ReversedDivs(ImgTagsFrom(text, 0)) + CleanHtml(text)
  {
    if text == "" {
      return "";
    }
    var images := ImgTagsFrom(text, 0);
    var cleanText := StripFrom(text, 0);
    result := cleanText;
    for k := 0 to |images|
      invariant result == Prepended(images[..k], cleanText)
    {
      PrependedStep(images, k, cleanText);
      result := FormulaDiv(images[k]) + result;
    }
    assert images[..|images|] == images;
    PrependedReversed(images, cleanText);
  }

  // ---------------------------------------------------------------------
  // Options (lines 174-178)

  const OptionSep := "、<p>"

  /** `f'<div class="option">{clean_opt}</div>'`. */
  function OptionDiv(s: string): string {
    "<div class=\"option\">" + s + "</div>"
  }

  /** `if opt.strip():` holds exactly for a segment that is not all
      spaces. */
  lemma StripBlank(opt: string)
    ensures Strip(opt) != "" <==> !AllSpace(opt)
  {
  }

  /** The option blocks of the segments: a blank segment gives none. */
  function OptionsHtml(segs: seq<string>): string
    decreases |segs|
  {
    if segs == [] then ""
    else
      var n := |segs| - 1;
      OptionsHtml(segs[..n]) + (if !AllSpace(segs[n]) then OptionDiv(CleanHtml(segs[n])) else "")
  }

  /** The segments that give a block, in order. */
  function Kept(segs: seq<string>): (r: seq<string>)
    ensures forall k :: 0 <= k < |r| ==> !AllSpace(r[k])
    decreases |segs|
  {
    if segs == [] then []
    else
      var n := |segs| - 1;
      Kept(segs[..n]) + (if !AllSpace(segs[n]) then [segs[n]] else [])
  }

  /** The blocks in a row, one per segment. */
  function Concat(divs: seq<string>): string
    decreases |divs|
  {
    if divs == [] then "" else Concat(divs[..|divs| - 1]) + divs[|divs| - 1]
  }

  lemma ConcatStep(divs: seq<string>, d: string)
    ensures Concat(divs + [d]) == Concat(divs) + d
  {
    assert (divs + [d])[..|divs|] == divs;
  }

  /** The option block of each segment, in order. */
  function OptionDivs(segs: seq<string>): (r: seq<string>)
    ensures |r| == |segs|
    decreases |segs|
  {
    if segs == [] then []
    else
      var n := |segs| - 1;
      OptionDivs(segs[..n]) + [OptionDiv(CleanHtml(segs[n]))]
  }

  lemma DropLast<T>(s: seq<T>, x: T)
    ensures (s + [x])[..|s|] == s
  {
  }

  /** The options become one block per non-blank segment, in order, each
      holding the cleaned segment. */
  lemma {:induction false} OptionsBlocks(segs: seq<string>)
    ensures OptionsHtml(segs) == Concat(OptionDivs(Kept(segs)))
    decreases |segs|
  {
    if segs != [] {
      var n := |segs| - 1;
      OptionsBlocks(segs[..n]);
      var ks0 := Kept(segs[..n]);
      if !AllSpace(segs[n]) {
        DropLast(ks0, segs[n]);
        ConcatStep(OptionDivs(ks0), OptionDiv(CleanHtml(segs[n])));
      } else {
        assert Kept(segs) == ks0 + [];
        assert ks0 + [] == ks0;
        assert OptionsHtml(segs[..n]) + "" == OptionsHtml(segs[..n]);
      }
    }
  }

  lemma OptionsStep(segs: seq<string>, k: nat)
    requires k < |segs|
    ensures OptionsHtml(segs[..k + 1])
      == OptionsHtml(segs[..k]) + (if !AllSpace(segs[k]) then OptionDiv(CleanHtml(segs[k])) else "")
  {
    assert segs[..k + 1][..k] == segs[..k];
  }

  /** The options loop over the segments of `item["选项"].split('、<p>')`. */
  method BuildOptions(segs: seq<string>) returns (optionsContent: string)
    ensures optionsContent == OptionsHtml(segs)
  {
    optionsContent := "";
    for k := 0 to |segs|
      invariant optionsContent == OptionsHtml(segs[..k])
    {
      OptionsStep(segs, k);
      var opt := segs[k];
      StripBlank(opt);
      if Strip(opt) != "" {
        var cleanOpt := CleanHtml(opt);
        optionsContent := optionsContent + OptionDiv(cleanOpt);
      }
    }
    assert segs[..|segs|] == segs;
  }

  // ---------------------------------------------------------------------
  // generate_html (lines 161-198)

  /** The four keys `setdefault` fills with "". */
  const Defaulted: seq<string> := ["答案", "解题思路", "选项", "题目"]

  function SetDefault(item: Item, key: string): Item {
    if key in item then item else item[key := Str("")]
  }

  /** The item after the four `setdefault` calls. */
  function WithDefaults(item: Item): (r: Item)
    ensures forall k :: k in Defaulted ==> k in r
  {
    SetDefault(SetDefault(SetDefault(SetDefault(item, "答案"), "解题思路"), "选项"), "题目")
  }

  /** `clean_html(v)` on a JSON value: "" when falsy; a non-string that is
      truthy makes `re.sub` raise (None). */
  function CleanValue(v: Value): Option<string> {
    if !Truthy(v) then Some("")
    else if v.Str? then Some(CleanHtml(v.s))
    else None
  }

  /** `clean_html_keep_images(v)` on a JSON value, likewise. */
  function KeepValue(v: Value): Option<string> {
    if !Truthy(v) then Some("")
    else if v.Str? then Some(KeepImages(v.s))
    else None
  }

  /** What one question block shows. */
  datatype Card = Card(number: nat, qType: string, paperType: string, difficulty: string,
                       year: string, tags: string, source: string, question: string,
                       options: string, solution: string, answer: string, divider: bool)

  /** `item.get(key, default)`, formatted with `str`. */
  function Field(item: Item, key: string, default: string, repr: Value -> string): string {
    Show(Get(item, key, Str(default)), repr)
  }

  /** The block of question `i` of `n`, given its item after the
      `setdefault` calls; None when building it raises (`split` on a
      non-string, a regex on a truthy non-string). */
  function CardOf(item: Item, i: nat, n: nat, repr: Value -> string): Option<Card>
    requires forall k :: k in Defaulted ==> k in item
  {
    var question := CleanValue(item["题目"]);
    var solution := KeepValue(item["解题思路"]);
    if question.None? || !item["选项"].Str? || solution.None? then None
    else
      Some(Card(i + 1,
                Field(item, "题目类型", "", repr),
                Field(item, "试卷类型", "", repr),
                Field(item, "难度", "", repr),
                Field(item, "年份", "未指定", repr),
                Field(item, "标签", "无", repr),
                Field(item, "来源极速pdf", "未指定", repr),
                question.value,
                OptionsHtml(Split(item["选项"].s, OptionSep)),
                solution.value,
                Show(item["答案"], repr),
                i < n - 1))
  }

  /** The loop body for the `i`-th of `n` questions, once the defaults
      have been filled in. */
  method RenderCard(item: Item, i: nat, n: nat, repr: Value -> string) returns (card: Option<Card>)
    requires forall k :: k in Defaulted ==> k in item
    ensures card == CardOf(item, i, n, repr)
  {
    var questionContent := CleanValue(item["题目"]);
    if questionContent.None? || !item["选项"].Str? {
      return None;
    }
    var options := Split(item["选项"].s, OptionSep);
    var optionsContent := BuildOptions(options);
    var raw := item["解题思路"];
    var solution: string;
    if !Truthy(raw) {
      solution := "";
    } else if raw.Str? {
      solution := CleanHtmlKeepImages(raw.s);
    } else {
      return None;
    }
    card := Some(Card(i + 1,
                      Field(item, "题目类型", "", repr),
                      Field(item, "试卷类型", "", repr),
                      Field(item, "难度", "", repr),
                      Field(item, "年份", "未指定", repr),
                      Field(item, "标签", "无", repr),
                      Field(item, "来源极速pdf", "未指定", repr),
                      questionContent.value, optionsContent, solution,
                      Show(item["答案"], repr),
                      i < n - 1));
  }

  /** Lines 161-198, without the page template: the blocks in order, and
      the list after `setdefault` has filled in its items (the caller's
      list is changed in place).  None when a question makes it raise. */
  method GenerateHtml(data: seq<Item>, repr: Value -> string)
    returns (cards: Option<seq<Card>>, data': seq<Item>)
    ensures |data'| == |data|
    ensures cards.Some? <==> forall i :: 0 <= i < |data| ==> CardOf(WithDefaults(data[i]), i, |data|, repr).Some?
    ensures cards.Some? ==> |cards.value| == |data|
    ensures cards.Some? ==> forall i :: 0 <= i < |data| ==>
      data'[i] == WithDefaults(data[i])
      && Some(cards.value[i]) == CardOf(data'[i], i, |data|, repr)
  {
    data' := data;
    var questionsHtml: seq<Card> := [];
    for i := 0 to |data|
      invariant |data'| == |data| && |questionsHtml| == i
      invariant forall j :: i <= j < |data| ==> data'[j] == data[j]
      invariant forall j :: 0 <= j < i ==>
        data'[j] == WithDefaults(data[j]) && Some(questionsHtml[j]) == CardOf(data'[j], j, |data|, repr)
    {
      var item := WithDefaults(data'[i]);
      data' := data'[i := item];
      var card := RenderCard(item, i, |data|, repr);
      if card.None? {
        return None, data';
      }
      questionsHtml := questionsHtml + [card.value];
    }
    cards := Some(questionsHtml);
  }

  // ---------------------------------------------------------------------
  // Properties of generate_html

  /** `setdefault` adds only the missing keys, with "", and keeps every
      existing entry. */
  lemma DefaultsKeep(item: Item)
    ensures forall k :: k in item ==> k in WithDefaults(item) && WithDefaults(item)[k] == item[k]
    ensures forall k :: k in WithDefaults(item) && k !in item ==> k in Defaulted && WithDefaults(item)[k] == Str("")
  {
  }

  /** The year falls back to 未指定 only when the key is absent: an empty
      year is shown empty. */
  lemma YearKeptWhenEmpty(item: Item, i: nat, n: nat, repr: Value -> string)
    requires forall k :: k in Defaulted ==> k in item
    requires CardOf(item, i, n, repr).Some?
    ensures "年份" in item && item["年份"] == Str("") ==> CardOf(item, i, n, repr).value.year == ""
    ensures "年份" !in item ==> CardOf(item, i, n, repr).value.year == "未指定"
  {
  }

  /** The source is read under the key `来源极速pdf`, so the key `来源` the
      data actually has never reaches the page. */
  lemma SourceKeyIgnored(item: Item, v: Value, i: nat, n: nat, repr: Value -> string)
    requires forall k :: k in Defaulted ==> k in item
    requires "来源极速pdf" !in item
    ensures CardOf(item["来源" := v], i, n, repr) == CardOf(item, i, n, repr)
    ensures CardOf(item, i, n, repr).Some? ==> CardOf(item, i, n, repr).value.source == "未指定"
  {
    assert forall k :: k in Defaulted ==> k != "来源";
  }

  /** Questions are numbered from 1, and a divider follows every block but
      the last. */
  lemma NumberingAndDividers(item: Item, i: nat, n: nat, repr: Value -> string)
    requires forall k :: k in Defaulted ==> k in item
    requires CardOf(item, i, n, repr).Some?
    ensures CardOf(item, i, n, repr).value.number == i + 1
    ensures CardOf(item, i, n, repr).value.divider <==> i + 1 < n
  {
  }
}
