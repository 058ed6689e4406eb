/** The row loop of excel_to_pdf_fixed.py (lines 106-160): each spreadsheet
    row becomes a question record with a numbered id, the cleaned question
    text, the parsed option map, the stripped answer, the cleaned
    explanation and the local paths of the question's and options' images,
    downloaded in that order into the image directory. */
module Records {
  import opened Wrappers
  import opened PyText
  import opened Json
  import opened HtmlToText
  import OptionParser
  import Naming

  /** A spreadsheet row, by column name.  `Null` stands for an empty cell
      (pandas' NaN). */
  type Row = map<string, Value>

  // ---------------------------------------------------------------------
  // Cells

  /** What `clean_html_to_text` is handed for a cell: None when the parser
      library raises (a cell that is neither text nor empty), Some(None) for
      an empty cell (`pd.isna`), and Some(Some(nodes)) for text, parsed by
      `parse`. */
  function CellNodes(v: Value, parse: string -> seq<Node>): (r: Option<Option<seq<Node>>>)
    ensures r.Some? <==> v.Null? || v.Str?
    ensures v.Str? ==> r == Some(Some(parse(v.s)))
  {
    match v
    case Null => Some(None)
    case Str(s) => Some(Some(parse(s)))
    case _ => None
  }

  /** The document with every `<img>` replaced by its placeholder. */
  function Pieces(nodes: seq<Node>): (r: seq<string>)
    ensures |r| == |nodes|
  {
    seq(|nodes|, i requires 0 <= i < |nodes| => Piece(nodes, i))
  }

  /** `clean_html_to_text`: the text and the image sources. */
  function Cleaned(html: Option<seq<Node>>): (string, seq<string>) {
    match html
    case None => ("", [])
    case Some(nodes) => (GetText(Pieces(nodes)), Sources(nodes))
  }

  /** `str(cell)`: an empty cell prints as `nan`. */
  function CellText(v: Value, repr: Value -> string): string {
    if v.Null? then "nan" else Show(v, repr)
  }

  /** Line 108: the `题目` column when the row has one, else `question`. */
  function QuestionCell(row: Row): Value {
    if "题目" in row then row["题目"] else Get(row, "question", Str(""))
  }

  /** Lines 119-137: the option map of a cleaned option field. */
  function OptionMap(t: string): map<char, string> {
    if t == "" then map[]
    else if OptionParser.BlockMatches(t) != [] then OptionParser.Assigned(OptionParser.BlockMatches(t))
    else OptionParser.Fallback(OptionParser.Lines(t))
  }

  // ---------------------------------------------------------------------
  // Downloads

  /** What the outside world answers to `download_img`: whether a data
      URI's payload decodes, the HTTP outcome of the n-th call for a
      source, the percent-decoding of `unquote`, and the path
      `os.path.join(IMG_DIR, name)`. */
  datatype World = World(decodes: string -> bool, fetch: (nat, string) -> Naming.Fetch,
                         unquote: string -> string, pathOf: string -> string)

  /** The image directory's entries and the number of `download_img` calls
      made so far. */
  datatype Store = Store(dir: set<string>, calls: nat)

  /** One `download_img(src, IMG_DIR)`: the directory gains the file the
      call creates (an undecodable data URI leaves its file behind, empty),
      and the call returns the path of the file it saved, or None. */
  function Download(st: Store, src: string, w: World): (Store, Option<string>) {
    var fetch := w.fetch(st.calls, src);
    var written := Naming.DownloadWritten(src, |st.dir|, fetch, w.unquote);
    var name := Naming.DownloadName(src, |st.dir|, w.decodes(src), fetch, w.unquote);
    var dir := if written.Some? then st.dir + {written.value} else st.dir;
    (Store(dir, st.calls + 1), if name.Some? then Some(w.pathOf(name.value)) else None)
  }

  /** Lines 141-145: the sources downloaded in order, the paths of those
      that succeeded kept in order. */
  function Resolved(st: Store, srcs: seq<string>, w: World): (Store, seq<string>)
    decreases |srcs|
  {
    if srcs == [] then (st, [])
    else
      var before := Resolved(st, srcs[..|srcs| - 1], w);
      var d := Download(before.0, srcs[|srcs| - 1], w);
      (d.0, if d.1.Some? then before.1 + [d.1.value] else before.1)
  }

  lemma ResolvedStep(st: Store, srcs: seq<string>, i: nat, w: World)
    requires i < |srcs|
    ensures var before := Resolved(st, srcs[..i], w);
      var d := Download(before.0, srcs[i], w);
      Resolved(st, srcs[..i + 1], w) == (d.0, if d.1.Some? then before.1 + [d.1.value] else before.1)
  {
    assert srcs[..i + 1][..i] == srcs[..i];
  }

  /** The loop of lines 143-146. */
  method ResolveImages(st: Store, srcs: seq<string>, w: World) returns (st': Store, local: seq<string>)
    ensures (st', local) == Resolved(st, srcs, w)
  {
    st' := st;
    local := [];
    for i := 0 to |srcs|
      invariant (st', local) == Resolved(st, srcs[..i], w)
    {
      ResolvedStep(st, srcs, i, w);
      var d := Download(st', srcs[i], w);
      st' := d.0;
      if d.1.Some? {
        local := local + [d.1.value];
      }
    }
    assert srcs[..|srcs|] == srcs;
  }

  /** The paths of the files in `dir`. */
  function PathsOf(dir: set<string>, pathOf: string -> string): set<string> {
    set n | n in dir :: pathOf(n)
  }

  /** Every source is handed to `download_img` exactly once, at most one
      path is kept per source, every kept path names a file now in the
      image directory, and nothing leaves the directory. */
  lemma ResolvedFacts(st: Store, srcs: seq<string>, w: World)
    ensures var r := Resolved(st, srcs, w);
      && r.0.calls == st.calls + |srcs|
      && |r.1| <= |srcs|
      && st.dir <= r.0.dir
      && forall k :: 0 <= k < |r.1| ==> r.1[k] in PathsOf(r.0.dir, w.pathOf)
  {
    ResolvedCounts(st, srcs, w);
    ResolvedInDir(st, srcs, w);
    assert KeptInDir(Resolved(st, srcs, w), w.pathOf);
  }

  /** One call: the counter moves on, the directory only grows, a returned
      path names a file now in it, and a data URI with a ',' whose payload
      does not decode still adds its `img_<n>.<ext>` file while returning
      None. */
  lemma DownloadFacts(st: Store, src: string, w: World)
    ensures var d := Download(st, src, w);
      && d.0.calls == st.calls + 1
      && st.dir <= d.0.dir
      && (d.1.Some? ==> d.1.value in PathsOf(d.0.dir, w.pathOf))
    ensures Naming.StartsWithData(src) && ',' in src && !w.decodes(src) ==>
      var d := Download(st, src, w);
      && d.1.None?
      && d.0.dir == st.dir + {Naming.DataUriWritten(src, |st.dir|).value}
  {
    var fetch := w.fetch(st.calls, src);
    var name := Naming.DownloadName(src, |st.dir|, w.decodes(src), fetch, w.unquote);
    if name.Some? {
      assert name.value in Download(st, src, w).0.dir;
    }
  }

  lemma {:induction false} ResolvedCounts(st: Store, srcs: seq<string>, w: World)
    ensures var r := Resolved(st, srcs, w);
      r.0.calls == st.calls + |srcs| && |r.1| <= |srcs| && st.dir <= r.0.dir
    decreases |srcs|
  {
    if srcs != [] {
      var pre := srcs[..|srcs| - 1];
      ResolvedCounts(st, pre, w);
      DownloadFacts(Resolved(st, pre, w).0, srcs[|srcs| - 1], w);
    }
  }

  /** Every kept path names a file in the directory. */
  predicate KeptInDir(r: (Store, seq<string>), pathOf: string -> string) {
    forall k :: 0 <= k < |r.1| ==> r.1[k] in PathsOf(r.0.dir, pathOf)
  }

  lemma {:induction false} ResolvedInDir(st: Store, srcs: seq<string>, w: World)
    ensures KeptInDir(Resolved(st, srcs, w), w.pathOf)
    decreases |srcs|
  {
    if srcs != [] {
      var pre := srcs[..|srcs| - 1];
      ResolvedInDir(st, pre, w);
      var before := Resolved(st, pre, w);
      DownloadFacts(before.0, srcs[|srcs| - 1], w);
      var d := Download(before.0, srcs[|srcs| - 1], w);
      PathsGrow(before.0.dir, d.0.dir, w.pathOf);
      var r := Resolved(st, srcs, w);
      assert r == (d.0, if d.1.Some? then before.1 + [d.1.value] else before.1);
      forall k | 0 <= k < |r.1| ensures r.1[k] in PathsOf(r.0.dir, w.pathOf) {
        if k < |before.1| {
          assert r.1[k] == before.1[k];
        }
      }
    }
  }

  lemma PathsGrow(dir: set<string>, dir': set<string>, pathOf: string -> string)
    requires dir <= dir'
    ensures PathsOf(dir, pathOf) <= PathsOf(dir', pathOf)
  {
  }

  /** Resolving `a + b` resolves `a` and then, from where that left the
      directory, `b`: the paths of `a`'s images come first. */
  lemma {:induction false} ResolvedAppend(st: Store, a: seq<string>, b: seq<string>, w: World)
    ensures var ra := Resolved(st, a, w);
      var rb := Resolved(ra.0, b, w);
      Resolved(st, a + b, w) == (rb.0, ra.1 + rb.1)
    decreases |b|
  {
    if b != [] {
      var b' := b[..|b| - 1];
      ResolvedAppend(st, a, b', w);
      assert (a + b)[..|a + b| - 1] == a + b';
      assert (a + b)[|a + b| - 1] == b[|b| - 1];
      var ra := Resolved(st, a, w);
      var rb' := Resolved(ra.0, b', w);
      var d := Download(rb'.0, b[|b| - 1], w);
      if d.1.Some? {
        assert ra.1 + (rb'.1 + [d.1.value]) == ra.1 + rb'.1 + [d.1.value];
      }
    } else {
      assert a + b == a;
      assert Resolved(st, a, w).1 + [] == Resolved(st, a, w).1;
    }
  }

  /** The file an undecodable data URI leaves behind counts for the next
      name: after one that fails, a data URI that decodes is numbered two
      past the entries the directory had before both. */
  lemma UndecodableShiftsNames(st: Store, a: string, b: string, w: World)
    requires Naming.StartsWithData(a) && ',' in a && !w.decodes(a)
    requires Naming.DataUriWritten(a, |st.dir|).value !in st.dir
    requires Naming.StartsWithData(b) && ',' in b && w.decodes(b)
    ensures Resolved(st, [a, b], w).1 == [w.pathOf(Naming.DataUriWritten(b, |st.dir| + 1).value)]
  {
    var srcs := [a, b];
    var d := Download(st, a, w);
    assert d.1.None? && |d.0.dir| == |st.dir| + 1 by {
      DownloadFacts(st, a, w);
    }
    assert Resolved(st, srcs[..1], w) == (d.0, []) by {
      ResolvedStep(st, srcs, 0, w);
      assert srcs[..0] == [];
    }
    var e := Download(d.0, b, w);
    assert e.1 == Some(w.pathOf(Naming.DataUriWritten(b, |st.dir| + 1).value)) by {
      var name := Naming.DownloadName(b, |d.0.dir|, true, w.fetch(d.0.calls, b), w.unquote);
      assert name == Naming.DataUriWritten(b, |st.dir| + 1);
    }
    assert Resolved(st, srcs, w).1 == [] + [e.1.value] by {
      ResolvedStep(st, srcs, 1, w);
      assert srcs[..2] == srcs;
    }
  }

  /** An empty source is dropped without touching the directory. */
  lemma EmptySourceDropped(st: Store, src: string, w: World)
    requires src == ""
    ensures Download(st, src, w) == (Store(st.dir, st.calls + 1), None)
  {
  }

  // ---------------------------------------------------------------------
  // Records

  /** The question record of lines 148-160. */
  datatype Record = Record(
    id: string, qType: Value, paperType: Value, difficulty: Value, year: Value,
    questionRaw: Value, question: string, options: map<char, string>,
    answer: string, explanationRaw: Value, explanation: string, images: seq<string>)

  /** `f"Q{idx+1:04d}"`. */
  function RecordId(idx: nat): string {
    "Q" + ZeroPad(idx + 1, 4)
  }

  /** Row `idx` as lines 108-160 turn it into a record, with the image
      directory afterwards; None when cleaning the question cell raises. */
  function RowRecord(row: Row, idx: nat, st: Store, w: World, parse: string -> seq<Node>,
                     repr: Value -> string): Option<(Store, Record)>
  {
    var qCell := QuestionCell(row);
    var qNodes := CellNodes(qCell, parse);
    if qNodes.None? then None
    else
      var q := Cleaned(qNodes.value);
      var optsRaw := Get(row, "选项", Str(""));
      var opt := if optsRaw.Str? then Cleaned(Some(parse(optsRaw.s))) else ("", []);
      var r := Resolved(st, q.1 + opt.1, w);
      var explRaw := Get(row, "解题思路", Str(""));
      Some((r.0, Record(
        RecordId(idx), Get(row, "题目类型", Str("")), Get(row, "试卷类型", Str("")),
        Get(row, "难度", Str("")), Get(row, "年份", Str("")), qCell, q.0, OptionMap(opt.0),
        Strip(CellText(Get(row, "答案", Str("")), repr)), explRaw,
        if explRaw.Str? then Cleaned(Some(parse(explRaw.s))).0 else "", r.1)))
  }

  /** What the loop body makes of a row, given its number and the image
      directory before it. */
  type RowStep = (Row, nat, Store) -> Option<(Store, Record)>

  function StepOf(w: World, parse: string -> seq<Node>, repr: Value -> string): RowStep {
    (row: Row, idx: nat, st: Store) => RowRecord(row, idx, st, w, parse, repr)
  }

  /** The loop over the rows with body `step`: the records and the image
      directory afterwards, or None once a row raises. */
  function Fold(rows: seq<Row>, st: Store, step: RowStep): Option<(Store, seq<Record>)>
    decreases |rows|
  {
    if rows == [] then Some((st, []))
    else
      var before := Fold(rows[..|rows| - 1], st, step);
      if before.None? then None
      else
        var r := step(rows[|rows| - 1], |rows| - 1, before.value.0);
        if r.None? then None else Some((r.value.0, before.value.1 + [r.value.1]))
  }

  /** The records of the rows, with the image directory afterwards; None
      when some row raises, which ends the script. */
  function AllRecords(rows: seq<Row>, st: Store, w: World, parse: string -> seq<Node>,
                      repr: Value -> string): Option<(Store, seq<Record>)>
  {
    Fold(rows, st, StepOf(w, parse, repr))
  }

  lemma FoldStep(rows: seq<Row>, i: nat, st: Store, step: RowStep)
    requires i < |rows|
    ensures var before := Fold(rows[..i], st, step);
      Fold(rows[..i + 1], st, step) ==
        if before.None? then None
        else
          var r := step(rows[i], i, before.value.0);
          if r.None? then None else Some((r.value.0, before.value.1 + [r.value.1]))
  {
    assert rows[..i + 1][..i] == rows[..i];
  }

  /** A row that raises ends the run: no later row changes that. */
  lemma {:induction false} RaiseEndsRun(rows: seq<Row>, n: nat, st: Store, step: RowStep)
    requires n <= |rows| && Fold(rows[..n], st, step).None?
    ensures Fold(rows, st, step).None?
    decreases |rows| - n
  {
    if n < |rows| {
      FoldStep(rows, n, st, step);
      RaiseEndsRun(rows, n + 1, st, step);
    } else {
      assert rows[..n] == rows;
    }
  }

  /** The body of the row loop. */
  method AssembleRecord(row: Row, idx: nat, st: Store, w: World, parse: string -> seq<Node>,
                        repr: Value -> string) returns (r: Option<(Store, Record)>)
    ensures r == RowRecord(row, idx, st, w, parse, repr)
  {
    var qRaw := if "题目" in row then row["题目"] else Get(row, "question", Str(""));
    var qNodes := CellNodes(qRaw, parse);
    if qNodes.None? {
      return None;
    }
    var qText, qImgs := CleanHtmlToText(qNodes.value);
    var optsRaw := Get(row, "选项", Str(""));
    var optText, optImgs := "", [];
    if optsRaw.Str? {
      optText, optImgs := CleanHtmlToText(Some(parse(optsRaw.s)));
    }
    var options := OptionParser.ParseOptions(optText);
    var st', localImgs := ResolveImages(st, qImgs + optImgs, w);
    var explRaw := Get(row, "解题思路", Str(""));
    var explanation := "";
    if explRaw.Str? {
      var explImgs;
      explanation, explImgs := CleanHtmlToText(Some(parse(explRaw.s)));
    }
    var rec := Record(
      RecordId(idx), Get(row, "题目类型", Str("")), Get(row, "试卷类型", Str("")),
      Get(row, "难度", Str("")), Get(row, "年份", Str("")), qRaw, qText, options,
      Strip(CellText(Get(row, "答案", Str("")), repr)), explRaw, explanation, localImgs);
    r := Some((st', rec));
  }

  /** Lines 106-160: the record list and the image directory afterwards. */
  method BuildRecords(rows: seq<Row>, st: Store, w: World, parse: string -> seq<Node>,
                      repr: Value -> string) returns (questions: Option<seq<Record>>, st': Store)
    ensures AllRecords(rows, st, w, parse, repr).None? ==> questions.None?
    ensures AllRecords(rows, st, w, parse, repr).Some? ==>
      questions == Some(AllRecords(rows, st, w, parse, repr).value.1)
      && st' == AllRecords(rows, st, w, parse, repr).value.0
  {
    var step := StepOf(w, parse, repr);
    var qs: seq<Record> := [];
    st' := st;
    for i := 0 to |rows|
      invariant Fold(rows[..i], st, step) == Some((st', qs))
    {
      FoldStep(rows, i, st, step);
      var r := AssembleRecord(rows[i], i, st', w, parse, repr);
      assert r == step(rows[i], i, st');
      if r.None? {
        RaiseEndsRun(rows, i + 1, st, step);
        return None, st';
      }
      st' := r.value.0;
      qs := qs + [r.value.1];
    }
    assert rows[..|rows|] == rows;
    questions := Some(qs);
  }

  // ---------------------------------------------------------------------
  // Properties

  /** One record per row, in row order, the record of row `i` numbered
      `i + 1`. */
  lemma {:induction false} RecordsNumbered(rows: seq<Row>, st: Store, w: World,
                                           parse: string -> seq<Node>, repr: Value -> string)
    requires AllRecords(rows, st, w, parse, repr).Some?
    ensures var qs := AllRecords(rows, st, w, parse, repr).value.1;
      |qs| == |rows| && forall i :: 0 <= i < |qs| ==> qs[i].id == RecordId(i)
  {
    var step := StepOf(w, parse, repr);
    forall row, idx, s | step(row, idx, s).Some? ensures step(row, idx, s).value.1.id == RecordId(idx) {
      RowRecordId(row, idx, s, w, parse, repr);
    }
    FoldNumbered(rows, st, step);
  }

  lemma {:induction false} FoldNumbered(rows: seq<Row>, st: Store, step: RowStep)
    requires forall row, idx, s :: step(row, idx, s).Some? ==> step(row, idx, s).value.1.id == RecordId(idx)
    requires Fold(rows, st, step).Some?
    ensures var qs := Fold(rows, st, step).value.1;
      |qs| == |rows| && forall i :: 0 <= i < |qs| ==> qs[i].id == RecordId(i)
    decreases |rows|
  {
    if rows != [] {
      FoldNumbered(rows[..|rows| - 1], st, step);
    }
  }

  lemma RowRecordId(row: Row, idx: nat, st: Store, w: World, parse: string -> seq<Node>,
                    repr: Value -> string)
    requires RowRecord(row, idx, st, w, parse, repr).Some?
    ensures RowRecord(row, idx, st, w, parse, repr).value.1.id == RecordId(idx)
  {
  }

  /** An id is `Q` and at least four digits, and distinct rows get
      distinct ids. */
  lemma RecordIdShape(i: nat, j: nat)
    ensures |RecordId(i)| >= 5 && RecordId(i)[0] == 'Q'
    ensures forall k :: 1 <= k < |RecordId(i)| ==> IsAsciiDigit(RecordId(i)[k])
    ensures RecordId(i) == RecordId(j) ==> i == j
  {
    var a := ZeroPad(i + 1, 4);
    assert forall k :: 1 <= k < |RecordId(i)| ==> RecordId(i)[k] == a[k - 1];
    if RecordId(i) == RecordId(j) {
      assert ZeroPad(i + 1, 4) == RecordId(i)[1..];
      assert ZeroPad(j + 1, 4) == RecordId(j)[1..];
      ZeroPadInjective(i + 1, j + 1, 4);
    }
  }

  /** The record's images are the question's downloaded images followed by
      the options' downloaded images, each in document order. */
  lemma QuestionImagesFirst(row: Row, idx: nat, st: Store, w: World, parse: string -> seq<Node>,
                            repr: Value -> string)
    requires RowRecord(row, idx, st, w, parse, repr).Some?
    ensures var q := Cleaned(CellNodes(QuestionCell(row), parse).value);
      var optsRaw := Get(row, "选项", Str(""));
      var optSrcs := if optsRaw.Str? then Sources(parse(optsRaw.s)) else [];
      var rq := Resolved(st, q.1, w);
      var ro := Resolved(rq.0, optSrcs, w);
      RowRecord(row, idx, st, w, parse, repr).value == (ro.0, RowRecord(row, idx, st, w, parse, repr).value.1)
      && RowRecord(row, idx, st, w, parse, repr).value.1.images == rq.1 + ro.1
  {
    var q := Cleaned(CellNodes(QuestionCell(row), parse).value);
    var optsRaw := Get(row, "选项", Str(""));
    var opt := if optsRaw.Str? then Cleaned(Some(parse(optsRaw.s))) else ("", []);
    ResolvedAppend(st, q.1, opt.1, w);
  }

  /** The explanation's images are never downloaded: whatever the
      explanation cell holds, the record's images and the image directory
      are the same. */
  lemma ExplanationImagesNeverResolved(row: Row, v: Value, idx: nat, st: Store, w: World,
                                       parse: string -> seq<Node>, repr: Value -> string)
    ensures var r, r' := RowRecord(row, idx, st, w, parse, repr),
                         RowRecord(row["解题思路" := v], idx, st, w, parse, repr);
      r.Some? == r'.Some?
      && (r.Some? ==> r.value.0 == r'.value.0 && r.value.1.images == r'.value.1.images)
  {
    var row' := row["解题思路" := v];
    assert QuestionCell(row') == QuestionCell(row);
    assert Get(row', "选项", Str("")) == Get(row, "选项", Str(""));
  }

  /** Each source is handed to `download_img` once: the number of calls a
      record makes is its question's and options' source count. */
  lemma DownloadsPerRecord(row: Row, idx: nat, st: Store, w: World, parse: string -> seq<Node>,
                           repr: Value -> string)
    requires RowRecord(row, idx, st, w, parse, repr).Some?
    ensures var q := Cleaned(CellNodes(QuestionCell(row), parse).value);
      var optsRaw := Get(row, "选项", Str(""));
      var optSrcs := if optsRaw.Str? then Sources(parse(optsRaw.s)) else [];
      RowRecord(row, idx, st, w, parse, repr).value.0.calls == st.calls + |q.1| + |optSrcs|
      && |RowRecord(row, idx, st, w, parse, repr).value.1.images| <= |q.1| + |optSrcs|
  {
    var q := Cleaned(CellNodes(QuestionCell(row), parse).value);
    var optsRaw := Get(row, "选项", Str(""));
    var opt := if optsRaw.Str? then Cleaned(Some(parse(optsRaw.s))) else ("", []);
    ResolvedFacts(st, q.1 + opt.1, w);
  }

  /** An option cell that is not text (an empty cell included) gives no
      options and no option images. */
  lemma NonTextOptionsIgnored(row: Row, idx: nat, st: Store, w: World, parse: string -> seq<Node>,
                              repr: Value -> string)
    requires "选项" in row && !row["选项"].Str?
    requires RowRecord(row, idx, st, w, parse, repr).Some?
    ensures RowRecord(row, idx, st, w, parse, repr).value.1.options == map[]
    ensures var q := Cleaned(CellNodes(QuestionCell(row), parse).value);
      RowRecord(row, idx, st, w, parse, repr).value.1.images == Resolved(st, q.1, w).1
  {
    var q := Cleaned(CellNodes(QuestionCell(row), parse).value);
    assert q.1 + [] == q.1;
  }

  /** An empty answer cell is written as the answer `nan`. */
  lemma EmptyAnswerCellIsNan(row: Row, idx: nat, st: Store, w: World, parse: string -> seq<Node>,
                             repr: Value -> string)
    requires "答案" in row && row["答案"].Null?
    requires RowRecord(row, idx, st, w, parse, repr).Some?
    ensures RowRecord(row, idx, st, w, parse, repr).value.1.answer == "nan"
  {
    StripUnpadded("nan");
  }
}
