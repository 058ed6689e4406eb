/** The image sources that rename_images_by_url.py and download_images.py
    find in the raw HTML of each question: `re.findall` with the pattern
    `<img[^>]+src="([^"]+)"`, over `question_raw` and then
    `explanation_raw` of every question. */
module ImgTags {
  import opened Wrappers
  import opened PyText
  import opened Json
  import Naming

  const TagOpen := "<img"
  const SrcOpen := "src=\""

  /** `src="([^"]+)"` matches at `q`: the attribute opener, one or more
      characters other than a double quote, then a double quote.  `[^"]+`
      can only end just before the first quote. */
  predicate SrcAt(t: string, q: nat) {
    && OccursAt(t, SrcOpen, q)
    && var e := Naming.FirstOf(t, q + |SrcOpen|, {'"'});
       q + |SrcOpen| < e < |t|
  }

  /** The largest `q` in `lo..hi` at which `SrcAt` holds.  The greedy
      `[^>]+` first runs to the first '>' and then gives characters back
      one at a time, so the last attribute opener that can complete a match
      is the one used. */
  function LastSrc(t: string, lo: nat, hi: nat): (r: Option<nat>)
    ensures r.Some? ==> lo <= r.value <= hi && SrcAt(t, r.value)
    ensures r.Some? ==> forall q :: r.value < q <= hi ==> !SrcAt(t, q)
    ensures r.None? ==> forall q :: lo <= q <= hi ==> !SrcAt(t, q)
    decreases hi
  {
    if hi < lo then None
    else if SrcAt(t, hi) then Some(hi)
    else if hi == lo then None
    else LastSrc(t, lo, hi - 1)
  }

  /** The captured source of the match that starts at `p`, as the bounds
      `(a, e)` of `t[a..e]`, or None when the pattern does not match at `p`.
      `[^>]+` needs at least one character after `<img` and may not cross
      a '>'. */
  function MatchAt(t: string, p: nat): (r: Option<(nat, nat)>)
    requires p <= |t|
    ensures r.Some? ==> p < r.value.0 < r.value.1 < |t|
    ensures r.Some? ==> forall k :: r.value.0 <= k < r.value.1 ==> t[k] != '"'
  {
    if !OccursAt(t, TagOpen, p) then None
    else
      var j := Naming.FirstOf(t, p + |TagOpen|, {'>'});
      match LastSrc(t, p + |TagOpen| + 1, j)
      case None => None
      case Some(q) =>
        var a := q + |SrcOpen|;
        Some((a, Naming.FirstOf(t, a, {'"'})))
  }

  /** `re.findall` from position `p`: the leftmost match, then the search
      resumes after its closing quote. */
  function SrcsFrom(t: string, p: nat): seq<string>
    requires p <= |t|
    decreases |t| - p
  {
    if p == |t| then []
    else match MatchAt(t, p)
      case None => SrcsFrom(t, p + 1)
      case Some((a, e)) => [t[a..e]] + SrcsFrom(t, e + 1)
  }

  /** `re.findall(r'<img[^>]+src="([^"]+)"', t)`. */
  function Srcs(t: string): seq<string> {
    SrcsFrom(t, 0)
  }

  /** Every source found is non-empty and holds no double quote. */
  lemma {:induction false} SrcsShape(t: string, p: nat)
    requires p <= |t|
    ensures forall k :: 0 <= k < |SrcsFrom(t, p)| ==>
      SrcsFrom(t, p)[k] != "" && '"' !in SrcsFrom(t, p)[k]
    decreases |t| - p
  {
    if p < |t| {
      match MatchAt(t, p)
      case None =>
        SrcsShape(t, p + 1);
      case Some((a, e)) =>
        SrcsShape(t, e + 1);
        var src := t[a..e];
        assert forall k :: 0 <= k < |src| ==> src[k] == t[a + k];
        assert '"' !in src;
    }
  }

  /** A text with no `<img` at or after `p` yields no sources. */
  lemma {:induction false} NoTagNoSrcs(t: string, p: nat)
    requires p <= |t|
    requires forall i :: p <= i ==> !OccursAt(t, TagOpen, i)
    ensures SrcsFrom(t, p) == []
    decreases |t| - p
  {
    if p < |t| {
      NoTagNoSrcs(t, p + 1);
    }
  }

  /** A plain `<img src="u">` tag yields exactly its source. */
  lemma SimpleTag(u: string)
    requires u != "" && '"' !in u && '>' !in u
    ensures Srcs("<img " + SrcOpen + u + "\">") == [u]
  {
    var t := "<img " + SrcOpen + u + "\">";
    var e := 10 + |u|;
    SimpleTagScan(u, t);
    SimpleTagLast(u, t);
    assert MatchAt(t, 0) == Some((10, e));
    NoTagNoSrcs(t, e + 1);
  }

  /** Where the scans stop in a plain tag: the closing quote, then '>'. */
  lemma SimpleTagScan(u: string, t: string)
    requires u != "" && '"' !in u && '>' !in u
    requires t == "<img " + SrcOpen + u + "\">"
    ensures |t| == |u| + 12 && t[..4] == TagOpen && OccursAt(t, TagOpen, 0)
    ensures t[10..10 + |u|] == u
    ensures Naming.FirstOf(t, 10, {'"'}) == 10 + |u| && Naming.FirstOf(t, 4, {'>'}) == 11 + |u|
    ensures forall i :: 10 + |u| + 1 <= i ==> !OccursAt(t, TagOpen, i)
  {
    var a := 10;
    var e := a + |u|;
    assert |t| == e + 2 && t[e] == '"' && t[e + 1] == '>';
    forall k | a <= k < e ensures t[k] != '"' && t[k] != '>' {
      assert t[k] == u[k - a];
      assert u[k - a] in u;
    }
    assert Naming.FirstOf(t, a, {'"'}) == e by {
      assert forall k :: a <= k < e ==> t[k] != '"';
    }
    assert Naming.FirstOf(t, 4, {'>'}) == e + 1 by {
      assert forall k :: 4 <= k < e + 1 ==> t[k] != '>';
    }
  }

  /** The only attribute opener of a plain tag is the one at 5. */
  lemma SimpleTagLast(u: string, t: string)
    requires u != "" && '"' !in u && '>' !in u
    requires t == "<img " + SrcOpen + u + "\">"
    requires |t| == |u| + 12 && Naming.FirstOf(t, 10, {'"'}) == 10 + |u|
    ensures LastSrc(t, 5, 11 + |u|) == Some(5)
  {
    var e := 10 + |u|;
    assert t[5..10] == SrcOpen;
    assert SrcAt(t, 5);
    forall q | 5 < q <= e + 1 ensures !SrcAt(t, q) {
      if OccursAt(t, SrcOpen, q) {
        assert t[q + 4] == '"';
        assert q + 4 >= e;
        assert Naming.FirstOf(t, q + |SrcOpen|, {'"'}) == |t|;
      }
    }
    LastSrcIs(t, 5, e + 1, 5);
  }

  /** When `SrcAt` holds at `q` and nowhere above it up to `hi`, `LastSrc`
      finds `q`. */
  lemma {:induction false} LastSrcIs(t: string, lo: nat, hi: nat, q: nat)
    requires lo <= q <= hi && SrcAt(t, q)
    requires forall k :: q < k <= hi ==> !SrcAt(t, k)
    ensures LastSrc(t, lo, hi) == Some(q)
    decreases hi
  {
    if hi > q {
      LastSrcIs(t, lo, hi - 1, q);
    }
  }

  // ---------------------------------------------------------------------
  // The traversal shared by the two scripts

  /** `for field in ["question_raw", "explanation_raw"]`. */
  const RawFields: seq<string> := ["question_raw", "explanation_raw"]

  /** The sources found in the given fields of one question, field by
      field. */
  function FieldsSrcs(q: Item, fields: seq<string>, repr: Value -> string): seq<string>
    decreases |fields|
  {
    if fields == [] then []
    else
      var n := |fields| - 1;
      FieldsSrcs(q, fields[..n], repr) + Srcs(FieldText(q, fields[n], repr))
  }

  /** The sources of one question: its `question_raw`, then its
      `explanation_raw`. */
  function QuestionSrcs(q: Item, repr: Value -> string): seq<string> {
    FieldsSrcs(q, RawFields, repr)
  }

  /** Every source of every question, in question order. */
  function AllSrcs(qs: seq<Item>, repr: Value -> string): seq<string>
    decreases |qs|
  {
    if qs == [] then []
    else
      var n := |qs| - 1;
      AllSrcs(qs[..n], repr) + QuestionSrcs(qs[n], repr)
  }

  /** The question's raw question text is scanned before its raw
      explanation. */
  lemma QuestionSrcsOrder(q: Item, repr: Value -> string)
    ensures QuestionSrcs(q, repr) ==
      Srcs(FieldText(q, "question_raw", repr)) + Srcs(FieldText(q, "explanation_raw", repr))
  {
    var f := RawFields;
    assert f[..|f| - 1] == ["question_raw"];
    assert f[..|f| - 1][..0] == [];
    assert FieldsSrcs(q, f[..|f| - 1], repr) == Srcs(FieldText(q, "question_raw", repr));
  }

  lemma SplitLast<T>(a: seq<T>, b: seq<T>)
    requires b != []
    ensures (a + b)[..|a + b| - 1] == a + b[..|b| - 1] && (a + b)[|a + b| - 1] == b[|b| - 1]
  {
  }

  /** The questions are scanned in list order: the sources of a list are
      those of its first part followed by those of the rest. */
  lemma {:induction false} AllSrcsAppend(a: seq<Item>, b: seq<Item>, repr: Value -> string)
    ensures AllSrcs(a + b, repr) == AllSrcs(a, repr) + AllSrcs(b, repr)
    decreases |b|
  {
    if b == [] {
      assert a + b == a;
    } else {
      var n := |b| - 1;
      SplitLast(a, b);
      AllSrcsAppend(a, b[..n], repr);
      AllSrcsLast(a + b, repr);
      AllSrcsLast(b, repr);
      ConcatAssoc(AllSrcs(a, repr), AllSrcs(b[..n], repr), QuestionSrcs(b[n], repr));
    }
  }

  lemma AllSrcsLast(qs: seq<Item>, repr: Value -> string)
    requires qs != []
    ensures AllSrcs(qs, repr) == AllSrcs(qs[..|qs| - 1], repr) + QuestionSrcs(qs[|qs| - 1], repr)
  {
  }

  lemma ConcatAssoc<T>(x: seq<T>, y: seq<T>, z: seq<T>)
    ensures x + y + z == x + (y + z)
  {
  }

  /** `os.path.basename(urlparse(url).path)` of every source, in order. */
  function FileNames(urls: seq<string>): (r: seq<string>)
    ensures |r| == |urls|
    ensures forall k :: 0 <= k < |urls| ==> r[k] == Naming.UrlFileName(urls[k])
  {
    seq(|urls|, k requires 0 <= k < |urls| => Naming.UrlFileName(urls[k]))
  }
}
