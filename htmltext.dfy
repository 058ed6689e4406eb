/** `clean_html_to_text` of excel_to_pdf_fixed.py: the rule that replaces
    each `<img>` element by an `[IMAGE:k]` placeholder while collecting the
    image sources.  HTML parsing is left to the parser library; its result
    is taken here as the document's sequence of text strings and `<img>`
    elements, in document order. */
module HtmlToText {
  import opened Wrappers
  import opened PyText
  import opened Placeholders

  /** A node of the parsed document: a text string, or an `<img>` element
      with its `src` attribute (None when the attribute is absent). */
  datatype Node = Text(s: string) | Img(src: Option<string>)

  /** `if src:` in Python: present and non-empty. */
  predicate HasSource(n: Node) {
    n.Img? && n.src.Some? && n.src.value != ""
  }

  /** The sources collected from `nodes`, in document order. */
  function Sources(nodes: seq<Node>): (r: seq<string>)
    ensures |r| <= |nodes|
    ensures forall k :: 0 <= k < |r| ==> r[k] != ""
    decreases |nodes|
  {
    if nodes == [] then []
    else
      var last := nodes[|nodes| - 1];
      Sources(nodes[..|nodes| - 1]) + (if HasSource(last) then [last.src.value] else [])
  }

  /** The number of `<img>` elements in `nodes`. */
  function ImgCount(nodes: seq<Node>): nat
    decreases |nodes|
  {
    if nodes == [] then 0
    else ImgCount(nodes[..|nodes| - 1]) + (if nodes[|nodes| - 1].Img? then 1 else 0)
  }

  /** The string that stands at position `i` once every `<img>` has been
      replaced: an `<img>` becomes `[IMAGE:k]` where `k` is the number of
      sources collected up to and including it, minus one. */
  function Piece(nodes: seq<Node>, i: nat): string
    requires i < |nodes|
  {
    match nodes[i]
    case Text(s) => s
    case Img(_) => Placeholder(|Sources(nodes[..i + 1])| - 1)
  }

  /** The placeholder indices given to the `<img>` elements, in order. */
  function ImgIndices(nodes: seq<Node>): seq<int>
    decreases |nodes|
  {
    if nodes == [] then []
    else
      ImgIndices(nodes[..|nodes| - 1])
      + (if nodes[|nodes| - 1].Img? then [|Sources(nodes)| - 1] else [])
  }

  /** The parser library's `get_text(separator="\n", strip=True)`: every
      string stripped, empty ones dropped, the rest joined by newlines. */
  function GetText(pieces: seq<string>): string {
    Join("\n", StrippedNonEmpty(pieces))
  }

  /** The loop of `clean_html_to_text`: `None` stands for a missing or NaN
      cell.  Each `<img>` contributes its source when it has one, and is
      replaced by the placeholder numbered by the sources seen so far. */
  method CleanHtmlToText(html: Option<seq<Node>>) returns (text: string, imgs: seq<string>)
    ensures html.None? ==> text == "" && imgs == []
    ensures html.Some? ==> imgs == Sources(html.value)
    ensures html.Some? ==>
      text == GetText(seq(|html.value|, i requires 0 <= i < |html.value| => Piece(html.value, i)))
  {
    if html.None? {
      return "", [];
    }
    var nodes := html.value;
    imgs := [];
    var pieces: seq<string> := [];
    var i := 0;
    while i < |nodes|
      invariant 0 <= i <= |nodes|
      invariant imgs == Sources(nodes[..i])
      invariant |pieces| == i
      invariant forall j :: 0 <= j < i ==> pieces[j] == Piece(nodes, j)
    {
      var piece;
      piece, imgs := VisitNode(nodes, i, imgs);
      pieces := pieces + [piece];
      i := i + 1;
    }
    assert nodes[..i] == nodes;
    text := GetText(pieces);
    assert pieces == seq(|nodes|, j requires 0 <= j < |nodes| => Piece(nodes, j));
  }

  /** One step of the walk: the piece node `i` leaves in the text, and the
      sources collected once it has been seen. */
  method VisitNode(nodes: seq<Node>, i: nat, imgs: seq<string>) returns (piece: string, imgs': seq<string>)
    requires i < |nodes| && imgs == Sources(nodes[..i])
    ensures piece == Piece(nodes, i)
    ensures imgs' == Sources(nodes[..i + 1])
  {
    SourcesStep(nodes, i);
    imgs' := imgs;
    match nodes[i] {
      case Text(s) =>
        piece := s;
      case Img(src) =>
        if src.Some? && src.value != "" {
          imgs' := imgs + [src.value];
        }
        piece := Placeholder(|imgs'| - 1);
    }
  }

  /** Seeing node `i` adds its source, if it has one, to those before it. */
  lemma SourcesStep(nodes: seq<Node>, i: nat)
    requires i < |nodes|
    ensures Sources(nodes[..i + 1]) ==
      Sources(nodes[..i]) + (if HasSource(nodes[i]) then [nodes[i].src.value] else [])
  {
    assert nodes[..i + 1][..i] == nodes[..i];
  }

  /** When every `<img>` has a source, there is one source per `<img>` and
      the placeholders are numbered 0, 1, 2, ... in document order. */
  lemma {:induction false} AllSourcedNumbering(nodes: seq<Node>)
    requires forall i :: 0 <= i < |nodes| && nodes[i].Img? ==> HasSource(nodes[i])
    ensures |Sources(nodes)| == ImgCount(nodes)
    ensures ImgIndices(nodes) == Range(ImgCount(nodes))
    decreases |nodes|
  {
    if nodes != [] {
      var init := nodes[..|nodes| - 1];
      AllSourcedNumbering(init);
    }
  }

  /** Conversely, once some `<img>` lacks a source the placeholders are no
      longer 0, 1, 2, ...: the first such element repeats the previous index
      (or gets -1). */
  lemma {:induction false} UnsourcedBreaksNumbering(nodes: seq<Node>, j: nat)
    requires j < |nodes| && nodes[j].Img? && !HasSource(nodes[j])
    ensures ImgIndices(nodes) != Range(ImgCount(nodes))
    ensures Piece(nodes, j) != Placeholder(ImgCount(nodes[..j]))
  {
    var c := ImgCount(nodes[..j]);
    UnsourcedEntry(nodes, j);
    PrefixIndices(nodes, j + 1);
    ImgIndicesLength(nodes);
    ImgCountPrefix(nodes, j + 1);
    assert ImgIndices(nodes)[c] < c;
    PieceIsIndex(nodes, j);
    if Piece(nodes, j) == Placeholder(c) {
      PlaceholderInjective(ImgIndices(nodes)[c], c);
    }
  }

  /** An unsourced `<img>` at `j` is written with the number of sources
      collected before it, minus one: below its own position. */
  lemma UnsourcedEntry(nodes: seq<Node>, j: nat)
    requires j < |nodes| && nodes[j].Img? && !HasSource(nodes[j])
    ensures |ImgIndices(nodes[..j + 1])| == ImgCount(nodes[..j]) + 1
    ensures ImgIndices(nodes[..j + 1])[ImgCount(nodes[..j])] < ImgCount(nodes[..j])
    ensures Piece(nodes, j) == Placeholder(|Sources(nodes[..j])| - 1)
    ensures |Sources(nodes[..j])| - 1 < ImgCount(nodes[..j])
  {
    var p := nodes[..j + 1];
    assert p[..j] == nodes[..j];
    assert |Sources(p)| == |Sources(nodes[..j])|;
    ImgIndicesLength(nodes[..j]);
    SourcesAtMostImgs(nodes[..j]);
  }

  /** The placeholder the cleaner writes for the `<img>` at `i` carries the
      entry of `ImgIndices` at that element's rank among the `<img>`s. */
  lemma PieceIsIndex(nodes: seq<Node>, i: nat)
    requires i < |nodes| && nodes[i].Img?
    ensures ImgCount(nodes[..i]) < |ImgIndices(nodes)|
    ensures Piece(nodes, i) == Placeholder(ImgIndices(nodes)[ImgCount(nodes[..i])])
  {
    var p := nodes[..i + 1];
    assert p[..i] == nodes[..i];
    ImgIndicesLength(nodes[..i]);
    assert ImgIndices(p) == ImgIndices(nodes[..i]) + [|Sources(p)| - 1];
    PrefixIndices(nodes, i + 1);
  }

  /** When every `<img>` has a source, the text written for the k-th `<img>`
      (counting from 0 in document order) is `[IMAGE:k]`. */
  lemma AllSourcedPieces(nodes: seq<Node>)
    requires forall i :: 0 <= i < |nodes| && nodes[i].Img? ==> HasSource(nodes[i])
    ensures forall i :: 0 <= i < |nodes| && nodes[i].Img? ==>
      Piece(nodes, i) == Placeholder(ImgCount(nodes[..i]))
  {
    AllSourcedNumbering(nodes);
    forall i | 0 <= i < |nodes| && nodes[i].Img?
      ensures Piece(nodes, i) == Placeholder(ImgCount(nodes[..i]))
    {
      PieceIsIndex(nodes, i);
    }
  }

  /** `[0, 1, ..., n - 1]`. */
  function Range(n: nat): (r: seq<int>)
    ensures |r| == n
    ensures forall k :: 0 <= k < n ==> r[k] == k
  {
    seq(n, k => k)
  }

  lemma {:induction false} SourcesAtMostImgs(nodes: seq<Node>)
    ensures |Sources(nodes)| <= ImgCount(nodes)
    decreases |nodes|
  {
    if nodes != [] {
      SourcesAtMostImgs(nodes[..|nodes| - 1]);
    }
  }

  lemma {:induction false} ImgIndicesLength(nodes: seq<Node>)
    ensures |ImgIndices(nodes)| == ImgCount(nodes)
    decreases |nodes|
  {
    if nodes != [] {
      ImgIndicesLength(nodes[..|nodes| - 1]);
    }
  }

  lemma {:induction false} ImgCountPrefix(nodes: seq<Node>, n: nat)
    requires n <= |nodes|
    ensures ImgCount(nodes[..n]) <= ImgCount(nodes)
    decreases |nodes|
  {
    if n < |nodes| {
      assert nodes[..|nodes| - 1][..n] == nodes[..n];
      ImgCountPrefix(nodes[..|nodes| - 1], n);
    } else {
      assert nodes[..n] == nodes;
    }
  }

  /** The indices of a prefix are a prefix of the indices. */
  lemma {:induction false} PrefixIndices(nodes: seq<Node>, n: nat)
    requires n <= |nodes|
    ensures && |ImgIndices(nodes[..n])| <= |ImgIndices(nodes)|
            && ImgIndices(nodes)[..|ImgIndices(nodes[..n])|] == ImgIndices(nodes[..n])
    decreases |nodes|
  {
    ImgIndicesLength(nodes[..n]);
    ImgIndicesLength(nodes);
    ImgCountPrefix(nodes, n);
    if n < |nodes| {
      var init := nodes[..|nodes| - 1];
      assert init[..n] == nodes[..n];
      PrefixIndices(init, n);
      ImgIndicesLength(init);
      ImgCountPrefix(init, n);
    } else {
      assert nodes[..n] == nodes;
    }
  }
}
