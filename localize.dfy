/** prepare_images.py: every `[IMAGE:n]` placeholder in a question's `stem`
    becomes an entry of the question's `_local_images` list: the path of a
    per-question copy of `n.png` when the source directory has that file,
    and "" when it does not. */
module Localize {
  import opened PyText
  import opened Json
  import opened Placeholders

  /** `f"q_{qi:04d}_img{mi}.png"`. */
  function ImgName(qi: nat, mi: nat): string {
    "q_" + ZeroPad(qi, 4) + "_img" + NatToString(mi) + ".png"
  }

  /** `f"{midx}.png"`: the source file a placeholder names, spelled with
      the placeholder's own digits (leading zeros included). */
  function SourceName(midx: string): string {
    midx + ".png"
  }

  /** The entry for occurrence `mi` of question `qi`, whose digits are
      `midx`, given the names present in the source directory. */
  function Entry(qi: nat, mi: nat, midx: string, src: set<string>): string {
    if SourceName(midx) in src then "images/" + ImgName(qi, mi) else ""
  }

  /** `local_images` after the first `m` placeholders of question `qi`. */
  function EntriesUpTo(qi: nat, toks: seq<string>, src: set<string>, m: nat): (r: seq<string>)
    requires m <= |toks|
    ensures |r| == m
  {
    if m == 0 then [] else EntriesUpTo(qi, toks, src, m - 1) + [Entry(qi, m - 1, toks[m - 1], src)]
  }

  /** `local_images` of question `qi` with placeholders `toks`. */
  function Entries(qi: nat, toks: seq<string>, src: set<string>): (r: seq<string>)
    ensures |r| == |toks|
  {
    EntriesUpTo(qi, toks, src, |toks|)
  }

  /** Entry `mi` of the list is the entry of occurrence `mi`. */
  lemma {:induction false} EntriesAt(qi: nat, toks: seq<string>, src: set<string>, m: nat, mi: nat)
    requires mi < m <= |toks|
    ensures EntriesUpTo(qi, toks, src, m)[mi] == Entry(qi, mi, toks[mi], src)
    decreases m
  {
    if mi < m - 1 {
      EntriesAt(qi, toks, src, m - 1, mi);
    }
  }

  /** The names copied into the destination directory for the first `m`
      placeholders of question `qi`. */
  function CopiedNames(qi: nat, toks: seq<string>, src: set<string>, m: nat): set<string>
    requires m <= |toks|
  {
    if m == 0 then {}
    else
      CopiedNames(qi, toks, src, m - 1)
        + (if SourceName(toks[m - 1]) in src then {ImgName(qi, m - 1)} else {})
  }

  /** The `stem` placeholders of a question. */
  function StemTokens(q: Item, repr: Value -> string): seq<string> {
    Tokens(FieldText(q, "stem", repr))
  }

  /** The JSON list stored under `_local_images`. */
  function AsList(entries: seq<string>): (v: Value)
    ensures v.List? && |v.elems| == |entries|
    ensures forall k :: 0 <= k < |entries| ==> v.elems[k] == Str(entries[k])
  {
    List(seq(|entries|, k requires 0 <= k < |entries| => Str(entries[k])))
  }

  /** Question `q`, numbered `qi`, after the loop body. */
  function Localized(q: Item, qi: nat, src: set<string>, repr: Value -> string): Item {
    q["_local_images" := AsList(Entries(qi, StemTokens(q, repr), src))]
  }

  /** The destination directory's new names after the first `n` questions. */
  function AllCopied(qs: seq<Item>, src: set<string>, repr: Value -> string, n: nat): set<string>
    requires n <= |qs|
  {
    if n == 0 then {}
    else
      var qi := n;
      var toks := StemTokens(qs[n - 1], repr);
      AllCopied(qs, src, repr, n - 1) + CopiedNames(qi, toks, src, |toks|)
  }

  /** The inner loop over the placeholders of question `qi`. */
  method LocalImages(qi: nat, toks: seq<string>, src: set<string>, dst: set<string>)
    returns (local: seq<string>, dst': set<string>)
    ensures local == Entries(qi, toks, src)
    ensures dst' == dst + CopiedNames(qi, toks, src, |toks|)
  {
    local := [];
    dst' := dst;
    for mi := 0 to |toks|
      invariant local == EntriesUpTo(qi, toks, src, mi)
      invariant dst' == dst + CopiedNames(qi, toks, src, mi)
    {
      var imgName := ImgName(qi, mi);
      if SourceName(toks[mi]) in src {
        dst' := dst' + {imgName};
        local := local + ["images/" + imgName];
      } else {
        local := local + [""];
      }
    }
  }

  /** `main`, given the parsed file, the names in the source directory and
      those in the destination directory: the `updated` list it writes and
      the destination directory afterwards. */
  method PrepareImages(doc: Document, repr: Value -> string, src: set<string>, dst: set<string>)
    returns (updated: seq<Item>, dst': set<string>)
    ensures |updated| == |Questions(doc)|
    ensures forall i :: 0 <= i < |updated| ==> updated[i] == Localized(Questions(doc)[i], i + 1, src, repr)
    ensures dst' == dst + AllCopied(Questions(doc), src, repr, |Questions(doc)|)
  {
    var qs := Questions(doc);
    updated := [];
    dst' := dst;
    for i := 0 to |qs|
      invariant |updated| == i
      invariant forall j :: 0 <= j < i ==> updated[j] == Localized(qs[j], j + 1, src, repr)
      invariant dst' == dst + AllCopied(qs, src, repr, i)
    {
      var q;
      var toks := StemTokens(qs[i], repr);
      assert AllCopied(qs, src, repr, i + 1) == AllCopied(qs, src, repr, i) + CopiedNames(i + 1, toks, src, |toks|);
      q, dst' := LocalizeQuestion(qs[i], i + 1, src, dst', repr);
      updated := updated + [q];
    }
  }

  /** The body of the question loop. */
  method LocalizeQuestion(q: Item, qi: nat, src: set<string>, dst: set<string>, repr: Value -> string)
    returns (q': Item, dst': set<string>)
    ensures q' == Localized(q, qi, src, repr)
    ensures dst' == dst + CopiedNames(qi, StemTokens(q, repr), src, |StemTokens(q, repr)|)
  {
    var stem := FieldText(q, "stem", repr);
    var matches := Tokens(stem);
    var local;
    local, dst' := LocalImages(qi, matches, src, dst);
    q' := q["_local_images" := AsList(local)];
  }

  // ---------------------------------------------------------------------
  // Properties

  /** The question keeps every other key and value: it only gains (or has
      replaced) `_local_images`. */
  lemma OnlyLocalImagesChanges(q: Item, qi: nat, src: set<string>, repr: Value -> string)
    ensures var r := Localized(q, qi, src, repr);
      && "_local_images" in r
      && (forall k :: k != "_local_images" ==> (k in r <==> k in q))
      && (forall k :: k != "_local_images" && k in q ==> r[k] == q[k])
  {
  }

  /** A question without `stem` gets an empty list. */
  lemma NoStemNoImages(q: Item, qi: nat, src: set<string>, repr: Value -> string)
    requires "stem" !in q
    ensures Localized(q, qi, src, repr)["_local_images"] == List([])
  {
    assert StemTokens(q, repr) == [];
  }

  /** The number written after `q_` is followed by `_`, which is not a
      digit, so it can be read back from the name. */
  lemma ImgNameParts(qi: nat, mi: nat)
    ensures var s, a := ImgName(qi, mi), ZeroPad(qi, 4);
      && |s| == 2 + |a| + 4 + |NatToString(mi)| + 4
      && s[2..2 + |a|] == a && s[2 + |a|] == '_'
      && s[2 + |a| + 4..|s| - 4] == NatToString(mi)
  {
    var a, d := ZeroPad(qi, 4), NatToString(mi);
    var s := ImgName(qi, mi);
    assert s == "q_" + a + "_img" + d + ".png";
    assert forall k :: 0 <= k < |a| ==> s[2 + k] == a[k];
    assert forall k :: 0 <= k < |d| ==> s[2 + |a| + 4 + k] == d[k];
  }

  lemma NatToStringInjective(m: nat, n: nat)
    requires NatToString(m) == NatToString(n)
    ensures m == n
  {
    DigitsValueOfNatToString(m);
    DigitsValueOfNatToString(n);
  }

  /** Distinct (question, occurrence) pairs get distinct names. */
  lemma ImgNameInjective(qi: nat, mi: nat, qj: nat, mj: nat)
    requires ImgName(qi, mi) == ImgName(qj, mj)
    ensures qi == qj && mi == mj
  {
    var s := ImgName(qi, mi);
    var a, b := ZeroPad(qi, 4), ZeroPad(qj, 4);
    ImgNameParts(qi, mi);
    ImgNameParts(qj, mj);
    assert forall k :: 2 <= k < 2 + |a| ==> IsAsciiDigit(s[k]) by {
      assert forall k :: 0 <= k < |a| ==> s[2 + k] == a[k];
    }
    assert forall k :: 2 <= k < 2 + |b| ==> IsAsciiDigit(s[k]) by {
      assert forall k :: 0 <= k < |b| ==> s[2 + k] == b[k];
    }
    assert |a| == |b|;
    assert a == b;
    ZeroPadInjective(qi, qj, 4);
    NatToStringInjective(mi, mj);
  }

  /** No two placeholders of the whole file are copied to the same path. */
  lemma EntriesDistinct(qs: seq<Item>, src: set<string>, repr: Value -> string,
                        i: nat, mi: nat, j: nat, mj: nat)
    requires i < |qs| && j < |qs|
    requires mi < |StemTokens(qs[i], repr)| && mj < |StemTokens(qs[j], repr)|
    requires Entries(i + 1, StemTokens(qs[i], repr), src)[mi] != ""
    requires Entries(i + 1, StemTokens(qs[i], repr), src)[mi] == Entries(j + 1, StemTokens(qs[j], repr), src)[mj]
    ensures i == j && mi == mj
  {
    var ti, tj := StemTokens(qs[i], repr), StemTokens(qs[j], repr);
    EntryNamed(i + 1, ti, src, mi);
    EntryNamed(j + 1, tj, src, mj);
    var n1, n2 := ImgName(i + 1, mi), ImgName(j + 1, mj);
    assert n1 == n2 by {
      assert n1 == ("images/" + n1)[7..];
      assert n2 == ("images/" + n2)[7..];
    }
    ImgNameInjective(i + 1, mi, j + 1, mj);
  }

  /** A non-empty entry is the path of its occurrence's file. */
  lemma EntryNamed(qi: nat, toks: seq<string>, src: set<string>, mi: nat)
    requires mi < |toks| && Entries(qi, toks, src)[mi] != ""
    ensures Entries(qi, toks, src)[mi] == "images/" + ImgName(qi, mi)
  {
    EntriesAt(qi, toks, src, |toks|, mi);
  }

  /** Every non-empty entry names a file the loop copied. */
  lemma {:induction false} EntriesCopied(qi: nat, toks: seq<string>, src: set<string>, m: nat, mi: nat)
    requires mi < m <= |toks|
    requires Entries(qi, toks, src)[mi] != ""
    ensures ImgName(qi, mi) in CopiedNames(qi, toks, src, m)
    decreases m
  {
    EntriesAt(qi, toks, src, |toks|, mi);
    if mi < m - 1 {
      EntriesCopied(qi, toks, src, m - 1, mi);
    }
  }
}
