/** check_images.py: the image indices the questions ask for through
    `[IMAGE:n]` placeholders, the integer stems of the `.png` files in the
    image directory, and the two differences between them.  The check only
    reads: the question file and the directory listing are inputs and
    nothing is written. */
module Reconcile {
  import opened Wrappers
  import opened PyText
  import opened Order
  import opened Json
  import opened Placeholders

  // ---------------------------------------------------------------------
  // collect_needed_indices (lines 7-20)

  /** `for field in ["question", "explanation"]`. */
  const IndexFields: seq<string> := ["question", "explanation"]

  /** `int(m) for m in matches`, for the digit strings the placeholder
      regex captures. */
  function TokenValues(toks: seq<string>): set<int>
    requires forall k, i :: 0 <= k < |toks| && 0 <= i < |toks[k]| ==> IsAsciiDigit(toks[k][i])
  {
    set k | 0 <= k < |toks| :: DigitsValue(toks[k])
  }

  /** The indices named in one field of a question. */
  function FieldIndices(q: Item, field: string, repr: Value -> string): set<int> {
    TokenValues(Tokens(FieldText(q, field, repr)))
  }

  /** The indices named in the given fields of a question, gathered in
      field order. */
  function FieldsIndices(q: Item, fields: seq<string>, repr: Value -> string): set<int> {
    Union(fields, field => FieldIndices(q, field, repr))
  }

  /** The union of `g` over `qs`, gathered in list order. */
  function Union<T>(qs: seq<T>, g: T -> set<int>): set<int>
    decreases |qs|
  {
    if qs == [] then {}
    else
      var n := |qs| - 1;
      Union(qs[..n], g) + g(qs[n])
  }

  lemma {:induction false} UnionMembers<T>(qs: seq<T>, g: T -> set<int>, x: int)
    ensures x in Union(qs, g) <==> exists i :: 0 <= i < |qs| && x in g(qs[i])
    decreases |qs|
  {
    if qs != [] {
      var n := |qs| - 1;
      var init := qs[..n];
      UnionMembers(init, g, x);
      if x in Union(init, g) {
        var i :| 0 <= i < n && x in g(init[i]);
        assert init[i] == qs[i];
      }
      if exists i :: 0 <= i < |qs| && x in g(qs[i]) {
        var i :| 0 <= i < |qs| && x in g(qs[i]);
        if i < n {
          assert init[i] == qs[i];
        }
      }
    }
  }

  lemma UnionStep<T>(qs: seq<T>, g: T -> set<int>, i: nat)
    requires i < |qs|
    ensures Union(qs[..i + 1], g) == Union(qs[..i], g) + g(qs[i])
  {
    assert qs[..i + 1][..i] == qs[..i];
  }

  /** The indices one question contributes. */
  function QuestionIndices(repr: Value -> string): Item -> set<int> {
    q => FieldsIndices(q, IndexFields, repr)
  }

  /** The `indices` set after the loop has seen `qs`. */
  function NeededSet(qs: seq<Item>, repr: Value -> string): set<int> {
    Union(qs, QuestionIndices(repr))
  }

  /** Independently of the loop: `x` is asked for by the question when one
      of its two scanned fields holds a placeholder whose digits read `x`. */
  ghost predicate AsksFor(q: Item, x: int, repr: Value -> string) {
    exists field, k ::
      && field in IndexFields
      && 0 <= k < |Tokens(FieldText(q, field, repr))|
      && DigitsValue(Tokens(FieldText(q, field, repr))[k]) == x
  }

  lemma FieldsIndicesMembers(q: Item, fields: seq<string>, x: int, repr: Value -> string)
    ensures x in FieldsIndices(q, fields, repr) <==>
      exists j :: 0 <= j < |fields| && x in FieldIndices(q, fields[j], repr)
  {
    UnionMembers(fields, field => FieldIndices(q, field, repr), x);
  }

  lemma QuestionIndicesMembers(q: Item, x: int, repr: Value -> string)
    ensures x in FieldsIndices(q, IndexFields, repr) <==> AsksFor(q, x, repr)
  {
    FieldsIndicesMembers(q, IndexFields, x, repr);
    if AsksFor(q, x, repr) {
      var field, k :| field in IndexFields && 0 <= k < |Tokens(FieldText(q, field, repr))|
        && DigitsValue(Tokens(FieldText(q, field, repr))[k]) == x;
      var j :| 0 <= j < |IndexFields| && IndexFields[j] == field;
      assert x in FieldIndices(q, IndexFields[j], repr);
    }
  }

  /** A question whose text is one placeholder asks for exactly its index;
      leading zeros written into a placeholder do not change the index. */
  lemma PlaceholderAsksFor(n: nat, x: int, repr: Value -> string)
    ensures AsksFor(map["question" := Str(Placeholder(n))], x, repr) <==> x == n
  {
    var q := map["question" := Str(Placeholder(n))];
    PlaceholderFound(n);
    DigitsValueOfNatToString(n);
    assert FieldText(q, "question", repr) == Placeholder(n);
    assert FieldText(q, "explanation", repr) == "";
    assert Tokens("") == [];
    if x == n {
      assert DigitsValue(Tokens(FieldText(q, "question", repr))[0]) == x;
    }
  }

  lemma FieldsIndicesStep(q: Item, fields: seq<string>, f: nat, repr: Value -> string)
    requires f < |fields|
    ensures FieldsIndices(q, fields[..f + 1], repr) == FieldsIndices(q, fields[..f], repr) + FieldIndices(q, fields[f], repr)
  {
    UnionStep(fields, field => FieldIndices(q, field, repr), f);
  }

  lemma SliceAll<T>(s: seq<T>)
    ensures s[..|s|] == s
  {
  }

  /** `collect_needed_indices`, given the parsed file: the sorted list of
      every index a placeholder in `question` or `explanation` names. */
  method CollectNeeded(doc: Document, repr: Value -> string) returns (needed: seq<int>)
    ensures needed == SortedSet(NeededSet(Questions(doc), repr))
    ensures StrictlyIncreasing(needed)
    ensures forall x :: x in needed <==>
      exists i :: 0 <= i < |Questions(doc)| && AsksFor(Questions(doc)[i], x, repr)
  {
    var qs := Questions(doc);
    ghost var g := QuestionIndices(repr);
    var indices: set<int> := {};
    for i := 0 to |qs|
      invariant indices == Union(qs[..i], g)
    {
      UnionStep(qs, g, i);
      indices := AddQuestionIndices(indices, qs[i], repr);
    }
    SliceAll(qs);
    needed := SortedSet(indices);
    forall x ensures x in needed <==> exists i :: 0 <= i < |qs| && AsksFor(qs[i], x, repr) {
      NeededMembers(qs, x, repr);
    }
  }

  /** The inner loop: both scanned fields of one question, in order. */
  method AddQuestionIndices(indices: set<int>, q: Item, repr: Value -> string) returns (indices': set<int>)
    ensures indices' == indices + FieldsIndices(q, IndexFields, repr)
  {
    indices' := indices;
    for f := 0 to |IndexFields|
      invariant indices' == indices + FieldsIndices(q, IndexFields[..f], repr)
    {
      var text := FieldText(q, IndexFields[f], repr);
      var matches := Tokens(text);
      FieldsIndicesStep(q, IndexFields, f, repr);
      indices' := indices' + TokenValues(matches);
    }
    SliceAll(IndexFields);
  }

  lemma NeededMembers(qs: seq<Item>, x: int, repr: Value -> string)
    ensures x in NeededSet(qs, repr) <==> exists i :: 0 <= i < |qs| && AsksFor(qs[i], x, repr)
  {
    var g := QuestionIndices(repr);
    UnionMembers(qs, g, x);
    forall i | 0 <= i < |qs|
      ensures x in g(qs[i]) <==> AsksFor(qs[i], x, repr)
    {
      QuestionIndicesMembers(qs[i], x, repr);
    }
  }

  // ---------------------------------------------------------------------
  // int() and os.path.splitext

  /** The digits of a literal with single underscores between digits, as
      `int()` accepts them: it starts with a digit and every underscore is
      followed by a digit. */
  predicate UnderscoredDigits(b: string) {
    && b != [] && IsAsciiDigit(b[0])
    && forall k :: 0 <= k < |b| ==> IsAsciiDigit(b[k]) || (b[k] == '_' && k + 1 < |b| && IsAsciiDigit(b[k + 1]))
  }

  /** The digits of `b` with everything else dropped. */
  function DigitsOnly(b: string): (r: string)
    ensures forall k :: 0 <= k < |r| ==> IsAsciiDigit(r[k])
    decreases |b|
  {
    if b == [] then []
    else DigitsOnly(b[..|b| - 1]) + (if IsAsciiDigit(b[|b| - 1]) then [b[|b| - 1]] else [])
  }

  /** The stripped literal: an optional sign, then decimal digits with
      single underscores between them. */
  function ParseSigned(t: string): (r: Option<int>)
  {
    var signed := t != [] && (t[0] == '-' || t[0] == '+');
    var body := if signed then t[1..] else t;
    if !UnderscoredDigits(body) then None
    else
      var v: int := DigitsValue(DigitsOnly(body));
      Some(if signed && t[0] == '-' then -v else v)
  }

  /** `int(s)` for a `str`: spaces around, then the literal.  None stands
      for the `ValueError`. */
  function ParseInt(s: string): Option<int> {
    ParseSigned(Strip(s))
  }

  lemma {:induction false} DigitsOnlyOfDigits(s: string)
    requires forall k :: 0 <= k < |s| ==> IsAsciiDigit(s[k])
    ensures DigitsOnly(s) == s
    decreases |s|
  {
    if s != [] {
      DigitsOnlyOfDigits(s[..|s| - 1]);
      assert s[..|s| - 1] + [s[|s| - 1]] == s;
    }
  }

  /** `int(m)` on what `\[IMAGE:(\d+)\]` captures never raises and reads
      the digits' value. */
  lemma ParseDigits(m: string)
    requires m != [] && forall k :: 0 <= k < |m| ==> IsAsciiDigit(m[k])
    ensures ParseInt(m) == Some(DigitsValue(m))
  {
    assert IsAsciiDigit(m[0]) && IsAsciiDigit(m[|m| - 1]);
    assert !IsSpace(m[0]) && !IsSpace(m[|m| - 1]);
    StripUnpadded(m);
    assert ParseInt(m) == ParseSigned(m);
    SignedDigits(m);
  }

  lemma SignedDigits(m: string)
    requires m != [] && forall k :: 0 <= k < |m| ==> IsAsciiDigit(m[k])
    ensures ParseSigned(m) == Some(DigitsValue(m))
  {
    DigitsAreUnderscored(m);
    UnsignedLiteral(m);
    DigitsOnlyOfDigits(m);
  }

  lemma DigitsAreUnderscored(m: string)
    requires m != [] && forall k :: 0 <= k < |m| ==> IsAsciiDigit(m[k])
    ensures UnderscoredDigits(m) && m[0] != '-' && m[0] != '+'
  {
  }

  /** A literal with no sign reads as the value of its digits. */
  lemma UnsignedLiteral(m: string)
    requires UnderscoredDigits(m) && m[0] != '-' && m[0] != '+'
    ensures ParseSigned(m) == Some(DigitsValue(DigitsOnly(m)))
  {
  }

  /** The index of the last occurrence of `c` in `p[..n]`, or -1. */
  function LastIndex(p: string, c: char, n: nat): (i: int)
    requires n <= |p|
    ensures -1 <= i < n
    ensures i >= 0 ==> p[i] == c
    ensures forall k :: i < k < n ==> p[k] != c
    decreases n
  {
    if n == 0 then -1 else if p[n - 1] == c then n - 1 else LastIndex(p, c, n - 1)
  }

  /** `os.path.splitext(p)[0]` (POSIX): the text before the last dot, when
      that dot follows the last '/' and something other than a dot comes
      between them; otherwise all of `p`. */
  function Stem(p: string): (r: string)
    ensures |r| <= |p| && r == p[..|r|]
  {
    var sep := LastIndex(p, '/', |p|);
    var dot := LastIndex(p, '.', |p|);
    if dot > sep && exists k :: sep + 1 <= k < dot && p[k] != '.' then p[..dot] else p
  }

  /** `f.endswith(".png")`. */
  predicate IsPng(f: string) {
    |f| >= 4 && f[|f| - 4..] == ".png"
  }

  /** The names `rename_images` writes are read back as their index. */
  lemma StemOfIndexName(n: nat)
    ensures IsPng(NatToString(n) + ".png")
    ensures Stem(NatToString(n) + ".png") == NatToString(n)
    ensures ParseInt(Stem(NatToString(n) + ".png")) == Some(n)
  {
    var d := NatToString(n);
    var p := d + ".png";
    assert p[|p| - 4..] == ".png";
    assert p[|d|] == '.' && p[0] == d[0];
    assert forall k :: |d| < k < |p| ==> p[k] != '.' && p[k] != '/';
    assert forall k :: 0 <= k < |d| ==> p[k] == d[k];
    assert LastIndex(p, '.', |p|) == |d|;
    assert LastIndex(p, '/', |p|) == -1;
    assert p[..|d|] == d;
    ParseDigits(d);
    DigitsValueOfNatToString(n);
  }

  /** A name made only of dots before `png` (`.png`, `..png`, ...) keeps
      its whole name as stem: the leading dots are not an extension.  That
      stem is no integer. */
  lemma DotsOnlyName(d: string)
    requires d != [] && forall k :: 0 <= k < |d| ==> d[k] == '.'
    ensures IsPng(d + "png")
    ensures Stem(d + "png") == d + "png" && ParseInt(Stem(d + "png")) == None
  {
    var f := d + "png";
    assert f[|d| - 1] == '.' && f[|d|..] == "png";
    assert LastIndex(f, '.', |d|) == |d| - 1;
    assert LastIndex(f, '.', |f|) == |d| - 1;
    assert forall k :: 0 <= k < |d| ==> f[k] == '.';
    assert LastIndex(f, '/', |f|) == -1;
    assert Stem(f) == f;
    assert f[0] == '.';
    StripUnpadded(f);
    assert !UnderscoredDigits(f);
  }

  // ---------------------------------------------------------------------
  // check_images (lines 22-39)

  /** The names the comprehension keeps: the `.png` names, in listing
      order. */
  function PngNames(listing: seq<string>): (r: seq<string>)
    ensures forall f :: f in r <==> f in listing && IsPng(f)
    decreases |listing|
  {
    if listing == [] then []
    else
      var n := |listing| - 1;
      PngNames(listing[..n]) + (if IsPng(listing[n]) then [listing[n]] else [])
  }

  /** The comprehension's outcome: the values in order, or the first
      name whose stem `int()` rejects. */
  datatype Stems = Values(vs: seq<int>) | BadStem(name: string)

  /** `[parse(f) for f in names]`, stopping at the first failure. */
  function Gather(names: seq<string>, parse: string -> Option<int>): (r: Stems)
    decreases |names|
  {
    if names == [] then Values([])
    else
      var n := |names| - 1;
      match Gather(names[..n], parse)
      case BadStem(name) => BadStem(name)
      case Values(vs) =>
        match parse(names[n])
        case None => BadStem(names[n])
        case Some(v) => Values(vs + [v])
  }

  /** On success there is one value per name, each the name's parse; a
      failure names the first name that does not parse. */
  lemma {:induction false} GatherSpec(names: seq<string>, parse: string -> Option<int>)
    ensures Gather(names, parse).Values? <==> forall k :: 0 <= k < |names| ==> parse(names[k]).Some?
    ensures Gather(names, parse).Values? ==>
      && |Gather(names, parse).vs| == |names|
      && forall k :: 0 <= k < |names| ==> parse(names[k]) == Some(Gather(names, parse).vs[k])
    ensures Gather(names, parse).BadStem? ==>
      exists i :: 0 <= i < |names| && names[i] == Gather(names, parse).name
        && parse(names[i]).None? && forall k :: 0 <= k < i ==> parse(names[k]).Some?
    decreases |names|
  {
    if names != [] {
      var n := |names| - 1;
      var init := names[..n];
      GatherSpec(init, parse);
      assert forall k :: 0 <= k < n ==> init[k] == names[k];
      if Gather(init, parse).BadStem? {
        var i :| 0 <= i < |init| && init[i] == Gather(init, parse).name
          && parse(init[i]).None? && forall k :: 0 <= k < i ==> parse(init[k]).Some?;
        assert names[i] == init[i];
      }
    }
  }

  /** `int(os.path.splitext(f)[0])`. */
  function StemValue(f: string): Option<int> {
    ParseInt(Stem(f))
  }

  /** `[int(os.path.splitext(f)[0]) for f in os.listdir(image_dir) if
      f.endswith(".png")]`. */
  function FoundValues(listing: seq<string>): Stems {
    Gather(PngNames(listing), StemValue)
  }

  /** `[i for i in a if i not in b]`. */
  function Without(a: seq<int>, b: seq<int>): seq<int>
    decreases |a|
  {
    if a == [] then []
    else
      var n := |a| - 1;
      Without(a[..n], b) + (if a[n] in b then [] else [a[n]])
  }

  /** `Without` keeps exactly the elements of `a` missing from `b`. */
  lemma {:induction false} WithoutMembers(a: seq<int>, b: seq<int>, x: int)
    ensures x in Without(a, b) <==> x in a && x !in b
    decreases |a|
  {
    if a != [] {
      var n := |a| - 1;
      WithoutMembers(a[..n], b, x);
      assert a == a[..n] + [a[n]];
    }
  }

  /** `Without` keeps every copy of an element of `a` missing from `b`, as
      a list comprehension does: a value listed twice in `a` and absent
      from `b` is reported twice. */
  lemma {:induction false} WithoutCount(a: seq<int>, b: seq<int>, x: int)
    ensures multiset(Without(a, b))[x] == if x in b then 0 else multiset(a)[x]
    decreases |a|
  {
    if a != [] {
      var n := |a| - 1;
      WithoutCount(a[..n], b, x);
      assert a == a[..n] + [a[n]];
    }
  }

  /** `Without` keeps the order of `a`, so it keeps `a` ascending. */
  lemma {:induction false} WithoutOrdered(a: seq<int>, b: seq<int>)
    ensures NonDecreasing(a) ==> NonDecreasing(Without(a, b))
    ensures StrictlyIncreasing(a) ==> StrictlyIncreasing(Without(a, b))
    decreases |a|
  {
    if a != [] {
      var n := |a| - 1;
      var w := Without(a[..n], b);
      WithoutOrdered(a[..n], b);
      forall i | 0 <= i < |w| ensures w[i] in a[..n] {
        WithoutMembers(a[..n], b, w[i]);
      }
      if NonDecreasing(a) {
        assert forall i :: 0 <= i < |w| ==> w[i] <= a[n];
      }
      if StrictlyIncreasing(a) {
        assert forall i :: 0 <= i < |w| ==> w[i] < a[n];
      }
    }
  }

  /** Both differences are empty exactly when the two lists hold the same
      values. */
  lemma WithoutBothEmpty(a: seq<int>, b: seq<int>)
    ensures (Without(a, b) == [] && Without(b, a) == []) <==> (forall x :: x in a <==> x in b)
  {
    forall x ensures (x in Without(a, b) <==> x in a && x !in b) && (x in Without(b, a) <==> x in b && x !in a) {
      WithoutMembers(a, b, x);
      WithoutMembers(b, a, x);
    }
    if forall x :: x in a <==> x in b {
      EmptyOrMember(Without(a, b));
      EmptyOrMember(Without(b, a));
    }
  }

  lemma EmptyOrMember(w: seq<int>)
    ensures w == [] || exists y :: y in w
  {
    if w != [] {
      var y := w[0];
      assert y in w;
    }
  }

  /** What the script reports: the four lists (the OK message when the
      last two are empty), or the `ValueError` of the `found`
      comprehension. */
  datatype Report =
    | Checked(needed: seq<int>, found: seq<int>, missing: seq<int>, extra: seq<int>)
    | StemError(name: string)

  /** The `[OK]` branch. */
  predicate AllMatch(r: Report) {
    r.Checked? && r.missing == [] && r.extra == []
  }

  /** `check_images`, with the directory listing as `listing` (in the
      order `os.listdir` returns it). */
  method CheckImages(doc: Document, repr: Value -> string, listing: seq<string>) returns (report: Report)
    ensures FoundValues(listing).BadStem? <==> report.StemError?
    ensures report.StemError? ==> report.name == FoundValues(listing).name
    ensures report.Checked? ==>
      && report.needed == SortedSet(NeededSet(Questions(doc), repr))
      && multiset(report.found) == multiset(FoundValues(listing).vs)
      && NonDecreasing(report.found)
    ensures report.Checked? ==>
      && StrictlyIncreasing(report.missing)
      && NonDecreasing(report.extra)
      && (forall x :: x in report.missing <==> x in report.needed && x !in report.found)
      && (forall x :: x in report.extra <==> x in report.found && x !in report.needed)
    ensures report.Checked? ==>
      && report.missing == Without(report.needed, report.found)
      && report.extra == Without(report.found, report.needed)
      && (forall x :: multiset(report.extra)[x] ==
            if x in report.needed then 0 else multiset(report.found)[x])
    ensures report.Checked? ==>
      (AllMatch(report) <==> forall x :: x in report.needed <==> x in report.found)
  {
    var needed := CollectNeeded(doc, repr);
    var stems := FoundValues(listing);
    if stems.BadStem? {
      return StemError(stems.name);
    }
    var found := Sort(stems.vs);
    var missing := Without(needed, found);
    var extra := Without(found, needed);
    forall x
      ensures (x in missing <==> x in needed && x !in found) && (x in extra <==> x in found && x !in needed)
      ensures multiset(extra)[x] == if x in needed then 0 else multiset(found)[x]
    {
      WithoutMembers(needed, found, x);
      WithoutMembers(found, needed, x);
      WithoutCount(found, needed, x);
    }
    WithoutOrdered(needed, found);
    WithoutOrdered(found, needed);
    WithoutBothEmpty(needed, found);
    report := Checked(needed, found, missing, extra);
  }
}
