/** rename_images_by_url.py: every image file name found in the raw HTML
    gets a dense index in order of first appearance, and each name present
    in the image directory is copied to `<index>.png`. */
module ImageMapping {
  import opened PyText
  import opened Json
  import opened ImgTags

  /** The `mapping` dict: its keys in insertion order (the order
      `mapping.items()` visits them) and the index stored under each. */
  datatype NameIndex = NameIndex(keys: seq<string>, index: map<string, int>)

  predicate Distinct(s: seq<string>) {
    forall i, j :: 0 <= i < j < |s| ==> s[i] != s[j]
  }

  /** The keys are distinct, they are exactly the mapped names, and the
      name at position `i` is mapped to `i`: the values are exactly
      `0 .. len(mapping) - 1`. */
  ghost predicate WellFormed(d: NameIndex) {
    && Distinct(d.keys)
    && (forall f :: f in d.index <==> f in d.keys)
    && (forall i :: 0 <= i < |d.keys| ==> d.index[d.keys[i]] == i)
  }

  /** One pass of the innermost loop body: a name not yet mapped gets the
      counter (the number of keys so far); a name seen before is left
      alone. */
  function Extend(d: NameIndex, f: string): NameIndex {
    if f in d.index then d else NameIndex(d.keys + [f], d.index[f := |d.keys|])
  }

  /** The dict after the loop has seen `names`. */
  function Build(names: seq<string>): NameIndex
    decreases |names|
  {
    if names == [] then NameIndex([], map[])
    else Extend(Build(names[..|names| - 1]), names[|names| - 1])
  }

  /** Seeing one more source extends the dict by its file name. */
  lemma BuildStep(urls: seq<string>, u: string)
    ensures Build(FileNames(urls + [u])) == Extend(Build(FileNames(urls)), Naming.UrlFileName(u))
  {
    var names := FileNames(urls + [u]);
    assert names[..|names| - 1] == FileNames(urls);
  }

  /** The extraction keeps its invariant and maps exactly the names seen. */
  lemma {:induction false} BuildWellFormed(names: seq<string>)
    ensures WellFormed(Build(names))
    ensures forall f :: f in Build(names).index <==> f in names
    decreases |names|
  {
    if names != [] {
      var init := names[..|names| - 1];
      var f := names[|names| - 1];
      BuildWellFormed(init);
      assert names == init + [f];
      var d := Build(init);
      if f !in d.index {
        var keys := d.keys + [f];
        forall i | 0 <= i < |keys| ensures Build(names).index[keys[i]] == i {
          if i < |d.keys| {
            assert keys[i] == d.keys[i] && keys[i] != f;
          }
        }
      }
    }
  }

  /** Distinct names never share an index. */
  lemma Injective(d: NameIndex, f: string, g: string)
    requires WellFormed(d)
    requires f in d.index && g in d.index && d.index[f] == d.index[g]
    ensures f == g
  {
    var i :| 0 <= i < |d.keys| && d.keys[i] == f;
    var j :| 0 <= j < |d.keys| && d.keys[j] == g;
    assert d.index[f] == i && d.index[g] == j;
  }

  /** Seeing more names only appends keys: what was mapped stays mapped to
      the same index. */
  lemma {:induction false} BuildPrefix(names: seq<string>, n: nat)
    requires n <= |names|
    ensures var small, big := Build(names[..n]), Build(names);
      && |small.keys| <= |big.keys| && big.keys[..|small.keys|] == small.keys
      && forall f :: f in small.index ==> f in big.index && big.index[f] == small.index[f]
    decreases |names|
  {
    if n == |names| {
      assert names[..n] == names;
    } else {
      var init := names[..|names| - 1];
      assert init[..n] == names[..n];
      BuildPrefix(init, n);
    }
  }

  /** First occurrence wins: the first time a name is seen it gets the
      number of distinct names seen before it, and later occurrences do not
      change it. */
  lemma FirstOccurrence(names: seq<string>, k: nat)
    requires k < |names| && names[k] !in names[..k]
    ensures names[k] in Build(names).index
    ensures Build(names).index[names[k]] == |Build(names[..k]).keys|
  {
    BuildWellFormed(names[..k]);
    assert names[..k + 1][..k] == names[..k];
    BuildPrefix(names, k + 1);
  }

  /** Indices follow the order of first appearance. */
  lemma FirstAppearanceOrder(names: seq<string>, j: nat, k: nat)
    requires j < k < |names|
    requires names[j] !in names[..j] && names[k] !in names[..k]
    ensures names[j] in Build(names).index && names[k] in Build(names).index
    ensures Build(names).index[names[j]] < Build(names).index[names[k]]
  {
    FirstOccurrence(names, j);
    FirstOccurrence(names, k);
    assert names[..k][..j + 1] == names[..j + 1];
    BuildPrefix(names[..k], j + 1);
    assert names[..j + 1][..j] == names[..j];
    BuildWellFormed(names[..j]);
    assert names[j] !in Build(names[..j]).index;
  }

  /** The names the extraction sees: the file name of every source of every
      question, in traversal order. */
  function SeenNames(doc: Document, repr: Value -> string): seq<string> {
    FileNames(AllSrcs(Questions(doc), repr))
  }

  /** One more field of a question adds its sources. */
  lemma FieldsStep(seen: seq<string>, q: Item, fields: seq<string>, f: nat, repr: Value -> string)
    requires f < |fields|
    ensures seen + FieldsSrcs(q, fields[..f + 1], repr)
      == (seen + FieldsSrcs(q, fields[..f], repr)) + Srcs(FieldText(q, fields[f], repr))
  {
    assert fields[..f + 1][..f] == fields[..f];
  }

  lemma SliceStep<T>(seen: seq<T>, s: seq<T>, m: nat)
    requires m < |s|
    ensures seen + s[..m + 1] == (seen + s[..m]) + [s[m]]
  {
    assert s[..m + 1] == s[..m] + [s[m]];
  }

  lemma SliceEnds<T>(seen: seq<T>, s: seq<T>)
    ensures seen + s[..0] == seen && s[..|s|] == s
  {
  }

  /** The innermost loop body: a file name not yet in the dict gets the
      counter, which then moves on. */
  method AddName(mapping: NameIndex, counter: int, fname: string) returns (mapping': NameIndex, counter': int)
    requires counter == |mapping.keys|
    ensures mapping' == Extend(mapping, fname) && counter' == |mapping'.keys|
  {
    mapping', counter' := mapping, counter;
    if fname !in mapping.index {
      mapping' := NameIndex(mapping.keys + [fname], mapping.index[fname := counter]);
      counter' := counter + 1;
    }
  }

  /** The innermost loop: every source of one field, in text order. */
  method AddSources(mapping: NameIndex, counter: int, ghost seen: seq<string>, matches: seq<string>)
    returns (mapping': NameIndex, counter': int)
    requires mapping == Build(FileNames(seen)) && counter == |mapping.keys|
    ensures mapping' == Build(FileNames(seen + matches)) && counter' == |mapping'.keys|
  {
    SliceEnds(seen, matches);
    mapping', counter' := mapping, counter;
    ghost var done := seen;
    for m := 0 to |matches|
      invariant done == seen + matches[..m]
      invariant mapping' == Build(FileNames(done))
      invariant counter' == |mapping'.keys|
    {
      BuildStep(done, matches[m]);
      mapping', counter' := AddName(mapping', counter', Naming.UrlFileName(matches[m]));
      SliceStep(seen, matches, m);
      done := done + [matches[m]];
    }
  }

  /** The middle loop: the given fields of one question, in order. */
  method AddQuestion(mapping: NameIndex, counter: int, ghost seen: seq<string>,
                     q: Item, fields: seq<string>, repr: Value -> string)
    returns (mapping': NameIndex, counter': int)
    requires mapping == Build(FileNames(seen)) && counter == |mapping.keys|
    ensures mapping' == Build(FileNames(seen + FieldsSrcs(q, fields, repr)))
    ensures counter' == |mapping'.keys|
  {
    FieldsEnds(seen, q, fields, repr);
    mapping', counter' := mapping, counter;
    ghost var done := seen;
    for f := 0 to |fields|
      invariant done == seen + FieldsSrcs(q, fields[..f], repr)
      invariant mapping' == Build(FileNames(done))
      invariant counter' == |mapping'.keys|
    {
      var html := FieldText(q, fields[f], repr);
      var matches := Srcs(html);
      FieldsStep(seen, q, fields, f, repr);
      mapping', counter' := AddSources(mapping', counter', done, matches);
      done := done + matches;
    }
  }

  lemma FieldsEnds(seen: seq<string>, q: Item, fields: seq<string>, repr: Value -> string)
    ensures seen + FieldsSrcs(q, fields[..0], repr) == seen
    ensures fields[..|fields|] == fields
  {
    assert fields[..0] == [];
  }

  /** One more question adds its sources. */
  lemma AllSrcsStep(qs: seq<Item>, i: nat, repr: Value -> string)
    requires i < |qs|
    ensures AllSrcs(qs[..i + 1], repr) == AllSrcs(qs[..i], repr) + QuestionSrcs(qs[i], repr)
  {
    assert qs[..i + 1][..i] == qs[..i];
  }

  /** `extract_image_filenames_from_json` (lines 12-31), given the parsed
      file: the dict of first-appearance indices, built over the questions,
      then their two raw fields, then the sources in text order. */
  method ExtractMapping(doc: Document, repr: Value -> string) returns (mapping: NameIndex)
    ensures mapping == Build(SeenNames(doc, repr))
    ensures WellFormed(mapping)
    ensures forall f :: f in mapping.index <==> f in SeenNames(doc, repr)
  {
    var qs := Questions(doc);
    mapping := NameIndex([], map[]);
    var counter := 0;
    for i := 0 to |qs|
      invariant mapping == Build(FileNames(AllSrcs(qs[..i], repr)))
      invariant counter == |mapping.keys|
    {
      AllSrcsStep(qs, i, repr);
      mapping, counter := AddQuestion(mapping, counter, AllSrcs(qs[..i], repr), qs[i], RawFields, repr);
    }
    SliceEnds([], qs);
    BuildWellFormed(SeenNames(doc, repr));
  }

  // ---------------------------------------------------------------------
  // rename_images (lines 33-51)

  /** `f"{new_idx}.png"`. */
  function Dest(idx: int): string {
    IntToString(idx) + ".png"
  }

  /** A name whose join with the image directory is a directory: the
      directory itself, `.` or `..`.  `os.path.exists` holds for it and
      `shutil.copy` raises. */
  predicate IsDirName(name: string) {
    name == "" || name == "." || name == ".."
  }

  /** What the copy loop has done: the copies made (source name and
      destination name), the names reported missing, and whether a copy
      raised and ended the script. */
  datatype Copying = Copying(copied: seq<(string, string)>, missing: seq<string>, raised: bool)

  /** The loop over the first `n` keys of the dict; `present` is the set of
      names in the image directory. */
  function Plan(d: NameIndex, present: set<string>, n: nat): Copying
    requires n <= |d.keys| && (forall f :: f in d.keys ==> f in d.index)
    decreases n
  {
    if n == 0 then Copying([], [], false)
    else
      var c := Plan(d, present, n - 1);
      var name := d.keys[n - 1];
      if c.raised then c
      else if IsDirName(name) then c.(raised := true)
      else if name in present then c.(copied := c.copied + [(name, Dest(d.index[name]))])
      else c.(missing := c.missing + [name])
  }

  /** The destinations of a list of copies. */
  function Dests(copied: seq<(string, string)>): set<string> {
    set k | 0 <= k < |copied| :: copied[k].1
  }

  lemma DestsAppend(copied: seq<(string, string)>, pair: (string, string))
    ensures Dests(copied + [pair]) == Dests(copied) + {pair.1}
  {
    var s := copied + [pair];
    assert forall j :: 0 <= j < |copied| ==> s[j] == copied[j];
    assert s[|copied|] == pair;
  }

  /** What `rename_images` reports. */
  datatype Outcome =
    | NoImages
    | Finished(copied: seq<(string, string)>, missing: seq<string>)
    | CopyRaised(copied: seq<(string, string)>, missing: seq<string>)

  /** `rename_images`, with the image directory's names as `present` and
      the output directory's as `outDir`: it returns what it reports and
      the output directory afterwards. */
  method RenameImages(doc: Document, repr: Value -> string, present: set<string>, outDir: set<string>)
    returns (outcome: Outcome, after: set<string>)
    ensures Build(SeenNames(doc, repr)).keys == [] ==> outcome == NoImages && after == outDir
    ensures Build(SeenNames(doc, repr)).keys != [] ==>
      var d := Build(SeenNames(doc, repr));
      && WellFormed(d)
      && var c := Plan(d, present, |d.keys|);
      && outcome == (if c.raised then CopyRaised(c.copied, c.missing) else Finished(c.copied, c.missing))
      && after == outDir + Dests(c.copied)
  {
    var mapping := ExtractMapping(doc, repr);
    if mapping.keys == [] {
      return NoImages, outDir;
    }
    var c;
    c, after := CopyImages(mapping, present, outDir);
    outcome := if c.raised then CopyRaised(c.copied, c.missing) else Finished(c.copied, c.missing);
  }

  /** The copy loop of lines 42-49. */
  method CopyImages(mapping: NameIndex, present: set<string>, outDir: set<string>)
    returns (c: Copying, after: set<string>)
    requires forall f :: f in mapping.keys ==> f in mapping.index
    ensures c == Plan(mapping, present, |mapping.keys|)
    ensures after == outDir + Dests(c.copied)
  {
    c := Copying([], [], false);
    after := outDir;
    for k := 0 to |mapping.keys|
      invariant c == Plan(mapping, present, k)
      invariant after == outDir + Dests(c.copied)
    {
      if c.raised {
        continue;
      }
      var name := mapping.keys[k];
      var idx := mapping.index[name];
      if IsDirName(name) {
        c := c.(raised := true);
      } else if name in present {
        after := after + {Dest(idx)};
        DestsAppend(c.copied, (name, Dest(idx)));
        c := c.(copied := c.copied + [(name, Dest(idx))]);
      } else {
        c := c.(missing := c.missing + [name]);
      }
    }
  }

  /** Every copy takes a present name to the `.png` of its index, every
      name reported missing is absent, and nothing else is reported. */
  lemma {:induction false} PlanSound(d: NameIndex, present: set<string>, n: nat)
    requires WellFormed(d) && n <= |d.keys|
    ensures var c := Plan(d, present, n);
      && (forall k :: 0 <= k < |c.copied| ==>
            c.copied[k].0 in present && c.copied[k].0 in d.index
            && c.copied[k].1 == Dest(d.index[c.copied[k].0]))
      && (forall k :: 0 <= k < |c.missing| ==> c.missing[k] !in present && c.missing[k] in d.keys)
      && |c.copied| + |c.missing| <= n
    decreases n
  {
    if n > 0 {
      PlanSound(d, present, n - 1);
    }
  }

  /** Without a directory name among the keys, every key is either copied
      or reported missing, in dict order. */
  lemma {:induction false} PlanComplete(d: NameIndex, present: set<string>, n: nat)
    requires WellFormed(d) && n <= |d.keys|
    requires forall k :: 0 <= k < n ==> !IsDirName(d.keys[k])
    ensures var c := Plan(d, present, n);
      && !c.raised
      && |c.copied| + |c.missing| == n
      && (forall k :: 0 <= k < n && d.keys[k] in present ==> (d.keys[k], Dest(k)) in c.copied)
      && (forall k :: 0 <= k < n && d.keys[k] !in present ==> d.keys[k] in c.missing)
    decreases n
  {
    if n > 0 {
      PlanComplete(d, present, n - 1);
      var c0, c := Plan(d, present, n - 1), Plan(d, present, n);
      var name := d.keys[n - 1];
      assert d.index[name] == n - 1;
      assert forall e :: e in c0.copied ==> e in c.copied;
      assert forall e :: e in c0.missing ==> e in c.missing;
    }
  }

  /** `str(i)` is injective on non-negative integers. */
  lemma DestInjective(i: nat, j: nat)
    requires Dest(i) == Dest(j)
    ensures i == j
  {
    var a, b := NatToString(i), NatToString(j);
    assert a + ".png" == b + ".png";
    assert |a| == |b|;
    assert a == (a + ".png")[..|a|];
    assert b == (b + ".png")[..|b|];
    DigitsValueOfNatToString(i);
    DigitsValueOfNatToString(j);
  }

  /** No two copies write the same destination. */
  lemma {:induction false} PlanDestsDistinct(d: NameIndex, present: set<string>, n: nat)
    requires WellFormed(d) && n <= |d.keys|
    ensures forall i, j :: 0 <= i < j < |Plan(d, present, n).copied| ==>
      Plan(d, present, n).copied[i].1 != Plan(d, present, n).copied[j].1
    ensures forall k :: 0 <= k < |Plan(d, present, n).copied| ==>
      Plan(d, present, n).copied[k].0 in d.keys[..n]
    decreases n
  {
    if n > 0 {
      PlanDestsDistinct(d, present, n - 1);
      var c := Plan(d, present, n);
      var c0 := Plan(d, present, n - 1);
      var name := d.keys[n - 1];
      assert d.keys[..n - 1] == d.keys[..n][..n - 1];
      forall k | 0 <= k < |c0.copied| ensures c0.copied[k].0 in d.keys[..n] {
        assert c0.copied[k].0 in d.keys[..n - 1];
      }
      if !c0.raised && !IsDirName(name) && name in present {
        PlanSound(d, present, n - 1);
        forall k | 0 <= k < |c0.copied| ensures c0.copied[k].1 != Dest(d.index[name]) {
          var other := c0.copied[k].0;
          var i :| 0 <= i < n - 1 && d.keys[i] == other;
          assert d.index[other] == i && d.index[name] == n - 1;
          if c0.copied[k].1 == Dest(d.index[name]) {
            DestInjective(i, n - 1);
          }
        }
      }
    }
  }
}
