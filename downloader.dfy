/** download_images.py: for every image source of every question, fetch the
    URL into the image directory unless a file of that name is already
    there, counting the sources seen and the files written. */
module Downloader {
  import opened Json
  import opened ImgTags
  import Naming
  import ImageMapping

  /** One line the loop prints: `[DOWNLOADED]`, `[ERROR]` with the status,
      `[FAIL]` when the request raised, `[SKIP]` when the file is there. */
  datatype Event =
    | Downloaded(name: string)
    | Error(name: string, status: int)
    | Failed(name: string)
    | Skipped(name: string)

  predicate IsDownload(e: Event) { e.Downloaded? }

  /** A line that is not `[DOWNLOADED]`: the summary counts these as
      "already present". */
  predicate IsKept(e: Event) { !e.Downloaded? }

  /** A line printed after a request was made. */
  predicate IsFetch(e: Event) { !e.Skipped? }

  /** The state of the run: the names in the image directory, `total`,
      `downloaded`, and the lines printed so far. */
  datatype Tally = Tally(dir: set<string>, total: nat, downloaded: nat, log: seq<Event>)

  /** The state before the first question. */
  function Start(dir: set<string>): Tally {
    Tally(dir, 0, 0, [])
  }

  /** `os.path.exists(os.path.join(image_dir, fname))`: a name in the
      directory, or one whose join names the directory itself or its
      parent. */
  predicate Exists(dir: set<string>, name: string) {
    ImageMapping.IsDirName(name) || name in dir
  }

  /** The line printed for `url`.  `nameOf` gives the file name of a URL;
      `fetch(k, url)` is what `requests.get` does for the `k`-th source. */
  function EventOf(t: Tally, url: string, nameOf: string -> string,
                   fetch: (nat, string) -> Naming.Fetch): Event
  {
    var name := nameOf(url);
    if Exists(t.dir, name) then Skipped(name)
    else match fetch(t.total, url)
      case Raised => Failed(name)
      case Response(status) => if status == 200 then Downloaded(name) else Error(name, status)
  }

  /** The loop body for one source. */
  function Step(t: Tally, url: string, nameOf: string -> string,
                fetch: (nat, string) -> Naming.Fetch): Tally
  {
    var e := EventOf(t, url, nameOf, fetch);
    Tally(if e.Downloaded? then t.dir + {e.name} else t.dir,
          t.total + 1,
          if e.Downloaded? then t.downloaded + 1 else t.downloaded,
          t.log + [e])
  }

  /** The loop over the sources `urls`, in order. */
  function Run(t: Tally, urls: seq<string>, nameOf: string -> string,
               fetch: (nat, string) -> Naming.Fetch): Tally
    decreases |urls|
  {
    if urls == [] then t
    else
      var n := |urls| - 1;
      Step(Run(t, urls[..n], nameOf, fetch), urls[n], nameOf, fetch)
  }

  /** The number of lines satisfying `p`. */
  function Count(log: seq<Event>, p: Event -> bool): nat
    decreases |log|
  {
    if log == [] then 0
    else
      var n := |log| - 1;
      Count(log[..n], p) + (if p(log[n]) then 1 else 0)
  }

  /** The names of the files written. */
  function Written(log: seq<Event>): set<string>
    decreases |log|
  {
    if log == [] then {}
    else
      var n := |log| - 1;
      Written(log[..n]) + (if log[n].Downloaded? then {log[n].name} else {})
  }

  // ---------------------------------------------------------------------
  // The script

  /** One more source extends the run by one step. */
  lemma RunLast(t0: Tally, urls: seq<string>, url: string, nameOf: string -> string,
                fetch: (nat, string) -> Naming.Fetch)
    ensures Run(t0, urls + [url], nameOf, fetch) == Step(Run(t0, urls, nameOf, fetch), url, nameOf, fetch)
  {
    assert (urls + [url])[..|urls|] == urls;
  }

  /** The loop body: skip a file already present, otherwise fetch the
      source and write it on status 200. */
  method FetchOne(t: Tally, url: string, fetch: (nat, string) -> Naming.Fetch) returns (t': Tally)
    ensures t' == Step(t, url, Naming.UrlFileName, fetch)
  {
    var fname := Naming.UrlFileName(url);
    var e: Event;
    if !Exists(t.dir, fname) {
      match fetch(t.total, url)
      case Raised =>
        e := Failed(fname);
      case Response(status) =>
        if status == 200 {
          e := Downloaded(fname);
        } else {
          e := Error(fname, status);
        }
    } else {
      e := Skipped(fname);
    }
    assert e == EventOf(t, url, Naming.UrlFileName, fetch);
    var dir, downloaded := t.dir, t.downloaded;
    if e.Downloaded? {
      dir, downloaded := dir + {e.name}, downloaded + 1;
    }
    t' := Tally(dir, t.total + 1, downloaded, t.log + [e]);
    StepIs(t, url, Naming.UrlFileName, fetch, e);
  }

  lemma StepIs(t: Tally, url: string, nameOf: string -> string, fetch: (nat, string) -> Naming.Fetch, e: Event)
    requires e == EventOf(t, url, nameOf, fetch)
    ensures Step(t, url, nameOf, fetch)
      == Tally(if e.Downloaded? then t.dir + {e.name} else t.dir, t.total + 1,
               if e.Downloaded? then t.downloaded + 1 else t.downloaded, t.log + [e])
  {
  }

  /** The innermost loop: the sources of one field, in text order. */
  method FetchSources(t: Tally, ghost t0: Tally, ghost seen: seq<string>, matches: seq<string>,
                      fetch: (nat, string) -> Naming.Fetch)
    returns (t': Tally)
    requires t == Run(t0, seen, Naming.UrlFileName, fetch)
    ensures t' == Run(t0, seen + matches, Naming.UrlFileName, fetch)
  {
    ImageMapping.SliceEnds(seen, matches);
    t' := t;
    ghost var done := seen;
    for m := 0 to |matches|
      invariant done == seen + matches[..m]
      invariant t' == Run(t0, done, Naming.UrlFileName, fetch)
    {
      RunLast(t0, done, matches[m], Naming.UrlFileName, fetch);
      t' := FetchOne(t', matches[m], fetch);
      ImageMapping.SliceStep(seen, matches, m);
      done := done + [matches[m]];
    }
  }

  /** The middle loop: the given fields of one question, in order. */
  method FetchQuestion(t: Tally, ghost t0: Tally, ghost seen: seq<string>,
                       q: Item, fields: seq<string>, repr: Value -> string,
                       fetch: (nat, string) -> Naming.Fetch)
    returns (t': Tally)
    requires t == Run(t0, seen, Naming.UrlFileName, fetch)
    ensures t' == Run(t0, seen + FieldsSrcs(q, fields, repr), Naming.UrlFileName, fetch)
  {
    ImageMapping.SliceEnds(seen, fields);
    t' := t;
    for f := 0 to |fields|
      invariant t' == Run(t0, seen + FieldsSrcs(q, fields[..f], repr), Naming.UrlFileName, fetch)
    {
      var html := FieldText(q, fields[f], repr);
      var matches := Srcs(html);
      ImageMapping.FieldsStep(seen, q, fields, f, repr);
      t' := FetchSources(t', t0, seen + FieldsSrcs(q, fields[..f], repr), matches, fetch);
    }
  }

  /** `download_missing_images`, given the parsed file, the names in the
      image directory and the request oracle: the directory afterwards,
      `total`, `downloaded` and the lines printed before the summary. */
  method DownloadMissingImages(doc: Document, repr: Value -> string, dir: set<string>,
                               fetch: (nat, string) -> Naming.Fetch)
    returns (dir': set<string>, total: nat, downloaded: nat, log: seq<Event>)
    ensures Tally(dir', total, downloaded, log)
      == Run(Start(dir), AllSrcs(Questions(doc), repr), Naming.UrlFileName, fetch)
    ensures total == |AllSrcs(Questions(doc), repr)| && downloaded <= total
    ensures dir' == dir + Written(log)
  {
    var qs := Questions(doc);
    var t := Start(dir);
    for i := 0 to |qs|
      invariant t == Run(Start(dir), AllSrcs(qs[..i], repr), Naming.UrlFileName, fetch)
    {
      ImageMapping.AllSrcsStep(qs, i, repr);
      t := FetchQuestion(t, Start(dir), AllSrcs(qs[..i], repr), qs[i], RawFields, repr, fetch);
    }
    ImageMapping.SliceEnds([], qs);
    RunFacts(dir, AllSrcs(qs, repr), Naming.UrlFileName, fetch);
    dir', total, downloaded, log := t.dir, t.total, t.downloaded, t.log;
  }

  // ---------------------------------------------------------------------
  // Properties

  lemma DropLast<T>(s: seq<T>, x: T)
    ensures (s + [x])[..|s|] == s
  {
  }

  /** `total` counts every source, `downloaded` the `[DOWNLOADED]` lines,
      one line is printed per source, and the directory gains exactly the
      names written. */
  lemma {:induction false} RunFacts(dir: set<string>, urls: seq<string>, nameOf: string -> string,
                                    fetch: (nat, string) -> Naming.Fetch)
    ensures var r := Run(Start(dir), urls, nameOf, fetch);
      && r.total == |urls| && |r.log| == |urls|
      && r.downloaded == Count(r.log, IsDownload) <= r.total
      && r.dir == dir + Written(r.log)
    decreases |urls|
  {
    if urls != [] {
      var n := |urls| - 1;
      var r0 := Run(Start(dir), urls[..n], nameOf, fetch);
      RunFacts(dir, urls[..n], nameOf, fetch);
      var e := EventOf(r0, urls[n], nameOf, fetch);
      DropLast(r0.log, e);
      CountBound(r0.log + [e], IsDownload);
    }
  }

  lemma {:induction false} CountBound(log: seq<Event>, p: Event -> bool)
    ensures Count(log, p) <= |log|
    decreases |log|
  {
    if log != [] {
      CountBound(log[..|log| - 1], p);
    }
  }

  /** Every line is either `[DOWNLOADED]` or counted as kept. */
  lemma {:induction false} CountSplit(log: seq<Event>)
    ensures Count(log, IsDownload) + Count(log, IsKept) == |log|
    decreases |log|
  {
    if log != [] {
      CountSplit(log[..|log| - 1]);
    }
  }

  /** The summary's third figure, `total - downloaded`, is the number of
      sources skipped, refused or failed: a failure counts as present. */
  lemma Summary(dir: set<string>, urls: seq<string>, nameOf: string -> string,
                fetch: (nat, string) -> Naming.Fetch)
    ensures var r := Run(Start(dir), urls, nameOf, fetch);
      r.total - r.downloaded == Count(r.log, IsKept)
  {
    var r := Run(Start(dir), urls, nameOf, fetch);
    RunFacts(dir, urls, nameOf, fetch);
    CountSplit(r.log);
  }

  /** Line `k` is the one printed for source `k`, in the state left by the
      sources before it. */
  lemma {:induction false} LogAt(dir: set<string>, urls: seq<string>, nameOf: string -> string,
                                 fetch: (nat, string) -> Naming.Fetch, k: nat)
    requires k < |urls|
    ensures |Run(Start(dir), urls, nameOf, fetch).log| == |urls|
    ensures Run(Start(dir), urls, nameOf, fetch).log[k]
      == EventOf(Run(Start(dir), urls[..k], nameOf, fetch), urls[k], nameOf, fetch)
    decreases |urls|
  {
    LogLength(dir, urls, nameOf, fetch);
    var n := |urls| - 1;
    if k < n {
      LogLength(dir, urls[..n], nameOf, fetch);
      LogAt(dir, urls[..n], nameOf, fetch, k);
      assert urls[..n][..k] == urls[..k];
    }
  }

  /** One log line per source. */
  lemma {:induction false} LogLength(dir: set<string>, urls: seq<string>, nameOf: string -> string,
                                     fetch: (nat, string) -> Naming.Fetch)
    ensures |Run(Start(dir), urls, nameOf, fetch).log| == |urls|
    decreases |urls|
  {
    if urls != [] {
      LogLength(dir, urls[..|urls| - 1], nameOf, fetch);
    }
  }

  /** A request is made for source `k` exactly when its file name does not
      exist at that point; a `[SKIP]` line names the file that does. */
  lemma FetchOnlyWhenAbsent(dir: set<string>, urls: seq<string>, nameOf: string -> string,
                            fetch: (nat, string) -> Naming.Fetch, k: nat)
    requires k < |urls|
    ensures |Run(Start(dir), urls, nameOf, fetch).log| == |urls|
    ensures var before := Run(Start(dir), urls[..k], nameOf, fetch);
      var e := Run(Start(dir), urls, nameOf, fetch).log[k];
      && e.name == nameOf(urls[k])
      && (IsFetch(e) <==> !Exists(before.dir, nameOf(urls[k])))
      && (e.Downloaded? <==> !Exists(before.dir, nameOf(urls[k])) && fetch(before.total, urls[k]) == Naming.Response(200))
  {
    LogAt(dir, urls, nameOf, fetch, k);
  }

  /** The directory only grows. */
  lemma {:induction false} DirGrows(dir: set<string>, urls: seq<string>, nameOf: string -> string,
                                    fetch: (nat, string) -> Naming.Fetch, i: nat)
    requires i <= |urls|
    ensures Run(Start(dir), urls[..i], nameOf, fetch).dir <= Run(Start(dir), urls, nameOf, fetch).dir
    decreases |urls|
  {
    if i < |urls| {
      var n := |urls| - 1;
      DirGrows(dir, urls[..n], nameOf, fetch, i);
      assert urls[..n][..i] == urls[..i];
    } else {
      assert urls[..i] == urls;
    }
  }

  /** The state after source `k` is one step past the state before it. */
  lemma RunPrefixStep(t: Tally, urls: seq<string>, nameOf: string -> string,
                      fetch: (nat, string) -> Naming.Fetch, k: nat)
    requires k < |urls|
    ensures Run(t, urls[..k + 1], nameOf, fetch) == Step(Run(t, urls[..k], nameOf, fetch), urls[k], nameOf, fetch)
  {
    assert urls[..k + 1][..k] == urls[..k];
  }

  /** No file is written over one that existed, and none is written twice. */
  lemma NeverOverwrites(dir: set<string>, urls: seq<string>, nameOf: string -> string,
                        fetch: (nat, string) -> Naming.Fetch)
    ensures var log := Run(Start(dir), urls, nameOf, fetch).log;
      && (forall k :: 0 <= k < |log| && log[k].Downloaded? ==> !Exists(dir, log[k].name))
      && (forall i, j :: 0 <= i < j < |log| && log[i].Downloaded? && log[j].Downloaded? ==>
            log[i].name != log[j].name)
  {
    DownloadedWasAbsent(dir, urls, nameOf, fetch);
    DownloadsDistinct(dir, urls, nameOf, fetch);
  }

  lemma DownloadedWasAbsent(dir: set<string>, urls: seq<string>, nameOf: string -> string,
                            fetch: (nat, string) -> Naming.Fetch)
    ensures var log := Run(Start(dir), urls, nameOf, fetch).log;
      forall k :: 0 <= k < |log| && log[k].Downloaded? ==> !Exists(dir, log[k].name)
  {
    var log := Run(Start(dir), urls, nameOf, fetch).log;
    RunFacts(dir, urls, nameOf, fetch);
    forall k | 0 <= k < |log| && log[k].Downloaded? ensures !Exists(dir, log[k].name) {
      LogAt(dir, urls, nameOf, fetch, k);
      DirGrows(dir, urls[..k], nameOf, fetch, 0);
      assert urls[..k][..0] == [];
    }
  }

  lemma DownloadsDistinct(dir: set<string>, urls: seq<string>, nameOf: string -> string,
                          fetch: (nat, string) -> Naming.Fetch)
    ensures var log := Run(Start(dir), urls, nameOf, fetch).log;
      forall i, j :: 0 <= i < j < |log| && log[i].Downloaded? && log[j].Downloaded? ==>
        log[i].name != log[j].name
  {
    var log := Run(Start(dir), urls, nameOf, fetch).log;
    RunFacts(dir, urls, nameOf, fetch);
    forall i, j | 0 <= i < j < |log| && log[i].Downloaded? && log[j].Downloaded?
      ensures log[i].name != log[j].name
    {
      LogAt(dir, urls, nameOf, fetch, i);
      LogAt(dir, urls, nameOf, fetch, j);
      DownloadPairDistinct(dir, urls, nameOf, fetch, i, j);
    }
  }

  /** The file written at step `i` is in the directory when step `j` looks. */
  lemma DownloadPairDistinct(dir: set<string>, urls: seq<string>, nameOf: string -> string,
                             fetch: (nat, string) -> Naming.Fetch, i: nat, j: nat)
    requires i < j < |urls|
    requires EventOf(Run(Start(dir), urls[..i], nameOf, fetch), urls[i], nameOf, fetch).Downloaded?
    requires EventOf(Run(Start(dir), urls[..j], nameOf, fetch), urls[j], nameOf, fetch).Downloaded?
    ensures EventOf(Run(Start(dir), urls[..i], nameOf, fetch), urls[i], nameOf, fetch).name
      != EventOf(Run(Start(dir), urls[..j], nameOf, fetch), urls[j], nameOf, fetch).name
  {
    RunPrefixStep(Start(dir), urls, nameOf, fetch, i);
    DirGrows(dir, urls[..j], nameOf, fetch, i + 1);
    assert urls[..j][..i + 1] == urls[..i + 1];
  }

  /** After a run without `[ERROR]` or `[FAIL]` lines, every source's file
      exists. */
  lemma AllCovered(dir: set<string>, urls: seq<string>, nameOf: string -> string,
                   fetch: (nat, string) -> Naming.Fetch)
    requires var log := Run(Start(dir), urls, nameOf, fetch).log;
      forall k :: 0 <= k < |log| ==> log[k].Downloaded? || log[k].Skipped?
    ensures forall k :: 0 <= k < |urls| ==> Exists(Run(Start(dir), urls, nameOf, fetch).dir, nameOf(urls[k]))
  {
    var r := Run(Start(dir), urls, nameOf, fetch);
    forall k | 0 <= k < |urls| ensures Exists(r.dir, nameOf(urls[k])) {
      LogAt(dir, urls, nameOf, fetch, k);
      RunPrefixStep(Start(dir), urls, nameOf, fetch, k);
      DirGrows(dir, urls, nameOf, fetch, k);
      DirGrows(dir, urls, nameOf, fetch, k + 1);
    }
  }

  /** When every source's file exists, the loop only skips: nothing is
      requested, written or counted as downloaded. */
  lemma {:induction false} AllPresentSkips(t: Tally, urls: seq<string>, nameOf: string -> string,
                                           fetch: (nat, string) -> Naming.Fetch)
    requires forall k :: 0 <= k < |urls| ==> Exists(t.dir, nameOf(urls[k]))
    ensures var r := Run(t, urls, nameOf, fetch);
      r.dir == t.dir && r.downloaded == t.downloaded && Count(r.log, IsFetch) == Count(t.log, IsFetch)
    decreases |urls|
  {
    if urls != [] {
      var n := |urls| - 1;
      AllPresentSkips(t, urls[..n], nameOf, fetch);
      var r0 := Run(t, urls[..n], nameOf, fetch);
      DropLast(r0.log, Skipped(nameOf(urls[n])));
    }
  }

  /** After a run in which no request failed or was refused, a second run
      over the same sources, whatever the network does, fetches nothing and
      changes nothing. */
  lemma SecondRunFetchesNothing(dir: set<string>, urls: seq<string>, nameOf: string -> string,
                                fetch: (nat, string) -> Naming.Fetch, fetch2: (nat, string) -> Naming.Fetch)
    requires var log := Run(Start(dir), urls, nameOf, fetch).log;
      forall k :: 0 <= k < |log| ==> log[k].Downloaded? || log[k].Skipped?
    ensures var r1 := Run(Start(dir), urls, nameOf, fetch);
      var r2 := Run(Start(r1.dir), urls, nameOf, fetch2);
      r2.dir == r1.dir && r2.downloaded == 0 && Count(r2.log, IsFetch) == 0
  {
    var r1 := Run(Start(dir), urls, nameOf, fetch);
    AllCovered(dir, urls, nameOf, fetch);
    AllPresentSkips(Start(r1.dir), urls, nameOf, fetch2);
  }
}
