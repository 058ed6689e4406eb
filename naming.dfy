/** File names derived from image sources: the sanitising substitution and
    the data-URI extension of `download_img` (excel_to_pdf_fixed.py), the
    path component of a URL as CPython's `urllib.parse.urlparse` splits it
    (section 3 of RFC 3986), and POSIX `os.path.basename`. */
module Naming {
  import opened Wrappers
  import opened PyText

  // ---------------------------------------------------------------------
  // re.sub(r"[^0-9A-Za-z._-]", "_", fn)

  predicate IsNameChar(c: char) {
    IsAsciiAlnum(c) || c == '.' || c == '_' || c == '-'
  }

  function Sanitize(s: string): (r: string)
    ensures |r| == |s|
    ensures forall i :: 0 <= i < |r| ==> IsNameChar(r[i])
    ensures forall i :: 0 <= i < |s| ==> r[i] == (if IsNameChar(s[i]) then s[i] else '_')
    decreases |s|
  {
    if s == [] then []
    else [if IsNameChar(s[0]) then s[0] else '_'] + Sanitize(s[1..])
  }

  /** A name made only of allowed characters is kept as it is. */
  lemma SanitizeKeeps(s: string)
    requires forall i :: 0 <= i < |s| ==> IsNameChar(s[i])
    ensures Sanitize(s) == s
  {
  }

  /** Sanitising twice changes nothing more. */
  lemma SanitizeIdempotent(s: string)
    ensures Sanitize(Sanitize(s)) == Sanitize(s)
  {
    SanitizeKeeps(Sanitize(s));
  }

  // ---------------------------------------------------------------------
  // POSIX os.path.basename

  /** The index just after the last '/' before `i` (0 when there is none). */
  function AfterLastSlash(p: string, i: nat): (j: nat)
    requires i <= |p|
    ensures j <= i
    ensures j > 0 ==> p[j - 1] == '/'
    ensures forall k :: j <= k < i ==> p[k] != '/'
    decreases i
  {
    if i == 0 then 0
    else if p[i - 1] == '/' then i
    else AfterLastSlash(p, i - 1)
  }

  /** `os.path.basename(p)`: what follows the last '/'. */
  function Basename(p: string): (r: string)
    ensures '/' !in r
    ensures |r| <= |p| && p[|p| - |r|..] == r
    ensures |r| < |p| ==> p[|p| - |r| - 1] == '/'
  {
    p[AfterLastSlash(p, |p|)..]
  }

  lemma BasenameOfJoin(dir: string, name: string)
    requires '/' !in name
    ensures Basename(dir + "/" + name) == name
  {
    var p := dir + "/" + name;
    assert p[|dir|] == '/';
    assert forall k :: |dir| + 1 <= k < |p| ==> p[k] == name[k - |dir| - 1];
    assert p[|dir| + 1..] == name;
  }

  // ---------------------------------------------------------------------
  // urlparse(url).path, as CPython's urllib.parse computes it

  /** `_WHATWG_C0_CONTROL_OR_SPACE`: the characters up to and including
      U+0020, stripped from the front of the URL. */
  predicate IsC0OrSpace(c: char) { c <= ' ' }

  function LStripC0(u: string): (r: string)
    ensures |r| <= |u| && u[|u| - |r|..] == r
    ensures r != [] ==> !IsC0OrSpace(r[0])
    decreases |u|
  {
    if u != [] && IsC0OrSpace(u[0]) then LStripC0(u[1..]) else u
  }

  /** `_UNSAFE_URL_BYTES_TO_REMOVE`: tab, carriage return and line feed are
      deleted wherever they are. */
  predicate IsUnsafe(c: char) { c == '\t' || c == '\r' || c == '\n' }

  function RemoveUnsafe(u: string): (r: string)
    ensures forall i :: 0 <= i < |r| ==> !IsUnsafe(r[i])
    ensures |r| <= |u|
    decreases |u|
  {
    if u == [] then []
    else (if IsUnsafe(u[0]) then [] else [u[0]]) + RemoveUnsafe(u[1..])
  }

  /** `scheme_chars`. */
  predicate IsSchemeChar(c: char) {
    IsAsciiAlnum(c) || c == '+' || c == '-' || c == '.'
  }

  predicate IsAsciiLetter(c: char) { ('A' <= c <= 'Z') || ('a' <= c <= 'z') }

  /** The first index at or after `i` holding one of `stops`, or `|u|`. */
  function FirstOf(u: string, i: nat, stops: set<char>): (j: nat)
    requires i <= |u|
    ensures i <= j <= |u|
    ensures j < |u| ==> u[j] in stops
    ensures forall k :: i <= k < j ==> u[k] !in stops
    decreases |u| - i
  {
    if i == |u| || u[i] in stops then i else FirstOf(u, i + 1, stops)
  }

  /** The scheme, if the URL has one: the text before the first ':', when it
      is not empty, starts with an ASCII letter and holds only scheme
      characters. */
  function Scheme(u: string): (r: Option<string>)
    ensures r.Some? ==> |r.value| < |u| && u[|r.value|] == ':' && ':' !in r.value
  {
    var i := FirstOf(u, 0, {':'});
    if 0 < i < |u| && IsAsciiLetter(u[0]) && forall k :: 0 <= k < i ==> IsSchemeChar(u[k])
    then Some(u[..i]) else None
  }

  function ToLower(s: string): (r: string)
    ensures |r| == |s|
    decreases |s|
  {
    if s == [] then []
    else [if 'A' <= s[0] <= 'Z' then (s[0] as int + 32) as char else s[0]] + ToLower(s[1..])
  }

  /** `uses_params`: the schemes whose last path segment may carry
      `;parameters`. */
  const ParamSchemes: seq<string> :=
    ["", "ftp", "hdl", "prospero", "http", "imap", "https", "shttp",
     "rtsp", "rtsps", "rtspu", "sip", "sips", "mms", "sftp", "tel"]

  predicate InList(s: string, list: seq<string>)
    decreases |list|
  {
    list != [] && (s == list[0] || InList(s, list[1..]))
  }

  predicate UsesParams(scheme: string) {
    InList(scheme, ParamSchemes)
  }

  lemma {:induction false} InListAt(s: string, list: seq<string>, i: nat)
    requires i < |list| && list[i] == s
    ensures InList(s, list)
    decreases i
  {
    if i > 0 {
      InListAt(s, list[1..], i - 1);
    }
  }

  /** What follows the scheme and its ':'. */
  function AfterScheme(u: string): (r: string)
    ensures |r| <= |u| && u[|u| - |r|..] == r
  {
    match Scheme(u)
    case Some(scheme) => u[|scheme| + 1..]
    case None => u
  }

  /** `_splitnetloc`: a leading `//authority` ends at the first '/', '?'
      or '#'. */
  function AfterAuthority(u: string): (r: string)
    ensures |r| <= |u| && u[|u| - |r|..] == r
  {
    if |u| >= 2 && u[0] == '/' && u[1] == '/' then u[FirstOf(u, 2, {'/', '?', '#'})..] else u
  }

  /** The fragment (from '#') and then the query (from '?') are split off. */
  function BeforeQuery(u: string): (r: string)
    ensures '?' !in r && '#' !in r
    ensures |r| <= |u| && r == u[..|r|]
  {
    var r := u[..FirstOf(u, 0, {'?', '#'})];
    assert forall k :: 0 <= k < |r| ==> r[k] == u[k];
    r
  }

  /** `_splitparams`: the last segment loses its `;parameters`. */
  function BeforeParams(u: string): (r: string)
    ensures |r| <= |u| && r == u[..|r|]
  {
    u[..FirstOf(u, AfterLastSlash(u, |u|), {';'})]
  }

  /** `urlparse(url).path`: after the scheme and the `//authority`, up to the
      query or fragment, without the parameters of the last segment. */
  function UrlPath(url: string): (path: string)
    ensures '?' !in path && '#' !in path
  {
    var u := RemoveUnsafe(LStripC0(url));
    var scheme := Scheme(u);
    var lowered := if scheme.Some? then ToLower(scheme.value) else "";
    var withParams := BeforeQuery(AfterAuthority(AfterScheme(u)));
    if UsesParams(lowered) then
      var path := BeforeParams(withParams);
      PrefixLacks(path, withParams, '?');
      PrefixLacks(path, withParams, '#');
      path
    else withParams
  }

  lemma PrefixLacks(p: string, s: string, c: char)
    requires |p| <= |s| && p == s[..|p|] && c !in s
    ensures c !in p
  {
    assert forall k :: 0 <= k < |p| ==> p[k] == s[k];
  }

  /** `os.path.basename(urlparse(url).path)`: the last path segment, which
      never holds the query, the fragment or a slash. */
  function UrlFileName(url: string): (name: string)
    ensures '/' !in name && '?' !in name && '#' !in name
  {
    var path := UrlPath(url);
    var name := Basename(path);
    assert forall c :: c in name ==> c in path;
    name
  }

  lemma SchemeOfHttp(x: string)
    ensures Scheme("http:" + x) == Some("http")
    ensures AfterScheme("http:" + x) == x
  {
    var u := "http:" + x;
    assert u[4] == ':' && u[..4] == "http";
    assert FirstOf(u, 0, {':'}) == 4 by {
      assert forall k :: 0 <= k < 4 ==> u[k] != ':';
    }
    assert u[5..] == x;
  }

  lemma AuthoritySkipped(host: string, rest: string)
    requires forall c :: c in host ==> IsNameChar(c)
    requires |rest| > 0 && rest[0] == '/'
    ensures AfterAuthority("//" + host + rest) == rest
  {
    var u := "//" + host + rest;
    assert u[2 + |host|] == '/';
    assert FirstOf(u, 2, {'/', '?', '#'}) == 2 + |host| by {
      forall k | 2 <= k < 2 + |host| ensures u[k] !in {'/', '?', '#'} {
        assert u[k] == host[k - 2];
        assert u[k] in host;
      }
    }
    assert u[2 + |host|..] == rest;
  }

  lemma NoQuery(r: string)
    requires '?' !in r && '#' !in r
    ensures BeforeQuery(r) == r
  {
    assert FirstOf(r, 0, {'?', '#'}) == |r| by {
      forall k | 0 <= k < |r| ensures r[k] !in {'?', '#'} {
        assert r[k] in r;
      }
    }
  }

  lemma NoParams(dir: string, name: string)
    requires '/' !in name && ';' !in name
    ensures BeforeParams(dir + "/" + name) == dir + "/" + name
  {
    var r := dir + "/" + name;
    BasenameOfJoin(dir, name);
    var j := AfterLastSlash(r, |r|);
    assert j == |dir| + 1;
    assert FirstOf(r, j, {';'}) == |r| by {
      forall k | j <= k < |r| ensures r[k] != ';' {
        assert r[k] == name[k - j];
        assert r[k] in name;
      }
    }
  }

  /** The characters a plain URL is made of are never stripped or removed. */
  lemma PlainUrlClean(host: string, path: string)
    requires forall c :: c in host ==> IsNameChar(c)
    requires forall c :: c in path ==> IsNameChar(c) || c == '/'
    ensures RemoveUnsafe(LStripC0("http:" + ("//" + host + path))) == "http:" + ("//" + host + path)
  {
    var url := "http:" + ("//" + host + path);
    assert url[0] == 'h';
    assert LStripC0(url) == url;
    forall c | c in url ensures !IsUnsafe(c) {
      assert c in "http://" || c in host || c in path;
    }
    RemoveUnsafeKeeps(url);
  }

  /** The path of a plain `http` URL is everything from the '/' after the
      host. */
  lemma PlainUrlPath(host: string, path: string)
    requires forall c :: c in host ==> IsNameChar(c)
    requires forall c :: c in path ==> IsNameChar(c) || c == '/'
    requires |path| > 0 && path[0] == '/'
    requires BeforeParams(path) == path
    ensures UrlPath("http:" + ("//" + host + path)) == path
  {
    var url := "http:" + ("//" + host + path);
    PlainUrlClean(host, path);
    SchemeOfHttp("//" + host + path);
    AuthoritySkipped(host, path);
    PathChars(path);
    NoQuery(path);
    var u := RemoveUnsafe(LStripC0(url));
    assert u == url;
    assert AfterScheme(u) == "//" + host + path;
    assert BeforeQuery(AfterAuthority(AfterScheme(u))) == path;
    assert ToLower("http") == "http";
    HttpUsesParams();
  }

  lemma PathChars(path: string)
    requires forall c :: c in path ==> IsNameChar(c) || c == '/'
    ensures '?' !in path && '#' !in path && ';' !in path
  {
    assert !IsNameChar('?') && !IsNameChar('#') && !IsNameChar(';');
  }

  lemma HttpUsesParams()
    ensures UsesParams("http")
  {
    assert ParamSchemes[4] == "http";
    InListAt("http", ParamSchemes, 4);
  }

  /** A plain `http` URL: the file name is the last segment of its path. */
  lemma UrlFileNameOfPlainUrl(host: string, dir: string, name: string)
    requires forall c :: c in host ==> IsNameChar(c)
    requires forall c :: c in dir ==> IsNameChar(c) || c == '/'
    requires forall c :: c in name ==> IsNameChar(c)
    ensures UrlFileName("http://" + host + "/" + dir + "/" + name) == name
  {
    var path := ("/" + dir) + "/" + name;
    assert "http://" + host + "/" + dir + "/" + name == "http:" + ("//" + host + path);
    assert forall c :: c in path ==> IsNameChar(c) || c == '/' by {
      assert forall c :: c in path ==> c in dir || c in name || c == '/';
    }
    assert '/' !in name && ';' !in name;
    NoParams("/" + dir, name);
    PlainUrlPath(host, path);
    BasenameOfJoin("/" + dir, name);
  }

  lemma {:induction false} RemoveUnsafeKeeps(u: string)
    requires forall c :: c in u ==> !IsUnsafe(c)
    ensures RemoveUnsafe(u) == u
    decreases |u|
  {
    if u != [] {
      assert u[0] in u;
      assert forall c :: c in u[1..] ==> c in u;
      RemoveUnsafeKeeps(u[1..]);
      assert u == [u[0]] + u[1..];
    }
  }

  // ---------------------------------------------------------------------
  // download_img (lines 38-70)

  /** `re.search(r"data:(image/[^;]+);base64", header)`: the text after
      `image/` of the leftmost match.  `[^;]+` is greedy and the next
      character must be ';', so it runs exactly to the first ';'. */
  function MediaSubtypeFrom(header: string, p: nat): (r: Option<string>)
    requires p <= |header|
    ensures r.Some? ==> |r.value| > 0 && ';' !in r.value
    decreases |header| - p
  {
    if p + 11 > |header| then None
    else if header[p..p + 11] == "data:image/" then
      var e := FirstOf(header, p + 11, {';'});
      if e > p + 11 && header[e..] != [] && header[e..][..Min(7, |header[e..]|)] == ";base64"
      then
        assert forall k :: p + 11 <= k < e ==> header[k] != ';';
        Some(header[p + 11..e])
      else MediaSubtypeFrom(header, p + 1)
    else MediaSubtypeFrom(header, p + 1)
  }

  function Min(a: nat, b: nat): nat { if a <= b then a else b }

  /** The file extension of a data URI: `group(1).split("/")[1]`, that is the
      subtype up to any further '/', or "png" when the header declares no
      base64 image type. */
  function DataUriExt(header: string): (ext: string)
    ensures MediaSubtypeFrom(header, 0).None? ==> ext == "png"
    ensures MediaSubtypeFrom(header, 0).Some? ==>
      ext == MediaSubtypeFrom(header, 0).value[..FirstOf(MediaSubtypeFrom(header, 0).value, 0, {'/'})]
  {
    match MediaSubtypeFrom(header, 0)
    case None => "png"
    case Some(sub) => sub[..FirstOf(sub, 0, {'/'})]
  }

  /** A data URI that declares `image/<sub>;base64` gets `<sub>` as its
      extension. */
  lemma DataUriExtOfImage(sub: string, rest: string)
    requires |sub| > 0 && ';' !in sub && '/' !in sub
    requires ',' !in sub + rest
    ensures DataUriExt("data:image/" + sub + ";base64" + rest) == sub
  {
    var h := "data:image/" + sub + ";base64" + rest;
    assert h[0..11] == "data:image/";
    var e := FirstOf(h, 11, {';'});
    assert h[11 + |sub|] == ';';
    assert e == 11 + |sub| by {
      forall k | 11 <= k < 11 + |sub| ensures h[k] != ';' {
        assert h[k] == sub[k - 11];
      }
    }
    assert h[e..][..7] == ";base64";
    assert h[11..e] == sub;
    assert FirstOf(sub, 0, {'/'}) == |sub|;
  }

  predicate DataImageAt(header: string, q: nat) {
    q + 11 <= |header| && header[q..q + 11] == "data:image/"
  }

  /** A header without `data:image/` anywhere gets the default extension. */
  lemma DataUriExtDefault(header: string, p: nat)
    requires p <= |header|
    requires forall q :: p <= q ==> !DataImageAt(header, q)
    ensures MediaSubtypeFrom(header, p) == None
    decreases |header| - p
  {
    if p + 11 <= |header| {
      assert !DataImageAt(header, p);
      DataUriExtDefault(header, p + 1);
    }
  }

  /** What `requests.get` did: raised, or answered with a status code. */
  datatype Fetch = Raised | Response(status: int)

  /** `resp.raise_for_status()` raises for client and server errors. */
  predicate RaisesForStatus(status: int) { 400 <= status < 600 }

  predicate StartsWithData(src: string) {
    |src| >= 5 && src[..5] == "data:"
  }

  /** The file a data URI opens for writing (lines 44-55): `img_<n>.<ext>`
      with `n` one more than the number of entries already in the image
      directory, or None when the URI has no ',' (the split raises first).
      The file is created before the payload is decoded. */
  function DataUriWritten(src: string, listed: nat): (r: Option<string>)
    requires StartsWithData(src)
    ensures r.Some? <==> ',' in src
    ensures r.Some? ==> |r.value| > 4 && r.value[..4] == "img_"
  {
    var comma := FirstOf(src, 0, {','});
    assert comma < |src| ==> src[comma] in src;
    if comma == |src| then None
    else Some("img_" + NatToString(listed + 1) + "." + DataUriExt(src[..comma]))
  }

  /** The name `download_img` returns for a data URI (lines 44-57): the file
      it opened, when the payload then decodes; None otherwise. */
  function DataUriFileName(src: string, listed: nat, decodes: bool): (r: Option<string>)
    requires StartsWithData(src)
    ensures r.Some? <==> ',' in src && decodes
    ensures r.Some? ==> r == DataUriWritten(src, listed)
    ensures r.Some? ==> |r.value| > 4 && r.value[..4] == "img_"
  {
    if decodes then DataUriWritten(src, listed) else None
  }

  /** Names `open` cannot create a file under: they name the directory
      itself or its parent. */
  predicate IsDotName(name: string) { name == "." || name == ".." }

  /** The name a fetched URL would be saved under (lines 61-64): the last
      segment of the percent-decoded path, or `img_<n>.png` when it is
      empty, with every character outside `0-9A-Za-z._-` turned into '_'. */
  function FetchedCandidate(src: string, listed: nat, unquote: string -> string): (r: string)
    ensures r != ""
    ensures forall i :: 0 <= i < |r| ==> IsNameChar(r[i])
  {
    var base := Basename(unquote(UrlPath(src)));
    Sanitize(if base == "" then "img_" + NatToString(listed + 1) + ".png" else base)
  }

  /** Only a last segment that is itself `.` or `..` sanitises to a dot name. */
  lemma DotCandidate(src: string, listed: nat, unquote: string -> string)
    ensures IsDotName(FetchedCandidate(src, listed, unquote)) <==>
      IsDotName(Basename(unquote(UrlPath(src))))
  {
    DotName(Basename(unquote(UrlPath(src))), listed);
  }

  lemma DotName(base: string, listed: nat)
    ensures var fn := if base == "" then "img_" + NatToString(listed + 1) + ".png" else base;
      IsDotName(Sanitize(fn)) <==> IsDotName(base)
  {
    var fn := if base == "" then "img_" + NatToString(listed + 1) + ".png" else base;
    SanitizeDots(fn);
    if base == "" {
      assert fn[0] == 'i';
    }
  }

  /** Sanitising keeps '.', and turns nothing else into it. */
  lemma SanitizeDots(s: string)
    ensures IsDotName(Sanitize(s)) <==> IsDotName(s)
  {
    var r := Sanitize(s);
    if |s| == 1 {
      assert r[0] == (if IsNameChar(s[0]) then s[0] else '_');
      assert r == [r[0]] && s == [s[0]];
    } else if |s| == 2 {
      assert r[0] == (if IsNameChar(s[0]) then s[0] else '_');
      assert r[1] == (if IsNameChar(s[1]) then s[1] else '_');
      assert r == [r[0], r[1]] && s == [s[0], s[1]];
    }
  }

  /** The name a fetched URL is saved under (lines 59-70): the candidate
      name, when the request returned a status that does not raise and the
      candidate is not `.` or `..` (whose `open` raises); None otherwise. */
  function FetchedFileName(src: string, listed: nat, fetch: Fetch, unquote: string -> string): (r: Option<string>)
    ensures r.Some? <==> fetch.Response? && !RaisesForStatus(fetch.status)
                         && !IsDotName(FetchedCandidate(src, listed, unquote))
    ensures r.Some? ==> r.value == FetchedCandidate(src, listed, unquote)
    ensures r.Some? ==> r.value != "" && !IsDotName(r.value)
                        && forall i :: 0 <= i < |r.value| ==> IsNameChar(r.value[i])
  {
    if fetch.Raised? || RaisesForStatus(fetch.status) then None
    else
      var fn := FetchedCandidate(src, listed, unquote);
      if IsDotName(fn) then None else Some(fn)
  }

  /** `download_img`: the name it saves a source under in the image
      directory, or None.  `listed` is `len(os.listdir(dst_dir))`; `decodes`
      says whether the base64 payload decodes; `fetch` is the HTTP outcome;
      `unquote` is the percent-decoding of `urllib.parse.unquote`. */
  function DownloadName(src: string, listed: nat, decodes: bool, fetch: Fetch,
                        unquote: string -> string): (r: Option<string>)
    ensures src == "" ==> r.None?
    ensures StartsWithData(src) ==> (r.Some? <==> ',' in src && decodes)
    ensures src != "" && !StartsWithData(src) ==>
      (r.Some? <==> fetch.Response? && !RaisesForStatus(fetch.status)
                    && !IsDotName(FetchedCandidate(src, listed, unquote)))
    ensures r.Some? ==> r.value != "" && !IsDotName(r.value)
    ensures src != "" && !StartsWithData(src) && r.Some? ==>
      forall i :: 0 <= i < |r.value| ==> IsNameChar(r.value[i])
  {
    if src == "" then None
    else if StartsWithData(src) then DataUriFileName(src, listed, decodes)
    else
      FetchedFileName(src, listed, fetch, unquote)
  }

  /** The file `download_img` leaves in the image directory, or None: a
      data URI with a ',' creates its file whether or not the payload then
      decodes (an undecodable one is left empty); a URL's file is created
      exactly when its name is returned. */
  function DownloadWritten(src: string, listed: nat, fetch: Fetch,
                           unquote: string -> string): (r: Option<string>)
    ensures src == "" ==> r.None?
    ensures StartsWithData(src) ==> (r.Some? <==> ',' in src)
    ensures forall decodes :: DownloadName(src, listed, decodes, fetch, unquote).Some? ==>
      r == DownloadName(src, listed, decodes, fetch, unquote)
    ensures r.Some? ==> r.value != "" && !IsDotName(r.value)
  {
    if src == "" then None
    else if StartsWithData(src) then DataUriWritten(src, listed)
    else FetchedFileName(src, listed, fetch, unquote)
  }
}
