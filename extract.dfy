/** extract.py: pull the `__NEXT_DATA__` JSON payload out of saved pages and
    write each payload to `<stem>.json` in an output folder. */
module Extract {
  import opened Text

  const OpenTag: string := "<script id=\"__NEXT_DATA__\" type=\"application/json\">"
  const CloseTag: string := "</script>"

  // ---------------------------------------------------------------------
  // extract_json_data

  /** At `p` the tag `open` is followed, somewhere after it, by `close`. */
  ghost predicate PairAt(html: string, open: string, close: string, p: nat) {
    OccursAt(html, open, p) &&
    exists q: nat :: p + |open| <= q && OccursAt(html, close, q)
  }

  /** `s` is the lazy capture of the pair whose `open` is at `p`: `open`,
      `s`, `close` sit side by side at `p`, and no `close` starts anywhere
      inside `s`. */
  ghost predicate LazyAt(html: string, open: string, close: string, p: nat, s: string) {
    OccursAt(html, open + s + close, p) &&
    forall j: nat :: p + |open| <= j < p + |open| + |s| ==> !OccursAt(html, close, j)
  }

  /** The text from the end of the first `open` to the first `close` after
      it: what `re.search(open + "(.*?)" + close, html, re.DOTALL)` captures
      when both delimiters are literals. */
  function Between(html: string, open: string, close: string): Option<string> {
    match IndexOf(html, open, 0)
    case None => None
    case Some(p) =>
      match IndexOf(html, close, p + |open|)
      case None => None
      case Some(q) => Some(html[p + |open|..q])
  }

  /** A capture exists exactly when some `open` is followed by a `close`;
      it starts right after the first `open` and runs to the first `close`
      after it; without any `open` there is none. */
  lemma {:induction false} BetweenSpec(html: string, open: string, close: string)
    ensures Between(html, open, close).Some? <==> exists p: nat :: PairAt(html, open, close, p)
    ensures Between(html, open, close).Some? ==>
              exists p: nat :: FirstAt(html, open, 0, p) && LazyAt(html, open, close, p, Between(html, open, close).value)
    ensures !Contains(html, open) ==> Between(html, open, close) == None
  {
    match IndexOf(html, open, 0)
    case None =>
    case Some(p) =>
      assert OccursAt(html, open, p);
      match IndexOf(html, close, p + |open|)
      case None =>
        NoPairAfterFirst(html, open, close, p);
      case Some(q) =>
        LazyOfFirst(html, open, close, p, q);
  }

  /** The first close after an open tag delimits a lazy capture. */
  lemma LazyOfFirst(html: string, open: string, close: string, p: nat, q: nat)
    requires OccursAt(html, open, p) && FirstAt(html, close, p + |open|, q)
    ensures PairAt(html, open, close, p)
    ensures LazyAt(html, open, close, p, html[p + |open|..q])
  {
    var s := html[p + |open|..q];
    assert html[p..q + |close|] == html[p..p + |open|] + s + html[q..q + |close|];
  }

  /** If the first open tag has no close after it, no open tag has. */
  lemma NoPairAfterFirst(html: string, open: string, close: string, p: nat)
    requires FirstAt(html, open, 0, p)
    requires forall j: nat :: p + |open| <= j ==> !OccursAt(html, close, j)
    ensures forall p': nat :: !PairAt(html, open, close, p')
  {
    forall p': nat | OccursAt(html, open, p')
      ensures !PairAt(html, open, close, p')
    {
      assert p <= p';
    }
  }

  /** `extract_json_data`: group 1 of
      `re.search(OpenTag + "(.*?)" + CloseTag, html, re.DOTALL)`, or None. */
  function ExtractJsonData(html: string): Option<string> {
    Between(html, OpenTag, CloseTag)
  }

  lemma ExtractJsonDataSpec(html: string)
    ensures ExtractJsonData(html).Some? <==> exists p: nat :: PairAt(html, OpenTag, CloseTag, p)
    ensures ExtractJsonData(html).Some? ==>
              exists p: nat :: FirstAt(html, OpenTag, 0, p) && LazyAt(html, OpenTag, CloseTag, p, ExtractJsonData(html).value)
    ensures !Contains(html, OpenTag) ==> ExtractJsonData(html) == None
  {
    BetweenSpec(html, OpenTag, CloseTag);
  }

  /** What `extract_json_data` returns never contains `</script>`. */
  lemma ExtractionExcludesCloseTag(html: string)
    requires ExtractJsonData(html).Some?
    ensures !Contains(ExtractJsonData(html).value, CloseTag)
  {
    ExtractJsonDataSpec(html);
    var p: nat :| FirstAt(html, OpenTag, 0, p) && LazyAt(html, OpenTag, CloseTag, p, ExtractJsonData(html).value);
    CaptureExcludesCloseTag(html, p, ExtractJsonData(html).value);
  }

  /** The capture never contains the close tag: the group is non-greedy. */
  lemma CaptureExcludesCloseTag(html: string, p: nat, s: string)
    requires LazyAt(html, OpenTag, CloseTag, p, s)
    ensures !Contains(s, CloseTag)
  {
    var b := p + |OpenTag|;
    assert html[b..b + |s|] == s by {
      assert html[p..p + |OpenTag| + |s| + |CloseTag|] == OpenTag + s + CloseTag;
      assert html[b..b + |s|] == (OpenTag + s + CloseTag)[|OpenTag|..|OpenTag| + |s|];
    }
    forall k: nat | OccursAt(s, CloseTag, k)
      ensures false
    {
      OccursInSlice(html, b, b + |s|, CloseTag, k);
    }
  }

  /** The regular-expression engine's own order, as a reference: try each
      start position from the left; at the first one holding an open tag
      that some close tag follows, take the shortest capture. */
  function LeftmostLazyMatch(html: string, start: nat): Option<string>
    decreases |html| + 1 - start
  {
    if start > |html| then None
    else if !OccursAt(html, OpenTag, start) then LeftmostLazyMatch(html, start + 1)
    else
      match IndexOf(html, CloseTag, start + |OpenTag|)
      case None => LeftmostLazyMatch(html, start + 1)
      case Some(q) => Some(html[start + |OpenTag|..q])
  }

  lemma {:induction false} LeftmostLazyNone(html: string, start: nat)
    requires forall p: nat :: start <= p && OccursAt(html, OpenTag, p) ==>
               IndexOf(html, CloseTag, p + |OpenTag|).None?
    ensures LeftmostLazyMatch(html, start) == None
    decreases |html| + 1 - start
  {
    if start <= |html| {
      LeftmostLazyNone(html, start + 1);
    }
  }

  lemma {:induction false} LeftmostLazySkip(html: string, start: nat, p: nat)
    requires start <= p && FirstAt(html, OpenTag, start, p)
    ensures LeftmostLazyMatch(html, start) == LeftmostLazyMatch(html, p)
    decreases p - start
  {
    if start < p {
      assert !OccursAt(html, OpenTag, start);
      LeftmostLazySkip(html, start + 1, p);
    }
  }

  /** Searching only from the first open tag loses nothing: when the first
      open tag has no close tag after it, no later open tag has one. */
  lemma ExtractIsLeftmostLazyMatch(html: string)
    ensures ExtractJsonData(html) == LeftmostLazyMatch(html, 0)
  {
    match IndexOf(html, OpenTag, 0)
    case None =>
      LeftmostLazyNone(html, 0);
    case Some(p) =>
      LeftmostLazySkip(html, 0, p);
      if IndexOf(html, CloseTag, p + |OpenTag|).None? {
        forall p': nat | p + 1 <= p' && OccursAt(html, OpenTag, p')
          ensures IndexOf(html, CloseTag, p' + |OpenTag|).None?
        {
        }
        LeftmostLazyNone(html, p + 1);
      }
  }

  /** The open tag is two runs of text without `>`, then `>`. */
  lemma OpenTagPieces()
    ensures OpenTag == OpenTagName + OpenTagType + ">"
  {
  }

  const OpenTagName: string := "<script id=\"__NEXT_DATA__\""
  const OpenTagType: string := " type=\"application/json\""

  lemma OpenTagLastCharUnique()
    ensures LastCharUnique(OpenTag)
  {
    assert '>' !in OpenTagName;
    assert '>' !in OpenTagType;
    OpenTagPieces();
    LastCharUniqueAppend(OpenTagName + OpenTagType, '>');
  }

  lemma CloseTagLastCharUnique()
    ensures LastCharUnique(CloseTag)
  {
  }

  /** When `pat` occurs at `m` and not within `s[from..m]`, and its last
      character is unique, `m` is the first occurrence at or after `from`:
      an occurrence starting before `m` would end inside the one at `m`. */
  lemma {:induction false} FirstAtSlice(s: string, pat: string, from: nat, m: nat)
    requires LastCharUnique(pat)
    requires from <= m && OccursAt(s, pat, m)
    requires !Contains(s[from..m], pat)
    ensures FirstAt(s, pat, from, m)
  {
    forall j: nat | from <= j < m
      ensures !OccursAt(s, pat, j)
    {
      if j + |pat| <= m {
        SliceOccurs(s, from, m, pat, j);
        assert !OccursAt(s[from..m], pat, j - from);
      } else if j + |pat| <= |s| {
        var e := j + |pat| - 1;
        assert s[e] == s[m..m + |pat|][e - m] == pat[e - m];
        assert s[j..j + |pat|][|pat| - 1] == s[e];
      }
    }
  }

  /** The delimiter search on `pre + open + body + close + post`, with no
      `open` in `pre` and no `close` in `body`, finds `body`. */
  lemma {:induction false} BetweenDelimited(pre: string, open: string, body: string, close: string, post: string)
    requires LastCharUnique(open) && LastCharUnique(close)
    requires !Contains(pre, open) && !Contains(body, close)
    ensures Between(pre + open + body + close + post, open, close) == Some(body)
  {
    var html := pre + open + body + close + post;
    var a := |pre|;
    var b := a + |open|;
    var c := b + |body|;
    assert html[..a] == pre;
    assert html[a..b] == open;
    assert html[b..c] == body;
    assert html[c..c + |close|] == close;
    FirstAtSlice(html, open, 0, a);
    FirstAtSlice(html, close, b, c);
    BetweenAt(html, open, close, a, c);
  }

  /** Between reads off the first `open` and the first `close` after it. */
  lemma {:induction false} BetweenAt(html: string, open: string, close: string, p: nat, q: nat)
    requires FirstAt(html, open, 0, p)
    requires FirstAt(html, close, p + |open|, q)
    ensures Between(html, open, close) == Some(html[p + |open|..q])
  {
    IndexOfFirst(html, open, 0, p);
    IndexOfFirst(html, close, p + |open|, q);
  }

  /** A page laid out as `pre`, open tag, `body`, close tag, `post`, with no
      open tag in `pre` and no close tag in `body`, yields exactly `body`,
      newlines and all. */
  lemma ExtractDelimited(pre: string, body: string, post: string)
    requires !Contains(pre, OpenTag)
    requires !Contains(body, CloseTag)
    ensures ExtractJsonData(pre + OpenTag + body + CloseTag + post) == Some(body)
  {
    OpenTagLastCharUnique();
    CloseTagLastCharUnique();
    BetweenDelimited(pre, OpenTag, body, CloseTag, post);
  }

  /** A multi-line payload comes back whole: the search spans newlines. */
  lemma ExtractMultiline()
    ensures ExtractJsonData("<html>\n" + OpenTag + "{\n  \"a\": 1\n}" + CloseTag + "\n</html>")
         == Some("{\n  \"a\": 1\n}")
  {
    var pre, body := "<html>\n", "{\n  \"a\": 1\n}";
    assert !Contains(pre, OpenTag) by {
      assert forall i: nat :: !OccursAt(pre, OpenTag, i);
    }
    assert !Contains(body, CloseTag) by {
      forall i: nat | i + |CloseTag| <= |body|
        ensures !OccursAt(body, CloseTag, i)
      {
        assert body[i + |CloseTag| - 1] != '>';
      }
    }
    ExtractDelimited(pre, body, "\n</html>");
  }

  // ---------------------------------------------------------------------
  // pathlib's suffix and stem

  /** Index of the last `c` in `s`, or -1 (Python's `str.rfind`). */
  function LastIndexOf(s: string, c: char): (r: int)
    ensures -1 <= r < |s|
    ensures r >= 0 ==> s[r] == c
    ensures forall k :: r < k < |s| ==> s[k] != c
  {
    if s == [] then -1
    else if s[|s| - 1] == c then |s| - 1
    else LastIndexOf(s[..|s| - 1], c)
  }

  /** `Path(name).suffix`: from the last dot on, unless that dot is the
      first or the last character of the name. */
  function Suffix(name: string): (r: string)
    ensures r == "" || (|r| >= 2 && r[0] == '.' && '.' !in r[1..] && |r| < |name|)
  {
    var i := LastIndexOf(name, '.');
    if 0 < i < |name| - 1 then name[i..] else ""
  }

  /** `Path(name).stem`: the name without its suffix. */
  function Stem(name: string): (r: string)
    ensures r + Suffix(name) == name
  {
    var i := LastIndexOf(name, '.');
    if 0 < i < |name| - 1 then name[..i] else name
  }

  /** `html_file.stem + ".json"`. */
  function JsonName(name: string): string {
    Stem(name) + ".json"
  }

  /** A name `base.ext` with a non-empty base and a dot-free, non-empty
      extension has suffix `.ext` and stem `base`. */
  lemma SuffixOfDotted(base: string, ext: string)
    requires base != [] && ext != [] && '.' !in ext
    ensures Suffix(base + "." + ext) == "." + ext
    ensures Stem(base + "." + ext) == base
  {
    var s := base + "." + ext;
    var r := LastIndexOf(s, '.');
    assert s[|base|] == '.';
    assert r >= |base|;
    assert forall k :: |base| < k < |s| ==> s[k] == ext[k - |base| - 1];
    assert forall j :: 0 <= j < |ext| ==> ext[j] != '.';
    assert r == |base|;
    assert s[r..] == "." + ext;
  }

  lemma JsonNameOfHtml(name: string)
    requires Suffix(name) == ".html"
    ensures |name| > 5 && JsonName(name) == name[..|name| - 5] + ".json"
  {
    assert Stem(name) + ".html" == name;
    assert name[..|name| - 5] == Stem(name);
  }

  // ---------------------------------------------------------------------
  // main: the `.html` selection

  /** A directory entry: its file name and its text. */
  datatype HtmlFile = HtmlFile(name: string, content: string)

  predicate IsHtml(f: HtmlFile) {
    Suffix(f.name) == ".html"
  }

  /** `[file for file in entries if file.suffix == ".html"]`. */
  function SelectHtml(entries: seq<HtmlFile>): (r: seq<HtmlFile>)
    ensures |r| <= |entries|
    ensures forall f :: f in r <==> f in entries && IsHtml(f)
  {
    if entries == [] then []
    else
      var rest := SelectHtml(entries[..|entries| - 1]);
      var last := entries[|entries| - 1];
      assert entries == entries[..|entries| - 1] + [last];
      if IsHtml(last) then rest + [last] else rest
  }

  /** The selection keeps the listing's order: it distributes over
      concatenation, so each entry lands where it stood. */
  lemma {:induction false} SelectHtmlAppend(a: seq<HtmlFile>, b: seq<HtmlFile>)
    ensures SelectHtml(a + b) == SelectHtml(a) + SelectHtml(b)
    decreases |b|
  {
    if b == [] {
      assert a + b == a;
    } else {
      var b', last := b[..|b| - 1], b[|b| - 1];
      assert (a + b)[..|a + b| - 1] == a + b';
      assert (a + b)[|a + b| - 1] == last;
      SelectHtmlAppend(a, b');
      var sa, sb := SelectHtml(a), SelectHtml(b');
      assert sa + (sb + [last]) == (sa + sb) + [last];
    }
  }

  // ---------------------------------------------------------------------
  // process_html_files

  /** Python truthiness of the `Optional[str]` that `extract_json_data`
      returns: None and the empty capture are both false. */
  predicate Truthy(jsonData: Option<string>) {
    jsonData.Some? && jsonData.value != ""
  }

  /** The output folder (file name to text), the warnings printed so far
      (one per file without data, naming it), and the file whose payload
      failed to parse, after which the run stops. */
  datatype Run = Run(folder: map<string, string>, warnings: seq<string>, aborted: Option<string>)

  /** One iteration of the loop, given what `extract_json_data` returned for
      the file called `name`. `dump` stands for
      `json.dump(json.loads(s), indent=4)`: the pretty-printed text, or None
      when `json.loads` raises. The output file is opened for writing
      before `json.loads` runs, so a failed parse leaves it empty. */
  function Step(r: Run, name: string, jsonData: Option<string>, dump: string -> Option<string>): Run {
    if r.aborted.Some? then r
    else if !Truthy(jsonData) then r.(warnings := r.warnings + [name])
    else
      match dump(jsonData.value)
      case Some(text) => r.(folder := r.folder[JsonName(name) := text])
      case None => r.(folder := r.folder[JsonName(name) := ""], aborted := Some(name))
  }

  /** A page as the loop sees it: the file name and what
      `extract_json_data` returned for its text. */
  datatype Page = Page(name: string, jsonData: Option<string>)

  function PageOf(f: HtmlFile): Page {
    Page(f.name, ExtractJsonData(f.content))
  }

  /** The pages of `files`, in order. */
  function Pages(files: seq<HtmlFile>): (ps: seq<Page>)
    ensures |ps| == |files|
  {
    if files == [] then [] else Pages(files[..|files| - 1]) + [PageOf(files[|files| - 1])]
  }

  lemma {:induction false} PagesAt(files: seq<HtmlFile>, i: nat)
    requires i < |files|
    ensures Pages(files)[i] == PageOf(files[i])
    decreases |files|
  {
    if i < |files| - 1 {
      var init := files[..|files| - 1];
      PagesAt(init, i);
    }
  }

  lemma {:induction false} PagesPrefix(files: seq<HtmlFile>, k: nat)
    requires k <= |files|
    ensures Pages(files[..k]) == Pages(files)[..k]
    decreases |files|
  {
    if k < |files| {
      var init := files[..|files| - 1];
      assert init[..k] == files[..k];
      PagesPrefix(init, k);
    } else {
      assert files[..k] == files;
    }
  }

  /** The state after the loop has handled `pages`, in order. */
  function ProcessPages(r0: Run, pages: seq<Page>, dump: string -> Option<string>): Run {
    if pages == [] then r0
    else
      var p := pages[|pages| - 1];
      Step(ProcessPages(r0, pages[..|pages| - 1], dump), p.name, p.jsonData, dump)
  }

  /** The state after the loop has run over `files`. */
  function ProcessAll(r0: Run, files: seq<HtmlFile>, dump: string -> Option<string>): Run {
    ProcessPages(r0, Pages(files), dump)
  }

  /** For one file exactly one thing happens: its JSON is written under its
      stem, or a warning names it and the folder is untouched, or its
      payload fails to parse and the run stops with that file emptied. */
  lemma StepExactlyOne(r: Run, name: string, jsonData: Option<string>, dump: string -> Option<string>)
    requires r.aborted.None?
    ensures var r' := Step(r, name, jsonData, dump);
      var key := JsonName(name);
      var written := r'.aborted.None? && r'.warnings == r.warnings &&
        key in r'.folder && r'.folder == r.folder[key := r'.folder[key]];
      var warned := r'.aborted.None? && r'.folder == r.folder && r'.warnings == r.warnings + [name];
      var failed := r'.aborted == Some(name) && r'.warnings == r.warnings &&
        r'.folder == r.folder[key := ""];
      && (written <==> Truthy(jsonData) && dump(jsonData.value).Some?)
      && (warned <==> !Truthy(jsonData))
      && (failed <==> Truthy(jsonData) && dump(jsonData.value).None?)
      && (written ==> r'.folder[key] == dump(jsonData.value).value)
  {
    var r' := Step(r, name, jsonData, dump);
    if !Truthy(jsonData) {
      assert r'.warnings != r.warnings;
    } else if dump(jsonData.value).Some? {
      assert JsonName(name) in r'.folder;
    }
  }

  /** A page whose first tag pair encloses nothing is treated as one
      without data. */
  lemma EmptyCaptureWarns(r: Run, name: string, pre: string, post: string, dump: string -> Option<string>)
    requires r.aborted.None?
    requires !Contains(pre, OpenTag)
    ensures Step(r, name, ExtractJsonData(pre + OpenTag + CloseTag + post), dump) == r.(warnings := r.warnings + [name])
  {
    assert !Contains([], CloseTag);
    ExtractDelimited(pre, [], post);
    assert pre + OpenTag + [] + CloseTag + post == pre + OpenTag + CloseTag + post;
  }

  lemma ProcessPagesSnoc(r0: Run, pages: seq<Page>, p: Page, dump: string -> Option<string>)
    ensures ProcessPages(r0, pages + [p], dump) == Step(ProcessPages(r0, pages, dump), p.name, p.jsonData, dump)
  {
    assert (pages + [p])[..|pages|] == pages;
  }

  /** Once a parse has failed, later pages change nothing. */
  lemma {:induction false} AbortedIsFinal(r0: Run, pages: seq<Page>, i: nat, dump: string -> Option<string>)
    requires i <= |pages|
    requires ProcessPages(r0, pages[..i], dump).aborted.Some?
    ensures ProcessPages(r0, pages, dump) == ProcessPages(r0, pages[..i], dump)
    decreases |pages|
  {
    if i < |pages| {
      var init := pages[..|pages| - 1];
      assert init[..i] == pages[..i];
      AbortedIsFinal(r0, init, i, dump);
    } else {
      assert pages[..i] == pages;
    }
  }

  /** The body of the loop once `json_data` is known: write the output
      file (opened before the payload is parsed) or print a warning. */
  method WriteOrWarn(folder0: map<string, string>, warnings0: seq<string>, name: string,
                     jsonData: Option<string>, dump: string -> Option<string>)
    returns (folder: map<string, string>, warnings: seq<string>, aborted: Option<string>)
    ensures Run(folder, warnings, aborted) == Step(Run(folder0, warnings0, None), name, jsonData, dump)
  {
    folder, warnings, aborted := folder0, warnings0, None;
    if jsonData.Some? && jsonData.value != "" {
      var outputPath := JsonName(name);
      folder := folder[outputPath := ""];
      var parsed := dump(jsonData.value);
      if parsed.None? {
        aborted := Some(name);
      } else {
        folder := folder[outputPath := parsed.value];
      }
    } else {
      warnings := warnings + [name];
    }
  }

  lemma PagesNext(files: seq<HtmlFile>, i: nat)
    requires i < |files|
    ensures Pages(files[..i + 1]) == Pages(files[..i]) + [PageOf(files[i])]
  {
    assert files[..i + 1][..i] == files[..i];
  }

  /** The loop of `process_html_files`, over an explicit file list and
      output folder. A failed parse ends the run, as the exception does. */
  method ProcessHtmlFiles(outputFolder: map<string, string>, htmlFiles: seq<HtmlFile>,
                          dump: string -> Option<string>)
    returns (folder: map<string, string>, warnings: seq<string>, aborted: Option<string>)
    ensures Run(folder, warnings, aborted) == ProcessAll(Run(outputFolder, [], None), htmlFiles, dump)
  {
    var r0 := Run(outputFolder, [], None);
    folder, warnings, aborted := outputFolder, [], None;
    for i := 0 to |htmlFiles|
      invariant aborted.None?
      invariant Run(folder, warnings, aborted) == ProcessPages(r0, Pages(htmlFiles[..i]), dump)
    {
      PagesNext(htmlFiles, i);
      ProcessPagesSnoc(r0, Pages(htmlFiles[..i]), PageOf(htmlFiles[i]), dump);
      var htmlFile := htmlFiles[i];
      var jsonData := ExtractJsonData(htmlFile.content);
      folder, warnings, aborted := WriteOrWarn(folder, warnings, htmlFile.name, jsonData, dump);
      if aborted.Some? {
        PagesPrefix(htmlFiles, i + 1);
        AbortedIsFinal(r0, Pages(htmlFiles), i + 1, dump);
        return;
      }
    }
    assert htmlFiles[..|htmlFiles|] == htmlFiles;
  }

  /** The names of the pages the loop warns about, in order. */
  function Unmatched(pages: seq<Page>): (names: seq<string>)
    ensures |names| <= |pages|
  {
    if pages == [] then []
    else
      var p := pages[|pages| - 1];
      Unmatched(pages[..|pages| - 1]) + (if Truthy(p.jsonData) then [] else [p.name])
  }

  /** The output names of the pages that have a payload. */
  ghost function Written(pages: seq<Page>): set<string> {
    set p | p in pages && Truthy(p.jsonData) :: JsonName(p.name)
  }

  /** Every payload found parses. */
  ghost predicate AllParse(pages: seq<Page>, dump: string -> Option<string>) {
    forall p :: p in pages && Truthy(p.jsonData) ==> dump(p.jsonData.value).Some?
  }

  lemma WrittenSnoc(init: seq<Page>, p: Page)
    ensures Written(init + [p]) == Written(init) + (if Truthy(p.jsonData) then {JsonName(p.name)} else {})
  {
    var pages := init + [p];
    assert forall q :: q in pages <==> q in init || q == p;
  }

  /** One page whose payload, if any, parses: the run goes on, warning
      about the page or adding exactly its output name. */
  lemma StepCompletes(r: Run, p: Page, dump: string -> Option<string>)
    requires r.aborted.None?
    requires Truthy(p.jsonData) ==> dump(p.jsonData.value).Some?
    ensures Step(r, p.name, p.jsonData, dump).aborted.None?
    ensures Step(r, p.name, p.jsonData, dump).warnings ==
            r.warnings + (if Truthy(p.jsonData) then [] else [p.name])
    ensures Step(r, p.name, p.jsonData, dump).folder.Keys ==
            r.folder.Keys + (if Truthy(p.jsonData) then {JsonName(p.name)} else {})
  {
  }

  /** When every payload parses, the run completes and warns about exactly
      the pages without data, in order. */
  lemma {:induction false} ProcessPagesCompletes(r0: Run, pages: seq<Page>, dump: string -> Option<string>)
    requires r0.aborted.None?
    requires AllParse(pages, dump)
    ensures ProcessPages(r0, pages, dump).aborted.None?
    ensures ProcessPages(r0, pages, dump).warnings == r0.warnings + Unmatched(pages)
    decreases |pages|
  {
    if pages != [] {
      var init, p := pages[..|pages| - 1], pages[|pages| - 1];
      assert p in pages;
      assert AllParse(init, dump) by {
        assert forall q :: q in init ==> q in pages;
      }
      ProcessPagesCompletes(r0, init, dump);
      StepCompletes(ProcessPages(r0, init, dump), p, dump);
    }
  }

  /** When every payload parses, the run adds exactly one output name per
      page with data. */
  lemma {:induction false} ProcessPagesKeys(r0: Run, pages: seq<Page>, dump: string -> Option<string>)
    requires r0.aborted.None?
    requires AllParse(pages, dump)
    ensures ProcessPages(r0, pages, dump).folder.Keys == r0.folder.Keys + Written(pages)
    decreases |pages|
  {
    if pages == [] {
      assert Written(pages) == {};
    } else {
      var init, p := pages[..|pages| - 1], pages[|pages| - 1];
      assert p in pages;
      assert AllParse(init, dump) by {
        assert forall q :: q in init ==> q in pages;
      }
      ProcessPagesKeys(r0, init, dump);
      ProcessPagesCompletes(r0, init, dump);
      StepCompletes(ProcessPages(r0, init, dump), p, dump);
      assert pages == init + [p];
      WrittenSnoc(init, p);
    }
  }

  /** A name that no page with data maps to keeps its old contents. */
  lemma {:induction false} ProcessPagesKeepsOthers(r0: Run, pages: seq<Page>, dump: string -> Option<string>, k: string)
    requires k !in Written(pages)
    ensures k in ProcessPages(r0, pages, dump).folder <==> k in r0.folder
    ensures k in r0.folder ==> ProcessPages(r0, pages, dump).folder[k] == r0.folder[k]
    decreases |pages|
  {
    if pages != [] {
      var init, p := pages[..|pages| - 1], pages[|pages| - 1];
      assert pages == init + [p];
      WrittenSnoc(init, p);
      ProcessPagesKeepsOthers(r0, init, dump, k);
    }
  }

  /** When every payload up to page `i` parses, page `i`'s output file
      holds its pretty-printed payload, provided no later page with data
      maps to the same name. A later page that fails to parse writes only
      its own, different file. */
  lemma {:induction false} ProcessPagesLastWriteWins(r0: Run, pages: seq<Page>, dump: string -> Option<string>, i: nat)
    requires r0.aborted.None?
    requires i < |pages| && AllParse(pages[..i + 1], dump)
    requires i < |pages| && Truthy(pages[i].jsonData)
    requires forall j :: i < j < |pages| && Truthy(pages[j].jsonData) ==>
               JsonName(pages[j].name) != JsonName(pages[i].name)
    ensures JsonName(pages[i].name) in ProcessPages(r0, pages, dump).folder
    ensures ProcessPages(r0, pages, dump).folder[JsonName(pages[i].name)] ==
            dump(pages[i].jsonData.value).value
    decreases |pages|
  {
    var init, p := pages[..|pages| - 1], pages[|pages| - 1];
    assert pages == init + [p];
    if i < |pages| - 1 {
      assert init[..i + 1] == pages[..i + 1];
      ProcessPagesLastWriteWins(r0, init, dump, i);
    } else {
      assert pages[..i + 1] == pages;
      assert AllParse(init, dump) by {
        assert forall q :: q in init ==> q in pages;
      }
      ProcessPagesCompletes(r0, init, dump);
      assert p in pages;
    }
  }

  /** A payload that fails to parse stops the run at that page, after the
      earlier pages were handled, and leaves that page's output empty. */
  lemma ProcessPagesAborts(r0: Run, pages: seq<Page>, dump: string -> Option<string>, i: nat)
    requires r0.aborted.None?
    requires i < |pages| && AllParse(pages[..i], dump)
    requires Truthy(pages[i].jsonData) && dump(pages[i].jsonData.value).None?
    ensures ProcessPages(r0, pages, dump) == ProcessPages(r0, pages[..i + 1], dump)
    ensures ProcessPages(r0, pages, dump).aborted == Some(pages[i].name)
    ensures ProcessPages(r0, pages, dump).warnings == r0.warnings + Unmatched(pages[..i])
    ensures JsonName(pages[i].name) in ProcessPages(r0, pages, dump).folder
    ensures ProcessPages(r0, pages, dump).folder[JsonName(pages[i].name)] == ""
  {
    ProcessPagesCompletes(r0, pages[..i], dump);
    assert pages[..i + 1] == pages[..i] + [pages[i]];
    ProcessPagesSnoc(r0, pages[..i], pages[i], dump);
    AbortedIsFinal(r0, pages, i + 1, dump);
  }

  /** A folder with one page holding data, one without, and a non-HTML
      file: one output file with the pretty-printed payload, and one
      warning naming the page without data. */
  lemma ExtractorExample(dump: string -> Option<string>)
    requires dump("{\"a\":1}").Some?
    ensures var entries := [HtmlFile("page_0.html", OpenTag + "{\"a\":1}" + CloseTag),
                            HtmlFile("notes.txt", "a"),
                            HtmlFile("page_1.html", "<p>none</p>")];
      ProcessAll(Run(map[], [], None), SelectHtml(entries), dump)
        == Run(map["page_0.json" := dump("{\"a\":1}").value], ["page_1.html"], None)
  {
    var body := "{\"a\":1}";
    var f0 := HtmlFile("page_0.html", OpenTag + body + CloseTag);
    var f1 := HtmlFile("notes.txt", "a");
    var f2 := HtmlFile("page_1.html", "<p>none</p>");
    ExampleSelect(f0, f1, f2);
    ExamplePages(f0, f2, body);
    ExampleJsonName();
    ExampleRun(f0.name, f2.name, body, dump);
  }

  lemma ExampleJsonName()
    ensures JsonName("page_0.html") == "page_0.json"
  {
    SuffixOfDotted("page_0", "html");
    assert "page_0.html" == "page_0" + "." + "html";
    assert "page_0" + ".json" == "page_0.json";
  }

  lemma ExampleRun(n0: string, n2: string, body: string, dump: string -> Option<string>)
    requires body != "" && dump(body).Some?
    ensures ProcessPages(Run(map[], [], None), [Page(n0, Some(body)), Page(n2, None)], dump)
         == Run(map[JsonName(n0) := dump(body).value], [n2], None)
  {
    var r0 := Run(map[], [], None);
    var p0, p2 := Page(n0, Some(body)), Page(n2, None);
    ProcessPagesSnoc(r0, [], p0, dump);
    ProcessPagesSnoc(r0, [p0], p2, dump);
    assert [] + [p0] == [p0] && [p0] + [p2] == [p0, p2];
  }

  lemma ExampleSelect(f0: HtmlFile, f1: HtmlFile, f2: HtmlFile)
    requires f0.name == "page_0.html" && f1.name == "notes.txt" && f2.name == "page_1.html"
    ensures SelectHtml([f0, f1, f2]) == [f0, f2]
  {
    ExampleSuffixes();
    SelectThree(f0, f1, f2);
  }

  lemma ExampleSuffixes()
    ensures Suffix("page_0.html") == ".html" && Suffix("page_1.html") == ".html"
    ensures Suffix("notes.txt") == ".txt"
  {
    ExampleSuffix("page_0", "html", "page_0.html");
    ExampleSuffix("notes", "txt", "notes.txt");
    ExampleSuffix("page_1", "html", "page_1.html");
  }

  lemma ExampleSuffix(base: string, ext: string, name: string)
    requires base != [] && ext != [] && '.' !in ext
    requires name == base + "." + ext
    ensures Suffix(name) == "." + ext
  {
    SuffixOfDotted(base, ext);
  }

  lemma SelectThree(f0: HtmlFile, f1: HtmlFile, f2: HtmlFile)
    requires IsHtml(f0) && !IsHtml(f1) && IsHtml(f2)
    ensures SelectHtml([f0, f1, f2]) == [f0, f2]
  {
    assert [f0, f1, f2][..2] == [f0, f1];
    assert [f0, f1][..1] == [f0];
    assert [f0][..0] == [];
  }

  lemma ExamplePages(f0: HtmlFile, f2: HtmlFile, body: string)
    requires body == "{\"a\":1}"
    requires f0.content == OpenTag + body + CloseTag && f2.content == "<p>none</p>"
    ensures Pages([f0, f2]) == [Page(f0.name, Some(body)), Page(f2.name, None)]
  {
    ExamplePayload();
    ExampleNoPayload();
    assert [f0, f2][..1] == [f0];
  }

  lemma ExamplePayload()
    ensures ExtractJsonData(OpenTag + "{\"a\":1}" + CloseTag) == Some("{\"a\":1}")
  {
    var body := "{\"a\":1}";
    assert !Contains([], OpenTag);
    assert !Contains(body, CloseTag);
    ExtractDelimited([], body, []);
    assert [] + OpenTag + body + CloseTag + [] == OpenTag + body + CloseTag;
  }

  lemma ExampleNoPayload()
    ensures ExtractJsonData("<p>none</p>") == None
  {
    assert !Contains("<p>none</p>", OpenTag);
    ExtractJsonDataSpec("<p>none</p>");
  }

  /** `main`: select the `.html` entries of the input folder and process
      them into the output folder. */
  method RunExtractor(entries: seq<HtmlFile>, outputFolder: map<string, string>,
                      dump: string -> Option<string>)
    returns (folder: map<string, string>, warnings: seq<string>, aborted: Option<string>)
    ensures Run(folder, warnings, aborted) ==
            ProcessAll(Run(outputFolder, [], None), SelectHtml(entries), dump)
  {
    var htmlFiles := SelectHtml(entries);
    folder, warnings, aborted := ProcessHtmlFiles(outputFolder, htmlFiles, dump);
  }
}
