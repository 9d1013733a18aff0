/** scrape.py: request every profile page `0 .. max_number - 1`, count the
    requests that succeed and, when asked to, archive each successful page
    under a file name derived from its URL. */
module Scrape {
  import opened Text

  const BaseUrl: string := "https://os.contrary.com/dashboard/profile/"

  /** What `url_as_name` makes of `BaseUrl`. */
  const NamePrefix: string := "__os_contrary_com_dashboard_profile_"

  /** `f"{base_url}{number}"`. */
  function RequestUrl(n: nat): string {
    BaseUrl + Decimal(n)
  }

  /** `url.replace("/", "_").replace(".", "_").replace("https:", "")`. */
  function UrlAsName(url: string): (name: string)
    ensures '/' !in name && '.' !in name
  {
    Replace(Replace(Replace(url, "/", "_"), ".", "_"), "https:", "")
  }

  // ---------------------------------------------------------------------
  // The replacement chain on the URLs the loop builds

  /** The `/` replacement over the first seven pieces of the URL shape
      `a//b.c.d/e/f/y`, the rest `y` left symbolic. */
  lemma SlashHead(a: string, b: string, c: string, y: string)
    requires '/' !in a && '/' !in b && '/' !in c
    ensures Replace(a + ("/" + ("/" + (b + ("." + (c + ("." + y)))))), "/", "_") == a + ("_" + ("_" + (b + ("." + (c + ("." + Replace(y, "/", "_")))))))
  {
    ReplacePiece(".", y, "/", "_");
    ReplacePiece(c, "." + y, "/", "_");
    ReplacePiece(".", c + ("." + y), "/", "_");
    ReplacePiece(b, "." + (c + ("." + y)), "/", "_");
    ReplacePiece("/", b + ("." + (c + ("." + y))), "/", "_");
    ReplacePiece("/", "/" + (b + ("." + (c + ("." + y)))), "/", "_");
    ReplacePiece(a, "/" + ("/" + (b + ("." + (c + ("." + y))))), "/", "_");
  }

  lemma SlashTail(d: string, e: string, f: string, y: string)
    requires '/' !in d && '/' !in e && '/' !in f
    ensures Replace(d + ("/" + (e + ("/" + (f + ("/" + y))))), "/", "_") == d + ("_" + (e + ("_" + (f + ("_" + Replace(y, "/", "_"))))))
  {
    ReplacePiece("/", y, "/", "_");
    ReplacePiece(f, "/" + y, "/", "_");
    ReplacePiece("/", f + ("/" + y), "/", "_");
    ReplacePiece(e, "/" + (f + ("/" + y)), "/", "_");
    ReplacePiece("/", e + ("/" + (f + ("/" + y))), "/", "_");
    ReplacePiece(d, "/" + (e + ("/" + (f + ("/" + y)))), "/", "_");
  }

  /** `.replace("/", "_")` on a URL shaped `a//b.c.d/e/f/y`. */
  lemma Slashes(a: string, b: string, c: string, d: string, e: string, f: string, y: string)
    requires '/' !in a && '/' !in b && '/' !in c && '/' !in d && '/' !in e && '/' !in f
    ensures Replace(a + ("/" + ("/" + (b + ("." + (c + ("." + (d + ("/" + (e + ("/" + (f + ("/" + y)))))))))))), "/", "_") == a + ("_" + ("_" + (b + ("." + (c + ("." + (d + ("_" + (e + ("_" + (f + ("_" + Replace(y, "/", "_")))))))))))))
  {
    SlashHead(a, b, c, d + ("/" + (e + ("/" + (f + ("/" + y))))));
    SlashTail(d, e, f, y);
  }

  /** The `.` replacement over the first seven pieces of `a__b.c.d_e_f_y`. */
  lemma DotHead(a: string, b: string, c: string, y: string)
    requires '.' !in a && '.' !in b && '.' !in c
    ensures Replace(a + ("_" + ("_" + (b + ("." + (c + ("." + y)))))), ".", "_") == a + ("_" + ("_" + (b + ("_" + (c + ("_" + Replace(y, ".", "_")))))))
  {
    ReplacePiece(".", y, ".", "_");
    ReplacePiece(c, "." + y, ".", "_");
    ReplacePiece(".", c + ("." + y), ".", "_");
    ReplacePiece(b, "." + (c + ("." + y)), ".", "_");
    ReplacePiece("_", b + ("." + (c + ("." + y))), ".", "_");
    ReplacePiece("_", "_" + (b + ("." + (c + ("." + y)))), ".", "_");
    ReplacePiece(a, "_" + ("_" + (b + ("." + (c + ("." + y))))), ".", "_");
  }

  lemma DotTail(d: string, e: string, f: string, y: string)
    requires '.' !in d && '.' !in e && '.' !in f
    ensures Replace(d + ("_" + (e + ("_" + (f + ("_" + y))))), ".", "_") == d + ("_" + (e + ("_" + (f + ("_" + Replace(y, ".", "_"))))))
  {
    ReplacePiece("_", y, ".", "_");
    ReplacePiece(f, "_" + y, ".", "_");
    ReplacePiece("_", f + ("_" + y), ".", "_");
    ReplacePiece(e, "_" + (f + ("_" + y)), ".", "_");
    ReplacePiece("_", e + ("_" + (f + ("_" + y))), ".", "_");
    ReplacePiece(d, "_" + (e + ("_" + (f + ("_" + y)))), ".", "_");
  }

  /** `.replace(".", "_")` on `a__b.c.d_e_f_y`. */
  lemma Dots(a: string, b: string, c: string, d: string, e: string, f: string, y: string)
    requires '.' !in a && '.' !in b && '.' !in c && '.' !in d && '.' !in e && '.' !in f
    ensures Replace(a + ("_" + ("_" + (b + ("." + (c + ("." + (d + ("_" + (e + ("_" + (f + ("_" + y)))))))))))), ".", "_") == a + ("_" + ("_" + (b + ("_" + (c + ("_" + (d + ("_" + (e + ("_" + (f + ("_" + Replace(y, ".", "_")))))))))))))
  {
    DotHead(a, b, c, d + ("_" + (e + ("_" + (f + ("_" + y))))));
    DotTail(d, e, f, y);
  }

  /** `BaseUrl` cut at its separators. */
  lemma BaseUrlShape()
    ensures BaseUrl == "https:" + ("/" + ("/" + ("os" + ("." + ("contrary" + ("." + ("com" + ("/" + ("dashboard" + ("/" + ("profile" + ("/" + []))))))))))))
  {
  }

  /** `NamePrefix` cut at its underscores. */
  lemma NamePrefixShape()
    ensures NamePrefix == "_" + ("_" + ("os" + ("_" + ("contrary" + ("_" + ("com" + ("_" + ("dashboard" + ("_" + ("profile" + ("_" + [])))))))))))
  {
  }

  lemma PiecesFree()
    ensures '/' !in "https:" && '/' !in "os" && '/' !in "contrary" && '/' !in "com" && '/' !in "dashboard" && '/' !in "profile"
    ensures '.' !in "https:" && '.' !in "os" && '.' !in "contrary" && '.' !in "com" && '.' !in "dashboard" && '.' !in "profile"
    ensures ':' !in NamePrefix
  {
  }

  /** The chain turns the base URL into the fixed name prefix. */
  lemma UrlAsNameOfBase()
    ensures UrlAsName(BaseUrl) == NamePrefix
  {
    var e: string := [];
    assert Replace(e, "/", "_") == e && Replace(e, ".", "_") == e;
    PiecesFree();
    BaseUrlShape();
    Slashes("https:", "os", "contrary", "com", "dashboard", "profile", e);
    Dots("https:", "os", "contrary", "com", "dashboard", "profile", e);
    NamePrefixShape();
    DeleteLeading("https:", NamePrefix, ':');
  }

  /** Digits pass through each step of the chain. */
  lemma UrlAsNameDigitTail(u: string, d: string)
    requires forall c :: c in d ==> IsDigit(c)
    ensures UrlAsName(u + d) == UrlAsName(u) + d
  {
    var r1 := Replace(u, "/", "_");
    var r2 := Replace(r1, ".", "_");
    ReplaceForeignTail(u, d, "/", "_");
    ReplaceForeignTail(r1, d, ".", "_");
    ReplaceForeignTail(r2, d, "https:", "");
  }

  /** For the URLs the loop builds, the file name is the fixed prefix
      followed by the decimal digits of the index: the `https:` deletion
      runs last, on the already rewritten URL. */
  lemma UrlAsNameOfRequestUrl(n: nat)
    ensures UrlAsName(RequestUrl(n)) == NamePrefix + Decimal(n)
  {
    UrlAsNameDigitTail(BaseUrl, Decimal(n));
    UrlAsNameOfBase();
  }

  /** Distinct indices give distinct file names. */
  lemma UrlAsNameInjective(n: nat, m: nat)
    requires UrlAsName(RequestUrl(n)) == UrlAsName(RequestUrl(m))
    ensures n == m
  {
    UrlAsNameOfRequestUrl(n);
    UrlAsNameOfRequestUrl(m);
    var a, b := NamePrefix + Decimal(n), NamePrefix + Decimal(m);
    assert a[|NamePrefix|..] == Decimal(n);
    assert b[|NamePrefix|..] == Decimal(m);
    DecimalInjective(n, m);
  }

  // ---------------------------------------------------------------------
  // send_requests

  /** What `requests.get(url, headers={"Cookie": cookie})` followed by
      `raise_for_status()` gives: the page text, or the text of the
      `RequestException`. */
  datatype Response = Ok(text: string) | Failed(reason: string)

  /** A GET request sent by the loop: its URL and its Cookie header. */
  datatype Request = Get(url: string, cookie: string)

  /** `len(range(max_number))`. */
  function RangeLength(maxNumber: int): nat {
    if maxNumber > 0 then maxNumber else 0
  }

  /** `f"{save_to}/{url_as_name}.html"` for index `n`. */
  function ArchivePath(saveTo: string, n: nat): string {
    saveTo + "/" + UrlAsName(RequestUrl(n)) + ".html"
  }

  /** The number of successful responses. */
  function SuccessCount(outcomes: seq<Response>): (c: nat)
    ensures c <= |outcomes|
  {
    if outcomes == [] then 0
    else SuccessCount(outcomes[..|outcomes| - 1]) + (if outcomes[|outcomes| - 1].Ok? then 1 else 0)
  }

  /** The folder after the loop: each successful page written under its
      archive path when `save_to` is given. */
  function Archive(files: map<string, string>, saveTo: Option<string>, outcomes: seq<Response>): map<string, string> {
    if outcomes == [] then files
    else
      var n := |outcomes| - 1;
      var prev := Archive(files, saveTo, outcomes[..n]);
      if outcomes[n].Ok? && saveTo.Some? then prev[ArchivePath(saveTo.value, n) := outcomes[n].text]
      else prev
  }

  /** The lines printed for failed requests, in order. */
  function FailureLines(outcomes: seq<Response>): (lines: seq<string>)
    ensures |lines| + SuccessCount(outcomes) == |outcomes|
  {
    if outcomes == [] then []
    else
      var n := |outcomes| - 1;
      FailureLines(outcomes[..n]) +
        match outcomes[n]
        case Ok(_) => []
        case Failed(reason) => ["Request failed for " + RequestUrl(n) + ": " + reason]
  }

  /** The closing summary line. */
  function Summary(gotCount: nat): string {
    "Found " + Decimal(gotCount) + " valid URLs in total!"
  }

  /** The archive paths of the successful indices. */
  ghost function ArchivedPaths(saveTo: string, outcomes: seq<Response>): set<string> {
    set n: nat | n < |outcomes| && outcomes[n].Ok? :: ArchivePath(saveTo, n)
  }

  lemma ArchivePathInjective(saveTo: string, n: nat, m: nat)
    requires ArchivePath(saveTo, n) == ArchivePath(saveTo, m)
    ensures n == m
  {
    var a, b := UrlAsName(RequestUrl(n)), UrlAsName(RequestUrl(m));
    var k := |saveTo| + 1;
    UrlAsNameOfRequestUrl(n);
    UrlAsNameOfRequestUrl(m);
    var p, q := ArchivePath(saveTo, n), ArchivePath(saveTo, m);
    assert p[k..|p| - 5] == a;
    assert q[k..|q| - 5] == b;
    UrlAsNameInjective(n, m);
  }

  /** Without `save_to` nothing is written. */
  lemma {:induction false} ArchiveWithoutSaveTo(files: map<string, string>, outcomes: seq<Response>)
    ensures Archive(files, None, outcomes) == files
    decreases |outcomes|
  {
    if outcomes != [] {
      ArchiveWithoutSaveTo(files, outcomes[..|outcomes| - 1]);
    }
  }

  lemma ArchivedPathsSnoc(saveTo: string, outcomes: seq<Response>)
    requires outcomes != []
    ensures var n := |outcomes| - 1;
      ArchivedPaths(saveTo, outcomes) ==
        ArchivedPaths(saveTo, outcomes[..n]) + (if outcomes[n].Ok? then {ArchivePath(saveTo, n)} else {})
  {
    var n := |outcomes| - 1;
    assert forall k: nat :: k < n ==> outcomes[..n][k] == outcomes[k];
  }

  /** A later index never writes an earlier index's path. */
  lemma PathNotYetArchived(saveTo: string, outcomes: seq<Response>)
    ensures ArchivePath(saveTo, |outcomes|) !in ArchivedPaths(saveTo, outcomes)
  {
    forall k: nat | k < |outcomes|
      ensures ArchivePath(saveTo, k) != ArchivePath(saveTo, |outcomes|)
    {
      if ArchivePath(saveTo, k) == ArchivePath(saveTo, |outcomes|) {
        ArchivePathInjective(saveTo, k, |outcomes|);
      }
    }
  }

  /** With `save_to`, the folder gains exactly the archive paths of the
      successful indices. */
  lemma {:induction false} ArchiveKeys(files: map<string, string>, saveTo: string, outcomes: seq<Response>)
    ensures Archive(files, Some(saveTo), outcomes).Keys == files.Keys + ArchivedPaths(saveTo, outcomes)
    decreases |outcomes|
  {
    if outcomes != [] {
      ArchiveKeys(files, saveTo, outcomes[..|outcomes| - 1]);
      ArchivedPathsSnoc(saveTo, outcomes);
    }
  }

  /** Each successful index's path holds that response's text: no later
      index writes the same path. */
  lemma {:induction false} ArchiveHolds(files: map<string, string>, saveTo: string, outcomes: seq<Response>, n: nat)
    requires n < |outcomes| && outcomes[n].Ok?
    ensures ArchivePath(saveTo, n) in Archive(files, Some(saveTo), outcomes)
    ensures Archive(files, Some(saveTo), outcomes)[ArchivePath(saveTo, n)] == outcomes[n].text
    decreases |outcomes|
  {
    var last := |outcomes| - 1;
    var init := outcomes[..last];
    if n < last {
      assert init[n] == outcomes[n];
      ArchiveHolds(files, saveTo, init, n);
      if ArchivePath(saveTo, n) == ArchivePath(saveTo, last) {
        ArchivePathInjective(saveTo, n, last);
      }
    }
  }

  /** Every file outside the archived paths keeps its text. */
  lemma {:induction false} ArchiveKeepsOthers(files: map<string, string>, saveTo: string, outcomes: seq<Response>, k: string)
    requires k in files && k !in ArchivedPaths(saveTo, outcomes)
    ensures k in Archive(files, Some(saveTo), outcomes)
    ensures Archive(files, Some(saveTo), outcomes)[k] == files[k]
    decreases |outcomes|
  {
    if outcomes != [] {
      ArchivedPathsSnoc(saveTo, outcomes);
      ArchiveKeepsOthers(files, saveTo, outcomes[..|outcomes| - 1], k);
    }
  }

  /** Exactly one file per successful response is written. */
  lemma {:induction false} ArchivedPathsCount(saveTo: string, outcomes: seq<Response>)
    ensures |ArchivedPaths(saveTo, outcomes)| == SuccessCount(outcomes)
    decreases |outcomes|
  {
    if outcomes == [] {
      assert ArchivedPaths(saveTo, outcomes) == {};
    } else {
      var n := |outcomes| - 1;
      ArchivedPathsCount(saveTo, outcomes[..n]);
      ArchivedPathsSnoc(saveTo, outcomes);
      PathNotYetArchived(saveTo, outcomes[..n]);
    }
  }

  /** The count splits over consecutive runs of responses: a failure in
      the middle adds nothing and does not end the count. */
  lemma {:induction false} SuccessCountAppend(a: seq<Response>, b: seq<Response>)
    ensures SuccessCount(a + b) == SuccessCount(a) + SuccessCount(b)
    decreases |b|
  {
    if b == [] {
      assert a + b == a;
    } else {
      var b' := b[..|b| - 1];
      assert (a + b)[..|a + b| - 1] == a + b';
      SuccessCountAppend(a, b');
    }
  }

  /** The three accounts of the loop, one response further on. */
  lemma OutcomesNext(files0: map<string, string>, saveTo: Option<string>, outcomes: seq<Response>, k: nat)
    requires k < |outcomes|
    ensures SuccessCount(outcomes[..k + 1]) == SuccessCount(outcomes[..k]) + (if outcomes[k].Ok? then 1 else 0)
    ensures Archive(files0, saveTo, outcomes[..k + 1]) ==
            if outcomes[k].Ok? && saveTo.Some?
            then Archive(files0, saveTo, outcomes[..k])[ArchivePath(saveTo.value, k) := outcomes[k].text]
            else Archive(files0, saveTo, outcomes[..k])
    ensures FailureLines(outcomes[..k + 1]) ==
            FailureLines(outcomes[..k]) +
              if outcomes[k].Ok? then [] else ["Request failed for " + RequestUrl(k) + ": " + outcomes[k].reason]
  {
    assert outcomes[..k + 1][..k] == outcomes[..k];
  }

  /** Appending the request for the next index keeps the list of
      requests the one `range` enumerates. */
  lemma RequestsNext(requests: seq<Request>, cookie: string, k: nat)
    requires |requests| == k
    requires forall n :: 0 <= n < k ==> requests[n] == Get(RequestUrl(n), cookie)
    ensures forall n :: 0 <= n < k + 1 ==> (requests + [Get(RequestUrl(k), cookie)])[n] == Get(RequestUrl(n), cookie)
  {
  }

  /** The loop of `send_requests`. `outcomes[n]` is what the server
      answers to the request for index `n`; `files0` is the folder before
      the run. Returns the count, the requests sent, the folder after the
      run and the lines printed. */
  method SendRequests(cookie: string, maxNumber: int, saveTo: Option<string>,
                      outcomes: seq<Response>, files0: map<string, string>)
    returns (gotCount: nat, requests: seq<Request>, files: map<string, string>, output: seq<string>)
    requires |outcomes| == RangeLength(maxNumber)
    ensures |requests| == RangeLength(maxNumber)
    ensures forall n :: 0 <= n < |requests| ==> requests[n] == Get(RequestUrl(n), cookie)
    ensures gotCount == SuccessCount(outcomes) <= RangeLength(maxNumber)
    ensures files == Archive(files0, saveTo, outcomes)
    ensures output == FailureLines(outcomes) + [Summary(gotCount)]
  {
    gotCount, requests, files, output := 0, [], files0, [];
    for number := 0 to RangeLength(maxNumber)
      invariant |requests| == number
      invariant forall n :: 0 <= n < number ==> requests[n] == Get(RequestUrl(n), cookie)
      invariant gotCount == SuccessCount(outcomes[..number])
      invariant files == Archive(files0, saveTo, outcomes[..number])
      invariant output == FailureLines(outcomes[..number])
    {
      OutcomesNext(files0, saveTo, outcomes, number);
      var url := RequestUrl(number);
      RequestsNext(requests, cookie, number);
      requests := requests + [Get(url, cookie)];
      match outcomes[number]
      case Ok(text) =>
        gotCount := gotCount + 1;
        if saveTo.Some? {
          files := files[ArchivePath(saveTo.value, number) := text];
        }
      case Failed(reason) =>
        output := output + ["Request failed for " + url + ": " + reason];
    }
    assert outcomes[..|outcomes|] == outcomes;
    output := output + [Summary(gotCount)];
  }

  /** Three indices, the middle one refused: two pages are counted and,
      with a folder given, two files are written. */
  lemma FetchExample(saveTo: string)
    ensures var outcomes := [Ok("p0"), Failed("404"), Ok("p2")];
      && SuccessCount(outcomes) == 2
      && |ArchivedPaths(saveTo, outcomes)| == 2
      && Summary(SuccessCount(outcomes)) == "Found 2 valid URLs in total!"
  {
    var outcomes := [Ok("p0"), Failed("404"), Ok("p2")];
    assert outcomes[..2] == [Ok("p0"), Failed("404")];
    assert outcomes[..2][..1] == [Ok("p0")];
    assert [Ok("p0")][..0] == [];
    ArchivedPathsCount(saveTo, outcomes);
    assert Decimal(2) == "2";
  }
}
