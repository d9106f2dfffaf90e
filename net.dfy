/** The fetch layer: local files, the retrying HTTP `get`, the local-or-remote cache policy,
    the directory-listing test and the directory-listing crawler. The local disk is a value
    (`Disk`) held by a `Host`; the remote site is a fixed function from a URL and an attempt
    number to what that attempt does. */
module Net {
  import opened Wrappers
  import Bytes
  import opened Text

  /** What one `urlopen(...).read()` attempt does: return a body, raise `HTTPError` (which
      `get` swallows and retries), or raise anything else (which propagates). */
  datatype Attempt = Body(data: Bytes.Bytes) | HttpError | OtherError

  /** The remote site: the outcome of attempt `k` of one `get` of a URL. */
  type Server = (string, nat) -> Attempt

  /** An exception that propagates to the caller. */
  datatype Exception = TransportError | RecursionLimit

  /** What `get` returns or raises. */
  type Fetched = Result<Option<Bytes.Bytes>, Exception>

  /** `get`'s default number of attempts. */
  const RETRY: nat := 3

  // ---------------------------------------------------------------------------
  // The retry loop of `get`

  /** `get(url, retry)` from attempt `k` on. */
  function GetFrom(server: Server, url: string, k: nat, retry: nat): Fetched
    decreases retry - k
  {
    if k >= retry then Ok(None)
    else if server(url, k).Body? then Ok(Some(server(url, k).data))
    else if server(url, k).HttpError? then GetFrom(server, url, k + 1, retry)
    else Err(TransportError)
  }

  /** How many attempts `get` makes from attempt `k` on: it stops at the first that does not
      raise `HTTPError`, and never makes more than `retry`. */
  function AttemptsFrom(server: Server, url: string, k: nat, retry: nat): (n: nat)
    ensures k <= retry ==> n <= retry - k
    ensures k < retry ==> n >= 1
    decreases retry - k
  {
    if k >= retry then 0
    else if server(url, k).HttpError? then 1 + AttemptsFrom(server, url, k + 1, retry)
    else 1
  }

  /** The requests one `get` sends. */
  function Requests(server: Server, url: string, retry: nat): seq<string> {
    seq(AttemptsFrom(server, url, 0, retry), _ => url)
  }

  /** `get` returns None exactly when every one of its attempts raised `HTTPError`. */
  lemma {:induction false} GetNothing(server: Server, url: string, k: nat, retry: nat)
    ensures GetFrom(server, url, k, retry) == Ok(None)
        <==> forall j :: k <= j < retry ==> server(url, j).HttpError?
    decreases retry - k
  {
    if k < retry {
      GetNothing(server, url, k + 1, retry);
    }
  }

  /** `get` returns the body of, or raises, the first attempt that does not raise `HTTPError`. */
  lemma {:induction false} GetFirstAnswer(server: Server, url: string, k: nat, retry: nat, first: nat)
    requires k <= first < retry
    requires forall j :: k <= j < first ==> server(url, j).HttpError?
    requires !server(url, first).HttpError?
    ensures GetFrom(server, url, k, retry)
         == if server(url, first).Body? then Ok(Some(server(url, first).data)) else Err(TransportError)
    ensures AttemptsFrom(server, url, k, retry) == first - k + 1
    decreases first - k
  {
    if k < first {
      GetFirstAnswer(server, url, k + 1, retry, first);
    }
  }

  /** Python's truthiness of what `get` returned: a non-empty body. */
  predicate Truthy(f: Fetched) {
    f.Ok? && f.value.Some? && f.value.value != []
  }

  // ---------------------------------------------------------------------------
  // The local disk

  /** The files written so far and the directories created so far. */
  datatype Disk = Disk(files: map<string, Bytes.Bytes>, dirs: set<string>)

  /** `os.path.exists` */
  predicate Exists(d: Disk, path: string) {
    path in d.files || path in d.dirs
  }

  /** `load_file`: the contents, or None when there is no such file. */
  function LoadFile(d: Disk, path: string): (r: Option<Bytes.Bytes>)
    ensures r.Some? <==> path in d.files
    ensures r.Some? ==> r.value == d.files[path]
  {
    if path in d.files then Some(d.files[path]) else None
  }

  /** The directory `save_file` creates for `path`: its `dirname`, unless that is empty. */
  function MadeFor(path: string): set<string> {
    var dir := Dirname(path);
    if dir != "" then {dir} else {}
  }

  /** `save_file`: create the parent directory, then write the file. */
  function Saved(d: Disk, path: string, data: Bytes.Bytes): (r: Disk)
    ensures LoadFile(r, path) == Some(data)
    ensures forall p :: p != path ==> LoadFile(r, p) == LoadFile(d, p)
    ensures d.dirs <= r.dirs
  {
    Disk(d.files[path := data], d.dirs + MadeFor(path))
  }

  /** The disk after `download(localpath, netpath)`: written only when the body is non-empty. */
  function Downloaded(server: Server, d: Disk, localpath: string, netpath: string): (r: Disk)
    ensures !Truthy(GetFrom(server, netpath, 0, RETRY)) ==> r == d
    ensures Truthy(GetFrom(server, netpath, 0, RETRY))
        ==> LoadFile(r, localpath) == GetFrom(server, netpath, 0, RETRY).value
  {
    var g := GetFrom(server, netpath, 0, RETRY);
    if Truthy(g) then Saved(d, localpath, g.value.value) else d
  }

  // ---------------------------------------------------------------------------
  // Paths

  /** `os.path.join(localbase, path)` */
  function LocalPath(localbase: string, path: string): string {
    Join(localbase, path)
  }

  /** `f"{netbase.rstrip('/')}/{path.lstrip('/')}"` */
  function NetPath(netbase: string, path: string): (url: string)
    ensures EndsWith(url, LStrip(path, '/'))
  {
    RStrip(netbase, '/') + "/" + LStrip(path, '/')
  }

  /** Slashes at the seam do not matter: however many the base ends with or the path starts
      with, exactly one separates them. */
  lemma NetPathSeam(netbase: string, path: string)
    ensures NetPath(netbase + "/", path) == NetPath(netbase, path)
    ensures NetPath(netbase, "/" + path) == NetPath(netbase, path)
  {
    assert (netbase + "/")[..|netbase|] == netbase;
    assert ("/" + path)[1..] == path;
  }

  // ---------------------------------------------------------------------------
  // The directory-listing test

  /** The phrases a directory-listing page is recognised by. */
  const KEYWORDS: seq<string> := [
    "To Parent Directory",
    "Index of /",
    "Directory Listing For /",
    "[\U{8F6C}\U{5230}\U{7236}\U{76EE}\U{5F55}]",
    "objects/"
  ]

  /** Some keyword occurs in the text. */
  predicate HasKeyword(text: string) {
    exists i :: 0 <= i < |KEYWORDS| && Contains(text, KEYWORDS[i])
  }

  /** `isdirlist` on what `get` returned: true iff the body is non-empty and its UTF-8 text
      contains a keyword; what `get` raised propagates. */
  function Listing(f: Fetched): (r: Result<bool, Exception>)
    ensures f.Err? <==> r.Err?
    ensures r == Ok(true) <==> Truthy(f) && HasKeyword(Bytes.Utf8Decode(f.value.value))
  {
    if f.Err? then Err(f.error)
    else Ok(Truthy(f) && HasKeyword(Bytes.Utf8Decode(f.value.value)))
  }

  /** A page that says "Index of /" is a directory listing. */
  lemma IndexOfIsListing(body: Bytes.Bytes, at: nat)
    requires OccursAt("Index of /", Bytes.Utf8Decode(body), at)
    ensures Listing(Ok(Some(body))) == Ok(true)
  {
    assert Contains(Bytes.Utf8Decode(body), KEYWORDS[1]);
  }

  // ---------------------------------------------------------------------------
  // The directory-listing crawler

  /** `dirlist_ptn.findall(page)`: the link targets on a listing page. */
  type LinkScan = Bytes.Bytes -> seq<Bytes.Bytes>

  /** What the crawler works with: the site, the link scanner, and the two bases with their
      trailing slashes already stripped. */
  datatype Site = Site(server: Server, links: LinkScan, localbase: string, netbase: string)

  /** A download handed to the thread pool, with the crawl path it was made for. */
  datatype Task = Task(path: string, localpath: string, netpath: string)

  /** Links the crawler follows: not the parent directory and not an absolute path. */
  predicate Followed(link: string) {
    link != "../" && !StartsWith(link, "/")
  }

  /** Where a crawl path is kept and fetched from. */
  function CrawlLocal(site: Site, path: string): string {
    Join(site.localbase, Strip(path, '/'))
  }

  function CrawlNet(site: Site, path: string): string {
    site.netbase + "/" + LStrip(path, '/')
  }

  /** What a crawl did: the downloads it submitted, the directories it created, and the
      exception that ended it, if any. */
  datatype Crawl = Crawl(tasks: seq<Task>, made: seq<string>, failure: Option<Exception>)

  /** The directories a crawl created. */
  function Made(c: Crawl): set<string> {
    set d | d in c.made
  }

  /** `recursive(path)` with `depth` call levels left before Python's recursion limit. A
      path ending in '/' is a directory: create it, fetch its listing and crawl every followed
      link under it; any other path is a file to download. */
  function CrawlFrom(site: Site, path: string, depth: nat): (c: Crawl)
    decreases depth, 0
  {
    if depth == 0 then Crawl([], [], Some(RecursionLimit))
    else if !EndsWith(path, "/") then Crawl([Task(path, CrawlLocal(site, path), CrawlNet(site, path))], [], None)
    else CrawlDir(site, path, depth - 1)
  }

  /** The directory case of `recursive(path)`, with `depth` levels left for the links under it. */
  function CrawlDir(site: Site, path: string, depth: nat): (c: Crawl)
    decreases depth, 2
  {
    var local := CrawlLocal(site, path);
    var page := GetFrom(site.server, CrawlNet(site, path), 0, RETRY);
    if page.Err? then Crawl([], [local], Some(page.error))
    else if !Truthy(page) then Crawl([], [local], None)
    else CrawlLinks(site, path, DecodeAll(site.links(page.value.value)), depth, Crawl([], [local], None))
  }

  /** The links of a page, each decoded as UTF-8 with replacement. */
  function DecodeAll(links: seq<Bytes.Bytes>): (r: seq<string>)
    ensures |r| == |links|
    ensures forall i :: 0 <= i < |links| ==> r[i] == Bytes.Utf8Decode(links[i])
  {
    seq(|links|, i requires 0 <= i < |links| => Bytes.Utf8Decode(links[i]))
  }

  /** The loop over a listing's links, after the crawl `acc` so far: each followed link is
      crawled as `path + link`; an exception ends the loop. */
  function CrawlLinks(site: Site, path: string, links: seq<string>, depth: nat, acc: Crawl): (c: Crawl)
    decreases depth, 1, |links|
  {
    if links == [] || acc.failure.Some? then acc
    else if !Followed(links[0]) then CrawlLinks(site, path, links[1..], depth, acc)
    else
      var sub := CrawlFrom(site, path + links[0], depth);
      CrawlLinks(site, path, links[1..], depth, Crawl(acc.tasks + sub.tasks, acc.made + sub.made, sub.failure))
  }

  /** A page whose links are all skipped adds nothing to the crawl. */
  lemma {:induction false} SkippedLinks(site: Site, path: string, links: seq<string>, depth: nat, acc: Crawl)
    requires forall i :: 0 <= i < |links| ==> links[i] == "../" || StartsWith(links[i], "/")
    ensures CrawlLinks(site, path, links, depth, acc) == acc
    decreases |links|
  {
    if links != [] && acc.failure.None? {
      SkippedLinks(site, path, links[1..], depth, acc);
    }
  }

  /** Every download the crawler submits is for a file path under the start path, kept at its
      local path and fetched from its remote path. */
  ghost predicate FileTask(site: Site, root: string, t: Task) {
    && !EndsWith(t.path, "/")
    && StartsWith(t.path, root)
    && t.localpath == CrawlLocal(site, t.path)
    && t.netpath == CrawlNet(site, t.path)
  }

  ghost predicate FileTasks(site: Site, root: string, ts: seq<Task>) {
    forall k :: 0 <= k < |ts| ==> FileTask(site, root, ts[k])
  }

  lemma FileTasksAppend(site: Site, root: string, a: seq<Task>, b: seq<Task>)
    requires FileTasks(site, root, a) && FileTasks(site, root, b)
    ensures FileTasks(site, root, a + b)
  {
    forall k | 0 <= k < |a + b| ensures FileTask(site, root, (a + b)[k]) {
      if k >= |a| {
        assert (a + b)[k] == b[k - |a|];
      }
    }
  }

  /** A task under a path is also under every prefix of that path. */
  lemma FileTasksWiden(site: Site, child: string, root: string, ts: seq<Task>)
    requires FileTasks(site, child, ts) && StartsWith(child, root)
    ensures FileTasks(site, root, ts)
  {
    forall k | 0 <= k < |ts| ensures FileTask(site, root, ts[k]) {
      assert FileTask(site, child, ts[k]);
      StartsWithTrans(ts[k].path, child, root);
    }
  }

  lemma {:induction false} CrawlTasks(site: Site, path: string, depth: nat)
    ensures FileTasks(site, path, CrawlFrom(site, path, depth).tasks)
    decreases depth, 0
  {
    if depth > 0 {
      if EndsWith(path, "/") {
        assert CrawlFrom(site, path, depth) == CrawlDir(site, path, depth - 1);
        CrawlDirTasks(site, path, depth - 1);
      } else {
        CrawlFileTasks(site, path, depth);
      }
    } else {
      assert CrawlFrom(site, path, depth).tasks == [];
    }
  }

  /** A file path is its own one download. */
  lemma CrawlFileTasks(site: Site, path: string, depth: nat)
    requires depth > 0 && !EndsWith(path, "/")
    ensures FileTasks(site, path, CrawlFrom(site, path, depth).tasks)
  {
    assert StartsWith(path, path);
  }

  lemma {:induction false} CrawlDirTasks(site: Site, path: string, depth: nat)
    ensures FileTasks(site, path, CrawlDir(site, path, depth).tasks)
    decreases depth, 2
  {
    var page := GetFrom(site.server, CrawlNet(site, path), 0, RETRY);
    if page.Ok? && Truthy(page) {
      var links := DecodeAll(site.links(page.value.value));
      CrawlLinksTasks(site, path, links, depth, Crawl([], [CrawlLocal(site, path)], None));
    }
  }

  lemma {:induction false} CrawlLinksTasks(site: Site, path: string, links: seq<string>, depth: nat, acc: Crawl)
    requires FileTasks(site, path, acc.tasks)
    ensures FileTasks(site, path, CrawlLinks(site, path, links, depth, acc).tasks)
    decreases depth, 1, |links|
  {
    if links != [] && acc.failure.None? {
      if !Followed(links[0]) {
        CrawlLinksTasks(site, path, links[1..], depth, acc);
      } else {
        var child := path + links[0];
        var sub := CrawlFrom(site, child, depth);
        CrawlTasks(site, child, depth);
        assert child[..|path|] == path;
        FileTasksWiden(site, child, path, sub.tasks);
        FileTasksAppend(site, path, acc.tasks, sub.tasks);
        CrawlLinksTasks(site, path, links[1..], depth, Crawl(acc.tasks + sub.tasks, acc.made + sub.made, sub.failure));
      }
    }
  }

  /** The disk after the submitted downloads have all run. */
  function DownloadedAll(server: Server, d: Disk, tasks: seq<Task>): Disk
    decreases |tasks|
  {
    if tasks == [] then d
    else DownloadedAll(server, Downloaded(server, d, tasks[0].localpath, tasks[0].netpath), tasks[1..])
  }

  /** Downloads only ever add files and directories. */
  lemma {:induction false} DownloadedAllGrows(server: Server, d: Disk, tasks: seq<Task>)
    ensures d.files.Keys <= DownloadedAll(server, d, tasks).files.Keys
    ensures d.dirs <= DownloadedAll(server, d, tasks).dirs
    decreases |tasks|
  {
    if tasks != [] {
      var next := Downloaded(server, d, tasks[0].localpath, tasks[0].netpath);
      DownloadedAllGrows(server, next, tasks[1..]);
    }
  }

  // ---------------------------------------------------------------------------
  // The host: the disk, the requests sent, and the remote site

  class Host {
    var disk: Disk
    /** Every URL requested, one entry per attempt. */
    var requests: seq<string>
    const server: Server

    constructor(disk: Disk, server: Server)
      ensures this.disk == disk && this.server == server && requests == []
    {
      this.disk := disk;
      this.server := server;
      requests := [];
    }

    /** `get(url, retry)` */
    method Get(url: string, retry: nat) returns (r: Fetched)
      modifies this
      ensures r == GetFrom(server, url, 0, retry)
      ensures requests == old(requests) + Requests(server, url, retry)
      ensures disk == old(disk)
    {
      var k := 0;
      while k < retry
        invariant k <= retry
        invariant forall j :: 0 <= j < k ==> server(url, j).HttpError?
        invariant GetFrom(server, url, 0, retry) == GetFrom(server, url, k, retry)
        invariant AttemptsFrom(server, url, 0, retry) == k + AttemptsFrom(server, url, k, retry)
        invariant requests == old(requests) + seq(k, _ => url)
        invariant disk == old(disk)
      {
        requests := requests + [url];
        assert seq(k, _ => url) + [url] == seq(k + 1, _ => url);
        var attempt := server(url, k);
        if attempt.Body? {
          return Ok(Some(attempt.data));
        } else if attempt.OtherError? {
          return Err(TransportError);
        }
        k := k + 1;
      }
      return Ok(None);
    }

    /** `save_file(localpath, data)` */
    method SaveFile(localpath: string, data: Bytes.Bytes)
      modifies this
      ensures disk == Saved(old(disk), localpath, data)
      ensures requests == old(requests)
    {
      var dir := Dirname(localpath);
      if dir != "" {
        disk := disk.(dirs := disk.dirs + {dir});
      }
      disk := disk.(files := disk.files[localpath := data]);
    }

    /** `download(localpath, netpath)`: fetch, and write only a non-empty body. */
    method Download(localpath: string, netpath: string) returns (r: Fetched)
      modifies this
      ensures r == GetFrom(server, netpath, 0, RETRY)
      ensures disk == Downloaded(server, old(disk), localpath, netpath)
      ensures requests == old(requests) + Requests(server, netpath, RETRY)
    {
      r := Get(netpath, RETRY);
      if Truthy(r) {
        SaveFile(localpath, r.value.value);
      }
    }

    /** `load_or_get((localbase, netbase), path, cover)`: keep a local copy unless `cover` is
        set or there is none; otherwise download, and fall back to whatever local copy there is
        when the download brings nothing. */
    method LoadOrGet(localbase: string, netbase: string, path: string, cover: bool) returns (r: Fetched)
      modifies this
      ensures var local := LocalPath(localbase, path);
        !cover && Exists(old(disk), local) ==>
          r == Ok(LoadFile(old(disk), local)) && disk == old(disk) && requests == old(requests)
      ensures var local := LocalPath(localbase, path);
        var g := GetFrom(server, NetPath(netbase, path), 0, RETRY);
        cover || !Exists(old(disk), local) ==>
          && disk == Downloaded(server, old(disk), local, NetPath(netbase, path))
          && requests == old(requests) + Requests(server, NetPath(netbase, path), RETRY)
          && r == (if g.Err? then Err(g.error) else if Truthy(g) then g else Ok(LoadFile(old(disk), local)))
    {
      var local := LocalPath(localbase, path);
      var net := NetPath(netbase, path);
      var ret: Option<Bytes.Bytes> := None;
      if cover || !Exists(disk, local) {
        var fetched := Download(local, net);
        if fetched.Err? {
          return Err(fetched.error);
        }
        ret := fetched.value;
      }
      if ret.Some? && ret.value != [] {
        return Ok(ret);
      }
      return Ok(LoadFile(disk, local));
    }

    /** `isdirlist(url)` */
    method IsDirList(url: string) returns (r: Result<bool, Exception>)
      modifies this
      ensures r == Listing(GetFrom(server, url, 0, RETRY))
      ensures disk == old(disk)
    {
      var data := Get(url, RETRY);
      if data.Err? {
        return Err(data.error);
      }
      if Truthy(data) {
        var text := Bytes.Utf8Decode(data.value.value);
        var i := 0;
        while i < |KEYWORDS|
          invariant i <= |KEYWORDS|
          invariant forall j :: 0 <= j < i ==> !Contains(text, KEYWORDS[j])
        {
          if Contains(text, KEYWORDS[i]) {
            return Ok(true);
          }
          i := i + 1;
        }
      }
      return Ok(false);
    }

    /** `recursive(path)` inside `dirlist_spider`, `depth` call levels from the recursion
        limit: the submitted downloads are returned rather than run. */
    method Visit(site: Site, path: string, depth: nat) returns (c: Crawl)
      requires site.server == server
      modifies this
      ensures c == CrawlFrom(site, path, depth)
      ensures disk.files == old(disk.files)
      ensures disk.dirs == old(disk.dirs) + Made(c)
      decreases depth, 0
    {
      var local := CrawlLocal(site, path);
      var net := CrawlNet(site, path);
      if depth == 0 {
        return Crawl([], [], Some(RecursionLimit));
      }
      if !EndsWith(path, "/") {
        return Crawl([Task(path, local, net)], [], None);
      }
      disk := disk.(dirs := disk.dirs + {local});
      var page := Get(net, RETRY);
      if page.Err? {
        return Crawl([], [local], Some(page.error));
      }
      if !Truthy(page) {
        return Crawl([], [local], None);
      }
      c := VisitLinks(site, path, DecodeAll(site.links(page.value.value)), depth - 1, Crawl([], [local], None));
    }

    /** The `for` loop over a listing's links. */
    method VisitLinks(site: Site, path: string, links: seq<string>, depth: nat, acc: Crawl) returns (c: Crawl)
      requires site.server == server
      requires Made(acc) <= disk.dirs
      modifies this
      ensures c == CrawlLinks(site, path, links, depth, acc)
      ensures disk.files == old(disk.files)
      ensures disk.dirs == old(disk.dirs) + Made(c)
      ensures Made(acc) <= Made(c)
      decreases depth, 1
    {
      c := acc;
      var i := 0;
      while i < |links| && c.failure.None?
        invariant i <= |links|
        invariant CrawlLinks(site, path, links, depth, acc) == CrawlLinks(site, path, links[i..], depth, c)
        invariant disk.files == old(disk.files)
        invariant disk.dirs == old(disk.dirs) + Made(c)
        invariant Made(acc) <= Made(c)
      {
        assert links[i..][1..] == links[i + 1..];
        if Followed(links[i]) {
          var sub := Visit(site, path + links[i], depth);
          c := Crawl(c.tasks + sub.tasks, c.made + sub.made, sub.failure);
        }
        i := i + 1;
      }
    }

    /** The submitted downloads, run one after another; what each raises stays in its future. */
    method RunTasks(tasks: seq<Task>)
      modifies this
      ensures disk == DownloadedAll(server, old(disk), tasks)
    {
      var i := 0;
      while i < |tasks|
        invariant i <= |tasks|
        invariant DownloadedAll(server, old(disk), tasks) == DownloadedAll(server, disk, tasks[i..])
      {
        assert tasks[i..][1..] == tasks[i + 1..];
        var _ := Download(tasks[i].localpath, tasks[i].netpath);
        i := i + 1;
      }
    }

    /** `dirlist_spider((localbase, netbase))`: crawl from "/" with both bases' trailing slashes
        stripped; the submitted downloads run before the crawl's exception, if any, leaves the
        thread pool. */
    method DirlistSpider(links: LinkScan, localbase: string, netbase: string, depth: nat)
      returns (failure: Option<Exception>)
      modifies this
      ensures var site := Site(server, links, RStrip(localbase, '/'), RStrip(netbase, '/'));
        var crawl := CrawlFrom(site, "/", depth);
        && failure == crawl.failure
        && disk == DownloadedAll(server, Disk(old(disk.files), old(disk.dirs) + Made(crawl)), crawl.tasks)
    {
      var site := Site(server, links, RStrip(localbase, '/'), RStrip(netbase, '/'));
      var crawl := Visit(site, "/", depth);
      RunTasks(crawl.tasks);
      return crawl.failure;
    }
  }
}
