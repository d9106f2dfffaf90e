/** `lib/scan.py`: the `GitScanner` that derives the local and remote `.git` locations from
    the target URL and tries three plans in turn: clone directly (A), download through a
    directory listing (B), rebuild from what can be fetched (C). */
module Scan {
  import opened Text
  import Net

  // ---------------------------------------------------------------------------
  // The output directory: `urlparse(url).netloc` with ':' replaced by '_'

  predicate IsAsciiLetter(c: char) {
    'a' <= c <= 'z' || 'A' <= c <= 'Z'
  }

  /** A character `urlsplit` accepts in a scheme. */
  predicate IsSchemeChar(c: char) {
    IsAsciiLetter(c) || '0' <= c <= '9' || c == '+' || c == '-' || c == '.'
  }

  /** What `urlsplit` leaves after removing the scheme: a scheme is everything before the
      first ':' when it starts with an ASCII letter and has only scheme characters. */
  function AfterScheme(url: string): (rest: string)
    ensures |rest| <= |url|
  {
    var i := FindChar(url, ':');
    if i > 0 && IsAsciiLetter(url[0]) && forall k :: 0 <= k < i ==> IsSchemeChar(url[k]) then url[i + 1..]
    else url
  }

  /** The length of the network location at the start of `s`: up to the first '/', '?' or '#'. */
  function NetlocLength(s: string): (n: nat)
    ensures n <= |s|
    ensures forall k :: 0 <= k < n ==> s[k] != '/' && s[k] != '?' && s[k] != '#'
    ensures n < |s| ==> s[n] == '/' || s[n] == '?' || s[n] == '#'
  {
    if s == [] || s[0] == '/' || s[0] == '?' || s[0] == '#' then 0 else 1 + NetlocLength(s[1..])
  }

  /** `urlparse(url).netloc`: after the scheme, the text between a leading "//" and the next
      '/', '?' or '#'; empty when there is no "//". */
  function Netloc(url: string): (netloc: string)
    ensures '/' !in netloc
  {
    var rest := AfterScheme(url);
    if |rest| >= 2 && rest[0] == '/' && rest[1] == '/' then
      var n := NetlocLength(rest[2..]);
      assert forall k :: 0 <= k < n ==> rest[2..][..n][k] == rest[2..][k];
      rest[2..][..n]
    else ""
  }

  /** The directory name of the rebuild: the network location with ':' replaced by '_'. */
  function DistName(url: string): (name: string)
    ensures ':' !in name && '/' !in name
    ensures |name| == |Netloc(url)|
  {
    var n := ReplaceChar(Netloc(url), ':', '_');
    assert forall k :: 0 <= k < |n| ==> n[k] != '/' && n[k] != ':' by {
      forall k | 0 <= k < |n| ensures n[k] != '/' && n[k] != ':' {
        assert Netloc(url)[k] in Netloc(url);
      }
    }
    n
  }

  /** For `scheme://host<path>` the network location is the host, port included. */
  lemma NetlocOfUrl(scheme: string, host: string, path: string)
    requires scheme != [] && forall k :: 0 <= k < |scheme| ==> IsAsciiLetter(scheme[k])
    requires forall k :: 0 <= k < |host| ==> host[k] != '/' && host[k] != '?' && host[k] != '#'
    requires path == [] || path[0] == '/' || path[0] == '?' || path[0] == '#'
    ensures Netloc(scheme + [':', '/', '/'] + host + path) == host
  {
    var rest := ['/', '/'] + host + path;
    assert scheme + [':', '/', '/'] + host + path == scheme + [':'] + rest;
    AfterSchemeOf(scheme, rest);
    assert rest[2..] == host + path;
    NetlocLengthOf(host, path);
    assert (host + path)[..|host|] == host;
  }

  /** A scheme of letters and its ':' are removed, and nothing more. */
  lemma AfterSchemeOf(scheme: string, rest: string)
    requires scheme != [] && forall k :: 0 <= k < |scheme| ==> IsAsciiLetter(scheme[k])
    ensures AfterScheme(scheme + [':'] + rest) == rest
  {
    var url := scheme + [':'] + rest;
    assert url[|scheme|] == ':';
    assert forall k :: 0 <= k < |scheme| ==> url[k] == scheme[k];
    assert FindChar(url, ':') == |scheme|;
    assert url[|scheme| + 1..] == rest;
  }

  lemma {:induction false} NetlocLengthOf(host: string, path: string)
    requires forall k :: 0 <= k < |host| ==> host[k] != '/' && host[k] != '?' && host[k] != '#'
    requires path == [] || path[0] == '/' || path[0] == '?' || path[0] == '#'
    ensures NetlocLength(host + path) == |host|
    decreases |host|
  {
    if host != [] {
      assert (host + path)[1..] == host[1..] + path;
      NetlocLengthOf(host[1..], path);
    } else {
      assert host + path == path;
    }
  }

  // ---------------------------------------------------------------------------
  // The world the plans act on

  /** A call a plan makes that acts on or asks about the world, in the order made. */
  datatype Effect =
    | MakeDirs(path: string)   // os.makedirs(cwd, exist_ok=True)
    | Validate                 // valid_repo(cwd)
    | RemoveGit                // shutil.rmtree(localgit, ignore_errors=True)
    | Clone                    // clone(cwd, endpoint)
    | ProbeListing             // isdirlist(netgit)
    | Init                     // init(cwd)
    | DirlistDownload          // dirlist_download(gitpair)
    | UpdateFiles              // update_files(gitpair)
    | GetCache                 // get_cache(gitpair)

  /** What a call gave back: a truth value, or an exception. */
  datatype Outcome = Answer(value: bool) | Raised

  /** The collaborators the model does not see. `answer(e, h)` is what call `e` gives after
      the effects `h`; `gitExists(h)` is `os.path.exists(localgit)` after them; `server`
      answers the HTTP requests of `isdirlist`. */
  datatype World = World(answer: (Effect, seq<Effect>) -> Outcome,
                         gitExists: seq<Effect> -> bool,
                         server: Net.Server)

  /** A plan's result and the effects after it. */
  datatype Run = Run(outcome: Outcome, effects: seq<Effect>)

  /** `isdirlist(netgit)`: its exceptions escape `plan_b`. */
  function Listed(w: World, netgit: string): Outcome {
    var l := Net.Listing(Net.GetFrom(w.server, netgit, 0, Net.RETRY));
    if l.Err? then Raised else Answer(l.value)
  }

  /** `plan_a`: keep an existing `.git` that validates; otherwise remove it, if there is one,
      and clone. */
  function PlanARun(w: World, h: seq<Effect>): Run {
    if w.gitExists(h) then
      var valid := w.answer(Validate, h);
      var h1 := h + [Validate];
      if valid.Raised? then Run(Raised, h1)
      else if valid.value then Run(Answer(true), h1)
      else
        var h2 := h1 + [RemoveGit];
        Run(w.answer(Clone, h2), h2 + [Clone])
    else Run(w.answer(Clone, h), h + [Clone])
  }

  /** The start of plans B and C: `init(cwd)` unless `.git` exists. */
  function InitIfMissingRun(w: World, h: seq<Effect>): Run {
    if w.gitExists(h) then Run(Answer(true), h)
    else Run(if w.answer(Init, h).Raised? then Raised else Answer(true), h + [Init])
  }

  /** Calls `steps` in order until one raises. */
  function Until(w: World, h: seq<Effect>, steps: seq<Effect>): (r: Run)
    ensures r.outcome != Answer(false)
    ensures r.outcome == Answer(true) <==> forall k :: 0 <= k < |steps| ==> w.answer(steps[k], h + steps[..k]) != Raised
    decreases |steps|
  {
    if steps == [] then Run(Answer(true), h)
    else if w.answer(steps[0], h) == Raised then
      assert h + steps[..0] == h;
      Run(Raised, h + [steps[0]])
    else
      var r := Until(w, h + [steps[0]], steps[1..]);
      assert h + steps[..0] == h;
      forall k | 0 < k < |steps|
        ensures steps[k] == steps[1..][k - 1] && h + steps[..k] == h + [steps[0]] + steps[1..][..k - 1]
      {
        assert steps[..k] == [steps[0]] + steps[1..][..k - 1];
      }
      r
  }

  /** `plan_b`: give up without touching the disk when there is no directory listing;
      otherwise initialise if needed, download through the listing, update the files and
      validate. Any exception in those steps makes it False; a failed validation does not. */
  function PlanBRun(w: World, netgit: string, h: seq<Effect>): Run {
    var listed := Listed(w, netgit);
    var h0 := h + [ProbeListing];
    if listed.Raised? then Run(Raised, h0)
    else if !listed.value then Run(Answer(false), h0)
    else
      var start := InitIfMissingRun(w, h0);
      if start.outcome.Raised? then Run(Answer(false), start.effects)
      else
        var rest := Until(w, start.effects, [DirlistDownload, UpdateFiles, Validate]);
        Run(Answer(rest.outcome != Raised), rest.effects)
  }

  /** `plan_c`: initialise if needed, fetch what can be fetched, validate, and report True;
      only an exception keeps it from True. */
  function PlanCRun(w: World, h: seq<Effect>): Run {
    var start := InitIfMissingRun(w, h);
    if start.outcome.Raised? then start
    else Until(w, start.effects, [GetCache, Validate])
  }

  /** Which plans `scan` ran, what the last one gave, and the effects after them. */
  datatype Plan = A | B | C
  datatype Scanned = Scanned(tried: seq<Plan>, outcome: Outcome, effects: seq<Effect>)

  /** `scan`: plan A, then plan B if A gave False, then plan C if B gave False. An exception
      from a plan ends the scan. */
  function ScanPlans(w: World, netgit: string, h: seq<Effect>): Scanned {
    var a := PlanARun(w, h);
    if a.outcome != Answer(false) then Scanned([A], a.outcome, a.effects)
    else
      var b := PlanBRun(w, netgit, a.effects);
      if b.outcome != Answer(false) then Scanned([A, B], b.outcome, b.effects)
      else
        var c := PlanCRun(w, b.effects);
        Scanned([A, B, C], c.outcome, c.effects)
  }

  // ---------------------------------------------------------------------------
  // Properties of the plans

  /** An existing `.git` that validates is kept: plan A neither removes nor clones. */
  lemma PlanAKeepsValid(w: World, h: seq<Effect>)
    requires w.gitExists(h) && w.answer(Validate, h) == Answer(true)
    ensures PlanARun(w, h) == Run(Answer(true), h + [Validate])
  {
  }

  /** An existing `.git` that does not validate is removed before the clone, and plan A gives
      what the clone gives. */
  lemma PlanARemovesInvalid(w: World, h: seq<Effect>)
    requires w.gitExists(h) && w.answer(Validate, h) == Answer(false)
    ensures PlanARun(w, h).effects == h + [Validate, RemoveGit, Clone]
    ensures PlanARun(w, h).outcome == w.answer(Clone, h + [Validate, RemoveGit])
  {
    assert h + [Validate] + [RemoveGit] == h + [Validate, RemoveGit];
    assert h + [Validate, RemoveGit] + [Clone] == h + [Validate, RemoveGit, Clone];
  }

  /** Without a directory listing plan B gives False having only probed. */
  lemma PlanBNeedsListing(w: World, netgit: string, h: seq<Effect>)
    requires Listed(w, netgit) == Answer(false)
    ensures PlanBRun(w, netgit, h) == Run(Answer(false), h + [ProbeListing])
  {
  }

  /** With a listing, plan B gives True exactly when none of its steps raises, whatever
      validation answers; it never raises itself. */
  lemma PlanBTrueUnlessRaised(w: World, netgit: string, h: seq<Effect>)
    requires Listed(w, netgit) == Answer(true)
    ensures var start := InitIfMissingRun(w, h + [ProbeListing]);
      var steps := [DirlistDownload, UpdateFiles, Validate];
      PlanBRun(w, netgit, h).outcome == Answer(
        start.outcome != Raised
        && forall k :: 0 <= k < |steps| ==> w.answer(steps[k], start.effects + steps[..k]) != Raised)
  {
  }

  /** Plan C never gives False. */
  lemma PlanCNeverFalse(w: World, h: seq<Effect>)
    ensures PlanCRun(w, h).outcome != Answer(false)
  {
  }

  /** The plans run in order A, B, C, each only after the one before gave False; the scan
      succeeds exactly when the last plan it ran gave True, and once it reaches plan C it
      succeeds unless C raises. */
  lemma ScanOrder(w: World, netgit: string, h: seq<Effect>)
    ensures var s := ScanPlans(w, netgit, h);
      && 1 <= |s.tried| <= 3
      && s.tried == [A, B, C][..|s.tried|]
      && (B in s.tried <==> PlanARun(w, h).outcome == Answer(false))
      && (C in s.tried <==> B in s.tried && PlanBRun(w, netgit, PlanARun(w, h).effects).outcome == Answer(false))
      && (|s.tried| < 3 ==> s.outcome != Answer(false))
      && (C in s.tried ==> s.outcome != Answer(false))
  {
    var a := PlanARun(w, h);
    if a.outcome == Answer(false) {
      var b := PlanBRun(w, netgit, a.effects);
      if b.outcome == Answer(false) {
        PlanCNeverFalse(w, b.effects);
      }
    }
  }

  // ---------------------------------------------------------------------------
  // The scanner

  class GitScanner {
    /** The URL without trailing slashes. */
    const endpoint: string
    /** Where the repository is rebuilt: `<dist>/<DistName(url)>`. */
    const cwd: string
    /** `gitpair`: the local `.git` directory and its URL on the target. */
    const localgit: string
    const netgit: string
    const world: World
    /** The effects so far, in order. */
    var effects: seq<Effect>

    /** `GitScanner(url)`, with the output root `dist` given. */
    constructor(url: string, dist: string, world: World)
      ensures endpoint == RStrip(url, '/')
      ensures cwd == Join(dist, DistName(url))
      ensures localgit == Join(cwd, ".git") && netgit == endpoint + "/.git"
      ensures this.world == world
      ensures effects == [MakeDirs(cwd)]
    {
      endpoint := RStrip(url, '/');
      cwd := Join(dist, DistName(url));
      localgit := Join(Join(dist, DistName(url)), ".git");
      netgit := RStrip(url, '/') + "/.git";
      this.world := world;
      effects := [MakeDirs(Join(dist, DistName(url)))];
    }

    /** `os.path.exists(localgit)` */
    predicate GitExists()
      reads this
    {
      world.gitExists(effects)
    }

    /** Make the call `e` and record it. */
    method Call(e: Effect) returns (o: Outcome)
      modifies this
      ensures o == world.answer(e, old(effects))
      ensures effects == old(effects) + [e]
    {
      o := world.answer(e, effects);
      effects := effects + [e];
    }

    method PlanA() returns (r: Outcome)
      modifies this
      ensures Run(r, effects) == PlanARun(world, old(effects))
    {
      if GitExists() {
        var valid := Call(Validate);
        if valid.Raised? {
          return Raised;
        }
        if valid.value {
          return Answer(true);
        }
        effects := effects + [RemoveGit];
      }
      r := Call(Clone);
    }

    method InitIfMissing() returns (r: Outcome)
      modifies this
      ensures Run(r, effects) == InitIfMissingRun(world, old(effects))
    {
      r := Answer(true);
      if !GitExists() {
        var init := Call(Init);
        if init.Raised? {
          r := Raised;
        }
      }
    }

    method PlanB() returns (r: Outcome)
      modifies this
      ensures Run(r, effects) == PlanBRun(world, netgit, old(effects))
    {
      var listed := Listed(world, netgit);
      effects := effects + [ProbeListing];
      if listed.Raised? {
        return Raised;
      }
      if !listed.value {
        return Answer(false);
      }
      var start := InitIfMissing();
      if start.Raised? {
        return Answer(false);
      }
      ghost var h1 := effects;
      var o := Call(DirlistDownload);
      if o.Raised? {
        return Answer(false);
      }
      o := Call(UpdateFiles);
      if o.Raised? {
        return Answer(false);
      }
      o := Call(Validate);
      assert h1 + [DirlistDownload] + [UpdateFiles] == h1 + [DirlistDownload, UpdateFiles];
      return Answer(o != Raised);
    }

    method PlanC() returns (r: Outcome)
      modifies this
      ensures Run(r, effects) == PlanCRun(world, old(effects))
    {
      r := InitIfMissing();
      if r.Raised? {
        return;
      }
      r := Call(GetCache);
      if r.Raised? {
        return;
      }
      r := Call(Validate);
      if r.Answer? {
        r := Answer(true);
      }
    }

    /** `scan()`: `success` is whether it logs "clone success", Raised when a plan raised. */
    method Scan() returns (tried: seq<Plan>, success: Outcome)
      modifies this
      ensures Scanned(tried, success, effects) == ScanPlans(world, netgit, old(effects))
    {
      tried := [A];
      success := PlanA();
      if success == Answer(false) {
        tried := tried + [B];
        success := PlanB();
      }
      if success == Answer(false) {
        tried := tried + [C];
        success := PlanC();
      }
    }
  }

  /** Trailing slashes on the URL do not change where `.git` is fetched from. */
  lemma EndpointIgnoresSlashes(url: string)
    ensures RStrip(url + "/", '/') == RStrip(url, '/')
  {
    assert (url + "/")[..|url + "/"| - 1] == url;
  }
}
