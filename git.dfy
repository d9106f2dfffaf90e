/** The rebuild of a repository in `lib/git.py`: the hashes `fake_clone` collects from the
    reference files, the walk `hashes_walk` makes over the object graph from them, and the
    checkout `index_extract` makes of the files the index lists. */
module Git {
  import opened Wrappers
  import Bytes
  import opened Text
  import Parser
  import IndexFormat
  import Net

  /** An object name as the source handles it: any string, normally 40 hex digits. */
  type Hash = string

  /** `f'objects/{h[:2]}/{h[2:]}'`, the path of an object relative to the `.git` directory. */
  function ObjectPath(h: Hash): (p: string)
    ensures |p| == |h| + 9
    ensures StartsWith(p, "objects/")
  {
    "objects/" + Take(h, 2) + "/" + Drop(h, 2)
  }

  /** Distinct hashes live at distinct paths, so loading each hash once loads each path once. */
  lemma ObjectPathInjective(h1: Hash, h2: Hash)
    requires ObjectPath(h1) == ObjectPath(h2)
    ensures h1 == h2
  {
    var t1, t2 := Take(h1, 2), Take(h2, 2);
    assert |h1| == |h2|;
    ConcatInjective("objects/" + t1 + "/", Drop(h1, 2), "objects/" + t2 + "/", Drop(h2, 2));
    ConcatInjective("objects/" + t1, "/", "objects/" + t2, "/");
    ConcatInjective("objects/", t1, "objects/", t2);
    assert h1 == t1 + Drop(h1, 2);
    assert h2 == t2 + Drop(h2, 2);
  }

  /** What a run sees of the repository it rebuilds. `files(path, cover)` is the answer of
      `load_or_get(gitpair, path, cover)` for a reference file. `objects` answers it for the
      object path of each hash; a hash outside the map has no object anywhere, so its load
      gives None. `inflate` is `zlib.decompress`, None where it raises. */
  datatype Repo = Repo(files: (string, bool) -> Net.Fetched,
                       objects: map<Hash, Net.Fetched>,
                       inflate: Bytes.Bytes -> Option<Bytes.Bytes>)

  /** `load_or_get(gitpair, ObjectPath(h))` */
  function LoadObject(repo: Repo, h: Hash): (r: Net.Fetched)
    ensures h !in repo.objects ==> r == Ok(None)
  {
    if h in repo.objects then repo.objects[h] else Ok(None)
  }

  // ---------------------------------------------------------------------------
  // hashes_walk

  /** A commit header that is set and non-empty (Python's `if commit['tree']:`). */
  function NonEmpty(v: Option<string>): (r: set<Hash>)
    ensures r == {} <==> v.None? || v.value == ""
    ensures r <= (if v.Some? then {v.value} else {})
  {
    if v.Some? && v.value != "" then {v.value} else {}
  }

  /** The hashes the decompressed data of an object adds to the pool: every entry of a tree,
      the `tree` and `parent` of a commit when they are non-empty, nothing for a blob or a
      kind the walk does not know, and nothing when decoding raises. */
  function Pointers(data: Bytes.Bytes): set<Hash> {
    if Bytes.StartsWith(data, Parser.TREE) then TreePointers(Parser.ParseTree(data))
    else if Bytes.StartsWith(data, Parser.COMMIT) then CommitPointers(Parser.ParseCommit(data))
    else {}
  }

  /** `hashpool.update(t['sha1'] for t in tree)`: parse errors come before the first entry,
      so a tree adds all of its hashes or none. */
  function TreePointers(tree: Result<seq<Parser.TreeEntry>, Parser.ObjectError>): (r: set<Hash>)
    ensures tree.Ok? ==> forall k :: 0 <= k < |tree.value| ==> tree.value[k].sha1 in r
    ensures forall h :: h in r ==> tree.Ok? && exists k :: 0 <= k < |tree.value| && tree.value[k].sha1 == h
  {
    if tree.Err? then {} else set k | 0 <= k < |tree.value| :: tree.value[k].sha1
  }

  /** The `tree` and `parent` a commit names, where set and non-empty. */
  function CommitPointers(commit: Result<Parser.Commit, Parser.ObjectError>): (r: set<Hash>)
    ensures commit.Err? ==> r == {}
    ensures commit.Ok? ==> r == NonEmpty(commit.value.Field("tree")) + NonEmpty(commit.value.Field("parent"))
  {
    if commit.Err? then {} else NonEmpty(commit.value.Field("tree")) + NonEmpty(commit.value.Field("parent"))
  }

  /** What processing `h` adds to the pool, or the exception its load raised. The load is
      outside the `try`, so only its exception escapes; a missing object, data that does not
      inflate and an object that does not decode add nothing and still mark `h` as used. */
  function Expand(repo: Repo, h: Hash): (r: Result<set<Hash>, Net.Exception>)
    ensures r.Err? <==> LoadObject(repo, h).Err?
    ensures r.Err? ==> r.error == LoadObject(repo, h).error
    ensures LoadObject(repo, h) == Ok(None) ==> r == Ok({})
  {
    var z := LoadObject(repo, h);
    if z.Err? then Err(z.error)
    else if z.value.None? then Ok({})
    else
      match repo.inflate(z.value.value)
      case None => Ok({})
      case Some(data) => Ok(Pointers(data))
  }

  /** The object graph as the walk sees it: what processing each hash adds to the pool, or
      the exception its load raised. */
  type Graph = Hash -> Result<set<Hash>, Net.Exception>

  /** The graph of the objects of `repo`. */
  function ObjectGraph(repo: Repo): (g: Graph)
    ensures forall h :: h !in repo.objects ==> g(h) == Ok({})
  {
    h => Expand(repo, h)
  }

  /** The successors of `h`. */
  function Kids(g: Graph, h: Hash): set<Hash> {
    if g(h).Ok? then g(h).value else {}
  }

  /** Every hash the objects `stored` point to. */
  function Pointed(g: Graph, stored: set<Hash>): set<Hash> {
    set h, k | h in stored && k in Kids(g, h) :: k
  }

  lemma KidsPointed(g: Graph, stored: set<Hash>, h: Hash)
    requires h !in stored ==> g(h) == Ok({})
    ensures Kids(g, h) <= Pointed(g, stored)
  {
    if h in stored {
      forall k | k in Kids(g, h)
        ensures k in Pointed(g, stored)
      {
      }
    }
  }

  /** A set of hashes that holds the successors of each of its members. */
  ghost predicate Closed(g: Graph, s: set<Hash>) {
    forall h :: h in s ==> Kids(g, h) <= s
  }

  /** `used` is the least closed set containing `seeds`: everything reachable from them. */
  ghost predicate LeastClosed(g: Graph, seeds: set<Hash>, used: set<Hash>) {
    && Closed(g, used)
    && seeds <= used
    && forall s :: Closed(g, s) && seeds <= s ==> used <= s
  }

  /** The reachable set is determined by the seeds: the order in which `hashpool.pop()` hands
      out hashes does not change what the walk visits. */
  lemma LeastClosedUnique(g: Graph, seeds: set<Hash>, a: set<Hash>, b: set<Hash>)
    requires LeastClosed(g, seeds, a) && LeastClosed(g, seeds, b)
    ensures a == b
  {
    assert a <= b;
    assert b <= a;
  }

  /** A sequence that repeats nothing. */
  predicate Distinct<T(==)>(s: seq<T>) {
    forall i, j :: 0 <= i < j < |s| ==> s[i] != s[j]
  }

  /** `order` lists the members of `used`, each once. */
  ghost predicate Logged(used: set<Hash>, order: seq<Hash>) {
    Distinct(order) && forall h :: h in used <==> h in order
  }

  lemma LoggedAdd(used: set<Hash>, order: seq<Hash>, h: Hash)
    requires Logged(used, order) && h !in used
    ensures Logged(used + {h}, order + [h])
    ensures Distinct(order + [h]) && (order + [h])[..|order|] == order
  {
    assert (order + [h])[..|order|] == order;
  }

  /** A sequence of hashes without repetition loads no object path twice. */
  lemma DistinctPaths(order: seq<Hash>)
    requires Distinct(order)
    ensures forall i, j :: 0 <= i < j < |order| ==> ObjectPath(order[i]) != ObjectPath(order[j])
  {
    forall i, j | 0 <= i < j < |order|
      ensures ObjectPath(order[i]) != ObjectPath(order[j])
    {
      if ObjectPath(order[i]) == ObjectPath(order[j]) {
        ObjectPathInjective(order[i], order[j]);
      }
    }
  }

  /** What the walk keeps true of `usedhash` and `hashpool`: every seed is used or pending,
      the successors of a used hash are used or pending, and nothing outside the reachable
      set is ever used or pending. */
  ghost predicate Frontier(g: Graph, hashes: set<Hash>, used: set<Hash>, pool: set<Hash>) {
    && hashes <= used + pool
    && (forall h :: h in used ==> Kids(g, h) <= used + pool)
    && (forall s :: Closed(g, s) && hashes <= s ==> used + pool <= s)
  }

  /** Using a pending hash moves it to `used` and its successors to the pool. */
  lemma FrontierStep(g: Graph, hashes: set<Hash>, used: set<Hash>, pool: set<Hash>, h: Hash)
    requires Frontier(g, hashes, used, pool) && h in pool && g(h).Ok?
    ensures Frontier(g, hashes, used + {h}, (pool - {h}) + g(h).value)
  {
    forall s | Closed(g, s) && hashes <= s
      ensures used + {h} + (pool - {h}) + g(h).value <= s
    {
      assert h in s && Kids(g, h) <= s;
    }
  }

  /** Popping a hash that is already used changes nothing that matters. */
  lemma FrontierSkip(g: Graph, hashes: set<Hash>, used: set<Hash>, pool: set<Hash>, h: Hash)
    requires Frontier(g, hashes, used, pool) && h in used
    ensures Frontier(g, hashes, used, pool - {h})
  {
    assert used + (pool - {h}) == used + pool;
  }

  /** `hashes_walk(gitpair, hashes)`. `order` lists the hashes whose objects were loaded, in
      the order of loading; `used` is `usedhash`; `failure` is the exception of a load that
      raised, which ends the walk with that hash loaded but not used. Without a failure the
      walk has visited exactly the hashes reachable from `hashes`, each loaded once. */
  method HashesWalk(g: Graph, stored: set<Hash>, hashes: set<Hash>)
    returns (used: set<Hash>, order: seq<Hash>, failure: Option<Net.Exception>)
    requires forall h :: h !in stored ==> g(h) == Ok({})
    ensures Distinct(order)
    ensures forall s :: Closed(g, s) && hashes <= s ==> used <= s
    ensures failure.None? ==> LeastClosed(g, hashes, used)
    ensures failure.None? ==> Logged(used, order)
    ensures failure.Some? ==>
      && |order| >= 1
      && g(order[|order| - 1]) == Err(failure.value)
      && Logged(used, order[..|order| - 1])
    ensures forall h :: h in used ==> g(h).Ok?
  {
    ghost var universe := hashes + Pointed(g, stored);
    var pool := hashes;
    used := {};
    order := [];
    while pool != {}
      invariant used <= universe && pool <= universe
      invariant Frontier(g, hashes, used, pool)
      invariant Logged(used, order)
      invariant forall h :: h in used ==> g(h).Ok?
      decreases universe - used, pool
    {
      var h :| h in pool;
      if h in used {
        FrontierSkip(g, hashes, used, pool, h);
        pool := pool - {h};
        continue;
      }
      LoggedAdd(used, order, h);
      order := order + [h];
      var kids := g(h);
      if kids.Err? {
        return used, order, Some(kids.error);
      }
      FrontierStep(g, hashes, used, pool, h);
      KidsPointed(g, stored, h);
      pool := (pool - {h}) + kids.value;
      used := used + {h};
    }
    failure := None;
  }


  // ---------------------------------------------------------------------------
  // What the walk finds in each kind of object

  /** The kind is decided by the first bytes of the data. */
  lemma TreeDispatch(data: Bytes.Bytes)
    requires Bytes.StartsWith(data, Parser.TREE)
    ensures Pointers(data) == TreePointers(Parser.ParseTree(data))
  {
  }

  lemma CommitDispatch(data: Bytes.Bytes)
    requires Bytes.StartsWith(data, Parser.COMMIT)
    ensures Pointers(data) == CommitPointers(Parser.ParseCommit(data))
  {
    assert data[..4][0] == data[..6][0];
    assert !Bytes.StartsWith(data, Parser.TREE);
  }

  /** Data that starts with neither "tree" nor "commit" (a blob, a tag, anything else) adds
      nothing. */
  lemma OtherDispatch(data: Bytes.Bytes)
    requires !Bytes.StartsWith(data, Parser.TREE) && !Bytes.StartsWith(data, Parser.COMMIT)
    ensures Pointers(data) == {}
  {
  }

  /** A tag followed by a space starts with the tag. */
  lemma TaggedStartsWith(data: Bytes.Bytes, tag: Bytes.Bytes)
    requires Bytes.StartsWith(data, tag + [Bytes.SPACE])
    ensures Bytes.StartsWith(data, tag)
  {
    assert data[..|tag|] == data[..|tag| + 1][..|tag|];
  }

  /** A tree adds the hash of every entry it lists, and nothing else. */
  lemma TreeAddsEntries(es: seq<Parser.RawEntry>)
    requires forall k :: 0 <= k < |es| ==> Parser.ValidRaw(es[k])
    ensures var data := Parser.LooseObject(Parser.TREE, Parser.EncodeEntries(es));
      Pointers(data) == TreePointers(Ok(Parser.DecodedAll(es)))
  {
    var data := Parser.LooseObject(Parser.TREE, Parser.EncodeEntries(es));
    Parser.ParseTreeRoundTrip(es);
    TaggedStartsWith(data, Parser.TREE);
    TreeDispatch(data);
  }

  /** A commit adds its `tree` and its (last) `parent` header, those that are non-empty. */
  lemma CommitAddsTreeAndParent(pairs: seq<(Bytes.Bytes, Bytes.Bytes)>, message: Bytes.Bytes)
    requires |pairs| >= 1
    requires forall k :: 0 <= k < |pairs| ==> Parser.ValidHeader(pairs[k])
    ensures var body := Bytes.JoinWith(Parser.HeaderBlock(pairs), Bytes.NEWLINE) + Parser.BLANK_LINE + message;
      var c := Parser.Commit(Parser.DecodeValues(Parser.LastValues(pairs)), Bytes.Utf8Decode(Bytes.Strip(message)));
      Pointers(Parser.LooseObject(Parser.COMMIT, body)) == NonEmpty(c.Field("tree")) + NonEmpty(c.Field("parent"))
  {
    var body := Bytes.JoinWith(Parser.HeaderBlock(pairs), Bytes.NEWLINE) + Parser.BLANK_LINE + message;
    var data := Parser.LooseObject(Parser.COMMIT, body);
    Parser.ParseCommitRoundTrip(pairs, message);
    assert Bytes.StartsWith(data, Parser.COMMIT + [Bytes.SPACE]);
    TaggedStartsWith(data, Parser.COMMIT);
    CommitDispatch(data);
  }

  /** A blob adds nothing. */
  lemma BlobAddsNothing(payload: Bytes.Bytes)
    ensures Pointers(Parser.LooseObject(Parser.BLOB, payload)) == {}
  {
    var data := Parser.LooseObject(Parser.BLOB, payload);
    assert data[0] == Parser.BLOB[0];
    assert data[..4][0] == data[0] && data[..6][0] == data[0];
    OtherDispatch(data);
  }

  // ---------------------------------------------------------------------------
  // fake_clone: the seed hashes

  /** One `_add_task(path, cover=…, hash_cap=…)` of `fake_clone`. */
  datatype Load = Load(path: string, cover: bool, hashCap: bool)

  /** The files `fake_clone` loads before it reads HEAD, in the order it submits them. */
  const REFERENCE_FILES: seq<Load> := [
    Load("HEAD", true, false),
    Load("config", true, false),
    Load("description", true, false),
    Load("info/exclude", true, false),
    Load("refs/heads/master", false, true),
    Load("refs/remotes/origin/master", false, true),
    Load("refs/remotes/origin/HEAD", false, true),
    Load("refs/stash", false, true),
    Load("packed-refs", true, true),
    Load("logs/HEAD", false, true),
    Load("logs/refs/heads/master", false, true),
    Load("logs/refs/remotes/origin/master", false, true),
    Load("logs/refs/remotes/origin/HEAD", false, true),
    Load("FETCH_HEAD", false, true),
    Load("ORIG_HEAD", false, true),
    Load("COMMIT_EDITMSG", false, false),
    Load("index", false, false)
  ]

  /** What a hash-capturing `_load` adds: `find_sha1` of the data, which gives nothing for
      None; a load that raised adds nothing either. */
  function Captured(f: Net.Fetched): (hashes: set<Hash>)
    ensures f.Err? || f == Ok(None) ==> hashes == {}
  {
    if f.Err? then {}
    else Parser.FindSha1(match f.value case Some(data) => Parser.BytesInput(data) case None => Parser.OtherInput)
  }

  /** The hashes the hash-capturing loads among `loads` add. */
  function CapturedFrom(repo: Repo, loads: seq<Load>): set<Hash>
    decreases |loads|
  {
    if loads == [] then {}
    else
      var last := loads[|loads| - 1];
      CapturedFrom(repo, loads[..|loads| - 1])
        + (if last.hashCap then Captured(repo.files(last.path, last.cover)) else {})
  }

  /** Exactly the hash-capturing loads contribute. */
  lemma {:induction false} CapturedFromExactly(repo: Repo, loads: seq<Load>, h: Hash)
    ensures h in CapturedFrom(repo, loads) <==>
      exists i :: 0 <= i < |loads| && loads[i].hashCap && h in Captured(repo.files(loads[i].path, loads[i].cover))
  {
    if h in CapturedFrom(repo, loads) {
      var i := CapturedFromWitness(repo, loads, h);
    }
    if exists i :: 0 <= i < |loads| && loads[i].hashCap && h in Captured(repo.files(loads[i].path, loads[i].cover)) {
      var i :| 0 <= i < |loads| && loads[i].hashCap && h in Captured(repo.files(loads[i].path, loads[i].cover));
      CapturedFromHas(repo, loads, i, h);
    }
  }

  /** The load a captured hash comes from. */
  lemma {:induction false} CapturedFromWitness(repo: Repo, loads: seq<Load>, h: Hash) returns (i: nat)
    requires h in CapturedFrom(repo, loads)
    ensures i < |loads| && loads[i].hashCap && h in Captured(repo.files(loads[i].path, loads[i].cover))
    decreases |loads|
  {
    var init := loads[..|loads| - 1];
    if h in CapturedFrom(repo, init) {
      i := CapturedFromWitness(repo, init, h);
      assert init[i] == loads[i];
    } else {
      i := |loads| - 1;
    }
  }

  /** What a hash-capturing load captures is kept. */
  lemma {:induction false} CapturedFromHas(repo: Repo, loads: seq<Load>, i: nat, h: Hash)
    requires i < |loads| && loads[i].hashCap && h in Captured(repo.files(loads[i].path, loads[i].cover))
    ensures h in CapturedFrom(repo, loads)
    decreases |loads|
  {
    var init := loads[..|loads| - 1];
    if i < |init| {
      assert init[i] == loads[i];
      CapturedFromHas(repo, init, i, h);
    }
  }

  /** Why `fake_clone` raised. */
  datatype CloneError =
    | Raised(exception: Net.Exception)
    | HeadWithoutColon
    | IndexFailed(error: IndexFormat.IndexError)

  /** `refs.decode('utf-8', 'replace').split(':')[1].strip()`; None for the IndexError of a
      HEAD with no ':' in it. */
  function HeadPath(refs: Bytes.Bytes): (r: Option<string>)
    ensures r.None? <==> ':' !in Bytes.Utf8Decode(refs)
    ensures r.Some? ==> ':' !in r.value
  {
    var parts := SplitOn(Bytes.Utf8Decode(refs), ':');
    if |parts| < 2 then
      assert parts == [Bytes.Utf8Decode(refs)];
      None
    else
      var p := StrStrip(parts[1]);
      assert forall c :: c in p ==> c in parts[1] by { StrStripInside(parts[1]); }
      Some(p)
  }

  /** `strip()` only removes characters. */
  lemma {:induction false} StrStripInside(s: string)
    ensures forall c :: c in StrStrip(s) ==> c in s
    decreases |s|
  {
    if s != "" && IsStrSpace(s[0]) {
      StrStripInside(s[1..]);
    } else if s != "" && IsStrSpace(s[|s| - 1]) {
      StrStripInside(s[..|s| - 1]);
    }
  }

  /** `split(':')` of a text with one colon. */
  lemma SplitAtColon(before: string, value: string)
    requires ':' !in before && ':' !in value
    ensures SplitOn(before + [':'] + value, ':') == [before, value]
  {
    var text := before + [':'] + value;
    assert text[|before|] == ':';
    assert forall i :: 0 <= i < |before| ==> text[i] == before[i];
    assert FindChar(text, ':') == |before|;
    assert text[..|before|] == before;
    assert text[|before| + 1..] == value;
    assert FindChar(value, ':') == -1;
  }

  /** A HEAD of the form `<before>:<value>` with one colon names the stripped `value`; Git's
      symbolic-ref format `ref: refs/heads/<branch>` is one. */
  lemma HeadPathOfRef(before: string, value: string)
    requires ':' !in before && ':' !in value
    requires forall i :: 0 <= i < |before| ==> before[i] < '\U{80}'
    requires forall i :: 0 <= i < |value| ==> value[i] < '\U{80}'
    ensures HeadPath(Bytes.AsciiEncode(before + [':'] + value)) == Some(StrStrip(value))
  {
    var text := before + [':'] + value;
    assert forall i :: 0 <= i < |text| ==> text[i] < '\U{80}' by {
      forall i | 0 <= i < |text| ensures text[i] < '\U{80}' {
        if i > |before| {
          assert text[i] == value[i - |before| - 1];
        }
      }
    }
    Bytes.DecodeAscii(text);
    HeadPathOfText(Bytes.AsciiEncode(text), before, value);
  }

  /** The same, for any HEAD whose text is `<before>:<value>`. */
  lemma HeadPathOfText(refs: Bytes.Bytes, before: string, value: string)
    requires ':' !in before && ':' !in value
    requires Bytes.Utf8Decode(refs) == before + [':'] + value
    ensures HeadPath(refs) == Some(StrStrip(value))
  {
    SplitAtColon(before, value);
  }

  /** The hashes `fake_clone` hands to `hashes_walk`: those of the hash-capturing reference
      files, then, when HEAD has content, those of the file HEAD names and of its log. A HEAD
      load that raised, or a HEAD with no ':', makes `fake_clone` raise. */
  function Seeds(repo: Repo): Result<set<Hash>, CloneError> {
    var head := repo.files("HEAD", true);
    if head.Err? then Err(Raised(head.error))
    else if head.value.None? || head.value.value == [] then Ok(CapturedFrom(repo, REFERENCE_FILES))
    else
      match HeadPath(head.value.value)
      case None => Err(HeadWithoutColon)
      case Some(path) =>
        Ok(CapturedFrom(repo, REFERENCE_FILES)
           + Captured(repo.files(path, false)) + Captured(repo.files("logs/" + path, false)))
  }

  /** Every seed comes from a hash-capturing load, and every hash-capturing load's hashes are
      seeds; HEAD itself, `config` and the other plain loads contribute nothing of their own. */
  lemma SeedsExactly(repo: Repo, h: Hash)
    requires Seeds(repo).Ok?
    ensures h in Seeds(repo).value <==>
      || (exists i :: 0 <= i < |REFERENCE_FILES| && REFERENCE_FILES[i].hashCap
            && h in Captured(repo.files(REFERENCE_FILES[i].path, REFERENCE_FILES[i].cover)))
      || (var head := repo.files("HEAD", true).value;
          head.Some? && head.value != [] && HeadPath(head.value).Some? &&
          var path := HeadPath(head.value).value;
          h in Captured(repo.files(path, false)) + Captured(repo.files("logs/" + path, false)))
  {
    CapturedFromExactly(repo, REFERENCE_FILES, h);
    var head := repo.files("HEAD", true).value;
    var base := CapturedFrom(repo, REFERENCE_FILES);
    if head.None? || head.value == [] {
      assert Seeds(repo).value == base;
    } else {
      var path := HeadPath(head.value).value;
      assert Seeds(repo).value == base + (Captured(repo.files(path, false)) + Captured(repo.files("logs/" + path, false)));
    }
  }

  /** The first part of `fake_clone`: the reference-file loads, in the order submitted, then
      HEAD's result and the two loads it leads to. */
  method CollectSeeds(repo: Repo) returns (r: Result<set<Hash>, CloneError>)
    ensures r == Seeds(repo)
  {
    var sha1: set<Hash> := {};
    for i := 0 to |REFERENCE_FILES|
      invariant sha1 == CapturedFrom(repo, REFERENCE_FILES[..i])
    {
      var load := REFERENCE_FILES[i];
      var data := repo.files(load.path, load.cover);
      if load.hashCap {
        sha1 := sha1 + Captured(data);
      }
      assert REFERENCE_FILES[..i + 1][..i] == REFERENCE_FILES[..i];
    }
    assert REFERENCE_FILES[..|REFERENCE_FILES|] == REFERENCE_FILES;
    var refs := repo.files("HEAD", true);
    if refs.Err? {
      return Err(Raised(refs.error));
    }
    if refs.value.Some? && refs.value.value != [] {
      var headpath := HeadPath(refs.value.value);
      if headpath.None? {
        return Err(HeadWithoutColon);
      }
      sha1 := sha1 + Captured(repo.files(headpath.value, false));
      sha1 := sha1 + Captured(repo.files("logs/" + headpath.value, false));
    }
    return Ok(sha1);
  }

  // ---------------------------------------------------------------------------
  // index_extract

  /** `_restore_blob(entry)`: the file it writes under `local` and the blob it writes there,
      or None when loading, inflating or decoding raised (the `try` catches all three). */
  function Restore(repo: Repo, local: string, e: IndexFormat.Entry): (r: Option<(string, Bytes.Bytes)>)
    ensures r.Some? ==> r.value.0 == Join(local, e.name)
    ensures LoadObject(repo, e.sha1).Err? || LoadObject(repo, e.sha1) == Ok(None) ==> r.None?
  {
    var z := LoadObject(repo, e.sha1);
    if z.Err? || z.value.None? then None
    else
      match repo.inflate(z.value.value)
      case None => None
      case Some(data) =>
        match Parser.ParseBlob(data)
        case Err(_) => None
        case Ok(blob) => Some((Join(local, e.name), blob))
  }

  /** `_restore_blob` for the checkout of `repo` into `local`. */
  function Restorer(repo: Repo, local: string): IndexFormat.Entry -> Option<(string, Bytes.Bytes)> {
    e => Restore(repo, local, e)
  }

  /** A stored blob is written out byte for byte at the entry's name. */
  lemma RestoreBlob(repo: Repo, local: string, e: IndexFormat.Entry, z: Bytes.Bytes, payload: Bytes.Bytes)
    requires LoadObject(repo, e.sha1) == Ok(Some(z))
    requires repo.inflate(z) == Some(Parser.LooseObject(Parser.BLOB, payload))
    ensures Restore(repo, local, e) == Some((Join(local, e.name), payload))
  {
    Parser.ParseBlobRoundTrip(payload);
  }

  /** The disk after restoring `entries` in turn with `restore` (which gives the file an entry
      writes, or None when restoring it raised); a failed restore changes nothing. */
  function RestoredAll(restore: IndexFormat.Entry -> Option<(string, Bytes.Bytes)>, d: Net.Disk, entries: seq<IndexFormat.Entry>): Net.Disk
    decreases |entries|
  {
    if entries == [] then d
    else
      var before := RestoredAll(restore, d, entries[..|entries| - 1]);
      match restore(entries[|entries| - 1])
      case None => before
      case Some((path, blob)) => Net.Saved(before, path, blob)
  }

  /** One more entry overwrites at most the file it restores. */
  lemma RestoredStep(restore: IndexFormat.Entry -> Option<(string, Bytes.Bytes)>, d: Net.Disk, entries: seq<IndexFormat.Entry>, path: string)
    requires entries != []
    ensures var r := restore(entries[|entries| - 1]);
      Net.LoadFile(RestoredAll(restore, d, entries), path)
        == if r.Some? && r.value.0 == path then Some(r.value.1)
           else Net.LoadFile(RestoredAll(restore, d, entries[..|entries| - 1]), path)
    ensures RestoredAll(restore, d, entries[..|entries| - 1]).dirs <= RestoredAll(restore, d, entries).dirs
  {
  }

  /** The entry restored last at a path decides its contents... */
  lemma {:induction false} RestoredLastWins(restore: IndexFormat.Entry -> Option<(string, Bytes.Bytes)>, d: Net.Disk,
                                            entries: seq<IndexFormat.Entry>, i: nat)
    requires i < |entries| && restore(entries[i]).Some?
    requires forall j :: i < j < |entries| && restore(entries[j]).Some? ==>
      restore(entries[j]).value.0 != restore(entries[i]).value.0
    ensures var (path, blob) := restore(entries[i]).value;
      Net.LoadFile(RestoredAll(restore, d, entries), path) == Some(blob)
    decreases |entries|
  {
    var path := restore(entries[i]).value.0;
    var init := entries[..|entries| - 1];
    RestoredStep(restore, d, entries, path);
    if i < |init| {
      assert init[i] == entries[i];
      forall j | i < j < |init| && restore(init[j]).Some?
        ensures restore(init[j]).value.0 != path
      {
        assert init[j] == entries[j];
      }
      RestoredLastWins(restore, d, init, i);
    }
  }

  /** ...and a path no entry restores keeps what it held. */
  lemma {:induction false} RestoredElsewhere(restore: IndexFormat.Entry -> Option<(string, Bytes.Bytes)>, d: Net.Disk,
                                             entries: seq<IndexFormat.Entry>, path: string)
    requires forall j :: 0 <= j < |entries| && restore(entries[j]).Some? ==>
      restore(entries[j]).value.0 != path
    ensures Net.LoadFile(RestoredAll(restore, d, entries), path) == Net.LoadFile(d, path)
    ensures d.dirs <= RestoredAll(restore, d, entries).dirs
    decreases |entries|
  {
    if entries != [] {
      var init := entries[..|entries| - 1];
      RestoredStep(restore, d, entries, path);
      forall j | 0 <= j < |init| && restore(init[j]).Some?
        ensures restore(init[j]).value.0 != path
      {
        assert init[j] == entries[j];
      }
      RestoredElsewhere(restore, d, init, path);
    }
  }

  /** `index_extract(gitpair)`: decode `<localgit>/index`, then restore each entry it yields
      into the directory holding `localgit`, one after the other. An index that does not
      decode writes nothing; an index that breaks off keeps the files restored before the
      break and reports it. */
  method IndexExtract(repo: Repo, localgit: string, disk: Net.Disk)
    returns (after: Net.Disk, failure: Option<IndexFormat.IndexError>)
    ensures var r := IndexFormat.DecodeIndex(Net.LoadFile(disk, Join(localgit, "index")));
      r.Err? ==> after == disk && failure == Some(r.error)
    ensures var r := IndexFormat.DecodeIndex(Net.LoadFile(disk, Join(localgit, "index")));
      r.Ok? ==> after == RestoredAll(Restorer(repo, Dirname(localgit)), disk, r.value.entries)
                && failure == r.value.failure
  {
    var indexpath := Join(localgit, "index");
    var local := Dirname(localgit);
    var stream := IndexFormat.ParseIndex(Net.LoadFile(disk, indexpath));
    if stream.Err? {
      return disk, Some(stream.error);
    }
    after := RestoreEach(Restorer(repo, local), disk, stream.value.entries);
    failure := stream.value.failure;
  }

  /** The `for entry in entries` loop of `index_extract`, each entry restored in turn. */
  method RestoreEach(restore: IndexFormat.Entry -> Option<(string, Bytes.Bytes)>, disk: Net.Disk,
                     entries: seq<IndexFormat.Entry>)
    returns (after: Net.Disk)
    ensures after == RestoredAll(restore, disk, entries)
  {
    after := disk;
    for i := 0 to |entries|
      invariant after == RestoredAll(restore, disk, entries[..i])
    {
      var restored := restore(entries[i]);
      if restored.Some? {
        after := Net.Saved(after, restored.value.0, restored.value.1);
      }
      assert entries[..i + 1][..i] == entries[..i];
    }
    assert entries[..|entries|] == entries;
  }

  // ---------------------------------------------------------------------------
  // fake_clone

  /** `fake_clone(gitpair)`, given the local disk as the reference-file loads left it:
      collect the seeds, walk the objects from them, then check out the index. `order` is
      the sequence of object loads of the walk. */
  method FakeClone(repo: Repo, localgit: string, disk: Net.Disk)
    returns (after: Net.Disk, order: seq<Hash>, failure: Option<CloneError>)
    ensures Seeds(repo).Err? ==> after == disk && order == [] && failure == Some(Seeds(repo).error)
    ensures Seeds(repo).Ok? ==> Distinct(order)
    ensures Seeds(repo).Ok? && (failure.None? || failure.value.IndexFailed?) ==>
      && LeastClosed(ObjectGraph(repo), Seeds(repo).value, set h | h in order)
      && after == (var r := IndexFormat.DecodeIndex(Net.LoadFile(disk, Join(localgit, "index")));
                   if r.Err? then disk else RestoredAll(Restorer(repo, Dirname(localgit)), disk, r.value.entries))
    ensures failure.Some? && failure.value.Raised? && Seeds(repo).Ok? ==>
      after == disk && |order| >= 1 && Expand(repo, order[|order| - 1]) == Err(failure.value.exception)
  {
    var seeds := CollectSeeds(repo);
    if seeds.Err? {
      return disk, [], Some(seeds.error);
    }
    var used, walk, raised := HashesWalk(ObjectGraph(repo), repo.objects.Keys, seeds.value);
    order := walk;
    if raised.Some? {
      return disk, order, Some(Raised(raised.value));
    }
    assert (set h | h in order) == used;
    var broken;
    after, broken := IndexExtract(repo, localgit, disk);
    failure := if broken.Some? then Some(IndexFailed(broken.value)) else None;
  }
}
